/** What every operation on the session layout keeps, and what whole runs therefore guarantee. */
module LayoutInvariant {
  import opened Common
  import opened LayoutTree
  import opened LayoutModel

  // ---------------------------------------------------------------------------
  // The invariant: `validate_snapshot`, strengthened by ids and the reservation
  // ---------------------------------------------------------------------------

  ghost predicate MemberOk(m: Member) {
    ValidPeerId(m.peerId) && ValidEndpointAddr(m.endpointAddr) && ValidDisplayName(m.displayName)
  }

  ghost predicate DistinctMembers(members: seq<Member>) {
    forall i, j :: 0 <= i < j < |members| ==> members[i].peerId != members[j].peerId
  }

  ghost predicate MembersOk(members: seq<Member>) {
    && 0 < |members| <= MAX_MEMBERS
    && (forall m :: m in members ==> MemberOk(m))
    && DistinctMembers(members)
  }

  ghost predicate TabOk(t: Tab) {
    && t.tabId != 0
    && IsNormalizedTitle(t.title)
    && Height(t.root) <= MAX_SPLIT_DEPTH
    && |PaneIds(t.root)| <= MAX_PANES_PER_TAB
    && HasValidRatios(t.root)
  }

  ghost predicate DistinctTabs(tabs: seq<Tab>) {
    forall i, j :: 0 <= i < j < |tabs| ==> tabs[i].tabId != tabs[j].tabId
  }

  ghost predicate TabsOk(tabs: seq<Tab>) {
    && 0 < |tabs| <= MAX_TABS
    && (forall t :: t in tabs ==> TabOk(t))
    && DistinctTabs(tabs)
  }

  ghost predicate PaneOk(members: seq<Member>, key: PaneId, p: Pane) {
    && key == p.paneId
    && key != 0
    && ValidGrid(p.rows, p.cols)
    && IsMember(members, p.host)
    && IsNormalizedTitle(p.title)
  }

  ghost predicate PanesOk(members: seq<Member>, panes: map<PaneId, Pane>) {
    forall key :: key in panes ==> PaneOk(members, key, panes[key])
  }

  /** How many leaves, over all tabs, carry the id. */
  function TabsCount(tabs: seq<Tab>, id: PaneId): nat {
    if tabs == [] then 0 else Count(tabs[0].root, id) + TabsCount(tabs[1..], id)
  }

  /** Every pane is one leaf of one tab, and there is no other leaf. */
  ghost predicate OneLeafPerPane(tabs: seq<Tab>, panes: map<PaneId, Pane>) {
    forall id :: TabsCount(tabs, id) == if id in panes then 1 else 0
  }

  /** The declarative meaning of `validate_snapshot`. */
  ghost predicate ValidSnapshot(l: Snapshot) {
    && l.revision != 0
    && MembersOk(l.members)
    && TabsOk(l.tabs)
    && PanesOk(l.members, l.panes)
    && OneLeafPerPane(l.tabs, l.panes)
  }

  ghost predicate IdsOk(s: State) {
    && 1 <= s.nextTabId && 1 <= s.nextPaneId && 1 <= s.nextReservationId
    && (forall id :: id in s.layout.panes ==> id < s.nextPaneId)
    && (forall t :: t in s.layout.tabs ==> t.tabId < s.nextTabId)
  }

  ghost predicate PendingOk(s: State, p: Pending) {
    && p.baseRevision == s.layout.revision < U64_MAX
    && IsMember(s.layout.members, p.creator)
    && IsMember(s.layout.members, p.host)
    && p.reservationId < s.nextReservationId
    && p.kind.paneId != 0 && p.kind.paneId < s.nextPaneId && p.kind.paneId !in s.layout.panes
    && ValidGrid(p.kind.rows, p.kind.cols)
    && match p.kind {
         case PendingPane(_, target, _, _, _, _) => ValidatePaneCreate(s.layout.tabs, target).Pass?
         case PendingTab(tabId, _, _, _) =>
           && |s.layout.tabs| < MAX_TABS
           && tabId != 0 && tabId < s.nextTabId
           && forall t :: t in s.layout.tabs ==> t.tabId != tabId
       }
  }

  ghost predicate Inv(s: State) {
    ValidSnapshot(s.layout) && IdsOk(s) && (s.pending.Some? ==> PendingOk(s, s.pending.value))
  }

  /** The one failure that is not atomic: the departing member hosts every pane there is. */
  ghost predicate HostsEverything(s: State, peerId: PeerId) {
    && IsMember(s.layout.members, peerId) && |s.layout.members| > 1 && s.layout.revision < U64_MAX
    && forall id :: id in s.layout.panes ==> s.layout.panes[id].host == peerId
  }

  ghost predicate LosesTabs(s: State, op: Op) {
    op.OpRemoveMember? && HostsEverything(s, op.peerId)
  }

  // ---------------------------------------------------------------------------
  // Counting leaves over tabs
  // ---------------------------------------------------------------------------

  lemma {:induction false} TabsCountConcat(a: seq<Tab>, b: seq<Tab>, id: PaneId)
    ensures TabsCount(a + b, id) == TabsCount(a, id) + TabsCount(b, id)
  {
    if a == [] {
      assert a + b == b;
    } else {
      assert (a + b)[1..] == a[1..] + b;
      TabsCountConcat(a[1..], b, id);
    }
  }

  lemma TabsCountAround(tabs: seq<Tab>, i: nat, id: PaneId)
    requires i < |tabs|
    ensures TabsCount(tabs, id) == TabsCount(tabs[..i], id) + Count(tabs[i].root, id) + TabsCount(tabs[i + 1..], id)
    ensures TabsCount(tabs[..i] + tabs[i + 1..], id) == TabsCount(tabs, id) - Count(tabs[i].root, id)
  {
    assert tabs == tabs[..i] + ([tabs[i]] + tabs[i + 1..]);
    TabsCountConcat(tabs[..i], [tabs[i]] + tabs[i + 1..], id);
    TabsCountConcat([tabs[i]], tabs[i + 1..], id);
    assert TabsCount([tabs[i]], id) == Count(tabs[i].root, id) + TabsCount([tabs[i]][1..], id);
    TabsCountConcat(tabs[..i], tabs[i + 1..], id);
  }

  lemma TabsCountUpdate(tabs: seq<Tab>, i: nat, t: Tab, id: PaneId)
    requires i < |tabs|
    ensures TabsCount(tabs[i := t], id) == TabsCount(tabs, id) - Count(tabs[i].root, id) + Count(t.root, id)
    ensures Count(tabs[i].root, id) <= TabsCount(tabs, id)
  {
    var updated := tabs[i := t];
    TabsCountAround(tabs, i, id);
    TabsCountAround(updated, i, id);
    assert updated[..i] == tabs[..i] && updated[i + 1..] == tabs[i + 1..];
  }

  /** A pane's leaf is found in exactly one tab. */
  lemma {:induction false} LeafIsInOneTab(tabs: seq<Tab>, id: PaneId)
    ensures TabsCount(tabs, id) > 0 <==> TabIndexForPane(tabs, id) < |tabs|
    ensures TabsCount(tabs, id) == 1 ==>
              forall i :: 0 <= i < |tabs| && ContainsLeaf(tabs[i].root, id) ==> i == TabIndexForPane(tabs, id)
  {
    if tabs != [] {
      LeafIsInOneTab(tabs[1..], id);
      CountsMembers(tabs[0].root, id);
      forall i | TabsCount(tabs, id) == 1 && 0 <= i < |tabs| && ContainsLeaf(tabs[i].root, id)
        ensures i == TabIndexForPane(tabs, id)
      {
        if i > 0 {
          assert tabs[i] == tabs[1..][i - 1];
        }
      }
    }
  }

  lemma TabTreesAreDistinct(tabs: seq<Tab>, panes: map<PaneId, Pane>, i: nat)
    requires OneLeafPerPane(tabs, panes) && i < |tabs|
    ensures DistinctLeaves(tabs[i].root)
    ensures forall id :: id in PaneIds(tabs[i].root) ==> id in panes
  {
    forall id ensures Count(tabs[i].root, id) <= 1 && (id in PaneIds(tabs[i].root) ==> id in panes) {
      TabsCountAround(tabs, i, id);
      CountsMembers(tabs[i].root, id);
      assert TabsCount(tabs, id) <= 1;
    }
  }

  // ---------------------------------------------------------------------------
  // Titles
  // ---------------------------------------------------------------------------

  lemma {:induction false} TrimStartTrims(s: string)
    ensures TrimStart(s) != "" ==> !IsWhitespace(TrimStart(s)[0])
  {
    if s != "" && IsWhitespace(s[0]) {
      TrimStartTrims(s[1..]);
    }
  }

  lemma {:induction false} TrimEndTrims(s: string)
    ensures TrimEnd(s) != "" ==> !IsWhitespace(TrimEnd(s)[|TrimEnd(s)| - 1])
    ensures TrimEnd(s) <= s
  {
    if s != "" && IsWhitespace(s[|s| - 1]) {
      TrimEndTrims(s[..|s| - 1]);
    }
  }

  /** A normalized title normalizes to itself, so renaming keeps the validator satisfied. */
  lemma NormalizingTwice(title: string)
    requires NormalizeTitle(title).Success?
    ensures IsNormalizedTitle(NormalizeTitle(title).value)
  {
    var front := TrimStart(title);
    var both := TrimEnd(front);
    TrimStartTrims(title);
    TrimEndTrims(front);
    if both != "" {
      assert both[0] == front[0];
      assert TrimStart(both) == both && TrimEnd(both) == both;
    }
  }

  ghost predicate Blank(s: string) {
    forall c :: c in s ==> IsWhitespace(c)
  }

  /** All that stands outside `s[i..j]` is blank, and that piece neither begins nor ends with a blank. */
  ghost predicate Framed(s: string, i: nat, j: nat) {
    && i <= j <= |s|
    && Blank(s[..i]) && Blank(s[j..])
    && (i < j ==> !IsWhitespace(s[i]) && !IsWhitespace(s[j - 1]))
  }

  ghost predicate TrimsTo(s: string, x: string) {
    exists i: nat, j: nat :: Framed(s, i, j) && x == s[i..j]
  }

  ghost predicate ShortAndPlain(s: string, limit: nat) {
    |s| <= limit && forall c :: c in s ==> 32 <= c as int < 127 || c as int >= 160
  }

  lemma {:induction false} TrimStartDropsBlanks(s: string) returns (i: nat)
    ensures i <= |s| && TrimStart(s) == s[i..] && Blank(s[..i])
  {
    i := 0;
    if s != "" && IsWhitespace(s[0]) {
      var k := TrimStartDropsBlanks(s[1..]);
      i := k + 1;
      assert s[..i] == [s[0]] + s[1..][..k];
    }
  }

  lemma {:induction false} TrimEndDropsBlanks(s: string) returns (j: nat)
    ensures j <= |s| && TrimEnd(s) == s[..j] && Blank(s[j..])
  {
    j := |s|;
    if s != "" && IsWhitespace(s[|s| - 1]) {
      j := TrimEndDropsBlanks(s[..|s| - 1]);
      assert s[j..] == s[..|s| - 1][j..] + [s[|s| - 1]];
    }
  }

  lemma TrimmingFrames(s: string)
    ensures TrimsTo(s, TrimEnd(TrimStart(s)))
  {
    var i := TrimStartDropsBlanks(s);
    var n := TrimEndDropsBlanks(s[i..]);
    TrimStartTrims(s);
    TrimEndTrims(s[i..]);
    CutInside(s, i, n);
    assert Framed(s, i, i + n);
  }

  lemma CutInside(s: string, i: nat, n: nat)
    requires i + n <= |s|
    ensures s[i + n..] == s[i..][n..] && s[i..i + n] == s[i..][..n]
    ensures n > 0 ==> s[i] == s[i..][0] && s[i + n - 1] == s[i..][..n][n - 1]
  {
  }

  lemma FrameIsBlankOutside(s: string, i: nat, j: nat)
    requires Framed(s, i, j)
    ensures forall p :: 0 <= p < i || j <= p < |s| ==> IsWhitespace(s[p])
  {
    forall p | 0 <= p < i || j <= p < |s| ensures IsWhitespace(s[p]) {
      assert s[p] in (if p < i then s[..i] else s[j..]);
    }
  }

  /** There is one way to trim. */
  lemma FramesAgree(s: string, i: nat, j: nat, k: nat, m: nat)
    requires Framed(s, i, j) && Framed(s, k, m)
    ensures s[i..j] == s[k..m]
  {
    FrameIsBlankOutside(s, i, j);
    FrameIsBlankOutside(s, k, m);
  }

  /** What is left of a title between its blanks is kept if it is short and plain, and nothing is kept if nothing is. */
  lemma NormalizesExactly(title: string)
    ensures exists x :: TrimsTo(title, x)
    ensures forall x :: TrimsTo(title, x) ==>
              NormalizeTitle(title) == if x == "" then Success(None)
                                       else if ShortAndPlain(x, MAX_TITLE_CHARS) then Success(Some(x))
                                       else Failure(InvalidTitle)
  {
    var trimmed := TrimEnd(TrimStart(title));
    TrimmingFrames(title);
    forall x | TrimsTo(title, x) ensures x == trimmed {
      var i: nat, j: nat :| Framed(title, i, j) && x == title[i..j];
      var k: nat, m: nat :| Framed(title, k, m) && trimmed == title[k..m];
      FramesAgree(title, i, j, k, m);
    }
  }

  // ---------------------------------------------------------------------------
  // Membership operations
  // ---------------------------------------------------------------------------

  /** Panes, tabs and ids carry over to a member list that still names every host. */
  lemma SameTabsNewMembers(s: State, t: State)
    requires Inv(s)
    requires t == s.(layout := s.layout.(revision := t.layout.revision, members := t.layout.members), pending := None)
    requires t.layout.revision != 0 && MembersOk(t.layout.members)
    requires forall p :: IsMember(s.layout.members, p) ==> IsMember(t.layout.members, p)
    ensures Inv(t)
  {
    forall key | key in t.layout.panes ensures PaneOk(t.layout.members, key, t.layout.panes[key]) {
      assert PaneOk(s.layout.members, key, s.layout.panes[key]);
    }
  }

  lemma KeepsAddMember(
    verify: MachineVerifier, s: State, base: U64, peerId: PeerId, addr: Bytes, identity: MemberIdentity)
    requires Inv(s)
    ensures var r := AddMember(verify, s, base, peerId, addr, identity);
            r.Success? ==> Inv(r.value.0)
  {
    var r := AddMember(verify, s, base, peerId, addr, identity);
    if r.Success? {
      var t := r.value.0;
      forall p | IsMember(s.layout.members, p) ensures IsMember(t.layout.members, p) {
        var i :| 0 <= i < |s.layout.members| && s.layout.members[i].peerId == p;
        assert t.layout.members[i].peerId == p;
      }
      SameTabsNewMembers(s, t);
    }
  }

  lemma OneMemberChanged(s: State, t: State, i: nat, m: Member)
    requires Inv(s) && i < |s.layout.members| && s.layout.revision < U64_MAX
    requires m.peerId == s.layout.members[i].peerId && MemberOk(m)
    requires t == s.(layout := s.layout.(revision := s.layout.revision + 1, members := s.layout.members[i := m]),
                     pending := None)
    ensures Inv(t)
  {
    forall p | IsMember(s.layout.members, p) ensures IsMember(t.layout.members, p) {
      var j :| 0 <= j < |s.layout.members| && s.layout.members[j].peerId == p;
      assert t.layout.members[j].peerId == p;
    }
    SameTabsNewMembers(s, t);
  }

  lemma KeepsUpdateMember(s: State, base: U64, peerId: PeerId, kind: MemberKind, addr: Bytes)
    requires Inv(s)
    ensures UpdateMemberKind(s, base, peerId, kind).Success? ==>
              Inv(UpdateMemberKind(s, base, peerId, kind).value.0)
    ensures UpdateMemberEndpoint(s, base, peerId, addr).Success? ==>
              Inv(UpdateMemberEndpoint(s, base, peerId, addr).value.0)
  {
    var i := MemberIndex(s.layout.members, peerId);
    if i < |s.layout.members| {
      assert MemberOk(s.layout.members[i]);
      var byKind := UpdateMemberKind(s, base, peerId, kind);
      if byKind.Success? && byKind.value.1.Some? {
        OneMemberChanged(s, byKind.value.0, i, s.layout.members[i].(kind := kind));
      }
      var byAddr := UpdateMemberEndpoint(s, base, peerId, addr);
      if byAddr.Success? {
        OneMemberChanged(s, byAddr.value.0, i, s.layout.members[i].(endpointAddr := addr));
      }
    }
  }

  // ---------------------------------------------------------------------------
  // Departure
  // ---------------------------------------------------------------------------

  lemma {:induction false} MembersWithoutKeepsTheOthers(members: seq<Member>, peerId: PeerId)
    ensures |MembersWithout(members, peerId)| <= |members|
    ensures forall m :: m in MembersWithout(members, peerId) <==> m in members && m.peerId != peerId
  {
    if members != [] {
      MembersWithoutKeepsTheOthers(members[1..], peerId);
      assert forall m :: m in members <==> m == members[0] || m in members[1..];
    }
  }

  lemma {:induction false} MembersWithoutStaysDistinct(members: seq<Member>, peerId: PeerId)
    requires DistinctMembers(members)
    ensures DistinctMembers(MembersWithout(members, peerId))
  {
    if members != [] {
      var rest := MembersWithout(members[1..], peerId);
      MembersWithoutStaysDistinct(members[1..], peerId);
      MembersWithoutKeepsTheOthers(members[1..], peerId);
      forall j | 0 <= j < |rest| ensures rest[j].peerId != members[0].peerId {
        assert rest[j] in members[1..];
      }
    }
  }

  lemma IsMemberIsIn(members: seq<Member>, p: PeerId)
    ensures IsMember(members, p) <==> exists m :: m in members && m.peerId == p
  {
    if IsMember(members, p) {
      var i :| 0 <= i < |members| && members[i].peerId == p;
      assert members[i] in members;
    }
  }

  ghost predicate HasTab(tabs: seq<Tab>, tabId: TabId) {
    exists t :: t in tabs && t.tabId == tabId
  }

  /** What a departure leaves of one tab is one pruning of it. */
  lemma TabWithoutIsPruned(t: Tab, gone: set<PaneId>)
    requires DistinctLeaves(t.root)
    ensures var root := Prune(t.root, gone);
            TabWithout(t, gone) == if root.None? then [] else [t.(root := root.value)]
  {
    AscendingListsTheSet(gone);
    RemovingInAnyOrderIsPruning(t.root, Ascending(gone), gone);
  }

  lemma TabWithoutCounts(t: Tab, gone: set<PaneId>, id: PaneId)
    requires DistinctLeaves(t.root)
    ensures TabsCount(TabWithout(t, gone), id) == if id in gone then 0 else Count(t.root, id)
  {
    TabWithoutIsPruned(t, gone);
    PruneCounts(t.root, gone, id);
    var left := TabWithout(t, gone);
    assert left != [] ==> TabsCount(left, id) == Count(left[0].root, id) + TabsCount(left[1..], id);
  }

  lemma TabWithoutStaysOk(t: Tab, gone: set<PaneId>)
    requires TabOk(t) && DistinctLeaves(t.root)
    ensures |TabWithout(t, gone)| <= 1
    ensures forall u :: u in TabWithout(t, gone) ==> TabOk(u) && u.tabId == t.tabId
  {
    TabWithoutIsPruned(t, gone);
    if Prune(t.root, gone).Some? {
      PruneStaysValid(t.root, gone);
    }
  }

  lemma {:induction false} TabsWithoutCounts(tabs: seq<Tab>, gone: set<PaneId>, id: PaneId)
    requires forall t :: t in tabs ==> DistinctLeaves(t.root)
    ensures TabsCount(TabsWithout(tabs, gone), id) == if id in gone then 0 else TabsCount(tabs, id)
  {
    if tabs != [] {
      assert tabs[0] in tabs && forall t :: t in tabs[1..] ==> t in tabs;
      TabsWithoutCounts(tabs[1..], gone, id);
      TabWithoutCounts(tabs[0], gone, id);
      TabsCountConcat(TabWithout(tabs[0], gone), TabsWithout(tabs[1..], gone), id);
    }
  }

  /** Whatever is left was there, under the same id. */
  lemma {:induction false} TabsWithoutWereThere(tabs: seq<Tab>, gone: set<PaneId>)
    requires forall t :: t in tabs ==> TabOk(t) && DistinctLeaves(t.root)
    ensures |TabsWithout(tabs, gone)| <= |tabs|
    ensures forall t :: t in TabsWithout(tabs, gone) ==> TabOk(t) && HasTab(tabs, t.tabId)
  {
    if tabs != [] {
      assert tabs[0] in tabs && forall t :: t in tabs[1..] ==> t in tabs;
      TabsWithoutWereThere(tabs[1..], gone);
      TabWithoutStaysOk(tabs[0], gone);
      forall t | t in TabsWithout(tabs, gone) ensures TabOk(t) && HasTab(tabs, t.tabId) {
        if t in TabWithout(tabs[0], gone) {
          assert tabs[0].tabId == t.tabId;
        } else {
          var u :| u in tabs[1..] && u.tabId == t.tabId;
          assert u in tabs;
        }
      }
    }
  }

  lemma DistinctInFront(first: seq<Tab>, rest: seq<Tab>)
    requires |first| <= 1 && DistinctTabs(rest)
    requires forall t, u :: t in first && u in rest ==> t.tabId != u.tabId
    ensures DistinctTabs(first + rest)
  {
    var all := first + rest;
    forall i, j | 0 <= i < j < |all| ensures all[i].tabId != all[j].tabId {
      assert all[j] == rest[j - |first|] && rest[j - |first|] in rest;
      assert i < |first| ==> all[i] in first;
    }
  }

  lemma {:induction false} TabsWithoutStayDistinct(tabs: seq<Tab>, gone: set<PaneId>)
    requires forall t :: t in tabs ==> TabOk(t) && DistinctLeaves(t.root)
    requires DistinctTabs(tabs)
    ensures DistinctTabs(TabsWithout(tabs, gone))
  {
    if tabs != [] {
      var first, rest := TabWithout(tabs[0], gone), TabsWithout(tabs[1..], gone);
      assert tabs[0] in tabs && forall t :: t in tabs[1..] ==> t in tabs;
      TabsWithoutStayDistinct(tabs[1..], gone);
      TabsWithoutWereThere(tabs[1..], gone);
      TabWithoutStaysOk(tabs[0], gone);
      forall t, u | t in first && u in rest ensures t.tabId != u.tabId {
        var v :| v in tabs[1..] && v.tabId == u.tabId;
        var k :| 0 <= k < |tabs[1..]| && tabs[1..][k] == v;
        assert tabs[k + 1] == v;
      }
      DistinctInFront(first, rest);
    }
  }

  /** The tabs a departure leaves: one pruning per tab, titles and order kept. */
  lemma TabsWithoutPrunes(tabs: seq<Tab>, gone: set<PaneId>)
    requires forall t :: t in tabs ==> TabOk(t) && DistinctLeaves(t.root)
    requires DistinctTabs(tabs)
    ensures |TabsWithout(tabs, gone)| <= |tabs|
    ensures forall t :: t in TabsWithout(tabs, gone) ==> TabOk(t) && HasTab(tabs, t.tabId)
    ensures DistinctTabs(TabsWithout(tabs, gone))
    ensures forall id :: TabsCount(TabsWithout(tabs, gone), id) == if id in gone then 0 else TabsCount(tabs, id)
  {
    TabsWithoutWereThere(tabs, gone);
    TabsWithoutStayDistinct(tabs, gone);
    forall id ensures TabsCount(TabsWithout(tabs, gone), id) == if id in gone then 0 else TabsCount(tabs, id) {
      TabsWithoutCounts(tabs, gone, id);
    }
  }

  /** A departing member's panes are exactly the ones removed. */
  lemma HostedByIsByKey(s: State, peerId: PeerId)
    requires ValidSnapshot(s.layout)
    ensures forall id :: id in HostedBy(s.layout.panes, peerId)
                         <==> id in s.layout.panes && s.layout.panes[id].host == peerId
  {
    forall id ensures id in HostedBy(s.layout.panes, peerId)
                      <==> id in s.layout.panes && s.layout.panes[id].host == peerId
    {
      if id in s.layout.panes {
        assert PaneOk(s.layout.members, id, s.layout.panes[id]);
      }
      if id in HostedBy(s.layout.panes, peerId) {
        var key :| key in s.layout.panes && s.layout.panes[key].host == peerId && s.layout.panes[key].paneId == id;
        assert PaneOk(s.layout.members, key, s.layout.panes[key]);
      }
    }
  }

  lemma EveryTreeIsDistinct(l: Snapshot)
    requires ValidSnapshot(l)
    ensures forall t :: t in l.tabs ==> TabOk(t) && DistinctLeaves(t.root)
  {
    forall t | t in l.tabs ensures TabOk(t) && DistinctLeaves(t.root) {
      var i :| 0 <= i < |l.tabs| && l.tabs[i] == t;
      TabTreesAreDistinct(l.tabs, l.panes, i);
    }
  }

  /** There are tabs exactly when there are panes for them to show. */
  lemma NoTabsNoPanes(tabs: seq<Tab>, panes: map<PaneId, Pane>)
    requires OneLeafPerPane(tabs, panes)
    ensures tabs == [] <==> panes.Keys == {}
  {
    if tabs != [] {
      LeavesOfASplit(tabs[0].root);
      var id := PaneIds(tabs[0].root)[0];
      CountsMembers(tabs[0].root, id);
      TabsCountAround(tabs, 0, id);
      assert id in panes;
    } else {
      forall id ensures id !in panes {
        assert TabsCount(tabs, id) == 0;
      }
    }
  }

  lemma LeavesLeftByDeparture(l: Snapshot, gone: set<PaneId>)
    requires ValidSnapshot(l)
    ensures OneLeafPerPane(TabsWithout(l.tabs, gone), l.panes - gone)
  {
    EveryTreeIsDistinct(l);
    forall id ensures TabsCount(TabsWithout(l.tabs, gone), id) == if id in l.panes - gone then 1 else 0 {
      assert TabsCount(l.tabs, id) == if id in l.panes then 1 else 0;
      TabsWithoutCounts(l.tabs, gone, id);
    }
  }

  lemma TabsLeftByDeparture(s: State, peerId: PeerId)
    requires ValidSnapshot(s.layout)
    ensures var gone := HostedBy(s.layout.panes, peerId);
            var tabs := TabsWithout(s.layout.tabs, gone);
            && |tabs| <= |s.layout.tabs|
            && (forall t :: t in tabs ==> TabOk(t) && HasTab(s.layout.tabs, t.tabId))
            && DistinctTabs(tabs)
            && OneLeafPerPane(tabs, s.layout.panes - gone)
            && (tabs == [] <==> forall id :: id in s.layout.panes ==> s.layout.panes[id].host == peerId)
  {
    var l := s.layout;
    var gone := HostedBy(l.panes, peerId);
    var tabs := TabsWithout(l.tabs, gone);
    HostedByIsByKey(s, peerId);
    EveryTreeIsDistinct(l);
    TabsWithoutWereThere(l.tabs, gone);
    TabsWithoutStayDistinct(l.tabs, gone);
    LeavesLeftByDeparture(l, gone);
    NoTabsNoPanes(tabs, l.panes - gone);
    NoPanesLeft(l.panes, gone);
  }

  lemma NoPanesLeft(panes: map<PaneId, Pane>, gone: set<PaneId>)
    ensures (panes - gone).Keys == {} <==> forall id :: id in panes ==> id in gone
  {
    if (panes - gone).Keys == {} {
      forall id | id in panes ensures id in gone {
        assert id !in (panes - gone).Keys;
      }
    }
  }

  lemma MembersLeftByDeparture(l: Snapshot, peerId: PeerId)
    requires MembersOk(l.members) && |l.members| > 1
    ensures MembersOk(MembersWithout(l.members, peerId))
    ensures forall p :: IsMember(MembersWithout(l.members, peerId), p) <==> IsMember(l.members, p) && p != peerId
  {
    var members := MembersWithout(l.members, peerId);
    MembersWithoutKeepsTheOthers(l.members, peerId);
    MembersWithoutStaysDistinct(l.members, peerId);
    SomeOtherMember(l.members, peerId);
    forall p ensures IsMember(members, p) <==> IsMember(l.members, p) && p != peerId {
      IsMemberIsIn(l.members, p);
      IsMemberIsIn(members, p);
    }
  }

  lemma PanesLeftByDeparture(s: State, peerId: PeerId)
    requires ValidSnapshot(s.layout) && |s.layout.members| > 1
    ensures PanesOk(MembersWithout(s.layout.members, peerId), s.layout.panes - HostedBy(s.layout.panes, peerId))
  {
    var l := s.layout;
    HostedByIsByKey(s, peerId);
    MembersLeftByDeparture(l, peerId);
    forall key | key in l.panes - HostedBy(l.panes, peerId)
      ensures PaneOk(MembersWithout(l.members, peerId), key, l.panes[key])
    {
      assert PaneOk(l.members, key, l.panes[key]);
    }
  }

  /** A departure that goes through leaves a valid session: the others, with exactly their panes. */
  lemma KeepsRemoveMember(s: State, peerId: PeerId)
    requires Inv(s) && RemoveMember(s, peerId).1.Success?
    ensures Inv(RemoveMember(s, peerId).0)
    ensures forall p :: IsMember(RemoveMember(s, peerId).0.layout.members, p)
                        <==> IsMember(s.layout.members, p) && p != peerId
    ensures forall id :: id in RemoveMember(s, peerId).0.layout.panes
                         <==> id in s.layout.panes && s.layout.panes[id].host != peerId
  {
    var l, t := s.layout, RemoveMember(s, peerId).0;
    TabsLeftByDeparture(s, peerId);
    HostedByIsByKey(s, peerId);
    MembersLeftByDeparture(l, peerId);
    PanesLeftByDeparture(s, peerId);
    forall u | u in t.layout.tabs ensures u.tabId < s.nextTabId {
      var v :| v in l.tabs && v.tabId == u.tabId;
    }
  }

  /** When a departure fails: harmlessly, except for the host of every pane, whose failure drops all tabs. */
  lemma FailedDeparture(s: State, peerId: PeerId)
    requires Inv(s)
    ensures HostsEverything(s, peerId) ==>
              RemoveMember(s, peerId) == (s.(layout := s.layout.(tabs := [])), Failure(InvalidSnapshot))
    ensures !HostsEverything(s, peerId) && RemoveMember(s, peerId).1.Failure? ==> RemoveMember(s, peerId).0 == s
  {
    TabsLeftByDeparture(s, peerId);
  }

  lemma SomeOtherMember(members: seq<Member>, peerId: PeerId)
    requires DistinctMembers(members) && |members| > 1
    ensures exists m :: m in members && m.peerId != peerId
  {
    assert members[0] in members && members[1] in members;
    assert members[0].peerId != members[1].peerId;
  }

  // ---------------------------------------------------------------------------
  // Reservations
  // ---------------------------------------------------------------------------

  lemma KeepsReservePane(
    s: State, creator: PeerId, host: PeerId, base: U64, target: PaneId, axis: Axis,
    position: NewPanePosition, rows: U16, cols: U16)
    requires Inv(s)
    ensures var r := ReservePane(s, creator, host, base, target, axis, position, rows, cols);
            r.Success? ==> Inv(r.value.0)
  {
  }

  lemma KeepsReserveTab(s: State, creator: PeerId, host: PeerId, base: U64, rows: U16, cols: U16)
    requires Inv(s)
    ensures var r := ReserveTab(s, creator, host, base, rows, cols);
            r.Success? ==> Inv(r.value.0)
  {
  }

  /** One tab's tree changes and the panes follow it. */
  lemma OneTabChanged(s: State, t: State, i: nat, tab: Tab)
    requires Inv(s) && i < |s.layout.tabs| && s.layout.revision < U64_MAX
    requires tab.tabId == s.layout.tabs[i].tabId && TabOk(tab)
    requires t.layout == s.layout.(revision := s.layout.revision + 1, tabs := s.layout.tabs[i := tab],
                                   panes := t.layout.panes)
    requires t.nextTabId == s.nextTabId && t.nextPaneId == s.nextPaneId && t.nextReservationId == s.nextReservationId
    requires t.pending.None?
    requires PanesOk(s.layout.members, t.layout.panes)
    requires forall id :: id in t.layout.panes ==> id < s.nextPaneId
    requires forall id :: Count(tab.root, id) - Count(s.layout.tabs[i].root, id)
                          == (if id in t.layout.panes then 1 else 0) - (if id in s.layout.panes then 1 else 0)
    ensures Inv(t)
  {
    forall id ensures TabsCount(t.layout.tabs, id) == if id in t.layout.panes then 1 else 0 {
      TabsCountUpdate(s.layout.tabs, i, tab, id);
      assert TabsCount(s.layout.tabs, id) == if id in s.layout.panes then 1 else 0;
    }
    assert s.layout.tabs[i] in s.layout.tabs;
    forall u | u in t.layout.tabs ensures TabOk(u) && u.tabId < t.nextTabId {
      assert u == tab || u in s.layout.tabs;
    }
  }

  lemma NewSplitIsSmall(target: PaneId, added: PaneId, axis: Axis, position: NewPanePosition)
    ensures var split := NewSplit(target, added, axis, position);
            HasValidRatios(split) && Height(split) == 1 && |PaneIds(split)| == 2
  {
    var split := NewSplit(target, added, axis, position);
    assert HasValidRatios(split.first) && HasValidRatios(split.second);
    assert Height(split) == 1 + Max(Height(split.first), Height(split.second)) == 1;
    assert |PaneIds(split)| == |PaneIds(split.first)| + |PaneIds(split.second)|;
  }

  /** The tab in which a pane reservation is committed stays within every bound. */
  lemma SplitTabStaysOk(tabs: seq<Tab>, i: nat, target: PaneId, added: PaneId, axis: Axis, position: NewPanePosition)
    requires i == TabIndexForPane(tabs, target) < |tabs| && TabOk(tabs[i])
    requires ValidatePaneCreate(tabs, target).Pass?
    ensures TabOk(tabs[i].(root := ReplaceLeaf(tabs[i].root, target, NewSplit(target, added, axis, position)).0))
  {
    var split := NewSplit(target, added, axis, position);
    NewSplitIsSmall(target, added, axis, position);
    SplitTreeStaysOk(tabs[i], target, split);
  }

  lemma SplitTreeStaysOk(tab: Tab, target: PaneId, split: Node)
    requires TabOk(tab) && ContainsLeaf(tab.root, target)
    requires |PaneIds(tab.root)| < MAX_PANES_PER_TAB && LeafDepth(tab.root, target).value < MAX_SPLIT_DEPTH
    requires HasValidRatios(split) && Height(split) == 1 && |PaneIds(split)| == 2
    ensures TabOk(tab.(root := ReplaceLeaf(tab.root, target, split).0))
  {
    ReplaceLeafStaysValid(tab.root, target, split);
    SplitPaneIds(tab.root, target, split);
  }

  lemma OnePaneMore(members: seq<Member>, panes: map<PaneId, Pane>, paneId: PaneId, pane: Pane)
    requires PanesOk(members, panes) && PaneOk(members, paneId, pane)
    ensures PanesOk(members, panes[paneId := pane])
  {
    var next := panes[paneId := pane];
    forall key | key in next ensures PaneOk(members, key, next[key]) {
      assert key != paneId ==> PaneOk(members, key, panes[key]);
    }
  }

  lemma AddedLeafCounts(l: Snapshot, i: nat, target: PaneId, added: PaneId, axis: Axis, position: NewPanePosition)
    requires OneLeafPerPane(l.tabs, l.panes) && i < |l.tabs| && added !in l.panes
    requires ContainsLeaf(l.tabs[i].root, target)
    ensures var root := ReplaceLeaf(l.tabs[i].root, target, NewSplit(target, added, axis, position)).0;
            forall id :: Count(root, id) - Count(l.tabs[i].root, id) == if id == added then 1 else 0
  {
    CountsMembers(l.tabs[i].root, target);
    TabTreesAreDistinct(l.tabs, l.panes, i);
    SplitAddsOneLeaf(l.tabs[i].root, target, added, axis, position);
  }

  lemma KeepsReadyPane(s: State, p: Pending)
    requires Inv(s) && s.pending == Some(p) && p.kind.PendingPane?
    requires PaneReady(s, p.host, p.baseRevision, p.reservationId).Success?
    ensures Inv(PaneReady(s, p.host, p.baseRevision, p.reservationId).value.0)
  {
    var t := PaneReady(s, p.host, p.baseRevision, p.reservationId).value.0;
    var PendingPane(paneId, target, axis, position, _, _) := p.kind;
    var i := TabIndexForPane(s.layout.tabs, target);
    AddedLeafCounts(s.layout, i, target, paneId, axis, position);
    SplitTabStaysOk(s.layout.tabs, i, target, paneId, axis, position);
    OnePaneMore(s.layout.members, s.layout.panes, paneId, t.layout.panes[paneId]);
    OneTabChanged(s, t, i, t.layout.tabs[i]);
  }

  lemma KeepsReadyTab(s: State, p: Pending)
    requires Inv(s) && s.pending == Some(p) && p.kind.PendingTab?
    requires PaneReady(s, p.host, p.baseRevision, p.reservationId).Success?
    ensures Inv(PaneReady(s, p.host, p.baseRevision, p.reservationId).value.0)
  {
    var t := PaneReady(s, p.host, p.baseRevision, p.reservationId).value.0;
    var PendingTab(tabId, paneId, _, _) := p.kind;
    var tab := Tab(tabId, Leaf(paneId), None);
    OnePaneMore(s.layout.members, s.layout.panes, paneId, t.layout.panes[paneId]);
    forall id ensures TabsCount(t.layout.tabs, id) == if id in t.layout.panes then 1 else 0 {
      TabsCountConcat(s.layout.tabs, [tab], id);
      assert TabsCount([tab], id) == Count(tab.root, id) + TabsCount([tab][1..], id);
      assert TabsCount(s.layout.tabs, id) == if id in s.layout.panes then 1 else 0;
    }
    forall j | 0 <= j < |s.layout.tabs| ensures s.layout.tabs[j].tabId != tabId {
      assert s.layout.tabs[j] in s.layout.tabs;
    }
    assert TabOk(tab);
  }

  lemma KeepsPaneReady(s: State, host: PeerId, base: U64, reservationId: ReservationId)
    requires Inv(s)
    ensures PaneReady(s, host, base, reservationId).Success? ==> Inv(PaneReady(s, host, base, reservationId).value.0)
  {
    if PaneReady(s, host, base, reservationId).Success? {
      if s.pending.value.kind.PendingPane? {
        KeepsReadyPane(s, s.pending.value);
      } else {
        KeepsReadyTab(s, s.pending.value);
      }
    }
  }

  /** Splitting a leaf adds the new pane's leaf and nothing else. */
  lemma SplitAddsOneLeaf(n: Node, target: PaneId, added: PaneId, axis: Axis, position: NewPanePosition)
    requires ContainsLeaf(n, target) && added != target
    ensures var root := ReplaceLeaf(n, target, NewSplit(target, added, axis, position)).0;
            forall id :: Count(root, id) == Count(n, id) + if id == added then 1 else 0
  {
    var split := NewSplit(target, added, axis, position);
    forall id ensures Count(ReplaceLeaf(n, target, split).0, id) == Count(n, id) + if id == added then 1 else 0 {
      ReplaceLeafSwapsOne(n, target, split, id);
      assert Count(split, id) == Count(split.first, id) + Count(split.second, id);
    }
  }

  lemma {:induction false} SplitPaneIds(n: Node, target: PaneId, replacement: Node)
    requires ContainsLeaf(n, target) && |PaneIds(replacement)| == 2
    ensures |PaneIds(ReplaceLeaf(n, target, replacement).0)| == |PaneIds(n)| + 1
  {
    if n.Split? {
      ReplaceLeafFinds(n.first, target, replacement);
      if ContainsLeaf(n.first, target) {
        SplitPaneIds(n.first, target, replacement);
      } else {
        SplitPaneIds(n.second, target, replacement);
      }
    }
  }

  /** A reservation that was just made is one the host can always turn into a pane. */
  lemma PendingCompletes(s: State, host: PeerId, base: U64, reservationId: ReservationId)
    requires Inv(s)
    ensures PaneReady(s, host, base, reservationId).Success? <==>
            && s.pending.Some?
            && s.pending.value.reservationId == reservationId
            && s.pending.value.host == host
            && s.pending.value.baseRevision == base
    ensures PaneReady(s, host, base, reservationId).Failure? ==>
              var e := PaneReady(s, host, base, reservationId).error;
              e.UnknownReservation? || e.ReservationCreatorMismatch? || e.StaleRevision?
  {
    if s.pending.Some? && s.pending.value.kind.PendingPane? {
      var p := s.pending.value;
      var i := TabIndexForPane(s.layout.tabs, p.kind.target);
      ReplaceLeafFinds(s.layout.tabs[i].root, p.kind.target,
                       NewSplit(p.kind.target, p.kind.paneId, p.kind.axis, p.kind.position));
    }
  }

  /** Where the committed pane lands: beside its target, on the side that was asked for. */
  lemma ReadyPaneStandsBesideItsTarget(s: State, p: Pending, pre: seq<PaneId>, suf: seq<PaneId>)
    requires Inv(s) && s.pending == Some(p) && p.kind.PendingPane?
    requires var i := TabIndexForPane(s.layout.tabs, p.kind.target);
             && i < |s.layout.tabs|
             && PaneIds(s.layout.tabs[i].root) == pre + [p.kind.target] + suf && p.kind.target !in pre
    ensures var r := PaneReady(s, p.host, p.baseRevision, p.reservationId);
            && r.Success? && r.value.1 == CommittedPane(p.kind.paneId)
            && var i := TabIndexForPane(s.layout.tabs, p.kind.target);
               PaneIds(r.value.0.layout.tabs[i].root)
               == pre + (if p.kind.position.First? then [p.kind.paneId, p.kind.target]
                         else [p.kind.target, p.kind.paneId]) + suf
  {
    PendingCompletes(s, p.host, p.baseRevision, p.reservationId);
    var k := p.kind;
    var i := TabIndexForPane(s.layout.tabs, k.target);
    var split := NewSplit(k.target, k.paneId, k.axis, k.position);
    ReplaceLeafInPlace(s.layout.tabs[i].root, k.target, split, pre, suf);
    assert PaneIds(split) == PaneIds(split.first) + PaneIds(split.second);
  }

  // ---------------------------------------------------------------------------
  // Direct edits
  // ---------------------------------------------------------------------------

  lemma KeepsDeletePane(s: State, requester: PeerId, base: U64, paneId: PaneId)
    requires Inv(s)
    ensures DeletePane(s, requester, base, paneId).Success? ==> Inv(DeletePane(s, requester, base, paneId).value)
  {
    var r := DeletePane(s, requester, base, paneId);
    if r.Success? {
      var i := TabIndexForPane(s.layout.tabs, paneId);
      var tab := s.layout.tabs[i];
      assert TabOk(tab);
      LeavesOfASplit(tab.root);
      RemoveLeafTakesOne(tab.root, paneId);
      RemoveLeafStaysValid(tab.root, paneId);
      TabTreesAreDistinct(s.layout.tabs, s.layout.panes, i);
      RemoveLeafIsPrune(tab.root, paneId);
      PruneStaysValid(tab.root, {paneId});
      var root := RemoveLeaf(tab.root, paneId);
      assert forall id :: Count(root.value, id) == CountIn(root, id);
      OneTabChanged(s, r.value, i, tab.(root := root.value));
    }
  }

  /** Closing a tab takes exactly its leaves out of the count. */
  lemma TabsWithoutOne(tabs: seq<Tab>, panes: map<PaneId, Pane>, i: nat, ids: set<PaneId>)
    requires OneLeafPerPane(tabs, panes) && i < |tabs|
    requires forall id :: id in ids <==> id in PaneIds(tabs[i].root)
    ensures OneLeafPerPane(tabs[..i] + tabs[i + 1..], panes - ids)
  {
    TabTreesAreDistinct(tabs, panes, i);
    forall id ensures TabsCount(tabs[..i] + tabs[i + 1..], id) == if id in panes - ids then 1 else 0 {
      TabsCountAround(tabs, i, id);
      CountsMembers(tabs[i].root, id);
      assert TabsCount(tabs, id) == if id in panes then 1 else 0;
    }
  }

  lemma KeepsDeleteTab(s: State, requester: PeerId, base: U64, tabId: TabId)
    requires Inv(s)
    ensures DeleteTab(s, requester, base, tabId).Success? ==> Inv(DeleteTab(s, requester, base, tabId).value)
  {
    var r := DeleteTab(s, requester, base, tabId);
    if r.Success? {
      var l, t := s.layout, r.value;
      var i := TabIndex(l.tabs, tabId);
      TabsWithoutOne(l.tabs, l.panes, i, set id | id in PaneIds(l.tabs[i].root));
      ClosingOneTab(l.tabs, i);
    }
  }

  lemma ClosingOneTab(tabs: seq<Tab>, i: nat)
    requires TabsOk(tabs) && |tabs| > 1 && i < |tabs|
    ensures TabsOk(tabs[..i] + tabs[i + 1..])
    ensures forall t :: t in tabs[..i] + tabs[i + 1..] ==> t in tabs
  {
    var left := tabs[..i] + tabs[i + 1..];
    assert forall j :: 0 <= j < |left| ==> left[j] == tabs[if j < i then j else j + 1];
  }

  lemma KeepsSetSplitRatio(s: State, requester: PeerId, base: U64, paneId: PaneId, axis: Axis, share: U16)
    requires Inv(s)
    ensures SetSplitRatio(s, requester, base, paneId, axis, share).Success? ==>
              Inv(SetSplitRatio(s, requester, base, paneId, axis, share).value)
  {
    var r := SetSplitRatio(s, requester, base, paneId, axis, share);
    if r.Success? {
      var i := TabIndexForPane(s.layout.tabs, paneId);
      var tab := s.layout.tabs[i];
      assert TabOk(tab);
      RatioMovesNoLeaf(tab.root, paneId, axis, share);
      OneTabChanged(s, r.value, i, tab.(root := SetNearestSplitRatio(tab.root, paneId, axis, share).0));
    }
  }

  /** Panes change in place: same keys, same hosts, still valid. */
  lemma PanesChanged(s: State, t: State, panes: map<PaneId, Pane>)
    requires Inv(s) && s.layout.revision < U64_MAX && s.pending.None?
    requires t == s.(layout := s.layout.(revision := s.layout.revision + 1, panes := panes))
    requires panes.Keys == s.layout.panes.Keys
    requires PanesOk(s.layout.members, panes)
    ensures Inv(t)
  {
    forall id ensures TabsCount(t.layout.tabs, id) == if id in panes then 1 else 0 {
      assert TabsCount(s.layout.tabs, id) == if id in s.layout.panes then 1 else 0;
    }
  }

  /** A batch that passes the check changes exactly the grids it lists. */
  lemma {:induction false} GridBatchChangesWhatItLists(
    panes: map<PaneId, Pane>, requester: PeerId, grids: seq<GridChange>, seen: set<PaneId>)
    requires CheckGrids(panes, requester, grids, seen).Pass?
    ensures ApplyGrids(panes, grids).Keys == panes.Keys
    ensures forall i :: 0 <= i < |grids| ==>
              && grids[i].0 in panes && grids[i].0 !in seen && panes[grids[i].0].host == requester
              && ValidGrid(grids[i].1, grids[i].2)
              && ApplyGrids(panes, grids)[grids[i].0] == panes[grids[i].0].(rows := grids[i].1, cols := grids[i].2)
    ensures forall id :: id in panes && (forall i :: 0 <= i < |grids| ==> grids[i].0 != id) ==>
              ApplyGrids(panes, grids)[id] == panes[id]
  {
    if grids != [] {
      var (id, rows, cols) := grids[0];
      var next := panes[id := panes[id].(rows := rows, cols := cols)];
      CheckIgnoresGrids(panes, next, requester, grids[1..], seen + {id});
      GridBatchChangesWhatItLists(next, requester, grids[1..], seen + {id});
      assert forall i :: 0 < i < |grids| ==> grids[i] == grids[1..][i - 1];
      assert forall i :: 0 <= i < |grids[1..]| ==> grids[1..][i].0 !in seen + {id};
      assert ApplyGrids(panes, grids)[id] == next[id];
    }
  }

  lemma {:induction false} CheckIgnoresGrids(
    panes: map<PaneId, Pane>, other: map<PaneId, Pane>, requester: PeerId, grids: seq<GridChange>, seen: set<PaneId>)
    requires panes.Keys == other.Keys && forall id :: id in panes ==> panes[id].host == other[id].host
    ensures CheckGrids(panes, requester, grids, seen) == CheckGrids(other, requester, grids, seen)
  {
    if grids != [] {
      CheckIgnoresGrids(panes, other, requester, grids[1..], seen + {grids[0].0});
    }
  }

  lemma GridsStayOk(members: seq<Member>, panes: map<PaneId, Pane>, requester: PeerId, grids: seq<GridChange>)
    requires PanesOk(members, panes) && CheckGrids(panes, requester, grids, {}).Pass?
    ensures ApplyGrids(panes, grids).Keys == panes.Keys && PanesOk(members, ApplyGrids(panes, grids))
  {
    GridBatchChangesWhatItLists(panes, requester, grids, {});
    var next := ApplyGrids(panes, grids);
    forall key | key in next ensures PaneOk(members, key, next[key]) {
      assert PaneOk(members, key, panes[key]);
      if exists i :: 0 <= i < |grids| && grids[i].0 == key {
        var i :| 0 <= i < |grids| && grids[i].0 == key;
        assert next[key] == panes[key].(rows := grids[i].1, cols := grids[i].2);
      }
    }
  }

  lemma KeepsUpdatePaneGrids(s: State, requester: PeerId, base: U64, grids: seq<GridChange>)
    requires Inv(s)
    ensures UpdatePaneGrids(s, requester, base, grids).Success? ==>
              Inv(UpdatePaneGrids(s, requester, base, grids).value)
  {
    var r := UpdatePaneGrids(s, requester, base, grids);
    if r.Success? {
      GridsStayOk(s.layout.members, s.layout.panes, requester, grids);
      PanesChanged(s, r.value, ApplyGrids(s.layout.panes, grids));
    }
  }

  lemma OnePaneChanged(s: State, pane: Pane, paneId: PaneId)
    requires Inv(s) && s.layout.revision < U64_MAX && s.pending.None?
    requires paneId in s.layout.panes && PaneOk(s.layout.members, paneId, pane)
    ensures Inv(WithPane(s, pane, paneId))
  {
    var panes := s.layout.panes[paneId := pane];
    OnePaneMore(s.layout.members, s.layout.panes, paneId, pane);
    PanesChanged(s, WithPane(s, pane, paneId), panes);
  }

  lemma KeepsPaneLock(s: State, requester: PeerId, base: U64, paneId: PaneId, locked: bool)
    requires Inv(s)
    ensures var r := SetPaneLock(s, requester, base, paneId, locked); r.Success? ==> Inv(r.value)
  {
    if SetPaneLock(s, requester, base, paneId, locked).Success? {
      assert PaneOk(s.layout.members, paneId, s.layout.panes[paneId]);
      OnePaneChanged(s, s.layout.panes[paneId].(locked := locked), paneId);
    }
  }

  lemma KeepsPaneExit(s: State, requester: PeerId, base: U64, paneId: PaneId)
    requires Inv(s)
    ensures var r := MarkPaneExited(s, requester, base, paneId); r.Success? ==> Inv(r.value)
  {
    var r := MarkPaneExited(s, requester, base, paneId);
    if r.Success? && r.value != s {
      assert PaneOk(s.layout.members, paneId, s.layout.panes[paneId]);
      OnePaneChanged(s, s.layout.panes[paneId].(exited := true), paneId);
    }
  }

  lemma KeepsPaneFlags(s: State, requester: PeerId, base: U64, paneId: PaneId, locked: bool)
    requires Inv(s)
    ensures SetPaneLock(s, requester, base, paneId, locked).Success? ==>
              Inv(SetPaneLock(s, requester, base, paneId, locked).value)
    ensures MarkPaneExited(s, requester, base, paneId).Success? ==>
              Inv(MarkPaneExited(s, requester, base, paneId).value)
  {
    KeepsPaneLock(s, requester, base, paneId, locked);
    KeepsPaneExit(s, requester, base, paneId);
  }

  lemma KeepsRenamePane(s: State, requester: PeerId, base: U64, paneId: PaneId, title: string)
    requires Inv(s)
    ensures RenamePane(s, requester, base, paneId, title).Success? ==>
              Inv(RenamePane(s, requester, base, paneId, title).value)
  {
    if RenamePane(s, requester, base, paneId, title).Success? {
      var pane := s.layout.panes[paneId];
      assert PaneOk(s.layout.members, paneId, pane);
      NormalizingTwice(title);
      OnePaneChanged(s, pane.(title := NormalizeTitle(title).value), paneId);
    }
  }

  lemma KeepsRenameTab(s: State, requester: PeerId, base: U64, tabId: TabId, title: string)
    requires Inv(s)
    ensures RenameTab(s, requester, base, tabId, title).Success? ==>
              Inv(RenameTab(s, requester, base, tabId, title).value)
  {
    var r := RenameTab(s, requester, base, tabId, title);
    if r.Success? {
      NormalizingTwice(title);
      var i := TabIndex(s.layout.tabs, tabId);
      assert TabOk(s.layout.tabs[i]);
      OneTabChanged(s, r.value, i, s.layout.tabs[i].(title := NormalizeTitle(title).value));
    }
  }
}
