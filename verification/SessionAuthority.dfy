/** The coordinator's `SessionState`, updated in place, against the meaning given in LayoutModel. */
module SessionAuthority {
  import opened Common
  import opened LayoutTree
  import opened LayoutModel
  import opened LayoutInvariant
  import opened LayoutRuns
  import M = LayoutModel
  import R = LayoutRuns

  /** A successful call reached the specified state; a failed one changed nothing. */
  ghost predicate Did<T>(
    before: State, after: State, r: Result<T, LayoutError>, spec: Result<(State, T), LayoutError>)
  {
    match spec
    case Success((next, reply)) => after == next && r == Success(reply)
    case Failure(error) => after == before && r == Failure(error)
  }

  ghost predicate DidEdit(before: State, after: State, r: Result<(), LayoutError>, spec: Result<State, LayoutError>) {
    match spec
    case Success(next) => after == next && r == Success(())
    case Failure(error) => after == before && r == Failure(error)
  }

  lemma {:induction false} CollectGrowsByTheLeaves(n: Node, depth: nat, seen: set<PaneId>)
    requires CollectPaneIds(n, depth, seen).Some?
    ensures |CollectPaneIds(n, depth, seen).value| == |seen| + |PaneIds(n)|
  {
    match n
    case Leaf(_) =>
    case Split(_, _, first, second) =>
      CollectGrowsByTheLeaves(first, depth + 1, seen);
      CollectGrowsByTheLeaves(second, depth + 1, CollectPaneIds(first, depth + 1, seen).value);
  }

  /** What the walk over the tabs has established after the first `i` of them. */
  ghost predicate TabsWalked(tabs: seq<Tab>, i: nat, tabIds: set<TabId>, paneIds: set<PaneId>)
    requires i <= |tabs|
  {
    && (forall j :: 0 <= j < i ==> TabOk(tabs[j]) && tabs[j].tabId in tabIds)
    && (forall id :: id in tabIds ==> exists j :: 0 <= j < i && tabs[j].tabId == id)
    && (forall j, k :: 0 <= j < k < i ==> tabs[j].tabId != tabs[k].tabId)
    && (forall id :: TabsCount(tabs[..i], id) == if id in paneIds then 1 else 0)
    && 0 !in paneIds
    && |paneIds| <= MAX_PANES_PER_TAB * i
  }

  /** The checks made on one tab succeed exactly when it is one a valid snapshot may hold next. */
  predicate TabPasses(tab: Tab, tabIds: set<TabId>, paneIds: set<PaneId>) {
    && tab.tabId != 0 && tab.tabId !in tabIds && IsNormalizedTitle(tab.title)
    && CollectPaneIds(tab.root, 0, paneIds).Some?
    && |CollectPaneIds(tab.root, 0, paneIds).value| - |paneIds| <= MAX_PANES_PER_TAB
    && HasValidRatios(tab.root)
  }

  lemma CountsWithOneMoreTab(tabs: seq<Tab>, i: nat, id: PaneId)
    requires i < |tabs|
    ensures TabsCount(tabs[..i + 1], id) == TabsCount(tabs[..i], id) + Count(tabs[i].root, id)
  {
    assert tabs[..i + 1] == tabs[..i] + [tabs[i]];
    TabsCountConcat(tabs[..i], [tabs[i]], id);
    assert TabsCount([tabs[i]], id) == Count(tabs[i].root, id) + TabsCount([tabs[i]][1..], id);
  }

  /** The leaves met after one more tab are counted once each. */
  lemma LeavesAfterOneTab(tabs: seq<Tab>, i: nat, paneIds: set<PaneId>, id: PaneId)
    requires i < |tabs| && CollectPaneIds(tabs[i].root, 0, paneIds).Some?
    requires TabsCount(tabs[..i], id) == if id in paneIds then 1 else 0
    ensures TabsCount(tabs[..i + 1], id) == if id in CollectPaneIds(tabs[i].root, 0, paneIds).value then 1 else 0
  {
    CollectAcceptsExactly(tabs[i].root, 0, paneIds);
    CountsMembers(tabs[i].root, id);
    CountsWithOneMoreTab(tabs, i, id);
  }

  lemma PassingTabIsOk(tab: Tab, tabIds: set<TabId>, paneIds: set<PaneId>)
    requires TabPasses(tab, tabIds, paneIds) && 0 !in paneIds
    ensures TabOk(tab)
    ensures var met := CollectPaneIds(tab.root, 0, paneIds).value;
            0 !in met && |met| <= |paneIds| + MAX_PANES_PER_TAB
  {
    CollectAcceptsExactly(tab.root, 0, paneIds);
    CollectGrowsByTheLeaves(tab.root, 0, paneIds);
  }

  lemma WalkOneTab(tabs: seq<Tab>, i: nat, tabIds: set<TabId>, paneIds: set<PaneId>)
    requires i < |tabs| && TabsWalked(tabs, i, tabIds, paneIds) && TabPasses(tabs[i], tabIds, paneIds)
    ensures TabsWalked(tabs, i + 1, tabIds + {tabs[i].tabId}, CollectPaneIds(tabs[i].root, 0, paneIds).value)
  {
    var met := CollectPaneIds(tabs[i].root, 0, paneIds).value;
    PassingTabIsOk(tabs[i], tabIds, paneIds);
    forall id ensures TabsCount(tabs[..i + 1], id) == if id in met then 1 else 0 {
      LeavesAfterOneTab(tabs, i, paneIds, id);
    }
  }

  lemma ValidTabPasses(l: Snapshot, i: nat, tabIds: set<TabId>, paneIds: set<PaneId>)
    requires ValidSnapshot(l) && i < |l.tabs| && TabsWalked(l.tabs, i, tabIds, paneIds)
    ensures TabPasses(l.tabs[i], tabIds, paneIds)
  {
    var tab := l.tabs[i];
    assert TabOk(tab);
    TabTreesAreDistinct(l.tabs, l.panes, i);
    forall id | id in PaneIds(tab.root) ensures id != 0 && id !in paneIds {
      assert PaneOk(l.members, id, l.panes[id]);
      TabsCountAround(l.tabs, i, id);
      CountsMembers(tab.root, id);
      assert TabsCount(l.tabs, id) == 1;
    }
    CollectAcceptsExactly(tab.root, 0, paneIds);
    CollectGrowsByTheLeaves(tab.root, 0, paneIds);
  }

  /** Equal sizes and inclusion make the leaves and the panes the same ids. */
  lemma WalkCoversThePanes(l: Snapshot, tabIds: set<TabId>, paneIds: set<PaneId>)
    requires TabsWalked(l.tabs, |l.tabs|, tabIds, paneIds)
    ensures ValidSnapshot(l) ==> paneIds == l.panes.Keys && |l.panes| <= MAX_TABS * MAX_PANES_PER_TAB
    ensures paneIds == l.panes.Keys ==> OneLeafPerPane(l.tabs, l.panes)
  {
    assert l.tabs[..|l.tabs|] == l.tabs;
    if ValidSnapshot(l) {
      forall id ensures id in paneIds <==> id in l.panes.Keys {
        assert TabsCount(l.tabs, id) == if id in l.panes then 1 else 0;
      }
      assert |l.panes| == |l.panes.Keys|;
    }
  }

  method CheckMembers(members: seq<Member>) returns (peerIds: Option<set<PeerId>>)
    ensures peerIds.Some? <==> (forall m :: m in members ==> MemberOk(m)) && DistinctMembers(members)
    ensures peerIds.Some? ==> forall p :: p in peerIds.value <==> IsMember(members, p)
  {
    var met: set<PeerId> := {};
    for i := 0 to |members|
      invariant forall j :: 0 <= j < i ==> MemberOk(members[j])
      invariant forall j :: 0 <= j < i ==> members[j].peerId in met
      invariant forall p :: p in met ==> exists j :: 0 <= j < i && members[j].peerId == p
      invariant forall j, k :: 0 <= j < k < i ==> members[j].peerId != members[k].peerId
    {
      var member := members[i];
      if !ValidPeerId(member.peerId) || member.peerId in met
         || !ValidEndpointAddr(member.endpointAddr) || !ValidDisplayName(member.displayName) {
        assert member in members;
        return None;
      }
      met := met + {member.peerId};
    }
    return Some(met);
  }

  lemma NothingWalked(tabs: seq<Tab>)
    ensures TabsWalked(tabs, 0, {}, {})
  {
    assert tabs[..0] == [];
  }

  lemma RefusedTabIsInvalid(l: Snapshot, i: nat, tabIds: set<TabId>, paneIds: set<PaneId>)
    requires i < |l.tabs| && TabsWalked(l.tabs, i, tabIds, paneIds) && !TabPasses(l.tabs[i], tabIds, paneIds)
    ensures !ValidSnapshot(l)
  {
    if ValidSnapshot(l) {
      ValidTabPasses(l, i, tabIds, paneIds);
    }
  }

  method CheckTabs(l: Snapshot) returns (paneIds: Option<set<PaneId>>)
    ensures paneIds.None? ==> !ValidSnapshot(l)
    ensures paneIds.Some? ==> exists tabIds :: TabsWalked(l.tabs, |l.tabs|, tabIds, paneIds.value)
  {
    var tabIds: set<TabId>, met: set<PaneId> := {}, {};
    NothingWalked(l.tabs);
    for i := 0 to |l.tabs|
      invariant TabsWalked(l.tabs, i, tabIds, met)
    {
      var tab := l.tabs[i];
      if !TabPasses(tab, tabIds, met) {
        RefusedTabIsInvalid(l, i, tabIds, met);
        return None;
      }
      WalkOneTab(l.tabs, i, tabIds, met);
      tabIds, met := tabIds + {tab.tabId}, CollectPaneIds(tab.root, 0, met).value;
    }
    return Some(met);
  }

  method CheckPanes(members: seq<Member>, panes: map<PaneId, Pane>, peerIds: set<PeerId>, paneIds: set<PaneId>)
    returns (ok: bool)
    requires forall p :: p in peerIds <==> IsMember(members, p)
    requires 0 !in paneIds
    ensures ok <==> PanesOk(members, panes) && panes.Keys <= paneIds
  {
    var rest := panes.Keys;
    while rest != {}
      invariant rest <= panes.Keys
      invariant forall key :: key in panes && key !in rest ==> PaneOk(members, key, panes[key]) && key in paneIds
      decreases |rest|
    {
      var key :| key in rest;
      var pane := panes[key];
      assert PanesOk(members, panes) ==> PaneOk(members, key, pane);
      if key != pane.paneId || key !in paneIds || !ValidGrid(pane.rows, pane.cols)
         || pane.host !in peerIds || !IsNormalizedTitle(pane.title) {
        return false;
      }
      rest := rest - {key};
    }
    return true;
  }

  /** The executable `validate_snapshot` decides exactly the declarative invariant. */
  method ValidateSnapshot(snapshot: Snapshot) returns (r: Outcome<LayoutError>)
    ensures r == Need(ValidSnapshot(snapshot), InvalidSnapshot)
  {
    var members, tabs, panes := snapshot.members, snapshot.tabs, snapshot.panes;
    if snapshot.revision == 0 || |members| == 0 || |members| > MAX_MEMBERS || |tabs| == 0 || |tabs| > MAX_TABS {
      return Fail(InvalidSnapshot);
    }
    var peerIds := CheckMembers(members);
    if peerIds.None? {
      return Fail(InvalidSnapshot);
    }
    var paneIds := CheckTabs(snapshot);
    if paneIds.None? {
      return Fail(InvalidSnapshot);
    }
    ghost var tabIds :| TabsWalked(tabs, |tabs|, tabIds, paneIds.value);
    WalkCoversThePanes(snapshot, tabIds, paneIds.value);
    assert |panes| == |panes.Keys|;
    if |paneIds.value| != |panes| || |panes| > MAX_TABS * MAX_PANES_PER_TAB {
      return Fail(InvalidSnapshot);
    }
    var panesOk := CheckPanes(members, panes, peerIds.value, paneIds.value);
    if !panesOk {
      return Fail(InvalidSnapshot);
    }
    SubsetOfSameSize(panes.Keys, paneIds.value);
    return Pass;
  }

  lemma SubsetOfSameSize<T>(a: set<T>, b: set<T>)
    requires a <= b && |a| == |b|
    ensures a == b
  {
    if a != b {
      var x :| x in b && x !in a;
      assert a <= b - {x};
      SubsetIsSmaller(a, b - {x});
    }
  }

  lemma {:induction false} SubsetIsSmaller<T>(a: set<T>, b: set<T>)
    requires a <= b
    ensures |a| <= |b|
  {
    if a != {} {
      var x :| x in a;
      SubsetIsSmaller(a - {x}, b - {x});
    }
  }

  lemma LargestIs(ids: set<U64>, top: U64)
    requires top == 0 || top in ids
    requires forall id :: id in ids ==> id <= top
    ensures Largest(ids) == top
  {
  }

  method TopPaneId(panes: map<PaneId, Pane>) returns (top: PaneId)
    ensures top == Largest(panes.Keys)
  {
    top := 0;
    var rest := panes.Keys;
    while rest != {}
      invariant rest <= panes.Keys
      invariant top == 0 || top in panes.Keys
      invariant forall id :: id in panes && id !in rest ==> id <= top
      decreases |rest|
    {
      var id :| id in rest;
      top := if top < id then id else top;
      rest := rest - {id};
    }
    LargestIs(panes.Keys, top);
  }

  method TopTabId(tabs: seq<Tab>) returns (top: TabId)
    ensures top == Largest(TabIds(tabs))
  {
    top := 0;
    for i := 0 to |tabs|
      invariant top == 0 || top in TabIds(tabs)
      invariant forall j :: 0 <= j < i ==> tabs[j].tabId <= top
    {
      assert tabs[i].tabId in TabIds(tabs);
      top := if top < tabs[i].tabId then tabs[i].tabId else top;
    }
    LargestIs(TabIds(tabs), top);
  }

  /** One tab's share of a departure: the leaves go one by one, in ascending order. */
  method RemoveEach(tree: Node, gone: set<PaneId>) returns (root: Option<Node>)
    ensures root == RemoveLeaves(Some(tree), Ascending(gone))
  {
    root := Some(tree);
    var rest := gone;
    while rest != {}
      invariant RemoveLeaves(root, Ascending(rest)) == RemoveLeaves(Some(tree), Ascending(gone))
      decreases |rest|
    {
      LeastExists(rest);
      var least :| IsLeast(rest, least);
      assert least == Least(rest);
      assert Ascending(rest)[0] == least && Ascending(rest)[1..] == Ascending(rest - {least});
      if root.Some? {
        root := RemoveLeaf(root.value, least);
      }
      rest := rest - {least};
    }
  }

  lemma OneTabKept(kept: seq<Tab>, drained: seq<Tab>, i: nat, gone: set<PaneId>)
    requires i < |drained|
    ensures kept + TabsWithout(drained[i..], gone)
            == (kept + TabWithout(drained[i], gone)) + TabsWithout(drained[i + 1..], gone)
  {
    assert drained[i..][1..] == drained[i + 1..];
    Regroup(kept, TabWithout(drained[i], gone), TabsWithout(drained[i + 1..], gone));
  }

  method KeepTabs(drained: seq<Tab>, gone: set<PaneId>) returns (kept: seq<Tab>)
    ensures kept == TabsWithout(drained, gone)
  {
    kept := [];
    for i := 0 to |drained|
      invariant kept + TabsWithout(drained[i..], gone) == TabsWithout(drained, gone)
    {
      OneTabKept(kept, drained, i, gone);
      var left := KeepTab(drained[i], gone);
      kept := kept + left;
    }
  }

  /** The tab with what is left of its tree, if anything is. */
  method KeepTab(tab: Tab, gone: set<PaneId>) returns (left: seq<Tab>)
    ensures left == TabWithout(tab, gone)
  {
    var root := RemoveEach(tab.root, gone);
    if root.None? {
      return [];
    }
    return [tab.(root := root.value)];
  }

  class SessionState {
    const verify: MachineVerifier
    var revision: U64
    var members: seq<Member>
    var tabs: seq<Tab>
    var panes: map<PaneId, Pane>
    var nextTabId: TabId
    var nextPaneId: PaneId
    var nextReservationId: ReservationId
    var pending: Option<Pending>

    function View(): State
      reads this
    {
      State(Snapshot(revision, members, tabs, panes), nextTabId, nextPaneId, nextReservationId, pending)
    }

    constructor (verify: MachineVerifier, state: State)
      ensures View() == state && this.verify == verify
    {
      this.verify := verify;
      revision, members := state.layout.revision, state.layout.members;
      tabs, panes := state.layout.tabs, state.layout.panes;
      nextTabId, nextPaneId, nextReservationId := state.nextTabId, state.nextPaneId, state.nextReservationId;
      pending := state.pending;
    }

    static method NewWithIdentity(
      verify: MachineVerifier, host: PeerId, addr: Bytes, identity: MemberIdentity, rows: U16, cols: U16)
      returns (r: Result<SessionState, LayoutError>)
      ensures r.Success? ==> fresh(r.value) && r.value.verify == verify
      ensures r.Success? ==> NewSession(verify, host, addr, identity, rows, cols) == Success(r.value.View())
      ensures r.Failure? ==> NewSession(verify, host, addr, identity, rows, cols) == Failure(r.error)
    {
      var verified := VerifiedFor(verify, identity, host);
      :- Need(ValidGrid(rows, cols), InvalidGrid);
      :- Need(ValidPeerId(host), InvalidPeerId);
      :- Need(ValidEndpointAddr(addr), InvalidEndpointAddress);
      :- Need(ValidDisplayName(verified.displayName), InvalidDisplayName);
      var layout := Snapshot(1, [MemberFor(host, addr, verified)], [Tab(1, Leaf(1), None)],
                             map[1 := FirstPane(host, 1, rows, cols)]);
      var session := new SessionState(verify, State(layout, 2, 2, 1, None));
      return Success(session);
    }

    static method Restore(verify: MachineVerifier, snapshot: Snapshot) returns (r: Result<SessionState, LayoutError>)
      ensures r.Success? ==> fresh(r.value) && r.value.verify == verify
      ensures r.Success? ==> R.Restore(snapshot) == Success(r.value.View())
      ensures r.Failure? ==> R.Restore(snapshot) == Failure(r.error)
    {
      var outcome := ValidateSnapshot(snapshot);
      :- outcome;
      var topPane := TopPaneId(snapshot.panes);
      var topTab := TopTabId(snapshot.tabs);
      :- Need(topPane < U64_MAX, RevisionExhausted);
      :- Need(topTab < U64_MAX, RevisionExhausted);
      var session := new SessionState(verify, State(snapshot, topTab + 1, topPane + 1, 1, None));
      return Success(session);
    }

    /** The one step every commit ends with. */
    method AdvanceRevision()
      requires revision < U64_MAX
      modifies this`revision
      ensures revision == old(revision) + 1
    {
      revision := revision + 1;
    }

    method InvalidateReservation() returns (r: Option<Invalidated>)
      modifies this`pending
      ensures pending == None && r == InvalidationOf(old(View()))
    {
      r := InvalidationOf(View());
      pending := None;
    }

    method AddMember(baseRevision: U64, peerId: PeerId, addr: Bytes, identity: MemberIdentity)
      returns (r: Result<Option<Invalidated>, LayoutError>)
      modifies this
      ensures Did(old(View()), View(), r, M.AddMember(verify, old(View()), baseRevision, peerId, addr, identity))
    {
      var verified := VerifiedFor(verify, identity, peerId);
      :- CheckMutation(View(), baseRevision);
      :- Need(ValidPeerId(peerId), InvalidPeerId);
      :- Need(ValidEndpointAddr(addr), InvalidEndpointAddress);
      :- Need(ValidDisplayName(verified.displayName), InvalidDisplayName);
      :- Need(!IsMember(members, peerId), AlreadyMember);
      :- Need(|members| < MAX_MEMBERS, MemberLimit);
      members := members + [MemberFor(peerId, addr, verified)];
      AdvanceRevision();
      var invalidated := InvalidateReservation();
      return Success(invalidated);
    }

    method UpdateMemberKind(baseRevision: U64, peerId: PeerId, kind: MemberKind)
      returns (r: Result<Option<Option<Invalidated>>, LayoutError>)
      modifies this
      ensures Did(old(View()), View(), r, M.UpdateMemberKind(old(View()), baseRevision, peerId, kind))
    {
      var i := MemberIndex(members, peerId);
      :- CheckMutation(View(), baseRevision);
      :- Need(i < |members|, NotMember);
      if kind.Unspecified? || !members[i].kind.Unspecified? {
        return Success(None);
      }
      members := members[i := members[i].(kind := kind)];
      AdvanceRevision();
      var invalidated := InvalidateReservation();
      return Success(Some(invalidated));
    }

    method UpdateMemberEndpoint(baseRevision: U64, peerId: PeerId, addr: Bytes)
      returns (r: Result<Option<Invalidated>, LayoutError>)
      modifies this
      ensures Did(old(View()), View(), r, M.UpdateMemberEndpoint(old(View()), baseRevision, peerId, addr))
    {
      var i := MemberIndex(members, peerId);
      :- CheckMutation(View(), baseRevision);
      :- Need(ValidEndpointAddr(addr), InvalidEndpointAddress);
      :- Need(i < |members|, NotMember);
      members := members[i := members[i].(endpointAddr := addr)];
      AdvanceRevision();
      var invalidated := InvalidateReservation();
      return Success(invalidated);
    }

    /** Drains the tabs first and looks at what is left of them afterwards, as the source does. */
    method RemoveMember(peerId: PeerId) returns (r: Result<Option<Invalidated>, LayoutError>)
      modifies this
      ensures (View(), r) == M.RemoveMember(old(View()), peerId)
    {
      var gone := HostedBy(panes, peerId);
      :- RequireMember(View(), peerId);
      :- Need(|members| != 1, InvalidSnapshot);
      :- Need(revision < U64_MAX, RevisionExhausted);
      var drained := tabs;
      tabs := [];
      var kept := KeepTabs(drained, gone);
      if kept == [] {
        return Failure(InvalidSnapshot);
      }
      members := MembersWithout(members, peerId);
      panes := panes - gone;
      tabs := kept;
      AdvanceRevision();
      var invalidated := InvalidateReservation();
      return Success(invalidated);
    }

    method ReservePane(
      creator: PeerId, host: PeerId, baseRevision: U64, target: PaneId, axis: Axis,
      position: NewPanePosition, rows: U16, cols: U16)
      returns (r: Result<PaneReservation, LayoutError>)
      modifies this
      ensures Did(old(View()), View(), r,
                  M.ReservePane(old(View()), creator, host, baseRevision, target, axis, position, rows, cols))
    {
      var paneId, reservationId := nextPaneId, nextReservationId;
      :- CheckMutation(View(), baseRevision);
      :- RequireMember(View(), creator);
      :- Need(IsMember(members, host), UnknownTarget);
      :- Need(ValidGrid(rows, cols), InvalidGrid);
      :- EnsureNoReservation(View());
      :- ValidatePaneCreate(tabs, target);
      :- Need(paneId < U64_MAX, IdExhausted);
      :- Need(reservationId < U64_MAX, IdExhausted);
      nextPaneId := paneId + 1;
      nextReservationId := reservationId + 1;
      var kind := PendingPane(paneId, target, axis, position, rows, cols);
      pending := Some(Pending(reservationId, creator, host, baseRevision, kind));
      return Success(PaneReservation(reservationId, paneId, None, host, rows, cols));
    }

    method ReserveTab(creator: PeerId, host: PeerId, baseRevision: U64, rows: U16, cols: U16)
      returns (r: Result<PaneReservation, LayoutError>)
      modifies this
      ensures Did(old(View()), View(), r, M.ReserveTab(old(View()), creator, host, baseRevision, rows, cols))
    {
      var tabId, paneId, reservationId := nextTabId, nextPaneId, nextReservationId;
      :- CheckMutation(View(), baseRevision);
      :- RequireMember(View(), creator);
      :- Need(IsMember(members, host), UnknownTarget);
      :- Need(ValidGrid(rows, cols), InvalidGrid);
      :- EnsureNoReservation(View());
      :- Need(|tabs| < MAX_TABS, TabLimit);
      :- Need(tabId < U64_MAX, IdExhausted);
      :- Need(paneId < U64_MAX, IdExhausted);
      :- Need(reservationId < U64_MAX, IdExhausted);
      nextTabId := tabId + 1;
      nextPaneId := paneId + 1;
      nextReservationId := reservationId + 1;
      var kind := PendingTab(tabId, paneId, rows, cols);
      pending := Some(Pending(reservationId, creator, host, baseRevision, kind));
      return Success(PaneReservation(reservationId, paneId, Some(tabId), host, rows, cols));
    }

    method PaneReady(host: PeerId, baseRevision: U64, reservationId: ReservationId)
      returns (r: Result<ReservationCommit, LayoutError>)
      modifies this
      ensures Did(old(View()), View(), r, M.PaneReady(old(View()), host, baseRevision, reservationId))
    {
      var reservation :- MatchReservation(View(), host, reservationId);
      :- Need(reservation.baseRevision == baseRevision, StaleRevision(reservation.baseRevision, baseRevision));
      :- CheckMutation(View(), baseRevision);
      match reservation.kind {
        case PendingPane(paneId, target, axis, position, rows, cols) =>
          :- ValidatePaneCreate(tabs, target);
          var i := TabIndexForPane(tabs, target);
          var (root, done) := ReplaceLeaf(tabs[i].root, target, NewSplit(target, paneId, axis, position));
          :- Need(done, ReservationInvalid);
          tabs := tabs[i := tabs[i].(root := root)];
          panes := panes[paneId := FirstPane(reservation.host, paneId, rows, cols)];
          pending := None;
          AdvanceRevision();
          return Success(CommittedPane(paneId));
        case PendingTab(tabId, paneId, rows, cols) =>
          :- Need(|tabs| < MAX_TABS, ReservationInvalid);
          tabs := tabs + [Tab(tabId, Leaf(paneId), None)];
          panes := panes[paneId := FirstPane(reservation.host, paneId, rows, cols)];
          pending := None;
          AdvanceRevision();
          return Success(CommittedTab(tabId, paneId));
      }
    }

    method CancelReservation(creator: PeerId, reservationId: ReservationId) returns (r: Result<(), LayoutError>)
      modifies this
      ensures DidEdit(old(View()), View(), r, M.CancelReservation(old(View()), creator, reservationId))
    {
      var _ :- MatchReservation(View(), creator, reservationId);
      pending := None;
      return Success(());
    }

    method FailReservation(creator: PeerId, baseRevision: U64, reservationId: ReservationId)
      returns (r: Result<(), LayoutError>)
      modifies this
      ensures DidEdit(old(View()), View(), r, M.FailReservation(old(View()), creator, baseRevision, reservationId))
    {
      var reservation :- MatchReservation(View(), creator, reservationId);
      :- Need(reservation.baseRevision == baseRevision, StaleRevision(reservation.baseRevision, baseRevision));
      pending := None;
      return Success(());
    }

    method ExpireReservation(reservationId: ReservationId) returns (r: Result<(), LayoutError>)
      modifies this
      ensures DidEdit(old(View()), View(), r, M.ExpireReservation(old(View()), reservationId))
    {
      if pending.None? || pending.value.reservationId != reservationId {
        return Failure(UnknownReservation(reservationId));
      }
      pending := None;
      return Success(());
    }

    method CreatePane(
      requester: PeerId, baseRevision: U64, target: PaneId, axis: Axis, position: NewPanePosition, rows: U16, cols: U16)
      returns (r: Result<PaneId, LayoutError>)
      modifies this
      ensures (View(), r) == M.CreatePane(old(View()), requester, baseRevision, target, axis, position, rows, cols)
    {
      var reservation :- ReservePane(requester, requester, baseRevision, target, axis, position, rows, cols);
      var commit :- PaneReady(requester, baseRevision, reservation.reservationId);
      return Success(commit.paneId);
    }

    method CreateTab(requester: PeerId, baseRevision: U64, rows: U16, cols: U16) returns (r: Result<TabId, LayoutError>)
      modifies this
      ensures (View(), r) == M.CreateTab(old(View()), requester, baseRevision, rows, cols)
    {
      var reservation :- ReserveTab(requester, requester, baseRevision, rows, cols);
      var commit :- PaneReady(requester, baseRevision, reservation.reservationId);
      assert commit.CommittedTab?;
      return Success(commit.tabId);
    }

    method DeletePane(requester: PeerId, baseRevision: U64, paneId: PaneId) returns (r: Result<(), LayoutError>)
      modifies this
      ensures DidEdit(old(View()), View(), r, M.DeletePane(old(View()), requester, baseRevision, paneId))
    {
      var _ :- CheckRequest(View(), requester, baseRevision);
      :- Need(paneId in panes, UnknownPane(paneId));
      :- Need(panes[paneId].host == requester, NotPaneHost(paneId));
      var i := TabIndexForPane(tabs, paneId);
      :- Need(i < |tabs|, UnknownPane(paneId));
      :- Need(|PaneIds(tabs[i].root)| != 1, LastPaneInTab(tabs[i].tabId));
      LeavesOfASplit(tabs[i].root);
      RemoveLeafTakesOne(tabs[i].root, paneId);
      var root := RemoveLeaf(tabs[i].root, paneId);
      tabs := tabs[i := tabs[i].(root := root.value)];
      panes := panes - {paneId};
      AdvanceRevision();
      return Success(());
    }

    method DeleteTab(requester: PeerId, baseRevision: U64, tabId: TabId) returns (r: Result<(), LayoutError>)
      modifies this
      ensures DidEdit(old(View()), View(), r, M.DeleteTab(old(View()), requester, baseRevision, tabId))
    {
      var _ :- CheckRequest(View(), requester, baseRevision);
      var i := TabIndex(tabs, tabId);
      :- Need(i < |tabs|, UnknownTab(tabId));
      :- Need(|tabs| != 1, LastTab);
      var ids := PaneIds(tabs[i].root);
      :- Need(AllHostedBy(panes, ids, requester), NotTabHost(tabId));
      tabs := tabs[..i] + tabs[i + 1..];
      var k := 0;
      while k < |ids|
        invariant 0 <= k <= |ids|
        invariant panes == old(panes) - (set id | id in ids[..k])
        invariant View() == old(View()).(layout := old(View()).layout.(
                              tabs := old(tabs)[..i] + old(tabs)[i + 1..], panes := panes))
      {
        assert ids[..k + 1] == ids[..k] + [ids[k]];
        panes := panes - {ids[k]};
        k := k + 1;
      }
      assert ids[..k] == ids;
      AdvanceRevision();
      return Success(());
    }

    method SetSplitRatio(requester: PeerId, baseRevision: U64, paneId: PaneId, axis: Axis, share: U16)
      returns (r: Result<(), LayoutError>)
      modifies this
      ensures DidEdit(old(View()), View(), r,
                      M.SetSplitRatio(old(View()), requester, baseRevision, paneId, axis, share))
    {
      var _ :- CheckRequest(View(), requester, baseRevision);
      :- Need(ValidShare(share), InvalidSplitRatio);
      var i := TabIndexForPane(tabs, paneId);
      :- Need(i < |tabs|, UnknownPane(paneId));
      var (root, done) := SetNearestSplitRatio(tabs[i].root, paneId, axis, share);
      :- Need(done, NoMatchingSplit(paneId, axis));
      tabs := tabs[i := tabs[i].(root := root)];
      AdvanceRevision();
      return Success(());
    }

    method UpdatePaneGrids(requester: PeerId, baseRevision: U64, grids: seq<GridChange>)
      returns (r: Result<(), LayoutError>)
      modifies this
      ensures DidEdit(old(View()), View(), r, M.UpdatePaneGrids(old(View()), requester, baseRevision, grids))
    {
      var _ :- CheckRequest(View(), requester, baseRevision);
      :- Need(grids != [], InvalidGrid);
      var seen: set<PaneId> := {};
      for i := 0 to |grids|
        invariant CheckGrids(panes, requester, grids[i..], seen) == CheckGrids(panes, requester, grids, {})
        invariant View() == old(View())
      {
        var (id, rows, cols) := grids[i];
        assert grids[i..][1..] == grids[i + 1..];
        :- Need(ValidGrid(rows, cols) && id !in seen, InvalidGrid);
        seen := seen + {id};
        :- Need(id in panes, UnknownPane(id));
        :- Need(panes[id].host == requester, NotPaneHost(id));
      }
      for i := 0 to |grids|
        invariant ApplyGrids(panes, grids[i..]) == ApplyGrids(old(panes), grids)
        invariant View() == old(View()).(layout := old(View()).layout.(panes := panes))
        invariant panes.Keys == old(panes).Keys
      {
        var (id, rows, cols) := grids[i];
        assert grids[i..][1..] == grids[i + 1..];
        GridBatchChangesWhatItLists(old(panes), requester, grids, {});
        panes := panes[id := panes[id].(rows := rows, cols := cols)];
      }
      AdvanceRevision();
      return Success(());
    }

    method SetPaneLock(requester: PeerId, baseRevision: U64, paneId: PaneId, locked: bool)
      returns (r: Result<(), LayoutError>)
      modifies this
      ensures DidEdit(old(View()), View(), r, M.SetPaneLock(old(View()), requester, baseRevision, paneId, locked))
    {
      var _ :- CheckRequest(View(), requester, baseRevision);
      :- Need(paneId in panes, UnknownPane(paneId));
      :- Need(panes[paneId].host == requester, NotPaneHost(paneId));
      panes := panes[paneId := panes[paneId].(locked := locked)];
      AdvanceRevision();
      return Success(());
    }

    method MarkPaneExited(requester: PeerId, baseRevision: U64, paneId: PaneId) returns (r: Result<(), LayoutError>)
      modifies this
      ensures DidEdit(old(View()), View(), r, M.MarkPaneExited(old(View()), requester, baseRevision, paneId))
    {
      var _ :- CheckRequest(View(), requester, baseRevision);
      :- Need(paneId in panes, UnknownPane(paneId));
      :- Need(panes[paneId].host == requester, NotPaneHost(paneId));
      if !panes[paneId].exited {
        panes := panes[paneId := panes[paneId].(exited := true)];
        AdvanceRevision();
      }
      return Success(());
    }

    method RenamePane(requester: PeerId, baseRevision: U64, paneId: PaneId, title: string)
      returns (r: Result<(), LayoutError>)
      modifies this
      ensures DidEdit(old(View()), View(), r, M.RenamePane(old(View()), requester, baseRevision, paneId, title))
    {
      var _ :- CheckRequest(View(), requester, baseRevision);
      var normalized :- NormalizeTitle(title);
      :- Need(paneId in panes, UnknownPane(paneId));
      panes := panes[paneId := panes[paneId].(title := normalized)];
      AdvanceRevision();
      return Success(());
    }

    method RenameTab(requester: PeerId, baseRevision: U64, tabId: TabId, title: string)
      returns (r: Result<(), LayoutError>)
      modifies this
      ensures DidEdit(old(View()), View(), r, M.RenameTab(old(View()), requester, baseRevision, tabId, title))
    {
      var _ :- CheckRequest(View(), requester, baseRevision);
      var normalized :- NormalizeTitle(title);
      var i := TabIndex(tabs, tabId);
      :- Need(i < |tabs|, UnknownTab(tabId));
      tabs := tabs[i := tabs[i].(title := normalized)];
      AdvanceRevision();
      return Success(());
    }
  }
}
