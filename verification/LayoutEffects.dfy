/** What a request that is granted brings about: what it was made for, and nothing besides. */
module LayoutEffects {
  import opened Common
  import opened LayoutTree
  import opened LayoutModel
  import opened LayoutInvariant
  import opened LayoutRuns
  import opened LayoutRequests

  // ---------------------------------------------------------------------------
  // Frames
  // ---------------------------------------------------------------------------

  /** One revision on with other tabs or panes; members, ids and reservation stay. */
  ghost predicate Edited(s: State, t: State, tabs: seq<Tab>, panes: map<PaneId, Pane>) {
    && t.layout.revision == s.layout.revision + 1
    && t == s.(layout := Snapshot(t.layout.revision, s.layout.members, tabs, panes))
  }

  /** One revision on with other members; whatever was reserved is over, as the reply says. */
  ghost predicate Reseated(s: State, t: State, members: seq<Member>) {
    && t.layout.revision == s.layout.revision + 1
    && t == s.(layout := s.layout.(revision := t.layout.revision, members := members), pending := None)
  }

  /** One revision on with one more pane, and nothing reserved any more. */
  ghost predicate Opened(s: State, t: State, tabs: seq<Tab>, pane: Pane) {
    && t.layout.revision == s.layout.revision + 1
    && t.layout == Snapshot(t.layout.revision, s.layout.members, tabs, s.layout.panes[pane.paneId := pane])
    && t.pending.None?
  }

  // ---------------------------------------------------------------------------
  // What changes
  // ---------------------------------------------------------------------------

  /** The newcomer as it introduced itself, but for a machine it could not prove. */
  ghost predicate ListedAs(
    verify: MachineVerifier, m: Member, peer: PeerId, addr: Bytes, identity: MemberIdentity)
  {
    && m.peerId == peer && m.endpointAddr == addr
    && m.displayName == identity.displayName && m.kind == identity.kind
    && (m.machineId, m.machineProof)
       == if verify(identity.machineId, peer, identity.machineProof)
          then (identity.machineId, identity.machineProof) else ([], [])
  }

  ghost predicate JoinsLast(
    verify: MachineVerifier, s: State, t: State, peer: PeerId, addr: Bytes, identity: MemberIdentity)
  {
    exists m :: ListedAs(verify, m, peer, addr, identity) && Reseated(s, t, s.layout.members + [m])
  }

  /** Everybody in place; the peer's kind and address are as given. */
  ghost predicate OneEntry(before: seq<Member>, after: seq<Member>, peer: PeerId, kind: MemberKind, addr: Bytes) {
    && |after| == |before|
    && forall i :: 0 <= i < |before| ==>
         after[i] == if before[i].peerId == peer then before[i].(kind := kind, endpointAddr := addr) else before[i]
  }

  ghost predicate Entry(members: seq<Member>, m: Member, peer: PeerId) {
    m in members && m.peerId == peer
  }

  /** A kind is declared once: later claims, and claims of none, change nothing. */
  ghost predicate Declares(s: State, t: State, peer: PeerId, kind: MemberKind, reply: Reply) {
    exists m :: Entry(s.layout.members, m, peer)
      && if m.kind.Unspecified? && !kind.Unspecified? then
           && OneEntry(s.layout.members, t.layout.members, peer, kind, m.endpointAddr)
           && Reseated(s, t, t.layout.members) && reply == KindUpdate(Some(InvalidationOf(s)))
         else t == s && reply == KindUpdate(None)
  }

  ghost predicate Moves(s: State, t: State, peer: PeerId, addr: Bytes) {
    && Reseated(s, t, t.layout.members)
    && exists m :: Entry(s.layout.members, m, peer)
         && OneEntry(s.layout.members, t.layout.members, peer, m.kind, addr)
  }

  /** The leaves of all tabs in reading order. */
  function Reading(tabs: seq<Tab>): seq<PaneId> {
    if tabs == [] then [] else PaneIds(tabs[0].root) + Reading(tabs[1..])
  }

  ghost predicate PrunedFrom(tabs: seq<Tab>, gone: set<PaneId>, u: Tab) {
    exists t :: t in tabs && Prune(t.root, gone).Some? && u == t.(root := Prune(t.root, gone).value)
  }

  /** Every tab is one of the old ones without the panes that went, and the others read on in order. */
  ghost predicate TabsPruned(before: seq<Tab>, gone: set<PaneId>, after: seq<Tab>) {
    && (forall u :: u in after ==> PrunedFrom(before, gone, u))
    && Reading(after) == Without(Reading(before), gone)
  }

  ghost predicate OneOut(before: seq<Member>, after: seq<Member>, peer: PeerId) {
    exists i :: 0 <= i < |before| && before[i].peerId == peer && after == before[..i] + before[i + 1..]
  }

  function OwnPanes(panes: map<PaneId, Pane>, peer: PeerId): set<PaneId> {
    set id | id in panes && panes[id].host == peer
  }

  ghost predicate Leaves(s: State, t: State, peer: PeerId) {
    var l := s.layout;
    && t == s.(layout := t.layout, pending := None)
    && t.layout.revision == l.revision + 1
    && OneOut(l.members, t.layout.members, peer)
    && t.layout.panes == l.panes - OwnPanes(l.panes, peer)
    && TabsPruned(l.tabs, OwnPanes(l.panes, peer), t.layout.tabs)
  }

  /** The node that stands at the end of the way gives way to another tree. */
  function GraftAt(n: Node, path: seq<bool>, graft: Node): Node {
    if path == [] || n.Leaf? then graft
    else if path[0] then n.(first := GraftAt(n.first, path[1..], graft))
    else n.(second := GraftAt(n.second, path[1..], graft))
  }

  function Halved(target: PaneId, added: PaneId, axis: Axis, position: NewPanePosition): Node {
    if position.First? then Split(axis, 5_000, Leaf(added), Leaf(target))
    else Split(axis, 5_000, Leaf(target), Leaf(added))
  }

  /** The leaf makes room for the new pane, each with half of its space, and no other tab notices. */
  ghost predicate SplitsLeaf(
    before: seq<Tab>, after: seq<Tab>, target: PaneId, added: PaneId, axis: Axis, position: NewPanePosition)
  {
    && |after| == |before|
    && forall i :: 0 <= i < |before| ==>
         after[i] == if !ContainsLeaf(before[i].root, target) then before[i]
                     else
                       var root := before[i].root;
                       before[i].(root := GraftAt(root, PathTo(root, target), Halved(target, added, axis, position)))
  }

  ghost predicate OpensPane(
    s: State, t: State, host: PeerId, added: PaneId, target: PaneId, axis: Axis,
    position: NewPanePosition, rows: U16, cols: U16)
  {
    && SplitsLeaf(s.layout.tabs, t.layout.tabs, target, added, axis, position)
    && Opened(s, t, t.layout.tabs, Pane(added, host, false, false, rows, cols, None))
  }

  ghost predicate OpensTab(s: State, t: State, host: PeerId, tabId: TabId, added: PaneId, rows: U16, cols: U16) {
    Opened(s, t, s.layout.tabs + [Tab(tabId, Leaf(added), None)], Pane(added, host, false, false, rows, cols, None))
  }

  /** What was reserved is there: same ids, same host, same grid. */
  ghost predicate OpensReserved(s: State, p: Pending, t: State, commit: ReservationCommit) {
    match p.kind
    case PendingPane(id, target, axis, position, rows, cols) =>
      OpensPane(s, t, p.host, id, target, axis, position, rows, cols) && commit == CommittedPane(id)
    case PendingTab(tabId, id, rows, cols) =>
      OpensTab(s, t, p.host, tabId, id, rows, cols) && commit == CommittedTab(tabId, id)
  }

  ghost predicate Reserves(s: State, t: State, p: Pending, tab: Option<TabId>, reply: Reply) {
    && p.reservationId == s.nextReservationId && p.kind.paneId == s.nextPaneId
    && IssuesIds(s, t, if tab.Some? then 1 else 0)
    && t.layout == s.layout && t.pending == Some(p)
    && reply == Reserved(PaneReservation(p.reservationId, p.kind.paneId, tab, p.host, p.kind.rows, p.kind.cols))
  }

  /** The leaf is gone from its tab, which closes up, and no other tab notices. */
  ghost predicate DropsLeaf(before: seq<Tab>, after: seq<Tab>, id: PaneId) {
    && |after| == |before|
    && forall i :: 0 <= i < |before| ==>
         && after[i] == before[i].(root := after[i].root)
         && Prune(before[i].root, {id}) == Some(after[i].root)
  }

  ghost predicate DropsTab(s: State, t: State, tabId: TabId) {
    var l := s.layout;
    exists i :: 0 <= i < |l.tabs| && l.tabs[i].tabId == tabId
      && Edited(s, t, l.tabs[..i] + l.tabs[i + 1..],
                map id | id in l.panes && !ContainsLeaf(l.tabs[i].root, id) :: l.panes[id])
  }

  ghost predicate SharedAt(before: Node, after: Node, id: PaneId, axis: Axis, share: U16, k: nat)
    requires ContainsLeaf(before, id)
  {
    NearestOnPath(before, id, axis, k) && after == WithShareAt(before, PathTo(before, id)[..k], share)
  }

  /** The share changes on the split nearest above the leaf, and nowhere else. */
  ghost predicate SetsShare(before: seq<Tab>, after: seq<Tab>, id: PaneId, axis: Axis, share: U16) {
    && |after| == |before|
    && forall i :: 0 <= i < |before| ==>
         && after[i] == before[i].(root := after[i].root)
         && if ContainsLeaf(before[i].root, id)
            then exists k: nat :: SharedAt(before[i].root, after[i].root, id, axis, share, k)
            else after[i] == before[i]
  }

  ghost predicate Listed(grids: seq<GridChange>, i: nat, id: PaneId) {
    i < |grids| && grids[i].0 == id
  }

  ghost predicate SetsGrids(before: map<PaneId, Pane>, after: map<PaneId, Pane>, grids: seq<GridChange>) {
    && after.Keys == before.Keys
    && (forall i: nat, id :: id in before && Listed(grids, i, id) ==>
          after[id] == before[id].(rows := grids[i].1, cols := grids[i].2))
    && forall id :: id in before && (forall i: nat :: !Listed(grids, i, id)) ==> after[id] == before[id]
  }

  ghost predicate TitledBy(title: string, stored: Option<string>) {
    exists x :: TrimsTo(title, x) && stored == if x == "" then None else Some(x)
  }

  ghost predicate RetitlesPane(s: State, t: State, id: PaneId, title: string) {
    exists stored :: TitledBy(title, stored) && id in s.layout.panes
      && Edited(s, t, s.layout.tabs, s.layout.panes[id := s.layout.panes[id].(title := stored)])
  }

  ghost predicate RetitlesTab(s: State, t: State, tabId: TabId, title: string) {
    && Edited(s, t, t.layout.tabs, s.layout.panes)
    && |t.layout.tabs| == |s.layout.tabs|
    && exists stored :: TitledBy(title, stored)
         && forall i :: 0 <= i < |s.layout.tabs| ==>
              var tab := s.layout.tabs[i];
              t.layout.tabs[i] == if tab.tabId == tabId then tab.(title := stored) else tab
  }

  ghost predicate SetsPane(s: State, t: State, id: PaneId, pane: Pane) {
    Edited(s, t, s.layout.tabs, s.layout.panes[id := pane])
  }

  ghost predicate MarksExit(s: State, t: State, id: PaneId) {
    && id in s.layout.panes
    && if s.layout.panes[id].exited then t == s else SetsPane(s, t, id, s.layout.panes[id].(exited := true))
  }

  ghost predicate DoesToMembers(verify: MachineVerifier, s: State, op: Op, t: State, reply: Reply)
    requires OnMembers(op)
  {
    match op
    case OpAddMember(_, peer, addr, identity) =>
      JoinsLast(verify, s, t, peer, addr, identity) && reply == Invalidation(InvalidationOf(s))
    case OpUpdateKind(_, peer, kind) => Declares(s, t, peer, kind, reply)
    case OpUpdateEndpoint(_, peer, addr) => Moves(s, t, peer, addr) && reply == Invalidation(InvalidationOf(s))
    case OpRemoveMember(peer) => Leaves(s, t, peer) && reply == Invalidation(InvalidationOf(s))
  }

  ghost predicate DoesToReservations(s: State, op: Op, t: State, reply: Reply)
    requires OnReservations(op)
  {
    match op
    case OpReservePane(creator, host, base, target, axis, position, rows, cols) =>
      var kind := PendingPane(s.nextPaneId, target, axis, position, rows, cols);
      Reserves(s, t, Pending(s.nextReservationId, creator, host, base, kind), None, reply)
    case OpReserveTab(creator, host, base, rows, cols) =>
      var kind := PendingTab(s.nextTabId, s.nextPaneId, rows, cols);
      Reserves(s, t, Pending(s.nextReservationId, creator, host, base, kind), Some(s.nextTabId), reply)
    case OpPaneReady(_, _, _) =>
      && reply.Committed? && s.pending.Some? && OpensReserved(s, s.pending.value, t, reply.commit)
      && t == s.(layout := t.layout, pending := None)
    case _ => t == s.(pending := None) && reply == Done
  }

  ghost predicate DoesCreation(s: State, op: Op, t: State, reply: Reply)
    requires Creates(op)
  {
    match op
    case OpCreatePane(requester, _, target, axis, position, rows, cols) =>
      && OpensPane(s, t, requester, s.nextPaneId, target, axis, position, rows, cols)
      && reply == NewPane(s.nextPaneId) && IssuesIds(s, t, 0)
    case OpCreateTab(requester, _, rows, cols) =>
      && OpensTab(s, t, requester, s.nextTabId, s.nextPaneId, rows, cols)
      && reply == NewTab(s.nextTabId) && IssuesIds(s, t, 1)
  }

  ghost predicate DoesToStructure(s: State, op: Op, t: State)
    requires OnStructure(op)
  {
    match op
    case OpDeletePane(_, _, id) =>
      Edited(s, t, t.layout.tabs, s.layout.panes - {id}) && DropsLeaf(s.layout.tabs, t.layout.tabs, id)
    case OpDeleteTab(_, _, tabId) => DropsTab(s, t, tabId)
    case OpSetRatio(_, _, id, axis, share) =>
      && Edited(s, t, t.layout.tabs, s.layout.panes)
      && SetsShare(s.layout.tabs, t.layout.tabs, id, axis, share)
    case OpUpdateGrids(_, _, grids) =>
      Edited(s, t, s.layout.tabs, t.layout.panes) && SetsGrids(s.layout.panes, t.layout.panes, grids)
  }

  ghost predicate DoesToDetails(s: State, op: Op, t: State)
    requires OnDetails(op)
  {
    match op
    case OpSetLock(_, _, id, locked) =>
      id in s.layout.panes && SetsPane(s, t, id, s.layout.panes[id].(locked := locked))
    case OpMarkExited(_, _, id) => MarksExit(s, t, id)
    case OpRenamePane(_, _, id, title) => RetitlesPane(s, t, id, title)
    case OpRenameTab(_, _, tabId, title) => RetitlesTab(s, t, tabId, title)
  }

  /** What each request is for. */
  ghost predicate Does(verify: MachineVerifier, s: State, op: Op, t: State, reply: Reply) {
    if OnMembers(op) then DoesToMembers(verify, s, op, t, reply)
    else if OnReservations(op) then DoesToReservations(s, op, t, reply)
    else if Creates(op) then DoesCreation(s, op, t, reply)
    else if OnStructure(op) then DoesToStructure(s, op, t) && reply == Done
    else DoesToDetails(s, op, t) && reply == Done
  }

  ghost predicate IssuesIds(s: State, t: State, tabs: nat) {
    && t.nextTabId == s.nextTabId + tabs
    && t.nextPaneId == s.nextPaneId + 1 && t.nextReservationId == s.nextReservationId + 1
  }

  // ---------------------------------------------------------------------------
  // Members
  // ---------------------------------------------------------------------------

  lemma AddMemberPerforms(
    verify: MachineVerifier, s: State, base: U64, peer: PeerId, addr: Bytes, identity: MemberIdentity)
    ensures var r := AddMember(verify, s, base, peer, addr, identity);
            r.Success? ==>
              DoesToMembers(verify, s, OpAddMember(base, peer, addr, identity), r.value.0, Invalidation(r.value.1))
  {
    var m := MemberFor(peer, addr, VerifiedFor(verify, identity, peer));
    assert ListedAs(verify, m, peer, addr, identity);
  }

  lemma OneEntryIs(members: seq<Member>, peer: PeerId, kind: MemberKind, addr: Bytes)
    requires DistinctMembers(members) && MemberIndex(members, peer) < |members|
    ensures var i := MemberIndex(members, peer);
            && Entry(members, members[i], peer)
            && OneEntry(members, members[i := members[i].(kind := kind, endpointAddr := addr)], peer, kind, addr)
  {
  }

  lemma UpdateKindPerforms(verify: MachineVerifier, s: State, base: U64, peer: PeerId, kind: MemberKind)
    requires Inv(s)
    ensures var r := UpdateMemberKind(s, base, peer, kind);
            r.Success? ==> DoesToMembers(verify, s, OpUpdateKind(base, peer, kind), r.value.0, KindUpdate(r.value.1))
  {
    var i := MemberIndex(s.layout.members, peer);
    if i < |s.layout.members| {
      OneEntryIs(s.layout.members, peer, kind, s.layout.members[i].endpointAddr);
    }
  }

  lemma UpdateEndpointPerforms(verify: MachineVerifier, s: State, base: U64, peer: PeerId, addr: Bytes)
    requires Inv(s)
    ensures var r := UpdateMemberEndpoint(s, base, peer, addr);
            r.Success? ==>
              DoesToMembers(verify, s, OpUpdateEndpoint(base, peer, addr), r.value.0, Invalidation(r.value.1))
  {
    var i := MemberIndex(s.layout.members, peer);
    if i < |s.layout.members| {
      OneEntryIs(s.layout.members, peer, s.layout.members[i].kind, addr);
    }
  }

  lemma {:induction false} OneOutIs(members: seq<Member>, peer: PeerId)
    requires DistinctMembers(members) && IsMember(members, peer)
    ensures OneOut(members, MembersWithout(members, peer), peer)
  {
    if members[0].peerId == peer {
      forall m | m in members[1..] ensures m.peerId != peer {
      }
      StrangersLeaveNobody(members[1..], peer);
      assert members[..0] + members[1..] == MembersWithout(members, peer);
    } else {
      var rest := members[1..];
      var i :| 0 <= i < |members| && members[i].peerId == peer;
      assert rest[i - 1].peerId == peer;
      OneOutIs(rest, peer);
      var k :| 0 <= k < |rest| && rest[k].peerId == peer
               && MembersWithout(rest, peer) == rest[..k] + rest[k + 1..];
      OneOutFurther(members, rest, k);
      assert members[k + 1].peerId == peer;
    }
  }

  lemma OneOutFurther<T>(all: seq<T>, rest: seq<T>, k: nat)
    requires all != [] && rest == all[1..] && k < |rest|
    ensures [all[0]] + (rest[..k] + rest[k + 1..]) == all[..k + 1] + all[k + 2..]
  {
  }

  lemma {:induction false} StrangersLeaveNobody(members: seq<Member>, peer: PeerId)
    requires forall m :: m in members ==> m.peerId != peer
    ensures MembersWithout(members, peer) == members
  {
    if members != [] {
      StrangersLeaveNobody(members[1..], peer);
    }
  }

  lemma {:induction false} TabsArePruned(tabs: seq<Tab>, gone: set<PaneId>)
    requires forall t :: t in tabs ==> DistinctLeaves(t.root)
    ensures TabsPruned(tabs, gone, TabsWithout(tabs, gone))
  {
    if tabs != [] {
      var first, rest := TabWithout(tabs[0], gone), TabsWithout(tabs[1..], gone);
      assert tabs[0] in tabs && forall t :: t in tabs[1..] ==> t in tabs;
      TabsArePruned(tabs[1..], gone);
      TabWithoutIsPruned(tabs[0], gone);
      PruneFiltersTheLeaves(tabs[0].root, gone);
      WithoutConcat(PaneIds(tabs[0].root), Reading(tabs[1..]), gone);
      ReadingOn(first, rest);
      forall u | u in first + rest ensures PrunedFrom(tabs, gone, u) {
        if u in rest {
          assert PrunedFrom(tabs[1..], gone, u);
        }
      }
    }
  }

  lemma ReadingOn(first: seq<Tab>, rest: seq<Tab>)
    requires |first| <= 1
    ensures Reading(first + rest) == (if first == [] then [] else PaneIds(first[0].root)) + Reading(rest)
  {
    if first == [] {
      assert first + rest == rest;
    } else {
      assert (first + rest)[1..] == rest;
    }
  }

  /** What the three parts of a departure come to. */
  lemma PartsOfADeparture(l: Snapshot, peer: PeerId)
    requires ValidSnapshot(l) && IsMember(l.members, peer)
    ensures var gone := HostedBy(l.panes, peer);
            && OneOut(l.members, MembersWithout(l.members, peer), peer)
            && gone == OwnPanes(l.panes, peer)
            && TabsPruned(l.tabs, gone, TabsWithout(l.tabs, gone))
  {
    var gone := HostedBy(l.panes, peer);
    HostedByIsByKey(State(l, 0, 0, 0, None), peer);
    EveryTreeIsDistinct(l);
    TabsArePruned(l.tabs, gone);
    OneOutIs(l.members, peer);
  }

  lemma RemoveMemberPerforms(verify: MachineVerifier, s: State, peer: PeerId)
    requires Inv(s)
    ensures var (t, r) := RemoveMember(s, peer);
            r.Success? ==> DoesToMembers(verify, s, OpRemoveMember(peer), t, Invalidation(r.value))
  {
    if IsMember(s.layout.members, peer) {
      PartsOfADeparture(s.layout, peer);
    }
  }

  // ---------------------------------------------------------------------------
  // Reservations
  // ---------------------------------------------------------------------------

  lemma {:induction false} ReplacingIsGrafting(n: Node, wanted: PaneId, graft: Node)
    requires ContainsLeaf(n, wanted)
    ensures ReplaceLeaf(n, wanted, graft) == (GraftAt(n, PathTo(n, wanted), graft), true)
  {
    if n.Split? {
      ReplaceLeafFinds(n.first, wanted, graft);
      var next := if ContainsLeaf(n.first, wanted) then n.first else n.second;
      ReplacingIsGrafting(next, wanted, graft);
      assert PathTo(n, wanted)[1..] == PathTo(next, wanted);
    }
  }

  lemma SplittingOneTab(
    l: Snapshot, target: PaneId, added: PaneId, axis: Axis, position: NewPanePosition)
    requires ValidSnapshot(l) && target in l.panes
    ensures var i := TabIndexForPane(l.tabs, target);
            i < |l.tabs| && SplitsLeaf(l.tabs, l.tabs[i := WithSplit(l.tabs[i], target, added, axis, position)],
                                       target, added, axis, position)
  {
    OneTabShows(l, target);
    var i := TabIndexForPane(l.tabs, target);
    var after := l.tabs[i := WithSplit(l.tabs[i], target, added, axis, position)];
    ReplacingIsGrafting(l.tabs[i].root, target, NewSplit(target, added, axis, position));
    assert NewSplit(target, added, axis, position) == Halved(target, added, axis, position);
    forall j | 0 <= j < |l.tabs| && j != i ensures !ContainsLeaf(l.tabs[j].root, target) {
      LeafIsInOneTab(l.tabs, target);
      assert TabsCount(l.tabs, target) == 1;
    }
  }

  lemma ReadyOpens(s: State, p: Pending)
    requires Inv(s) && s.pending == Some(p)
    ensures var r := PaneReady(s, p.host, p.baseRevision, p.reservationId);
            && r.Success? && OpensReserved(s, p, r.value.0, r.value.1)
            && r.value.0 == s.(layout := r.value.0.layout, pending := None)
  {
    PendingCompletes(s, p.host, p.baseRevision, p.reservationId);
    if p.kind.PendingPane? {
      SplittableExactly(s.layout, p.kind.target);
      assert !Unsplittable(s.layout, p.kind.target, UnknownPane(p.kind.target));
      SplittingOneTab(s.layout, p.kind.target, p.kind.paneId, p.kind.axis, p.kind.position);
    }
  }

  lemma ReservationsPerform(s: State, op: Op)
    requires Inv(s) && OnReservations(op)
    ensures var next := StepReservations(s, op);
            next.1.Success? ==> DoesToReservations(s, op, next.0, next.1.value)
  {
    if op.OpPaneReady? && StepReservations(s, op).1.Success? {
      PendingCompletes(s, op.host, op.baseRevision, op.reservationId);
      ReadyOpens(s, s.pending.value);
    }
  }

  lemma CreatePanePerforms(
    s: State, requester: PeerId, base: U64, target: PaneId, axis: Axis,
    position: NewPanePosition, rows: U16, cols: U16)
    requires Inv(s)
    ensures var (t, r) := CreatePane(s, requester, base, target, axis, position, rows, cols);
            r.Success? ==>
              DoesCreation(s, OpCreatePane(requester, base, target, axis, position, rows, cols), t, NewPane(r.value))
  {
    CreatePaneCommits(s, requester, base, target, axis, position, rows, cols);
    KeepsReservePane(s, requester, requester, base, target, axis, position, rows, cols);
    var reserve := ReservePane(s, requester, requester, base, target, axis, position, rows, cols);
    if reserve.Success? {
      ReadyOpens(reserve.value.0, reserve.value.0.pending.value);
    }
  }

  lemma CreateTabPerforms(s: State, requester: PeerId, base: U64, rows: U16, cols: U16)
    requires Inv(s)
    ensures var (t, r) := CreateTab(s, requester, base, rows, cols);
            r.Success? ==> DoesCreation(s, OpCreateTab(requester, base, rows, cols), t, NewTab(r.value))
  {
    CreateTabCommits(s, requester, base, rows, cols);
    KeepsReserveTab(s, requester, requester, base, rows, cols);
    var reserve := ReserveTab(s, requester, requester, base, rows, cols);
    if reserve.Success? {
      ReadyOpens(reserve.value.0, reserve.value.0.pending.value);
    }
  }

  // ---------------------------------------------------------------------------
  // Edits
  // ---------------------------------------------------------------------------

  lemma DroppingALeaf(l: Snapshot, id: PaneId)
    requires ValidSnapshot(l) && id in l.panes
    ensures var i := TabIndexForPane(l.tabs, id);
            i < |l.tabs| &&
            forall root :: RemoveLeaf(l.tabs[i].root, id) == Some(root) ==>
              DropsLeaf(l.tabs, l.tabs[i := l.tabs[i].(root := root)], id)
  {
    OneTabShows(l, id);
    var i := TabIndexForPane(l.tabs, id);
    TabTreesAreDistinct(l.tabs, l.panes, i);
    RemoveLeafIsPrune(l.tabs[i].root, id);
    forall j | 0 <= j < |l.tabs| && j != i ensures Prune(l.tabs[j].root, {id}) == Some(l.tabs[j].root) {
      LeafIsInOneTab(l.tabs, id);
      assert TabsCount(l.tabs, id) == 1;
      PruneAbsent(l.tabs[j].root, {id});
    }
  }

  lemma DeletePanePerforms(s: State, requester: PeerId, base: U64, id: PaneId)
    requires Inv(s)
    ensures var r := DeletePane(s, requester, base, id);
            r.Success? ==> DoesToStructure(s, OpDeletePane(requester, base, id), r.value)
  {
    if id in s.layout.panes {
      DroppingALeaf(s.layout, id);
      var root := s.layout.tabs[TabIndexForPane(s.layout.tabs, id)].root;
      LeavesOfASplit(root);
      RemoveLeafTakesOne(root, id);
    }
  }

  lemma DeleteTabPerforms(s: State, requester: PeerId, base: U64, tabId: TabId)
    requires Inv(s)
    ensures var r := DeleteTab(s, requester, base, tabId);
            r.Success? ==> DoesToStructure(s, OpDeleteTab(requester, base, tabId), r.value)
  {
    var l := s.layout;
    var i := TabIndex(l.tabs, tabId);
    if i < |l.tabs| {
      var ids := PaneIds(l.tabs[i].root);
      forall id ensures id in ids <==> ContainsLeaf(l.tabs[i].root, id) {
        CountsMembers(l.tabs[i].root, id);
      }
      assert l.panes - (set id | id in ids)
             == map id | id in l.panes && !ContainsLeaf(l.tabs[i].root, id) :: l.panes[id];
    }
  }

  lemma SetRatioPerforms(s: State, requester: PeerId, base: U64, id: PaneId, axis: Axis, share: U16)
    requires Inv(s)
    ensures var r := SetSplitRatio(s, requester, base, id, axis, share);
            r.Success? ==> DoesToStructure(s, OpSetRatio(requester, base, id, axis, share), r.value)
  {
    if TabIndexForPane(s.layout.tabs, id) < |s.layout.tabs| {
      SharingInOneTab(s.layout, id, axis, share);
    }
  }

  lemma SharingInOneTab(l: Snapshot, id: PaneId, axis: Axis, share: U16)
    requires ValidSnapshot(l) && TabIndexForPane(l.tabs, id) < |l.tabs|
    ensures var i := TabIndexForPane(l.tabs, id);
            var (root, done) := SetNearestSplitRatio(l.tabs[i].root, id, axis, share);
            done ==> SetsShare(l.tabs, l.tabs[i := l.tabs[i].(root := root)], id, axis, share)
  {
    var i := TabIndexForPane(l.tabs, id);
    var (root, done) := SetNearestSplitRatio(l.tabs[i].root, id, axis, share);
    OneTabShows(l, id);
    TabTreesAreDistinct(l.tabs, l.panes, i);
    RatioGoesToTheNearestSplit(l.tabs[i].root, id, axis, share);
    if done {
      var k: nat :| NearestOnPath(l.tabs[i].root, id, axis, k);
      assert SharedAt(l.tabs[i].root, root, id, axis, share, k);
      LeafIsInOneTab(l.tabs, id);
      assert TabsCount(l.tabs, id) == 1;
    }
  }

  lemma UpdateGridsPerforms(s: State, requester: PeerId, base: U64, grids: seq<GridChange>)
    ensures var r := UpdatePaneGrids(s, requester, base, grids);
            r.Success? ==> DoesToStructure(s, OpUpdateGrids(requester, base, grids), r.value)
  {
    var panes := s.layout.panes;
    if CheckGrids(panes, requester, grids, {}).Pass? {
      GridBatchChangesWhatItLists(panes, requester, grids, {});
      forall id | id in panes && (forall i: nat :: !Listed(grids, i, id))
        ensures ApplyGrids(panes, grids)[id] == panes[id]
      {
        assert forall i: nat :: i < |grids| && grids[i].0 == id ==> Listed(grids, i, id);
      }
    }
  }

  lemma TitlesAreStored(title: string)
    ensures NormalizeTitle(title).Success? ==> TitledBy(title, NormalizeTitle(title).value)
  {
    NormalizesExactly(title);
    var x :| TrimsTo(title, x);
  }

  lemma RenamePanePerforms(s: State, requester: PeerId, base: U64, id: PaneId, title: string)
    ensures var r := RenamePane(s, requester, base, id, title);
            r.Success? ==> DoesToDetails(s, OpRenamePane(requester, base, id, title), r.value)
  {
    TitlesAreStored(title);
  }

  lemma RenameTabPerforms(s: State, requester: PeerId, base: U64, tabId: TabId, title: string)
    requires Inv(s)
    ensures var r := RenameTab(s, requester, base, tabId, title);
            r.Success? ==> DoesToDetails(s, OpRenameTab(requester, base, tabId, title), r.value)
  {
    TitlesAreStored(title);
  }

  lemma FlagsPerform(s: State, requester: PeerId, base: U64, id: PaneId, locked: bool)
    ensures var r := SetPaneLock(s, requester, base, id, locked);
            r.Success? ==> DoesToDetails(s, OpSetLock(requester, base, id, locked), r.value)
    ensures var r := MarkPaneExited(s, requester, base, id);
            r.Success? ==> DoesToDetails(s, OpMarkExited(requester, base, id), r.value)
  {
  }

  // ---------------------------------------------------------------------------
  // Every request
  // ---------------------------------------------------------------------------

  lemma MembersPerform(verify: MachineVerifier, s: State, op: Op)
    requires Inv(s) && OnMembers(op)
    ensures var next := StepMembers(verify, s, op);
            next.1.Success? ==> DoesToMembers(verify, s, op, next.0, next.1.value)
  {
    match op
    case OpAddMember(base, peer, addr, identity) => AddMemberPerforms(verify, s, base, peer, addr, identity);
    case OpUpdateKind(base, peer, kind) => UpdateKindPerforms(verify, s, base, peer, kind);
    case OpUpdateEndpoint(base, peer, addr) => UpdateEndpointPerforms(verify, s, base, peer, addr);
    case OpRemoveMember(peer) => RemoveMemberPerforms(verify, s, peer);
  }

  lemma CreationPerforms(s: State, op: Op)
    requires Inv(s) && Creates(op)
    ensures var next := StepCreation(s, op);
            next.1.Success? ==> DoesCreation(s, op, next.0, next.1.value)
  {
    match op
    case OpCreatePane(requester, base, target, axis, position, rows, cols) =>
      CreatePanePerforms(s, requester, base, target, axis, position, rows, cols);
    case OpCreateTab(requester, base, rows, cols) => CreateTabPerforms(s, requester, base, rows, cols);
  }

  lemma StructurePerforms(s: State, op: Op)
    requires Inv(s) && OnStructure(op)
    ensures var next := StepStructure(s, op);
            next.1.Success? ==> DoesToStructure(s, op, next.0) && next.1.value == Done
  {
    match op
    case OpDeletePane(requester, base, id) => DeletePanePerforms(s, requester, base, id);
    case OpDeleteTab(requester, base, id) => DeleteTabPerforms(s, requester, base, id);
    case OpSetRatio(requester, base, id, axis, share) => SetRatioPerforms(s, requester, base, id, axis, share);
    case OpUpdateGrids(requester, base, grids) => UpdateGridsPerforms(s, requester, base, grids);
  }

  lemma DetailsPerform(s: State, op: Op)
    requires Inv(s) && OnDetails(op)
    ensures var next := StepDetails(s, op);
            next.1.Success? ==> DoesToDetails(s, op, next.0) && next.1.value == Done
  {
    match op
    case OpSetLock(requester, base, id, locked) => FlagsPerform(s, requester, base, id, locked);
    case OpMarkExited(requester, base, id) => FlagsPerform(s, requester, base, id, true);
    case OpRenamePane(requester, base, id, title) => RenamePanePerforms(s, requester, base, id, title);
    case OpRenameTab(requester, base, id, title) => RenameTabPerforms(s, requester, base, id, title);
  }

  /** In a valid session every granted request does what it is for, and touches nothing else. */
  lemma EveryRequestPerforms(verify: MachineVerifier, s: State, op: Op)
    requires Inv(s)
    ensures var next := Step(verify, s, op);
            next.1.Success? ==> Does(verify, s, op, next.0, next.1.value)
  {
    if OnMembers(op) {
      MembersPerform(verify, s, op);
    } else if OnReservations(op) {
      ReservationsPerform(s, op);
    } else if Creates(op) {
      CreationPerforms(s, op);
    } else if OnStructure(op) {
      StructurePerforms(s, op);
    } else {
      DetailsPerform(s, op);
    }
  }

  // ---------------------------------------------------------------------------
  // The first day
  // ---------------------------------------------------------------------------

  /** A session starts with its host, one tab and one pane, if the host may be a member and the grid is one. */
  lemma NewSessionExactly(
    verify: MachineVerifier, host: PeerId, addr: Bytes, identity: MemberIdentity, rows: U16, cols: U16)
    ensures var r := NewSession(verify, host, addr, identity, rows, cols);
            && (r.Success? <==>
                  && rows > 0 && cols > 0
                  && 0 < |host| <= MAX_PEER_ID_BYTES && 0 < |addr| <= MAX_ENDPOINT_ADDR_BYTES
                  && ShortAndPlain(identity.displayName, MAX_DISPLAY_NAME_CHARS))
            && (r.Success? ==>
                  var (s, l) := (r.value, r.value.layout);
                  && |l.members| == 1 && ListedAs(verify, l.members[0], host, addr, identity)
                  && l.tabs == [Tab(1, Leaf(1), None)]
                  && l.panes == map[1 := Pane(1, host, false, false, rows, cols, None)]
                  && s == State(l, 2, 2, 1, None) && l.revision == 1)
            && (r.Failure? ==>
                  match r.error
                  case InvalidGrid => rows == 0 || cols == 0
                  case InvalidPeerId => host == [] || |host| > MAX_PEER_ID_BYTES
                  case InvalidEndpointAddress => addr == [] || |addr| > MAX_ENDPOINT_ADDR_BYTES
                  case InvalidDisplayName => !ShortAndPlain(identity.displayName, MAX_DISPLAY_NAME_CHARS)
                  case _ => false)
  {
  }
}
