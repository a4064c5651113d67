/** Safety of whole runs of one session authority, and of handing it over by `restore`. */
module LayoutRuns {
  import opened Common
  import opened LayoutTree
  import opened LayoutModel
  import opened LayoutInvariant

  // ---------------------------------------------------------------------------
  // One step
  // ---------------------------------------------------------------------------

  /** Reserve-then-commit never stops halfway: what reserves also commits, in every state. */
  lemma CreatePaneCommits(
    s: State, requester: PeerId, base: U64, target: PaneId, axis: Axis,
    position: NewPanePosition, rows: U16, cols: U16)
    ensures var r := CreatePane(s, requester, base, target, axis, position, rows, cols);
            var reserve := ReservePane(s, requester, requester, base, target, axis, position, rows, cols);
            && (r.1.Failure? ==> r.0 == s && reserve == Failure(r.1.error))
            && (r.1.Success? ==>
                  && reserve.Success? && r.1.value == s.nextPaneId
                  && PaneReady(reserve.value.0, requester, base, s.nextReservationId).Success?
                  && PaneReady(reserve.value.0, requester, base, s.nextReservationId).value.0 == r.0)
  {
    var reserve := ReservePane(s, requester, requester, base, target, axis, position, rows, cols);
    if reserve.Success? {
      var i := TabIndexForPane(s.layout.tabs, target);
      ReplaceLeafFinds(s.layout.tabs[i].root, target, NewSplit(target, s.nextPaneId, axis, position));
    }
  }

  lemma CreateTabCommits(s: State, requester: PeerId, base: U64, rows: U16, cols: U16)
    ensures var r := CreateTab(s, requester, base, rows, cols);
            var reserve := ReserveTab(s, requester, requester, base, rows, cols);
            && (r.1.Failure? ==> r.0 == s && reserve == Failure(r.1.error))
            && (r.1.Success? ==>
                  && reserve.Success? && r.1.value == s.nextTabId
                  && PaneReady(reserve.value.0, requester, base, s.nextReservationId).Success?
                  && PaneReady(reserve.value.0, requester, base, s.nextReservationId).value.0 == r.0)
  {
  }

  lemma KeepsCreatePane(
    s: State, requester: PeerId, base: U64, target: PaneId, axis: Axis,
    position: NewPanePosition, rows: U16, cols: U16)
    requires Inv(s)
    ensures Inv(CreatePane(s, requester, base, target, axis, position, rows, cols).0)
  {
    CreatePaneCommits(s, requester, base, target, axis, position, rows, cols);
    KeepsReservePane(s, requester, requester, base, target, axis, position, rows, cols);
    var reserve := ReservePane(s, requester, requester, base, target, axis, position, rows, cols);
    if reserve.Success? {
      KeepsPaneReady(reserve.value.0, requester, base, s.nextReservationId);
    }
  }

  lemma KeepsCreateTab(s: State, requester: PeerId, base: U64, rows: U16, cols: U16)
    requires Inv(s)
    ensures Inv(CreateTab(s, requester, base, rows, cols).0)
  {
    CreateTabCommits(s, requester, base, rows, cols);
    KeepsReserveTab(s, requester, requester, base, rows, cols);
    var reserve := ReserveTab(s, requester, requester, base, rows, cols);
    if reserve.Success? {
      KeepsPaneReady(reserve.value.0, requester, base, s.nextReservationId);
    }
  }

  /** Every operation but one departure keeps the invariant, and that departure always breaks it. */
  lemma StepKeepsInvExactly(verify: MachineVerifier, s: State, op: Op)
    requires Inv(s)
    ensures Inv(Step(verify, s, op).0) <==> !LosesTabs(s, op)
  {
    if OnMembers(op) {
      MembershipKeepsInv(verify, s, op);
    } else if OnReservations(op) {
      ReservingKeepsInv(s, op);
    } else if Creates(op) {
      CreationKeepsInv(s, op);
    } else if OnStructure(op) {
      StructureKeepsInv(s, op);
    } else {
      DetailsKeepInv(s, op);
    }
  }

  lemma MembershipKeepsInv(verify: MachineVerifier, s: State, op: Op)
    requires Inv(s) && OnMembers(op)
    ensures Inv(StepMembers(verify, s, op).0) <==> !LosesTabs(s, op)
  {
    match op
    case OpAddMember(base, peer, addr, identity) => KeepsAddMember(verify, s, base, peer, addr, identity);
    case OpUpdateKind(base, peer, kind) => KeepsUpdateMember(s, base, peer, kind, []);
    case OpUpdateEndpoint(base, peer, addr) => KeepsUpdateMember(s, base, peer, Unspecified, addr);
    case OpRemoveMember(peer) =>
      FailedDeparture(s, peer);
      if RemoveMember(s, peer).1.Success? {
        KeepsRemoveMember(s, peer);
      }
  }

  lemma ReservingKeepsInv(s: State, op: Op)
    requires Inv(s) && OnReservations(op)
    ensures Inv(StepReservations(s, op).0)
  {
    match op
    case OpReservePane(creator, host, base, target, axis, position, rows, cols) =>
      KeepsReservePane(s, creator, host, base, target, axis, position, rows, cols);
    case OpReserveTab(creator, host, base, rows, cols) => KeepsReserveTab(s, creator, host, base, rows, cols);
    case OpPaneReady(host, base, id) => KeepsPaneReady(s, host, base, id);
    case _ =>
  }

  lemma CreationKeepsInv(s: State, op: Op)
    requires Inv(s) && Creates(op)
    ensures Inv(StepCreation(s, op).0)
  {
    match op
    case OpCreatePane(requester, base, target, axis, position, rows, cols) =>
      KeepsCreatePane(s, requester, base, target, axis, position, rows, cols);
    case OpCreateTab(requester, base, rows, cols) => KeepsCreateTab(s, requester, base, rows, cols);
  }

  lemma StructureKeepsInv(s: State, op: Op)
    requires Inv(s) && OnStructure(op)
    ensures Inv(StepStructure(s, op).0)
  {
    match op
    case OpDeletePane(requester, base, paneId) => KeepsDeletePane(s, requester, base, paneId);
    case OpDeleteTab(requester, base, tabId) => KeepsDeleteTab(s, requester, base, tabId);
    case OpSetRatio(requester, base, paneId, axis, share) =>
      KeepsSetSplitRatio(s, requester, base, paneId, axis, share);
    case OpUpdateGrids(requester, base, grids) => KeepsUpdatePaneGrids(s, requester, base, grids);
  }

  lemma DetailsKeepInv(s: State, op: Op)
    requires Inv(s) && OnDetails(op)
    ensures Inv(StepDetails(s, op).0)
  {
    match op
    case OpSetLock(requester, base, paneId, locked) => KeepsPaneFlags(s, requester, base, paneId, locked);
    case OpMarkExited(requester, base, paneId) => KeepsPaneFlags(s, requester, base, paneId, true);
    case OpRenamePane(requester, base, paneId, title) => KeepsRenamePane(s, requester, base, paneId, title);
    case OpRenameTab(requester, base, tabId, title) => KeepsRenameTab(s, requester, base, tabId, title);
  }

  /** A refused request changes nothing, again but for that departure. */
  lemma RefusalChangesNothing(verify: MachineVerifier, s: State, op: Op)
    requires Inv(s)
    ensures Step(verify, s, op).1.Failure? ==> (Step(verify, s, op).0 == s <==> !LosesTabs(s, op))
  {
    if OnMembers(op) {
      RefusedMembership(verify, s, op);
    } else if OnReservations(op) {
      RefusedReservation(s, op);
    } else if Creates(op) {
      RefusedCreation(s, op);
    } else if OnStructure(op) {
      RefusedStructure(s, op);
    } else {
      RefusedDetails(s, op);
    }
  }

  /** The answer to a refused request leaves the state alone. */
  ghost predicate Refuses(s: State, next: StepResult) {
    next.1.Failure? && next.0 == s
  }

  /** Whatever is refused is refused without a trace, and while a reservation is pending everything is. */
  ghost predicate OnlyRefuses(s: State, next: StepResult) {
    (next.1.Failure? ==> Refuses(s, next)) && (s.pending.Some? ==> Refuses(s, next))
  }

  lemma RefusedMembership(verify: MachineVerifier, s: State, op: Op)
    requires Inv(s) && OnMembers(op)
    ensures StepMembers(verify, s, op).1.Failure? ==> (StepMembers(verify, s, op).0 == s <==> !LosesTabs(s, op))
  {
    if op.OpRemoveMember? {
      FailedDeparture(s, op.peerId);
    }
  }

  lemma RefusedReservation(s: State, op: Op)
    requires OnReservations(op)
    ensures StepReservations(s, op).1.Failure? ==> Refuses(s, StepReservations(s, op))
    ensures op.OpReservePane? || op.OpReserveTab? ==> OnlyRefuses(s, StepReservations(s, op))
  {
  }

  lemma RefusedCreation(s: State, op: Op)
    requires Creates(op)
    ensures OnlyRefuses(s, StepCreation(s, op))
  {
    match op
    case OpCreatePane(requester, base, target, axis, position, rows, cols) =>
      CreatePaneCommits(s, requester, base, target, axis, position, rows, cols);
    case OpCreateTab(requester, base, rows, cols) => CreateTabCommits(s, requester, base, rows, cols);
  }

  lemma RefusedStructure(s: State, op: Op)
    requires OnStructure(op)
    ensures OnlyRefuses(s, StepStructure(s, op))
  {
  }

  lemma RefusedDetails(s: State, op: Op)
    requires OnDetails(op)
    ensures OnlyRefuses(s, StepDetails(s, op))
  {
  }

  /** What any step other than a departure may touch, in one relation. */
  ghost predicate Footprint(verify: MachineVerifier, s: State, t: State) {
    && (t.layout == s.layout || t.layout.revision == s.layout.revision + 1)
    && IssuesFreshIds(s, t)
    && (MachinesVerified(verify, s.layout.members) ==> MachinesVerified(verify, t.layout.members))
  }

  /** Ids this authority may still bring into the layout from `s`. */
  ghost predicate MayAppear(s: State, id: PaneId) {
    id >= s.nextPaneId || (s.pending.Some? && s.pending.value.kind.paneId == id)
  }

  ghost predicate IssuesFreshIds(s: State, t: State) {
    && (forall id :: id in t.layout.panes ==> id in s.layout.panes || MayAppear(s, id))
    && (forall id :: MayAppear(t, id) ==> MayAppear(s, id))
  }

  /** Every machine id in the list, if there is one, comes with a proof that verifies for its peer. */
  ghost predicate MachinesVerified(verify: MachineVerifier, members: seq<Member>) {
    forall m :: m in members ==>
      verify(m.machineId, m.peerId, m.machineProof) || (m.machineId == [] && m.machineProof == [])
  }

  /** An edit that only its requester's check guards: members, ids and reservation stay. */
  ghost predicate DirectEdit(s: State, t: State) {
    && (t.layout == s.layout || t.layout.revision == s.layout.revision + 1)
    && t.layout.members == s.layout.members
    && t.pending == s.pending
    && t.nextPaneId == s.nextPaneId
    && t.layout.panes.Keys <= s.layout.panes.Keys
  }

  lemma DeletePaneIsDirect(s: State, requester: PeerId, base: U64, paneId: PaneId)
    ensures DeletePane(s, requester, base, paneId).Success? ==>
              DirectEdit(s, DeletePane(s, requester, base, paneId).value)
  {
  }

  lemma DeleteTabIsDirect(s: State, requester: PeerId, base: U64, tabId: TabId)
    ensures DeleteTab(s, requester, base, tabId).Success? ==> DirectEdit(s, DeleteTab(s, requester, base, tabId).value)
  {
  }

  lemma SetRatioIsDirect(s: State, requester: PeerId, base: U64, paneId: PaneId, axis: Axis, share: U16)
    ensures SetSplitRatio(s, requester, base, paneId, axis, share).Success? ==>
              DirectEdit(s, SetSplitRatio(s, requester, base, paneId, axis, share).value)
  {
  }

  lemma UpdateGridsIsDirect(s: State, requester: PeerId, base: U64, grids: seq<GridChange>)
    ensures UpdatePaneGrids(s, requester, base, grids).Success? ==>
              DirectEdit(s, UpdatePaneGrids(s, requester, base, grids).value)
  {
    if UpdatePaneGrids(s, requester, base, grids).Success? {
      GridBatchChangesWhatItLists(s.layout.panes, requester, grids, {});
    }
  }

  lemma StructureEditsAreDirect(s: State, op: Op)
    requires OnStructure(op)
    ensures DirectEdit(s, StepStructure(s, op).0)
  {
    match op
    case OpDeletePane(requester, base, paneId) => DeletePaneIsDirect(s, requester, base, paneId);
    case OpDeleteTab(requester, base, tabId) => DeleteTabIsDirect(s, requester, base, tabId);
    case OpSetRatio(requester, base, paneId, axis, share) => SetRatioIsDirect(s, requester, base, paneId, axis, share);
    case OpUpdateGrids(requester, base, grids) => UpdateGridsIsDirect(s, requester, base, grids);
  }

  lemma DetailEditsAreDirect(s: State, op: Op)
    requires OnDetails(op)
    ensures DirectEdit(s, StepDetails(s, op).0)
  {
  }

  lemma DirectEditsHaveFootprints(verify: MachineVerifier, s: State, t: State)
    requires DirectEdit(s, t)
    ensures Footprint(verify, s, t)
  {
  }

  lemma MembershipFootprint(verify: MachineVerifier, s: State, op: Op)
    requires OnMembers(op) && !op.OpRemoveMember?
    ensures Footprint(verify, s, StepMembers(verify, s, op).0)
  {
    if !op.OpAddMember? {
      var i := MemberIndex(s.layout.members, op.peerId);
      assert i < |s.layout.members| ==> s.layout.members[i] in s.layout.members;
    }
  }

  /** Granting or ending a reservation commits nothing. */
  lemma ReservationsCommitNothing(s: State, op: Op)
    requires OnReservations(op) && !op.OpPaneReady?
    ensures StepReservations(s, op).0.layout == s.layout
  {
  }

  lemma ReservationFootprint(verify: MachineVerifier, s: State, op: Op)
    requires OnReservations(op) && !op.OpPaneReady?
    ensures Footprint(verify, s, StepReservations(s, op).0)
  {
    ReservationsCommitNothing(s, op);
  }

  lemma ReadyFootprint(verify: MachineVerifier, s: State, host: PeerId, base: U64, id: ReservationId)
    ensures PaneReady(s, host, base, id).Success? ==> Footprint(verify, s, PaneReady(s, host, base, id).value.0)
  {
  }

  /** Two footprints, the first of which commits nothing, make one. */
  lemma FootprintsCompose(verify: MachineVerifier, s: State, t: State, u: State)
    requires Footprint(verify, s, t) && t.layout == s.layout && Footprint(verify, t, u)
    ensures Footprint(verify, s, u)
  {
  }

  lemma CreatePaneFootprint(
    verify: MachineVerifier, s: State, requester: PeerId, base: U64, target: PaneId, axis: Axis,
    position: NewPanePosition, rows: U16, cols: U16)
    ensures Footprint(verify, s, CreatePane(s, requester, base, target, axis, position, rows, cols).0)
  {
    CreatePaneCommits(s, requester, base, target, axis, position, rows, cols);
    var r := ReservePane(s, requester, requester, base, target, axis, position, rows, cols);
    if r.Success? {
      ReadyFootprint(verify, r.value.0, requester, base, s.nextReservationId);
      FootprintsCompose(verify, s, r.value.0, CreatePane(s, requester, base, target, axis, position, rows, cols).0);
    }
  }

  lemma CreateTabFootprint(
    verify: MachineVerifier, s: State, requester: PeerId, base: U64, rows: U16, cols: U16)
    ensures Footprint(verify, s, CreateTab(s, requester, base, rows, cols).0)
  {
    CreateTabCommits(s, requester, base, rows, cols);
    var r := ReserveTab(s, requester, requester, base, rows, cols);
    if r.Success? {
      ReadyFootprint(verify, r.value.0, requester, base, s.nextReservationId);
      FootprintsCompose(verify, s, r.value.0, CreateTab(s, requester, base, rows, cols).0);
    }
  }

  lemma CreateFootprint(verify: MachineVerifier, s: State, op: Op)
    requires Creates(op)
    ensures Footprint(verify, s, StepCreation(s, op).0)
  {
    match op
    case OpCreatePane(requester, base, target, axis, position, rows, cols) =>
      CreatePaneFootprint(verify, s, requester, base, target, axis, position, rows, cols);
    case OpCreateTab(requester, base, rows, cols) => CreateTabFootprint(verify, s, requester, base, rows, cols);
  }

  lemma StepFootprint(verify: MachineVerifier, s: State, op: Op)
    requires !op.OpRemoveMember?
    ensures Footprint(verify, s, Step(verify, s, op).0)
  {
    if OnMembers(op) {
      MembershipFootprint(verify, s, op);
    } else if op.OpPaneReady? {
      ReadyFootprint(verify, s, op.host, op.baseRevision, op.reservationId);
    } else if OnReservations(op) {
      ReservationFootprint(verify, s, op);
    } else if Creates(op) {
      CreateFootprint(verify, s, op);
    } else if OnStructure(op) {
      StructureEditsAreDirect(s, op);
      DirectEditsHaveFootprints(verify, s, StepStructure(s, op).0);
    } else {
      DetailEditsAreDirect(s, op);
      DirectEditsHaveFootprints(verify, s, StepDetails(s, op).0);
    }
  }

  /** One step either leaves the committed layout alone or commits exactly one new revision. */
  lemma StepCommitsAtMostOnce(verify: MachineVerifier, s: State, op: Op)
    requires Inv(s)
    ensures var t := Step(verify, s, op).0;
            !LosesTabs(s, op) <==> t.layout == s.layout || t.layout.revision == s.layout.revision + 1
  {
    if op.OpRemoveMember? {
      FailedDeparture(s, op.peerId);
    } else {
      StepFootprint(verify, s, op);
    }
  }

  // ---------------------------------------------------------------------------
  // Runs
  // ---------------------------------------------------------------------------

  ghost function After(verify: MachineVerifier, s: State, ops: seq<Op>): State
    decreases |ops|
  {
    if ops == [] then s else After(verify, Step(verify, s, ops[0]).0, ops[1..])
  }

  /** No step of the run is the departure of a member that hosts every pane. */
  ghost predicate KeepsTabs(verify: MachineVerifier, s: State, ops: seq<Op>)
    decreases |ops|
  {
    ops == [] || (!LosesTabs(s, ops[0]) && KeepsTabs(verify, Step(verify, s, ops[0]).0, ops[1..]))
  }

  lemma NewSessionIsValid(
    verify: MachineVerifier, host: PeerId, addr: Bytes, identity: MemberIdentity, rows: U16, cols: U16)
    requires NewSession(verify, host, addr, identity, rows, cols).Success?
    ensures Inv(NewSession(verify, host, addr, identity, rows, cols).value)
  {
    var s := NewSession(verify, host, addr, identity, rows, cols).value;
    assert s.layout.members[0].peerId == host;
    forall id ensures TabsCount(s.layout.tabs, id) == if id in s.layout.panes then 1 else 0 {
      assert TabsCount(s.layout.tabs, id) == Count(s.layout.tabs[0].root, id) + TabsCount(s.layout.tabs[1..], id);
    }
  }

  /** Every state of every run from a valid one is valid. */
  lemma {:induction false} RunKeepsInv(verify: MachineVerifier, s: State, ops: seq<Op>)
    requires Inv(s) && KeepsTabs(verify, s, ops)
    ensures Inv(After(verify, s, ops))
    decreases |ops|
  {
    if ops != [] {
      StepKeepsInvExactly(verify, s, ops[0]);
      RunKeepsInv(verify, Step(verify, s, ops[0]).0, ops[1..]);
    }
  }

  lemma {:induction false} RunCommitsForward(verify: MachineVerifier, s: State, ops: seq<Op>)
    requires Inv(s) && KeepsTabs(verify, s, ops)
    ensures s.layout.revision <= After(verify, s, ops).layout.revision
    ensures s.layout.revision == After(verify, s, ops).layout.revision ==> After(verify, s, ops).layout == s.layout
    decreases |ops|
  {
    if ops != [] {
      StepKeepsInvExactly(verify, s, ops[0]);
      StepCommitsAtMostOnce(verify, s, ops[0]);
      RunCommitsForward(verify, Step(verify, s, ops[0]).0, ops[1..]);
    }
  }

  lemma {:induction false} RunSplits(verify: MachineVerifier, s: State, a: seq<Op>, b: seq<Op>)
    ensures After(verify, s, a + b) == After(verify, After(verify, s, a), b)
    ensures KeepsTabs(verify, s, a + b) <==> KeepsTabs(verify, s, a) && KeepsTabs(verify, After(verify, s, a), b)
    decreases |a|
  {
    if a == [] {
      assert a + b == b;
    } else {
      assert (a + b)[0] == a[0] && (a + b)[1..] == a[1..] + b;
      RunSplits(verify, Step(verify, s, a[0]).0, a[1..], b);
    }
  }

  /** Two states of one run, the second `more` operations after the first: equal revisions show one layout. */
  lemma OneRevisionOneSnapshot(verify: MachineVerifier, s: State, ops: seq<Op>, more: seq<Op>)
    requires Inv(s) && KeepsTabs(verify, s, ops + more)
    ensures var (x, y) := (After(verify, s, ops).layout, After(verify, s, ops + more).layout);
            x.revision <= y.revision && (x.revision == y.revision ==> x == y)
  {
    RunSplits(verify, s, ops, more);
    RunKeepsInv(verify, s, ops);
    RunCommitsForward(verify, After(verify, s, ops), more);
  }

  // ---------------------------------------------------------------------------
  // Reservations over runs
  // ---------------------------------------------------------------------------

  /** Whether the reply to `op` tells somebody that reservation `p` is over. */
  ghost predicate Announces(op: Op, reply: Reply, p: Pending) {
    var invalidated := Some(Invalidated(p.reservationId, p.creator));
    match op
    case OpAddMember(_, _, _, _) => reply == Invalidation(invalidated)
    case OpUpdateEndpoint(_, _, _) => reply == Invalidation(invalidated)
    case OpRemoveMember(_) => reply == Invalidation(invalidated)
    case OpUpdateKind(_, _, _) => reply == KindUpdate(Some(invalidated))
    case OpPaneReady(host, base, id) =>
      && host == p.host && base == p.baseRevision && id == p.reservationId
      && reply.Committed? && reply.commit.paneId == p.kind.paneId
      && (reply.commit.CommittedTab? <==> p.kind.PendingTab?)
      && (p.kind.PendingTab? ==> reply.commit.tabId == p.kind.tabId)
    case OpCancel(peer, id) => peer == p.host && id == p.reservationId
    case OpFail(peer, base, id) => peer == p.host && base == p.baseRevision && id == p.reservationId
    case OpExpire(id) => id == p.reservationId
    case _ => false
  }

  /** The requests that only make sense while nothing is reserved. */
  predicate IsEdit(op: Op) {
    op.OpReservePane? || op.OpReserveTab? || Creates(op) || OnStructure(op) || OnDetails(op)
  }

  lemma PendingRefusesEdits(verify: MachineVerifier, s: State, op: Op)
    requires s.pending.Some? && IsEdit(op)
    ensures Refuses(s, Step(verify, s, op))
  {
    if OnReservations(op) {
      RefusedReservation(s, op);
    } else if Creates(op) {
      RefusedCreation(s, op);
    } else if OnStructure(op) {
      RefusedStructure(s, op);
    } else {
      RefusedDetails(s, op);
    }
  }

  /** The reservation and the layout under it are as they were, or the reply announces its end. */
  ghost predicate EndsOpenly(s: State, op: Op, next: StepResult)
    requires s.pending.Some?
  {
    || (next.0.pending == s.pending && next.0.layout == s.layout)
    || (next.0.pending.None? && next.1.Success? && Announces(op, next.1.value, s.pending.value))
  }

  lemma DepartureEndsOpenly(s: State, peerId: PeerId)
    requires Inv(s) && s.pending.Some? && !HostsEverything(s, peerId)
    ensures var (t, r) := RemoveMember(s, peerId);
            if r.Failure? then t == s else t.pending.None? && r.value == InvalidationOf(s)
  {
    FailedDeparture(s, peerId);
  }

  lemma UpdatesEndOpenly(s: State, base: U64, peerId: PeerId, kind: MemberKind, addr: Bytes)
    requires s.pending.Some?
    ensures var r := UpdateMemberKind(s, base, peerId, kind);
            r.Success? ==>
              r.value.0 == s || (r.value.0.pending.None? && r.value.1 == Some(InvalidationOf(s)))
    ensures var r := UpdateMemberEndpoint(s, base, peerId, addr);
            r.Success? ==> r.value.0.pending.None? && r.value.1 == InvalidationOf(s)
  {
  }

  lemma MembershipEndsOpenly(verify: MachineVerifier, s: State, op: Op)
    requires Inv(s) && s.pending.Some? && OnMembers(op) && !LosesTabs(s, op)
    ensures EndsOpenly(s, op, StepMembers(verify, s, op))
  {
    match op
    case OpRemoveMember(peer) => DepartureEndsOpenly(s, peer);
    case OpUpdateKind(base, peer, kind) => UpdatesEndOpenly(s, base, peer, kind, []);
    case OpUpdateEndpoint(base, peer, addr) => UpdatesEndOpenly(s, base, peer, Unspecified, addr);
    case OpAddMember(_, _, _, _) =>
  }

  lemma AnswersEndOpenly(s: State, op: Op)
    requires s.pending.Some? && OnReservations(op) && !IsEdit(op)
    ensures EndsOpenly(s, op, StepReservations(s, op))
  {
  }

  /** While a reservation is pending, it stays as it is until a step that announces its end. */
  lemma ReservationsEndOpenly(verify: MachineVerifier, s: State, op: Op)
    requires Inv(s) && s.pending.Some? && !LosesTabs(s, op)
    ensures EndsOpenly(s, op, Step(verify, s, op))
  {
    if IsEdit(op) {
      PendingRefusesEdits(verify, s, op);
    } else if OnMembers(op) {
      MembershipEndsOpenly(verify, s, op);
    } else {
      AnswersEndOpenly(s, op);
    }
  }

  /** In any reachable state the named host can still commit the pending reservation. */
  lemma ReachableReservationCompletes(verify: MachineVerifier, s: State, ops: seq<Op>)
    requires Inv(s) && KeepsTabs(verify, s, ops)
    ensures var t := After(verify, s, ops);
            t.pending.Some? ==>
              var p := t.pending.value;
              && p.baseRevision == t.layout.revision
              && PaneReady(t, p.host, p.baseRevision, p.reservationId).Success?
    ensures forall host, base, id ::
              PaneReady(After(verify, s, ops), host, base, id) != Failure(ReservationInvalid)
  {
    RunKeepsInv(verify, s, ops);
    var t := After(verify, s, ops);
    forall host, base, id ensures PaneReady(t, host, base, id) != Failure(ReservationInvalid) {
      PendingCompletes(t, host, base, id);
    }
    if t.pending.Some? {
      var p := t.pending.value;
      PendingCompletes(t, p.host, p.baseRevision, p.reservationId);
    }
  }

  // ---------------------------------------------------------------------------
  // Pane ids
  // ---------------------------------------------------------------------------

  /** A pane that is gone never comes back under its old id while one authority lasts. */
  lemma {:induction false} PaneIdsAreNeverReused(verify: MachineVerifier, s: State, ops: seq<Op>, id: PaneId)
    requires id !in s.layout.panes && !MayAppear(s, id)
    ensures id !in After(verify, s, ops).layout.panes
    decreases |ops|
  {
    if ops != [] {
      if !ops[0].OpRemoveMember? {
        StepFootprint(verify, s, ops[0]);
      }
      PaneIdsAreNeverReused(verify, Step(verify, s, ops[0]).0, ops[1..], id);
    }
  }

  // ---------------------------------------------------------------------------
  // Handing over
  // ---------------------------------------------------------------------------

  ghost function Largest(ids: set<U64>): (m: U64)
    ensures ids == {} ==> m == 0
    ensures ids != {} ==> m in ids
    ensures forall id :: id in ids ==> id <= m
  {
    if ids == {} then 0
    else
      var id :| id in ids;
      var rest := Largest(ids - {id});
      assert forall other :: other in ids ==> other == id || other in ids - {id};
      if id < rest then rest else id
  }

  ghost function TabIds(tabs: seq<Tab>): set<TabId> {
    set i | 0 <= i < |tabs| :: tabs[i].tabId
  }

  ghost function Restore(snapshot: Snapshot): Result<State, LayoutError> {
    if !ValidSnapshot(snapshot) then Failure(InvalidSnapshot)
    else
      var (topPane, topTab) := (Largest(snapshot.panes.Keys), Largest(TabIds(snapshot.tabs)));
      if topPane == U64_MAX || topTab == U64_MAX then Failure(RevisionExhausted)
      else Success(State(snapshot, topTab + 1, topPane + 1, 1, None))
  }

  /** What a successor restores is the room's own layout, under valid authority. */
  lemma RestoreIsValid(snapshot: Snapshot)
    requires Restore(snapshot).Success?
    ensures Inv(Restore(snapshot).value) && Restore(snapshot).value.layout == snapshot
  {
    forall t | t in snapshot.tabs ensures t.tabId < Restore(snapshot).value.nextTabId {
      assert t.tabId in TabIds(snapshot.tabs);
    }
  }

  /**
   * A takeover from a live session always restores. It hands out again an id the old authority
   * had already issued exactly when the newest pane (or tab) issued is no longer there.
   */
  lemma RestoreReissuesExactly(s: State)
    requires Inv(s)
    ensures Restore(s.layout).Success?
    ensures var t := Restore(s.layout).value;
            && t.nextPaneId <= s.nextPaneId && t.nextTabId <= s.nextTabId
            && (t.nextPaneId < s.nextPaneId <==> s.nextPaneId - 1 !in s.layout.panes)
            && (t.nextTabId < s.nextTabId <==> s.nextTabId - 1 !in TabIds(s.layout.tabs))
  {
    var topPane, topTab := Largest(s.layout.panes.Keys), Largest(TabIds(s.layout.tabs));
    assert s.layout.tabs[0].tabId in TabIds(s.layout.tabs);
    var root := s.layout.tabs[0].root;
    LeavesOfASplit(root);
    TabTreesAreDistinct(s.layout.tabs, s.layout.panes, 0);
    assert PaneIds(root)[0] in s.layout.panes.Keys;
    assert topPane < s.nextPaneId;
    assert topTab < s.nextTabId;
  }

  // ---------------------------------------------------------------------------
  // Round trips
  // ---------------------------------------------------------------------------

  /** Deleting the pane that a split just added finds it, and finds the tree as it was before. */
  lemma AddedPaneIsRemovable(
    tabs: seq<Tab>, i: nat, target: PaneId, added: PaneId, axis: Axis, position: NewPanePosition)
    requires i < |tabs| && ContainsLeaf(tabs[i].root, target) && TabsCount(tabs, added) == 0
    ensures var root := ReplaceLeaf(tabs[i].root, target, NewSplit(target, added, axis, position)).0;
            && TabIndexForPane(tabs[i := tabs[i].(root := root)], added) == i
            && |PaneIds(root)| != 1
            && RemoveLeaf(root, added) == Some(tabs[i].root)
  {
    var before, split := tabs[i].root, NewSplit(target, added, axis, position);
    var tab := tabs[i].(root := ReplaceLeaf(before, target, split).0);
    TabsCountUpdate(tabs, i, tab, added);
    CountsMembers(before, added);
    CountsMembers(before, target);
    SplitAddsOneLeaf(before, target, added, axis, position);
    SplitThenRemoveUndoes(before, target, added, split);
    RemoveLeafTakesOne(tab.root, added);
    LeavesOfASplit(tab.root);
    CountsMembers(tab.root, added);
    LeafIsInOneTab(tabs[i := tab], added);
    assert ContainsLeaf(tabs[i := tab][i].root, added);
  }

  /** The tree of tab `i` with its pane `target` split to make room for `added`. */
  function WithSplit(tab: Tab, target: PaneId, added: PaneId, axis: Axis, position: NewPanePosition): Tab {
    tab.(root := ReplaceLeaf(tab.root, target, NewSplit(target, added, axis, position)).0)
  }

  /** What creating a pane comes to, in one step. */
  lemma CreatedPane(
    s: State, requester: PeerId, target: PaneId, axis: Axis, position: NewPanePosition, rows: U16, cols: U16)
    requires CreatePane(s, requester, s.layout.revision, target, axis, position, rows, cols).1.Success?
    ensures var (t, r) := CreatePane(s, requester, s.layout.revision, target, axis, position, rows, cols);
            var (l, i, id) := (s.layout, TabIndexForPane(s.layout.tabs, target), s.nextPaneId);
            && r.value == id && i < |l.tabs| && IsMember(l.members, requester) && t.pending.None?
            && l.revision < U64_MAX
            && t.layout == Snapshot(l.revision + 1, l.members,
                                    l.tabs[i := WithSplit(l.tabs[i], target, id, axis, position)],
                                    l.panes[id := FirstPane(requester, id, rows, cols)])
  {
    CreatePaneCommits(s, requester, s.layout.revision, target, axis, position, rows, cols);
  }

  /** Deleting a pane that a split added to tab `i` undoes the split. */
  lemma DeletingUndoesASplit(
    l: Snapshot, i: nat, t: State, pane: Pane, target: PaneId, axis: Axis, position: NewPanePosition)
    requires i < |l.tabs| && ContainsLeaf(l.tabs[i].root, target)
    requires pane.paneId !in l.panes && TabsCount(l.tabs, pane.paneId) == 0
    requires IsMember(l.members, pane.host) && t.pending.None? && t.layout.revision < U64_MAX
    requires t.layout == Snapshot(t.layout.revision, l.members,
                                  l.tabs[i := WithSplit(l.tabs[i], target, pane.paneId, axis, position)],
                                  l.panes[pane.paneId := pane])
    ensures DeletePane(t, pane.host, t.layout.revision, pane.paneId)
            == Success(t.(layout := l.(revision := t.layout.revision + 1)))
  {
    var id, split := pane.paneId, WithSplit(l.tabs[i], target, pane.paneId, axis, position);
    AddedPaneIsRemovable(l.tabs, i, target, id, axis, position);
    assert t.layout.tabs[i := split.(root := l.tabs[i].root)] == l.tabs;
    assert t.layout.panes - {id} == l.panes;
    assert CheckRequest(t, pane.host, t.layout.revision).Success?;
  }

  /** Creating a pane and deleting it gives back every tab and pane, two revisions later. */
  lemma CreatePaneThenDelete(
    s: State, requester: PeerId, target: PaneId, axis: Axis, position: NewPanePosition, rows: U16, cols: U16)
    requires Inv(s) && s.layout.revision < U64_MAX - 1
    requires CreatePane(s, requester, s.layout.revision, target, axis, position, rows, cols).1.Success?
    ensures var (t, id) := CreatePane(s, requester, s.layout.revision, target, axis, position, rows, cols);
            DeletePane(t, requester, s.layout.revision + 1, id.value)
            == Success(t.(layout := s.layout.(revision := s.layout.revision + 2)))
  {
    CreatedPane(s, requester, target, axis, position, rows, cols);
    var t := CreatePane(s, requester, s.layout.revision, target, axis, position, rows, cols).0;
    var i := TabIndexForPane(s.layout.tabs, target);
    var pane := FirstPane(requester, s.nextPaneId, rows, cols);
    assert TabsCount(s.layout.tabs, pane.paneId) == if pane.paneId in s.layout.panes then 1 else 0;
    DeletingUndoesASplit(s.layout, i, t, pane, target, axis, position);
  }

  lemma CreatedTab(s: State, requester: PeerId, rows: U16, cols: U16)
    requires CreateTab(s, requester, s.layout.revision, rows, cols).1.Success?
    ensures var (t, r) := CreateTab(s, requester, s.layout.revision, rows, cols);
            var (l, id) := (s.layout, s.nextPaneId);
            && r.value == s.nextTabId && |l.tabs| < MAX_TABS && IsMember(l.members, requester) && t.pending.None?
            && l.revision < U64_MAX
            && t.layout == Snapshot(l.revision + 1, l.members, l.tabs + [Tab(s.nextTabId, Leaf(id), None)],
                                    l.panes[id := FirstPane(requester, id, rows, cols)])
  {
    CreateTabCommits(s, requester, s.layout.revision, rows, cols);
  }

  /** Deleting a tab of one pane that was opened last takes it away again. */
  lemma DeletingUndoesATab(l: Snapshot, t: State, tabId: TabId, pane: Pane)
    requires l.tabs != [] && forall tab :: tab in l.tabs ==> tab.tabId < tabId
    requires pane.paneId !in l.panes
    requires IsMember(l.members, pane.host) && t.pending.None? && t.layout.revision < U64_MAX
    requires t.layout == Snapshot(t.layout.revision, l.members, l.tabs + [Tab(tabId, Leaf(pane.paneId), None)],
                                  l.panes[pane.paneId := pane])
    ensures DeleteTab(t, pane.host, t.layout.revision, tabId)
            == Success(t.(layout := l.(revision := t.layout.revision + 1)))
  {
    var added := Tab(tabId, Leaf(pane.paneId), None);
    AddedTabIsLast(l.tabs, added);
    assert PaneIds(added.root) == [pane.paneId];
    assert (l.tabs + [added])[..|l.tabs|] + (l.tabs + [added])[|l.tabs| + 1..] == l.tabs;
    assert l.panes[pane.paneId := pane] - (set x | x in [pane.paneId]) == l.panes;
    assert CheckRequest(t, pane.host, t.layout.revision).Success?;
  }

  /** The same for a tab. */
  lemma CreateTabThenDelete(s: State, requester: PeerId, rows: U16, cols: U16)
    requires Inv(s) && s.layout.revision < U64_MAX - 1
    requires CreateTab(s, requester, s.layout.revision, rows, cols).1.Success?
    ensures var (t, id) := CreateTab(s, requester, s.layout.revision, rows, cols);
            DeleteTab(t, requester, s.layout.revision + 1, id.value)
            == Success(t.(layout := s.layout.(revision := s.layout.revision + 2)))
  {
    CreatedTab(s, requester, rows, cols);
    var t := CreateTab(s, requester, s.layout.revision, rows, cols).0;
    DeletingUndoesATab(s.layout, t, s.nextTabId, FirstPane(requester, s.nextPaneId, rows, cols));
  }

  lemma {:induction false} AddedTabIsLast(tabs: seq<Tab>, added: Tab)
    requires forall t :: t in tabs ==> t.tabId < added.tabId
    ensures TabIndex(tabs + [added], added.tabId) == |tabs|
  {
    var all := tabs + [added];
    if tabs != [] {
      assert tabs[0] in tabs && all[0] == tabs[0];
      assert all[1..] == tabs[1..] + [added];
      AddedTabIsLast(tabs[1..], added);
    }
  }

  // ---------------------------------------------------------------------------
  // Who may touch a pane
  // ---------------------------------------------------------------------------

  lemma CommittedPaneIs(s: State, base: U64)
    requires s.pending.Some? && s.pending.value.kind.PendingPane?
    ensures var p := s.pending.value;
            var r := PaneReady(s, p.host, base, p.reservationId);
            r.Success? ==>
              r.value.0.layout.panes
              == s.layout.panes[p.kind.paneId := FirstPane(p.host, p.kind.paneId, p.kind.rows, p.kind.cols)]
  {
  }

  /** What a reservation answered is what its commit delivers: that id, that host, that grid. */
  lemma ReadyDeliversTheReservation(
    s: State, creator: PeerId, host: PeerId, base: U64, target: PaneId, axis: Axis,
    position: NewPanePosition, rows: U16, cols: U16)
    requires Inv(s)
    ensures var reserve := ReservePane(s, creator, host, base, target, axis, position, rows, cols);
            reserve.Success? ==>
              var (t, promised) := reserve.value;
              var ready := PaneReady(t, promised.host, base, promised.reservationId);
              && promised.host == host && (promised.rows, promised.cols) == (rows, cols)
              && ready.Success? && promised.paneId !in s.layout.panes
              && promised.paneId in ready.value.0.layout.panes
              && var pane := ready.value.0.layout.panes[promised.paneId];
                 pane.host == host && (pane.rows, pane.cols) == (rows, cols) && !pane.locked && !pane.exited
  {
    KeepsReservePane(s, creator, host, base, target, axis, position, rows, cols);
    var reserve := ReservePane(s, creator, host, base, target, axis, position, rows, cols);
    if reserve.Success? {
      PendingCompletes(reserve.value.0, host, base, reserve.value.1.reservationId);
      CommittedPaneIs(reserve.value.0, base);
    }
  }

  /** The peer on whose word an operation acts on existing panes, if it names one. */
  function Requester(op: Op): Option<PeerId> {
    match op
    case OpDeletePane(requester, _, _) => Some(requester)
    case OpDeleteTab(requester, _, _) => Some(requester)
    case OpUpdateGrids(requester, _, _) => Some(requester)
    case OpSetLock(requester, _, _, _) => Some(requester)
    case OpMarkExited(requester, _, _) => Some(requester)
    case _ => None
  }

  lemma ReadyOnlyAdds(s: State, host: PeerId, base: U64, reservationId: ReservationId, id: PaneId)
    requires id in s.layout.panes && s.pending.Some? && s.pending.value.kind.paneId != id
    requires PaneReady(s, host, base, reservationId).Success?
    ensures var t := PaneReady(s, host, base, reservationId).value.0;
            id in t.layout.panes && t.layout.panes[id] == s.layout.panes[id]
  {
  }

  lemma CreatePaneOnlyAdds(
    s: State, requester: PeerId, base: U64, target: PaneId, axis: Axis,
    position: NewPanePosition, rows: U16, cols: U16, id: PaneId)
    requires Inv(s) && id in s.layout.panes
    ensures var t := CreatePane(s, requester, base, target, axis, position, rows, cols).0;
            id in t.layout.panes && t.layout.panes[id] == s.layout.panes[id]
  {
    CreatePaneCommits(s, requester, base, target, axis, position, rows, cols);
    var r := ReservePane(s, requester, requester, base, target, axis, position, rows, cols);
    if r.Success? {
      ReadyOnlyAdds(r.value.0, requester, base, s.nextReservationId, id);
    }
  }

  lemma CreateTabOnlyAdds(s: State, requester: PeerId, base: U64, rows: U16, cols: U16, id: PaneId)
    requires Inv(s) && id in s.layout.panes
    ensures var t := CreateTab(s, requester, base, rows, cols).0;
            id in t.layout.panes && t.layout.panes[id] == s.layout.panes[id]
  {
    CreateTabCommits(s, requester, base, rows, cols);
    var r := ReserveTab(s, requester, requester, base, rows, cols);
    if r.Success? {
      ReadyOnlyAdds(r.value.0, requester, base, s.nextReservationId, id);
    }
  }

  /** All that anybody but its host may do to pane `id` is to rename it. */
  ghost predicate LeavesToItsHost(s: State, op: Op, id: PaneId, t: State)
    requires id in s.layout.panes
  {
    && id in t.layout.panes
    && t.layout.panes[id] == s.layout.panes[id].(title := t.layout.panes[id].title)
    && (t.layout.panes[id].title != s.layout.panes[id].title ==> op.OpRenamePane? && op.paneId == id)
  }

  /** A pane that has exited is still so, if it is still there. */
  ghost predicate KeepsExit(s: State, id: PaneId, t: State)
    requires id in s.layout.panes
  {
    s.layout.panes[id].exited && id in t.layout.panes ==> t.layout.panes[id].exited
  }

  lemma DepartureOfOthers(s: State, peerId: PeerId, id: PaneId)
    requires Inv(s) && id in s.layout.panes
    ensures var t := RemoveMember(s, peerId).0;
            && KeepsExit(s, id, t)
            && (peerId != s.layout.panes[id].host ==>
                  id in t.layout.panes && t.layout.panes[id] == s.layout.panes[id])
  {
    HostedByIsByKey(s, peerId);
  }

  lemma MembershipKeepsPanes(verify: MachineVerifier, s: State, op: Op)
    requires OnMembers(op) && !op.OpRemoveMember?
    ensures StepMembers(verify, s, op).0.layout.panes == s.layout.panes
  {
  }

  lemma MembershipLeavesPanes(verify: MachineVerifier, s: State, op: Op, id: PaneId)
    requires Inv(s) && OnMembers(op) && id in s.layout.panes
    ensures KeepsExit(s, id, StepMembers(verify, s, op).0)
    ensures op != OpRemoveMember(s.layout.panes[id].host) ==> LeavesToItsHost(s, op, id, StepMembers(verify, s, op).0)
  {
    if op.OpRemoveMember? {
      DepartureOfOthers(s, op.peerId, id);
    } else {
      MembershipKeepsPanes(verify, s, op);
    }
  }

  lemma ReservationsLeavePanes(s: State, op: Op, id: PaneId)
    requires Inv(s) && OnReservations(op) && id in s.layout.panes
    ensures var t := StepReservations(s, op).0; LeavesToItsHost(s, op, id, t) && KeepsExit(s, id, t)
  {
    if !op.OpPaneReady? {
      ReservationsCommitNothing(s, op);
    } else if PaneReady(s, op.host, op.baseRevision, op.reservationId).Success? {
      ReadyOnlyAdds(s, op.host, op.baseRevision, op.reservationId, id);
    }
  }

  lemma CreationLeavesPanes(s: State, op: Op, id: PaneId)
    requires Inv(s) && Creates(op) && id in s.layout.panes
    ensures var t := StepCreation(s, op).0; LeavesToItsHost(s, op, id, t) && KeepsExit(s, id, t)
  {
    match op
    case OpCreatePane(requester, base, target, axis, position, rows, cols) =>
      CreatePaneOnlyAdds(s, requester, base, target, axis, position, rows, cols, id);
    case OpCreateTab(requester, base, rows, cols) => CreateTabOnlyAdds(s, requester, base, rows, cols, id);
  }

  lemma DeletePaneOfOthers(s: State, requester: PeerId, base: U64, paneId: PaneId, id: PaneId)
    requires id in s.layout.panes && DeletePane(s, requester, base, paneId).Success?
    ensures var t := DeletePane(s, requester, base, paneId).value;
            && KeepsExit(s, id, t)
            && (requester != s.layout.panes[id].host ==>
                  id in t.layout.panes && t.layout.panes[id] == s.layout.panes[id])
  {
  }

  lemma DeleteTabOfOthers(s: State, requester: PeerId, base: U64, tabId: TabId, id: PaneId)
    requires Inv(s) && id in s.layout.panes && DeleteTab(s, requester, base, tabId).Success?
    ensures var t := DeleteTab(s, requester, base, tabId).value;
            && KeepsExit(s, id, t)
            && (requester != s.layout.panes[id].host ==>
                  id in t.layout.panes && t.layout.panes[id] == s.layout.panes[id])
  {
    var ids := PaneIds(s.layout.tabs[TabIndex(s.layout.tabs, tabId)].root);
    assert forall x :: x in (set y | y in ids) <==> x in ids;
  }

  lemma GridEditsOfOthers(s: State, requester: PeerId, base: U64, grids: seq<GridChange>, id: PaneId)
    requires id in s.layout.panes && UpdatePaneGrids(s, requester, base, grids).Success?
    ensures var t := UpdatePaneGrids(s, requester, base, grids).value;
            && id in t.layout.panes && KeepsExit(s, id, t)
            && (requester != s.layout.panes[id].host ==> t.layout.panes[id] == s.layout.panes[id])
  {
    GridBatchChangesWhatItLists(s.layout.panes, requester, grids, {});
  }

  lemma StructureLeavesPanes(s: State, op: Op, id: PaneId)
    requires Inv(s) && OnStructure(op) && id in s.layout.panes
    ensures KeepsExit(s, id, StepStructure(s, op).0)
    ensures Requester(op) != Some(s.layout.panes[id].host) ==> LeavesToItsHost(s, op, id, StepStructure(s, op).0)
  {
    match op
    case OpDeletePane(requester, base, paneId) =>
      if DeletePane(s, requester, base, paneId).Success? {
        DeletePaneOfOthers(s, requester, base, paneId, id);
      }
    case OpDeleteTab(requester, base, tabId) =>
      if DeleteTab(s, requester, base, tabId).Success? {
        DeleteTabOfOthers(s, requester, base, tabId, id);
      }
    case OpUpdateGrids(requester, base, grids) =>
      if UpdatePaneGrids(s, requester, base, grids).Success? {
        GridEditsOfOthers(s, requester, base, grids, id);
      }
    case OpSetRatio(requester, base, paneId, axis, share) =>
      RatioLeavesPanes(s, requester, base, paneId, axis, share);
  }

  lemma RatioLeavesPanes(s: State, requester: PeerId, base: U64, paneId: PaneId, axis: Axis, share: U16)
    ensures var r := SetSplitRatio(s, requester, base, paneId, axis, share);
            r.Success? ==> r.value.layout.panes == s.layout.panes
  {
  }

  lemma FlagsOfOthers(s: State, requester: PeerId, base: U64, paneId: PaneId, locked: bool, id: PaneId)
    requires id in s.layout.panes
    ensures var r := SetPaneLock(s, requester, base, paneId, locked);
            r.Success? ==> KeepsExit(s, id, r.value) && id in r.value.layout.panes
                           && (requester != s.layout.panes[id].host ==> r.value.layout.panes[id] == s.layout.panes[id])
    ensures var r := MarkPaneExited(s, requester, base, paneId);
            r.Success? ==> KeepsExit(s, id, r.value) && id in r.value.layout.panes
                           && (requester != s.layout.panes[id].host ==> r.value.layout.panes[id] == s.layout.panes[id])
  {
  }

  lemma TitlesOfOthers(s: State, requester: PeerId, base: U64, paneId: PaneId, title: string, id: PaneId)
    requires id in s.layout.panes
    ensures var r := RenamePane(s, requester, base, paneId, title);
            r.Success? ==> LeavesToItsHost(s, OpRenamePane(requester, base, paneId, title), id, r.value)
  {
  }

  lemma DetailsLeavePanes(s: State, op: Op, id: PaneId)
    requires OnDetails(op) && id in s.layout.panes
    ensures KeepsExit(s, id, StepDetails(s, op).0)
    ensures Requester(op) != Some(s.layout.panes[id].host) ==> LeavesToItsHost(s, op, id, StepDetails(s, op).0)
  {
    match op
    case OpSetLock(requester, base, paneId, locked) => FlagsOfOthers(s, requester, base, paneId, locked, id);
    case OpMarkExited(requester, base, paneId) => FlagsOfOthers(s, requester, base, paneId, true, id);
    case OpRenamePane(requester, base, paneId, title) => TitlesOfOthers(s, requester, base, paneId, title, id);
    case OpRenameTab(_, _, _, _) =>
  }

  /** A pane loses nothing but its title to anybody but its host, short of the host's departure. */
  lemma OnlyTheHostTouchesItsPane(verify: MachineVerifier, s: State, op: Op, id: PaneId)
    requires Inv(s) && id in s.layout.panes && op != OpRemoveMember(s.layout.panes[id].host)
    requires Requester(op) != Some(s.layout.panes[id].host)
    ensures LeavesToItsHost(s, op, id, Step(verify, s, op).0)
  {
    if OnMembers(op) {
      MembershipLeavesPanes(verify, s, op, id);
    } else if OnReservations(op) {
      ReservationsLeavePanes(s, op, id);
    } else if Creates(op) {
      CreationLeavesPanes(s, op, id);
    } else if OnStructure(op) {
      StructureLeavesPanes(s, op, id);
    } else {
      DetailsLeavePanes(s, op, id);
    }
  }

  /** An exit is final: a pane that has exited stays exited for as long as it is listed. */
  lemma StepKeepsExits(verify: MachineVerifier, s: State, op: Op, id: PaneId)
    requires Inv(s) && id in s.layout.panes
    ensures KeepsExit(s, id, Step(verify, s, op).0)
  {
    if OnMembers(op) {
      MembershipLeavesPanes(verify, s, op, id);
    } else if OnReservations(op) {
      ReservationsLeavePanes(s, op, id);
    } else if Creates(op) {
      CreationLeavesPanes(s, op, id);
    } else if OnStructure(op) {
      StructureLeavesPanes(s, op, id);
    } else {
      DetailsLeavePanes(s, op, id);
    }
  }

  lemma {:induction false} ExitsAreFinal(verify: MachineVerifier, s: State, ops: seq<Op>, id: PaneId)
    requires Inv(s) && KeepsTabs(verify, s, ops)
    requires id in s.layout.panes && s.layout.panes[id].exited
    requires id in After(verify, s, ops).layout.panes
    ensures After(verify, s, ops).layout.panes[id].exited
    decreases |ops|
  {
    if ops != [] {
      var t := Step(verify, s, ops[0]).0;
      assert !MayAppear(s, id);
      StepKeepsInvExactly(verify, s, ops[0]);
      if !ops[0].OpRemoveMember? {
        StepFootprint(verify, s, ops[0]);
      }
      if id !in t.layout.panes {
        PaneIdsAreNeverReused(verify, t, ops[1..], id);
      } else {
        StepKeepsExits(verify, s, ops[0], id);
        ExitsAreFinal(verify, t, ops[1..], id);
      }
    }
  }

  /** Setting a lock and setting it back restores every pane. */
  lemma LockAndUnlock(s: State, requester: PeerId, paneId: PaneId, locked: bool)
    requires Inv(s) && s.layout.revision < U64_MAX - 1
    requires SetPaneLock(s, requester, s.layout.revision, paneId, locked).Success?
    ensures var t := SetPaneLock(s, requester, s.layout.revision, paneId, locked).value;
            && t.layout.panes[paneId].locked == locked
            && SetPaneLock(t, requester, t.layout.revision, paneId, s.layout.panes[paneId].locked)
               == Success(s.(layout := s.layout.(revision := s.layout.revision + 2)))
  {
    var t := SetPaneLock(s, requester, s.layout.revision, paneId, locked).value;
    var pane := s.layout.panes[paneId];
    assert t.layout.panes[paneId := pane] == s.layout.panes;
    assert CheckRequest(t, requester, t.layout.revision).Success?;
  }

  // ---------------------------------------------------------------------------
  // Machine identities
  // ---------------------------------------------------------------------------

  lemma {:induction false} RunKeepsMachinesVerified(verify: MachineVerifier, s: State, ops: seq<Op>)
    requires MachinesVerified(verify, s.layout.members)
    ensures MachinesVerified(verify, After(verify, s, ops).layout.members)
    decreases |ops|
  {
    if ops != [] {
      if ops[0].OpRemoveMember? {
        MembersWithoutKeepsTheOthers(s.layout.members, ops[0].peerId);
      } else {
        StepFootprint(verify, s, ops[0]);
      }
      RunKeepsMachinesVerified(verify, Step(verify, s, ops[0]).0, ops[1..]);
    }
  }

  /** From a new session on, whatever identities its members claim, every machine id listed is a verified one. */
  lemma EverySessionVerifiesMachines(
    verify: MachineVerifier, host: PeerId, addr: Bytes, identity: MemberIdentity, rows: U16, cols: U16, ops: seq<Op>)
    requires NewSession(verify, host, addr, identity, rows, cols).Success?
    ensures MachinesVerified(
              verify, After(verify, NewSession(verify, host, addr, identity, rows, cols).value, ops).layout.members)
  {
    var s := NewSession(verify, host, addr, identity, rows, cols).value;
    assert MachinesVerified(verify, s.layout.members);
    RunKeepsMachinesVerified(verify, s, ops);
  }

  /** A successor does not verify again: what it restores is verified if and only if the snapshot was. */
  lemma RestoreTrustsTheSnapshot(verify: MachineVerifier, snapshot: Snapshot)
    requires ValidSnapshot(snapshot)
    ensures Restore(snapshot).Success? ==>
              (MachinesVerified(verify, Restore(snapshot).value.layout.members)
               <==> MachinesVerified(verify, snapshot.members))
    ensures Restore(snapshot).Success? <==>
              Largest(snapshot.panes.Keys) < U64_MAX && Largest(TabIds(snapshot.tabs)) < U64_MAX
  {
  }

  // ---------------------------------------------------------------------------
  // Where the promises fail
  // ---------------------------------------------------------------------------

  /** Two members, one of them hosting the only pane: its departure is refused and takes every tab. */
  lemma DepartureOfTheOnlyHost(verify: MachineVerifier) returns (s: State)
    ensures Inv(s) && RemoveMember(s, [1]).1 == Failure(InvalidSnapshot)
    ensures RemoveMember(s, [1]).0.layout.tabs == [] && RemoveMember(s, [1]).0.layout.panes != map[]
    ensures !Inv(RemoveMember(s, [1]).0)
  {
    var nobody := MemberIdentity("", Unspecified, [], []);
    var alone := NewSession(verify, [1], [1], nobody, 24, 80).value;
    NewSessionIsValid(verify, [1], [1], nobody, 24, 80);
    assert !IsMember(alone.layout.members, [2]);
    s := AddMember(verify, alone, 1, [2], [2], nobody).value.0;
    KeepsAddMember(verify, alone, 1, [2], [2], nobody);
    assert s.layout.members[0].peerId == [1];
    assert HostsEverything(s, [1]);
    FailedDeparture(s, [1]);
  }

  lemma OnePaneSession(verify: MachineVerifier) returns (s: State)
    ensures Inv(s) && s.layout.revision == 1 && s.layout.panes.Keys == {1} && s.nextPaneId == 2
    ensures CreatePane(s, [1], 1, 1, LeftRight, Second, 24, 80).1.Success?
  {
    var nobody := MemberIdentity("", Unspecified, [], []);
    s := NewSession(verify, [1], [1], nobody, 24, 80).value;
    NewSessionIsValid(verify, [1], [1], nobody, 24, 80);
    assert s.layout.members[0].peerId == [1];
    assert TabIndexForPane(s.layout.tabs, 1) == 0;
  }

  /** Create a pane, delete it, hand over: the successor issues the same id again. */
  lemma ADeletedIdComesBack(verify: MachineVerifier) returns (s: State)
    ensures Inv(s) && 2 !in s.layout.panes && s.nextPaneId == 3
    ensures Restore(s.layout).Success? && Restore(s.layout).value.nextPaneId == 2
  {
    var start := OnePaneSession(verify);
    var created := CreatePane(start, [1], 1, 1, LeftRight, Second, 24, 80).0;
    KeepsCreatePane(start, [1], 1, 1, LeftRight, Second, 24, 80);
    CreatedPane(start, [1], 1, LeftRight, Second, 24, 80);
    CreatePaneThenDelete(start, [1], 1, LeftRight, Second, 24, 80);
    s := DeletePane(created, [1], 2, 2).value;
    KeepsDeletePane(created, [1], 2, 2);
    CreateIssuesOneId(start, [1], 1, 1, LeftRight, Second, 24, 80);
    RestoreReissuesExactly(s);
    assert 1 in s.layout.panes.Keys;
  }

  lemma CreateIssuesOneId(
    s: State, requester: PeerId, base: U64, target: PaneId, axis: Axis,
    position: NewPanePosition, rows: U16, cols: U16)
    requires CreatePane(s, requester, base, target, axis, position, rows, cols).1.Success?
    ensures CreatePane(s, requester, base, target, axis, position, rows, cols).0.nextPaneId == s.nextPaneId + 1
  {
  }
}
