/** What the session grants and what it refuses, and why: every request against the layout it is made on. */
module LayoutRequests {
  import opened Common
  import opened LayoutTree
  import opened LayoutModel
  import opened LayoutInvariant
  import opened LayoutRuns

  // ---------------------------------------------------------------------------
  // What there is to object to
  // ---------------------------------------------------------------------------

  /** The layout has moved on, or can move no further. */
  ghost predicate OutOfDate(s: State, base: U64, error: LayoutError) {
    || (base != s.layout.revision && error == StaleRevision(s.layout.revision, base))
    || (s.layout.revision == U64_MAX && error == RevisionExhausted)
  }

  ghost predicate Stranger(s: State, peer: PeerId, error: LayoutError) {
    !IsMember(s.layout.members, peer) && error == NotMember
  }

  /** Out of date, asked by a stranger, or asked while something is reserved. */
  ghost predicate Untimely(s: State, peer: PeerId, base: U64, error: LayoutError) {
    || OutOfDate(s, base, error)
    || Stranger(s, peer, error)
    || (s.pending.Some? && error == ReservationPending)
  }

  ghost predicate Shows(l: Snapshot, t: Tab, id: PaneId) {
    t in l.tabs && ContainsLeaf(t.root, id)
  }

  ghost predicate IsTab(l: Snapshot, t: Tab, tabId: TabId) {
    t in l.tabs && t.tabId == tabId
  }

  ghost predicate Crowded(l: Snapshot, t: Tab, target: PaneId) {
    Shows(l, t, target) && |PaneIds(t.root)| >= MAX_PANES_PER_TAB
  }

  ghost predicate Deep(l: Snapshot, t: Tab, target: PaneId) {
    Shows(l, t, target) && |PathTo(t.root, target)| >= MAX_SPLIT_DEPTH
  }

  ghost predicate Unsplittable(l: Snapshot, target: PaneId, error: LayoutError) {
    || (target !in l.panes && error == UnknownPane(target))
    || ((exists t :: Crowded(l, t, target)) && error == PaneLimit)
    || ((exists t :: Deep(l, t, target)) && error == SplitDepthLimit)
  }

  /** What a new pane needs whatever it goes into. */
  ghost predicate NoRoom(s: State, host: PeerId, rows: U16, cols: U16, error: LayoutError) {
    || (!IsMember(s.layout.members, host) && error == UnknownTarget)
    || ((rows == 0 || cols == 0) && error == InvalidGrid)
    || ((s.nextPaneId == U64_MAX || s.nextReservationId == U64_MAX) && error == IdExhausted)
  }

  ghost predicate NoRoomForATab(s: State, error: LayoutError) {
    || (|s.layout.tabs| >= MAX_TABS && error == TabLimit)
    || (s.nextTabId == U64_MAX && error == IdExhausted)
  }

  /** The reservation spoken of is not the pending one, or not the speaker's. */
  ghost predicate NotReserved(s: State, speaker: Option<PeerId>, id: ReservationId, error: LayoutError) {
    || ((s.pending.None? || s.pending.value.reservationId != id) && error == UnknownReservation(id))
    || (s.pending.Some? && s.pending.value.reservationId == id && speaker.Some?
        && s.pending.value.host != speaker.value && error == ReservationCreatorMismatch)
  }

  ghost predicate OfAnotherHost(l: Snapshot, requester: PeerId, id: PaneId, error: LayoutError) {
    || (id !in l.panes && error == UnknownPane(id))
    || (id in l.panes && l.panes[id].host != requester && error == NotPaneHost(id))
  }

  /** No split with this axis has the leaf below it. */
  ghost predicate SplitFree(root: Node, id: PaneId, axis: Axis)
    requires ContainsLeaf(root, id)
  {
    forall k :: 0 <= k < |PathTo(root, id)| ==> !SplitsOnAxis(root, PathTo(root, id)[..k], axis)
  }

  ghost predicate NoSplitAbove(l: Snapshot, t: Tab, id: PaneId, axis: Axis) {
    Shows(l, t, id) && SplitFree(t.root, id, axis)
  }

  ghost predicate Foreign(l: Snapshot, t: Tab, peer: PeerId, id: PaneId) {
    ContainsLeaf(t.root, id) && id in l.panes && l.panes[id].host != peer
  }

  ghost predicate Mixed(l: Snapshot, t: Tab, tabId: TabId, peer: PeerId) {
    IsTab(l, t, tabId) && exists id :: Foreign(l, t, peer, id)
  }

  ghost predicate Alone(l: Snapshot, t: Tab, id: PaneId) {
    t in l.tabs && t.root == Leaf(id)
  }

  ghost predicate NoSuchTab(l: Snapshot, tabId: TabId) {
    forall t :: t in l.tabs ==> t.tabId != tabId
  }

  ghost predicate ListedBefore(grids: seq<GridChange>, i: nat, id: PaneId)
    requires i <= |grids|
  {
    exists j :: 0 <= j < i && grids[j].0 == id
  }

  /** What is wrong with one item of a batch: its grid is empty, its pane was listed before or is not to be had. */
  ghost predicate BadItem(l: Snapshot, requester: PeerId, grids: seq<GridChange>, i: nat, error: LayoutError)
    requires i < |grids|
  {
    || ((grids[i].1 == 0 || grids[i].2 == 0 || ListedBefore(grids, i, grids[i].0)) && error == InvalidGrid)
    || OfAnotherHost(l, requester, grids[i].0, error)
  }

  ghost predicate BadFrom(l: Snapshot, requester: PeerId, grids: seq<GridChange>, k: nat, error: LayoutError) {
    exists i :: k <= i < |grids| && BadItem(l, requester, grids, i, error)
  }

  /** Trimmed, the title is too long or holds control characters. */
  ghost predicate Unusable(title: string, trimmed: string) {
    TrimsTo(title, trimmed) && trimmed != "" && !ShortAndPlain(trimmed, MAX_TITLE_CHARS)
  }

  ghost predicate BadTitle(title: string, error: LayoutError) {
    (exists x :: Unusable(title, x)) && error == InvalidTitle
  }

  ghost predicate BadAddress(addr: Bytes, error: LayoutError) {
    (addr == [] || |addr| > MAX_ENDPOINT_ADDR_BYTES) && error == InvalidEndpointAddress
  }

  ghost predicate CannotJoin(l: Snapshot, peerId: PeerId, name: string, error: LayoutError) {
    || ((peerId == [] || |peerId| > MAX_PEER_ID_BYTES) && error == InvalidPeerId)
    || (!ShortAndPlain(name, MAX_DISPLAY_NAME_CHARS) && error == InvalidDisplayName)
    || (IsMember(l.members, peerId) && error == AlreadyMember)
    || (|l.members| >= MAX_MEMBERS && error == MemberLimit)
  }

  /** The last member never leaves, and neither does one that would take every pane along. */
  ghost predicate CannotLeave(l: Snapshot, peerId: PeerId, error: LayoutError) {
    || (l.revision == U64_MAX && error == RevisionExhausted)
    || ((|l.members| == 1 || forall id :: id in l.panes ==> l.panes[id].host == peerId) && error == InvalidSnapshot)
  }

  /** Whether `error` is a true thing to say about the request. */
  ghost predicate Objection(s: State, op: Op, error: LayoutError) {
    match op
    case OpAddMember(base, peer, addr, identity) =>
      || OutOfDate(s, base, error) || BadAddress(addr, error)
      || CannotJoin(s.layout, peer, identity.displayName, error)
    case OpUpdateKind(base, peer, _) => OutOfDate(s, base, error) || Stranger(s, peer, error)
    case OpUpdateEndpoint(base, peer, addr) =>
      OutOfDate(s, base, error) || Stranger(s, peer, error) || BadAddress(addr, error)
    case OpRemoveMember(peer) => Stranger(s, peer, error) || CannotLeave(s.layout, peer, error)
    case OpReservePane(creator, host, base, target, _, _, rows, cols) =>
      || Untimely(s, creator, base, error) || NoRoom(s, host, rows, cols, error)
      || Unsplittable(s.layout, target, error)
    case OpReserveTab(creator, host, base, rows, cols) =>
      Untimely(s, creator, base, error) || NoRoom(s, host, rows, cols, error) || NoRoomForATab(s, error)
    case OpPaneReady(host, base, id) => NotReserved(s, Some(host), id, error) || OutOfDate(s, base, error)
    case OpCancel(creator, id) => NotReserved(s, Some(creator), id, error)
    case OpFail(creator, base, id) => NotReserved(s, Some(creator), id, error) || OutOfDate(s, base, error)
    case OpExpire(id) => NotReserved(s, None, id, error)
    case OpCreatePane(requester, base, target, _, _, rows, cols) =>
      || Untimely(s, requester, base, error) || NoRoom(s, requester, rows, cols, error)
      || Unsplittable(s.layout, target, error)
    case OpCreateTab(requester, base, rows, cols) =>
      Untimely(s, requester, base, error) || NoRoom(s, requester, rows, cols, error) || NoRoomForATab(s, error)
    case OpDeletePane(requester, base, id) =>
      || Untimely(s, requester, base, error) || OfAnotherHost(s.layout, requester, id, error)
      || exists t :: Alone(s.layout, t, id) && error == LastPaneInTab(t.tabId)
    case OpDeleteTab(requester, base, tabId) =>
      || Untimely(s, requester, base, error)
      || (NoSuchTab(s.layout, tabId) && error == UnknownTab(tabId))
      || (|s.layout.tabs| == 1 && error == LastTab)
      || ((exists t :: Mixed(s.layout, t, tabId, requester)) && error == NotTabHost(tabId))
    case OpSetRatio(requester, base, id, axis, share) =>
      || Untimely(s, requester, base, error)
      || (!(1 <= share <= 9_999) && error == InvalidSplitRatio)
      || (id !in s.layout.panes && error == UnknownPane(id))
      || ((exists t :: NoSplitAbove(s.layout, t, id, axis)) && error == NoMatchingSplit(id, axis))
    case OpUpdateGrids(requester, base, grids) =>
      || Untimely(s, requester, base, error)
      || (grids == [] && error == InvalidGrid)
      || BadFrom(s.layout, requester, grids, 0, error)
    case OpSetLock(requester, base, id, _) =>
      Untimely(s, requester, base, error) || OfAnotherHost(s.layout, requester, id, error)
    case OpMarkExited(requester, base, id) =>
      Untimely(s, requester, base, error) || OfAnotherHost(s.layout, requester, id, error)
    case OpRenamePane(requester, base, id, title) =>
      || Untimely(s, requester, base, error) || BadTitle(title, error)
      || (id !in s.layout.panes && error == UnknownPane(id))
    case OpRenameTab(requester, base, tabId, title) =>
      || Untimely(s, requester, base, error) || BadTitle(title, error)
      || (NoSuchTab(s.layout, tabId) && error == UnknownTab(tabId))
  }

  /** A request goes through exactly when there is nothing to object to, and what is objected is true. */
  ghost predicate Answers<T>(s: State, op: Op, r: Result<T, LayoutError>) {
    match r
    case Success(_) => forall error :: !Objection(s, op, error)
    case Failure(error) => Objection(s, op, error)
  }

  // ---------------------------------------------------------------------------
  // Members
  // ---------------------------------------------------------------------------

  lemma AddMemberAnswers(
    verify: MachineVerifier, s: State, base: U64, peerId: PeerId, addr: Bytes, identity: MemberIdentity)
    ensures Answers(s, OpAddMember(base, peerId, addr, identity), AddMember(verify, s, base, peerId, addr, identity))
  {
  }

  lemma UpdateKindAnswers(s: State, base: U64, peerId: PeerId, kind: MemberKind)
    ensures Answers(s, OpUpdateKind(base, peerId, kind), UpdateMemberKind(s, base, peerId, kind))
  {
  }

  lemma UpdateEndpointAnswers(s: State, base: U64, peerId: PeerId, addr: Bytes)
    ensures Answers(s, OpUpdateEndpoint(base, peerId, addr), UpdateMemberEndpoint(s, base, peerId, addr))
  {
  }

  lemma RemoveMemberAnswers(s: State, peerId: PeerId)
    requires Inv(s)
    ensures Answers(s, OpRemoveMember(peerId), RemoveMember(s, peerId).1)
  {
    TabsLeftByDeparture(s, peerId);
  }

  // ---------------------------------------------------------------------------
  // Reservations
  // ---------------------------------------------------------------------------

  /** A pane is in the layout exactly when a tab shows it, and then in that tab alone. */
  lemma OneTabShows(l: Snapshot, id: PaneId)
    requires ValidSnapshot(l)
    ensures var i := TabIndexForPane(l.tabs, id);
            && (i < |l.tabs| <==> id in l.panes)
            && forall t :: Shows(l, t, id) <==> i < |l.tabs| && t == l.tabs[i]
  {
    assert TabsCount(l.tabs, id) == if id in l.panes then 1 else 0;
    LeafIsInOneTab(l.tabs, id);
  }

  lemma {:induction false} DepthIsTheWay(n: Node, wanted: PaneId)
    requires ContainsLeaf(n, wanted)
    ensures LeafDepth(n, wanted).value == |PathTo(n, wanted)|
  {
    if n.Split? {
      DepthIsTheWay(if ContainsLeaf(n.first, wanted) then n.first else n.second, wanted);
    }
  }

  /** Whether a pane can be split, and what stands in the way. */
  lemma SplittableExactly(l: Snapshot, target: PaneId)
    requires ValidSnapshot(l)
    ensures match ValidatePaneCreate(l.tabs, target)
            case Pass => forall error :: !Unsplittable(l, target, error)
            case Fail(error) => Unsplittable(l, target, error)
  {
    OneTabShows(l, target);
    var i := TabIndexForPane(l.tabs, target);
    if i < |l.tabs| {
      var t := l.tabs[i];
      assert Shows(l, t, target);
      DepthIsTheWay(t.root, target);
      assert Crowded(l, t, target) <==> |PaneIds(t.root)| >= MAX_PANES_PER_TAB;
      assert Deep(l, t, target) <==> LeafDepth(t.root, target).value >= MAX_SPLIT_DEPTH;
    }
  }

  lemma ReservePaneAnswers(
    s: State, creator: PeerId, host: PeerId, base: U64, target: PaneId, axis: Axis,
    position: NewPanePosition, rows: U16, cols: U16)
    requires Inv(s)
    ensures Answers(s, OpReservePane(creator, host, base, target, axis, position, rows, cols),
                    ReservePane(s, creator, host, base, target, axis, position, rows, cols))
  {
    SplittableExactly(s.layout, target);
  }

  lemma ReserveTabAnswers(s: State, creator: PeerId, host: PeerId, base: U64, rows: U16, cols: U16)
    ensures Answers(s, OpReserveTab(creator, host, base, rows, cols),
                    ReserveTab(s, creator, host, base, rows, cols))
  {
  }

  lemma PaneReadyAnswers(s: State, host: PeerId, base: U64, id: ReservationId)
    requires Inv(s)
    ensures Answers(s, OpPaneReady(host, base, id), PaneReady(s, host, base, id))
  {
    PendingCompletes(s, host, base, id);
  }

  lemma EndingAnswers(s: State, peer: PeerId, base: U64, id: ReservationId)
    requires Inv(s)
    ensures Answers(s, OpCancel(peer, id), CancelReservation(s, peer, id))
    ensures Answers(s, OpFail(peer, base, id), FailReservation(s, peer, base, id))
    ensures Answers(s, OpExpire(id), ExpireReservation(s, id))
  {
  }

  lemma CreatePaneAnswers(
    s: State, requester: PeerId, base: U64, target: PaneId, axis: Axis,
    position: NewPanePosition, rows: U16, cols: U16)
    requires Inv(s)
    ensures Answers(s, OpCreatePane(requester, base, target, axis, position, rows, cols),
                    CreatePane(s, requester, base, target, axis, position, rows, cols).1)
  {
    CreatePaneCommits(s, requester, base, target, axis, position, rows, cols);
    ReservePaneAnswers(s, requester, requester, base, target, axis, position, rows, cols);
    var reserve := OpReservePane(requester, requester, base, target, axis, position, rows, cols);
    var create := OpCreatePane(requester, base, target, axis, position, rows, cols);
    assert forall error :: Objection(s, create, error) <==> Objection(s, reserve, error);
  }

  lemma CreateTabAnswers(s: State, requester: PeerId, base: U64, rows: U16, cols: U16)
    ensures Answers(s, OpCreateTab(requester, base, rows, cols), CreateTab(s, requester, base, rows, cols).1)
  {
    CreateTabCommits(s, requester, base, rows, cols);
    ReserveTabAnswers(s, requester, requester, base, rows, cols);
    var reserve := OpReserveTab(requester, requester, base, rows, cols);
    var create := OpCreateTab(requester, base, rows, cols);
    assert forall error :: Objection(s, create, error) <==> Objection(s, reserve, error);
  }

  // ---------------------------------------------------------------------------
  // Edits
  // ---------------------------------------------------------------------------

  lemma DeletePaneAnswers(s: State, requester: PeerId, base: U64, id: PaneId)
    requires Inv(s)
    ensures Answers(s, OpDeletePane(requester, base, id), DeletePane(s, requester, base, id))
  {
    AloneExactly(s.layout, id);
  }

  lemma AloneExactly(l: Snapshot, id: PaneId)
    requires ValidSnapshot(l)
    ensures var i := TabIndexForPane(l.tabs, id);
            && (i < |l.tabs| <==> id in l.panes)
            && forall t :: Alone(l, t, id) <==> i < |l.tabs| && t == l.tabs[i] && |PaneIds(t.root)| == 1
  {
    OneTabShows(l, id);
    forall t | t in l.tabs ensures Alone(l, t, id) <==> Shows(l, t, id) && |PaneIds(t.root)| == 1 {
      LeavesOfASplit(t.root);
    }
  }

  lemma DeleteTabAnswers(s: State, requester: PeerId, base: U64, tabId: TabId)
    requires Inv(s)
    ensures Answers(s, OpDeleteTab(requester, base, tabId), DeleteTab(s, requester, base, tabId))
  {
    var l := s.layout;
    var i := TabIndex(l.tabs, tabId);
    if i < |l.tabs| {
      MixedExactly(l, i, requester);
    }
  }

  lemma MixedExactly(l: Snapshot, i: nat, peer: PeerId)
    requires ValidSnapshot(l) && i < |l.tabs|
    ensures (exists t :: Mixed(l, t, l.tabs[i].tabId, peer)) <==> !AllHostedBy(l.panes, PaneIds(l.tabs[i].root), peer)
  {
    var tab := l.tabs[i];
    TabTreesAreDistinct(l.tabs, l.panes, i);
    forall id ensures id in PaneIds(tab.root) <==> ContainsLeaf(tab.root, id) {
      CountsMembers(tab.root, id);
    }
    assert forall t :: IsTab(l, t, tab.tabId) <==> t == tab;
    if !AllHostedBy(l.panes, PaneIds(tab.root), peer) {
      var id :| id in PaneIds(tab.root) && l.panes[id].host != peer;
      assert Foreign(l, tab, peer, id);
      assert Mixed(l, tab, tab.tabId, peer);
    }
  }

  lemma SetRatioAnswers(s: State, requester: PeerId, base: U64, id: PaneId, axis: Axis, share: U16)
    requires Inv(s)
    ensures Answers(s, OpSetRatio(requester, base, id, axis, share), SetSplitRatio(s, requester, base, id, axis, share))
  {
    MatchingSplitExactly(s.layout, id, axis, share);
  }

  lemma MatchingSplitExactly(l: Snapshot, id: PaneId, axis: Axis, share: U16)
    requires ValidSnapshot(l)
    ensures var i := TabIndexForPane(l.tabs, id);
            && (i < |l.tabs| <==> id in l.panes)
            && ((exists t :: NoSplitAbove(l, t, id, axis))
                <==> i < |l.tabs| && !SetNearestSplitRatio(l.tabs[i].root, id, axis, share).1)
  {
    OneTabShows(l, id);
    var i := TabIndexForPane(l.tabs, id);
    if i < |l.tabs| {
      TabTreesAreDistinct(l.tabs, l.panes, i);
      UnmatchedExactly(l.tabs[i].root, id, axis, share);
      assert Shows(l, l.tabs[i], id);
      assert NoSplitAbove(l, l.tabs[i], id, axis) <==> !SetNearestSplitRatio(l.tabs[i].root, id, axis, share).1;
    }
  }

  lemma UnmatchedExactly(root: Node, id: PaneId, axis: Axis, share: U16)
    requires ContainsLeaf(root, id) && DistinctLeaves(root)
    ensures !SetNearestSplitRatio(root, id, axis, share).1 <==> SplitFree(root, id, axis)
  {
    RatioIsSetExactly(root, id, axis, share);
    if forall k: nat :: !NearestOnPath(root, id, axis, k) {
      NoneNearestMeansNone(root, id, axis, |PathTo(root, id)|);
    }
  }

  function IdsUpTo(grids: seq<GridChange>, k: nat): (ids: set<PaneId>)
    requires k <= |grids|
    ensures k == 0 ==> ids == {}
  {
    set j | 0 <= j < k :: grids[j].0
  }

  /** A batch is walked item by item, and every item counts. */
  lemma {:induction false} BatchAnswers(l: Snapshot, requester: PeerId, grids: seq<GridChange>, k: nat)
    requires k <= |grids|
    ensures match CheckGrids(l.panes, requester, grids[k..], IdsUpTo(grids, k))
            case Pass => forall error :: !BadFrom(l, requester, grids, k, error)
            case Fail(error) => BadFrom(l, requester, grids, k, error)
    decreases |grids| - k
  {
    if k < |grids| {
      assert grids[k..][0] == grids[k] && grids[k..][1..] == grids[k + 1..];
      assert IdsUpTo(grids, k) + {grids[k].0} == IdsUpTo(grids, k + 1);
      assert ListedBefore(grids, k, grids[k].0) <==> grids[k].0 in IdsUpTo(grids, k);
      BatchAnswers(l, requester, grids, k + 1);
      forall error ensures BadFrom(l, requester, grids, k, error)
                           <==> BadItem(l, requester, grids, k, error) || BadFrom(l, requester, grids, k + 1, error) {
      }
    }
  }

  lemma UpdateGridsAnswers(s: State, requester: PeerId, base: U64, grids: seq<GridChange>)
    ensures Answers(s, OpUpdateGrids(requester, base, grids), UpdatePaneGrids(s, requester, base, grids))
  {
    BatchAnswers(s.layout, requester, grids, 0);
    assert grids[0..] == grids;
  }

  lemma SetLockAnswers(s: State, requester: PeerId, base: U64, id: PaneId, locked: bool)
    ensures Answers(s, OpSetLock(requester, base, id, locked), SetPaneLock(s, requester, base, id, locked))
  {
  }

  lemma MarkExitedAnswers(s: State, requester: PeerId, base: U64, id: PaneId)
    ensures Answers(s, OpMarkExited(requester, base, id), MarkPaneExited(s, requester, base, id))
  {
  }

  lemma RenamePaneAnswers(s: State, requester: PeerId, base: U64, id: PaneId, title: string)
    ensures Answers(s, OpRenamePane(requester, base, id, title), RenamePane(s, requester, base, id, title))
  {
    TitlesAnswer(title);
  }

  lemma TitlesAnswer(title: string)
    ensures NormalizeTitle(title) == Failure(InvalidTitle) || NormalizeTitle(title).Success?
    ensures NormalizeTitle(title).Failure? <==> exists x :: Unusable(title, x)
  {
    NormalizesExactly(title);
    var x :| TrimsTo(title, x);
    assert Unusable(title, x) <==> NormalizeTitle(title).Failure?;
  }

  lemma RenameTabAnswers(s: State, requester: PeerId, base: U64, tabId: TabId, title: string)
    ensures Answers(s, OpRenameTab(requester, base, tabId, title), RenameTab(s, requester, base, tabId, title))
  {
    TitlesAnswer(title);
  }

  // ---------------------------------------------------------------------------
  // Every request
  // ---------------------------------------------------------------------------

  lemma MembersAnswer(verify: MachineVerifier, s: State, op: Op)
    requires Inv(s) && OnMembers(op)
    ensures Answers(s, op, StepMembers(verify, s, op).1)
  {
    match op
    case OpAddMember(base, peer, addr, identity) => AddMemberAnswers(verify, s, base, peer, addr, identity);
    case OpUpdateKind(base, peer, kind) => UpdateKindAnswers(s, base, peer, kind);
    case OpUpdateEndpoint(base, peer, addr) => UpdateEndpointAnswers(s, base, peer, addr);
    case OpRemoveMember(peer) => RemoveMemberAnswers(s, peer);
  }

  lemma ReservationsAnswer(s: State, op: Op)
    requires Inv(s) && OnReservations(op)
    ensures Answers(s, op, StepReservations(s, op).1)
  {
    match op
    case OpReservePane(creator, host, base, target, axis, position, rows, cols) =>
      ReservePaneAnswers(s, creator, host, base, target, axis, position, rows, cols);
    case OpReserveTab(creator, host, base, rows, cols) => ReserveTabAnswers(s, creator, host, base, rows, cols);
    case OpPaneReady(host, base, id) => PaneReadyAnswers(s, host, base, id);
    case OpCancel(creator, id) => EndingAnswers(s, creator, 0, id);
    case OpFail(creator, base, id) => EndingAnswers(s, creator, base, id);
    case OpExpire(id) => EndingAnswers(s, [], 0, id);
  }

  lemma CreationAnswers(s: State, op: Op)
    requires Inv(s) && Creates(op)
    ensures Answers(s, op, StepCreation(s, op).1)
  {
    match op
    case OpCreatePane(requester, base, target, axis, position, rows, cols) =>
      CreatePaneAnswers(s, requester, base, target, axis, position, rows, cols);
    case OpCreateTab(requester, base, rows, cols) => CreateTabAnswers(s, requester, base, rows, cols);
  }

  lemma StructureAnswers(s: State, op: Op)
    requires Inv(s) && OnStructure(op)
    ensures Answers(s, op, StepStructure(s, op).1)
  {
    match op
    case OpDeletePane(requester, base, id) => DeletePaneAnswers(s, requester, base, id);
    case OpDeleteTab(requester, base, id) => DeleteTabAnswers(s, requester, base, id);
    case OpSetRatio(requester, base, id, axis, share) => SetRatioAnswers(s, requester, base, id, axis, share);
    case OpUpdateGrids(requester, base, grids) => UpdateGridsAnswers(s, requester, base, grids);
  }

  lemma DetailsAnswer(s: State, op: Op)
    requires Inv(s) && OnDetails(op)
    ensures Answers(s, op, StepDetails(s, op).1)
  {
    match op
    case OpSetLock(requester, base, id, locked) => SetLockAnswers(s, requester, base, id, locked);
    case OpMarkExited(requester, base, id) => MarkExitedAnswers(s, requester, base, id);
    case OpRenamePane(requester, base, id, title) => RenamePaneAnswers(s, requester, base, id, title);
    case OpRenameTab(requester, base, id, title) => RenameTabAnswers(s, requester, base, id, title);
  }

  /** In a valid session every request is granted if and only if nothing speaks against it, and refused truthfully. */
  lemma EveryRequestIsAnswered(verify: MachineVerifier, s: State, op: Op)
    requires Inv(s)
    ensures Answers(s, op, Step(verify, s, op).1)
  {
    if OnMembers(op) {
      MembersAnswer(verify, s, op);
    } else if OnReservations(op) {
      ReservationsAnswer(s, op);
    } else if Creates(op) {
      CreationAnswers(s, op);
    } else if OnStructure(op) {
      StructureAnswers(s, op);
    } else {
      DetailsAnswer(s, op);
    }
  }

  // ---------------------------------------------------------------------------
  // Optimistic concurrency
  // ---------------------------------------------------------------------------

  /** The revision an operation was made against, if it quotes one. */
  function QuotedBase(op: Op): Option<U64> {
    match op
    case OpRemoveMember(_) => None
    case OpCancel(_, _) => None
    case OpExpire(_) => None
    case _ => Some(op.baseRevision)
  }

  /** The peer that has to be a member: the one asking, or the one whose entry is to change. */
  function Asker(op: Op): Option<PeerId> {
    match op
    case OpUpdateKind(_, peer, _) => Some(peer)
    case OpUpdateEndpoint(_, peer, _) => Some(peer)
    case OpRemoveMember(peer) => Some(peer)
    case OpReservePane(creator, _, _, _, _, _, _, _) => Some(creator)
    case OpReserveTab(creator, _, _, _, _) => Some(creator)
    case _ => if Creates(op) || OnStructure(op) || OnDetails(op) then Some(op.requester) else None
  }

  lemma StaleIsObjectionable(s: State, op: Op)
    requires QuotedBase(op).Some? && QuotedBase(op).value != s.layout.revision
    ensures Objection(s, op, StaleRevision(s.layout.revision, QuotedBase(op).value))
  {
  }

  lemma StrangersAreObjectionable(s: State, op: Op)
    requires Asker(op).Some? && !IsMember(s.layout.members, Asker(op).value)
    ensures Objection(s, op, NotMember)
  {
    var peer := Asker(op).value;
    assert Stranger(s, peer, NotMember);
    if QuotedBase(op).Some? {
      assert Untimely(s, peer, QuotedBase(op).value, NotMember);
    }
  }

  /** What goes through quotes the revision in force, and a member asked for it. */
  lemma SuccessIsCurrent(verify: MachineVerifier, s: State, op: Op)
    requires Inv(s) && Step(verify, s, op).1.Success?
    ensures QuotedBase(op).Some? ==> QuotedBase(op).value == s.layout.revision
    ensures Asker(op).Some? ==> IsMember(s.layout.members, Asker(op).value)
  {
    EveryRequestIsAnswered(verify, s, op);
    if QuotedBase(op).Some? && QuotedBase(op).value != s.layout.revision {
      StaleIsObjectionable(s, op);
      assert false;
    }
    if Asker(op).Some? && !IsMember(s.layout.members, Asker(op).value) {
      StrangersAreObjectionable(s, op);
      assert false;
    }
  }

  /** The answer to an edit of an older layout, and then to one by a stranger. */
  ghost predicate TellsFirst(s: State, op: Op, next: StepResult)
    requires QuotedBase(op).Some?
  {
    var base := QuotedBase(op).value;
    if base != s.layout.revision then next == (s, Failure(StaleRevision(s.layout.revision, base)))
    else if s.layout.revision == U64_MAX then next == (s, Failure(RevisionExhausted))
    else IsEdit(op) && !IsMember(s.layout.members, Asker(op).value) ==> next == (s, Failure(NotMember))
  }

  lemma MembersTellFirst(verify: MachineVerifier, s: State, op: Op)
    requires OnMembers(op) && !op.OpRemoveMember?
    ensures TellsFirst(s, op, StepMembers(verify, s, op))
  {
  }

  lemma ReservationsTellFirst(s: State, op: Op)
    requires op.OpReservePane? || op.OpReserveTab?
    ensures TellsFirst(s, op, StepReservations(s, op))
  {
  }

  lemma CreationTellsFirst(s: State, op: Op)
    requires Creates(op)
    ensures TellsFirst(s, op, StepCreation(s, op))
  {
  }

  lemma StructureTellsFirst(s: State, op: Op)
    requires OnStructure(op)
    ensures TellsFirst(s, op, StepStructure(s, op))
  {
  }

  lemma DetailsTellFirst(s: State, op: Op)
    requires OnDetails(op)
    ensures TellsFirst(s, op, StepDetails(s, op))
  {
  }

  /** An edit or a member update of an older layout learns of it before anything else, in every state. */
  lemma StaleRequestsAreTold(verify: MachineVerifier, s: State, op: Op)
    requires IsEdit(op) || (OnMembers(op) && !op.OpRemoveMember?)
    ensures TellsFirst(s, op, Step(verify, s, op))
  {
    if OnMembers(op) {
      MembersTellFirst(verify, s, op);
    } else if OnReservations(op) {
      ReservationsTellFirst(s, op);
    } else if Creates(op) {
      CreationTellsFirst(s, op);
    } else if OnStructure(op) {
      StructureTellsFirst(s, op);
    } else {
      DetailsTellFirst(s, op);
    }
  }

  /** A host that ends its reservation with another base than it was made on is told, and the reservation stays. */
  lemma StaleEndingsAreTold(s: State, base: U64)
    requires Inv(s) && s.pending.Some? && base != s.layout.revision
    ensures var (p, stale) := (s.pending.value, Failure(StaleRevision(s.layout.revision, base)));
            && StepReservations(s, OpPaneReady(p.host, base, p.reservationId)) == (s, stale)
            && StepReservations(s, OpFail(p.host, base, p.reservationId)) == (s, stale)
  {
  }

  /**
   * Of two requests that quote one base, however far apart in a run, at most one commits: once the first has,
   * the second fails, whatever it is, and an edit is told why.
   */
  lemma OneCommitPerBase(verify: MachineVerifier, s: State, first: Op, between: seq<Op>, second: Op)
    requires Inv(s) && KeepsTabs(verify, s, [first] + between)
    requires Step(verify, s, first).1.Success? && Step(verify, s, first).0.layout != s.layout
    requires QuotedBase(first).Some? && QuotedBase(second) == QuotedBase(first)
    ensures var t := After(verify, s, [first] + between);
            && Step(verify, t, second).1.Failure?
            && (IsEdit(second) ==>
                  Step(verify, t, second)
                  == (t, Failure(StaleRevision(t.layout.revision, QuotedBase(second).value))))
  {
    var t := After(verify, s, [first] + between);
    RunSplits(verify, s, [first], between);
    CommitsMoveOn(verify, s, first, between);
    RunKeepsInv(verify, s, [first] + between);
    SuccessIsCurrent(verify, s, first);
    StaleFails(verify, t, second);
  }

  /** After a commit no run comes back to the revision the commit was made on. */
  lemma CommitsMoveOn(verify: MachineVerifier, s: State, first: Op, between: seq<Op>)
    requires Inv(s) && KeepsTabs(verify, s, [first] + between) && Step(verify, s, first).0.layout != s.layout
    ensures s.layout.revision < After(verify, s, [first] + between).layout.revision
  {
    assert ([first] + between)[0] == first && ([first] + between)[1..] == between;
    StepCommitsAtMostOnce(verify, s, first);
    StepKeepsInvExactly(verify, s, first);
    RunCommitsForward(verify, Step(verify, s, first).0, between);
  }

  lemma StaleFails(verify: MachineVerifier, s: State, op: Op)
    requires Inv(s) && QuotedBase(op).Some? && QuotedBase(op).value != s.layout.revision
    ensures Step(verify, s, op).1.Failure?
    ensures IsEdit(op) ==>
              Step(verify, s, op) == (s, Failure(StaleRevision(s.layout.revision, QuotedBase(op).value)))
  {
    if Step(verify, s, op).1.Success? {
      SuccessIsCurrent(verify, s, op);
      assert false;
    }
    if IsEdit(op) {
      StaleRequestsAreTold(verify, s, op);
    }
  }
}
