/** The replicated session layout: its entities, validators and the meaning of every operation. */
module LayoutModel {
  import opened Common
  import opened LayoutTree

  const MAX_MEMBERS: nat := 8
  const MAX_TABS: nat := 9
  const MAX_PANES_PER_TAB: nat := 8
  const MAX_PEER_ID_BYTES: nat := 64
  const MAX_ENDPOINT_ADDR_BYTES: nat := 4096
  const MAX_DISPLAY_NAME_CHARS: nat := 32
  const MAX_TITLE_CHARS: nat := 32

  type PeerId = Bytes
  type TabId = U64
  type ReservationId = U64

  /** `machine_id::verify`: whether a proof ties a machine id to a peer id. */
  type MachineVerifier = (Bytes, PeerId, Bytes) -> bool

  datatype NewPanePosition = First | Second

  datatype MemberKind = Unspecified | Machine | Person

  datatype Member = Member(
    peerId: PeerId,
    endpointAddr: Bytes,
    displayName: string,
    kind: MemberKind,
    machineId: Bytes,
    machineProof: Bytes)

  datatype MemberIdentity = MemberIdentity(
    displayName: string,
    kind: MemberKind,
    machineId: Bytes,
    machineProof: Bytes)

  datatype Pane = Pane(
    paneId: PaneId,
    host: PeerId,
    locked: bool,
    exited: bool,
    rows: U16,
    cols: U16,
    title: Option<string>)

  datatype Tab = Tab(tabId: TabId, root: Node, title: Option<string>)

  datatype Snapshot = Snapshot(
    revision: U64,
    members: seq<Member>,
    tabs: seq<Tab>,
    panes: map<PaneId, Pane>)

  datatype PendingKind =
    | PendingPane(paneId: PaneId, target: PaneId, axis: Axis, position: NewPanePosition, rows: U16, cols: U16)
    | PendingTab(tabId: TabId, paneId: PaneId, rows: U16, cols: U16)

  datatype Pending = Pending(
    reservationId: ReservationId,
    creator: PeerId,
    host: PeerId,
    baseRevision: U64,
    kind: PendingKind)

  datatype PaneReservation = PaneReservation(
    reservationId: ReservationId,
    paneId: PaneId,
    tabId: Option<TabId>,
    host: PeerId,
    rows: U16,
    cols: U16)

  datatype Invalidated = Invalidated(reservationId: ReservationId, creator: PeerId)

  datatype ReservationCommit =
    | CommittedPane(paneId: PaneId)
    | CommittedTab(tabId: TabId, paneId: PaneId)

  datatype LayoutError =
    | StaleRevision(expected: U64, got: U64)
    | RevisionExhausted
    | MemberLimit
    | AlreadyMember
    | NotMember
    | InvalidPeerId
    | InvalidEndpointAddress
    | InvalidDisplayName
    | InvalidTitle
    | TabLimit
    | PaneLimit
    | SplitDepthLimit
    | InvalidGrid
    | InvalidSplitRatio
    | UnknownPane(paneId: PaneId)
    | NoMatchingSplit(splitPaneId: PaneId, axis: Axis)
    | UnknownTab(tabId: TabId)
    | NotPaneHost(hostedPaneId: PaneId)
    | NotTabHost(hostedTabId: TabId)
    | LastPaneInTab(lastTabId: TabId)
    | LastTab
    | ReservationPending
    | UnknownTarget
    | UnknownReservation(reservationId: ReservationId)
    | ReservationCreatorMismatch
    | ReservationInvalid
    | InvalidSnapshot
    | IdExhausted

  /** Everything the coordinator holds: the committed layout and what it hands out next. */
  datatype State = State(
    layout: Snapshot,
    nextTabId: TabId,
    nextPaneId: PaneId,
    nextReservationId: ReservationId,
    pending: Option<Pending>)

  // ---------------------------------------------------------------------------
  // Validators
  // ---------------------------------------------------------------------------

  predicate ValidGrid(rows: U16, cols: U16) {
    rows > 0 && cols > 0
  }

  predicate ValidPeerId(peerId: PeerId) {
    0 < |peerId| <= MAX_PEER_ID_BYTES
  }

  predicate ValidEndpointAddr(addr: Bytes) {
    0 < |addr| <= MAX_ENDPOINT_ADDR_BYTES
  }

  /** The Unicode `Cc` category. */
  predicate IsControl(c: char) {
    c as int < 0x20 || 0x7F <= c as int <= 0x9F
  }

  predicate ValidDisplayName(name: string) {
    |name| <= MAX_DISPLAY_NAME_CHARS && forall c :: c in name ==> !IsControl(c)
  }

  function NormalizeTitle(title: string): Result<Option<string>, LayoutError> {
    var normalized := TrimEnd(TrimStart(title));
    if normalized == "" then Success(None)
    else if |normalized| > MAX_TITLE_CHARS || exists c :: c in normalized && IsControl(c) then Failure(InvalidTitle)
    else Success(Some(normalized))
  }

  predicate IsNormalizedTitle(title: Option<string>) {
    title.None? || NormalizeTitle(title.value) == Success(Some(title.value))
  }

  function VerifiedFor(verify: MachineVerifier, identity: MemberIdentity, peerId: PeerId): MemberIdentity {
    if verify(identity.machineId, peerId, identity.machineProof) then identity
    else identity.(machineId := [], machineProof := [])
  }

  function MemberFor(peerId: PeerId, addr: Bytes, identity: MemberIdentity): Member {
    Member(peerId, addr, identity.displayName, identity.kind, identity.machineId, identity.machineProof)
  }

  // ---------------------------------------------------------------------------
  // Lookups
  // ---------------------------------------------------------------------------

  predicate IsMember(members: seq<Member>, peerId: PeerId) {
    exists i :: 0 <= i < |members| && members[i].peerId == peerId
  }

  /** The position of the first member with this id, or the list's length. */
  function MemberIndex(members: seq<Member>, peerId: PeerId): (i: nat)
    ensures i <= |members|
    ensures forall j :: 0 <= j < i ==> members[j].peerId != peerId
    ensures i < |members| ==> members[i].peerId == peerId
  {
    if members == [] || members[0].peerId == peerId then 0 else 1 + MemberIndex(members[1..], peerId)
  }

  function TabIndex(tabs: seq<Tab>, tabId: TabId): (i: nat)
    ensures i <= |tabs|
    ensures forall j :: 0 <= j < i ==> tabs[j].tabId != tabId
    ensures i < |tabs| ==> tabs[i].tabId == tabId
  {
    if tabs == [] || tabs[0].tabId == tabId then 0 else 1 + TabIndex(tabs[1..], tabId)
  }

  function TabIndexForPane(tabs: seq<Tab>, paneId: PaneId): (i: nat)
    ensures i <= |tabs|
    ensures forall j :: 0 <= j < i ==> !ContainsLeaf(tabs[j].root, paneId)
    ensures i < |tabs| ==> ContainsLeaf(tabs[i].root, paneId)
  {
    if tabs == [] || ContainsLeaf(tabs[0].root, paneId) then 0 else 1 + TabIndexForPane(tabs[1..], paneId)
  }

  predicate IsLeast(ids: set<PaneId>, least: PaneId) {
    least in ids && forall other :: other in ids ==> least <= other
  }

  lemma LeastExists(ids: set<PaneId>)
    requires ids != {}
    ensures exists least :: IsLeast(ids, least)
  {
    var x :| x in ids;
    if ids == {x} {
      assert IsLeast(ids, x);
    } else {
      var others := ids - {x};
      assert ids == others + {x};
      LeastExists(others);
      var rest :| IsLeast(others, rest);
      assert IsLeast(ids, if x < rest then x else rest);
    }
  }

  ghost function Least(ids: set<PaneId>): (least: PaneId)
    requires ids != {}
    ensures IsLeast(ids, least)
  {
    LeastExists(ids);
    var least :| IsLeast(ids, least);
    least
  }

  /** The ids of a set in ascending order, the order in which a `BTreeSet` is walked. */
  ghost function Ascending(ids: set<PaneId>): seq<PaneId> {
    if ids == {} then [] else [Least(ids)] + Ascending(ids - {Least(ids)})
  }

  lemma {:induction false} AscendingListsTheSet(ids: set<PaneId>)
    ensures forall id :: id in Ascending(ids) <==> id in ids
  {
    if ids != {} {
      AscendingListsTheSet(ids - {Least(ids)});
      assert forall id :: id in Ascending(ids) <==> id == Least(ids) || id in Ascending(ids - {Least(ids)});
    }
  }

  // ---------------------------------------------------------------------------
  // Guards
  // ---------------------------------------------------------------------------

  function CheckMutation(s: State, baseRevision: U64): Outcome<LayoutError> {
    if baseRevision != s.layout.revision then Fail(StaleRevision(s.layout.revision, baseRevision))
    else Need(s.layout.revision < U64_MAX, RevisionExhausted)
  }

  function RequireMember(s: State, peerId: PeerId): Outcome<LayoutError> {
    Need(IsMember(s.layout.members, peerId), NotMember)
  }

  function EnsureNoReservation(s: State): Outcome<LayoutError> {
    Need(s.pending.None?, ReservationPending)
  }

  /** The three checks every member-requested mutation opens with. */
  function CheckRequest(s: State, requester: PeerId, baseRevision: U64): Result<(), LayoutError> {
    var mutation := CheckMutation(s, baseRevision);
    :- mutation;
    :- RequireMember(s, requester);
    :- EnsureNoReservation(s);
    Success(())
  }

  function MatchReservation(s: State, host: PeerId, reservationId: ReservationId): Result<Pending, LayoutError> {
    if s.pending.None? || s.pending.value.reservationId != reservationId then Failure(UnknownReservation(reservationId))
    else if s.pending.value.host != host then Failure(ReservationCreatorMismatch)
    else Success(s.pending.value)
  }

  function ValidatePaneCreate(tabs: seq<Tab>, target: PaneId): Outcome<LayoutError> {
    var i := TabIndexForPane(tabs, target);
    if i == |tabs| then Fail(UnknownPane(target))
    else if |PaneIds(tabs[i].root)| >= MAX_PANES_PER_TAB then Fail(PaneLimit)
    else Need(LeafDepth(tabs[i].root, target).value < MAX_SPLIT_DEPTH, SplitDepthLimit)
  }

  function InvalidationOf(s: State): Option<Invalidated> {
    if s.pending.None? then None
    else Some(Invalidated(s.pending.value.reservationId, s.pending.value.creator))
  }

  // ---------------------------------------------------------------------------
  // Operations. A failure leaves the state alone unless the result carries one.
  // ---------------------------------------------------------------------------

  function FirstPane(host: PeerId, paneId: PaneId, rows: U16, cols: U16): Pane {
    Pane(paneId, host, false, false, rows, cols, None)
  }

  function NewSession(
    verify: MachineVerifier, host: PeerId, addr: Bytes, identity: MemberIdentity, rows: U16, cols: U16)
    : Result<State, LayoutError>
  {
    var verified := VerifiedFor(verify, identity, host);
    :- Need(ValidGrid(rows, cols), InvalidGrid);
    :- Need(ValidPeerId(host), InvalidPeerId);
    :- Need(ValidEndpointAddr(addr), InvalidEndpointAddress);
    :- Need(ValidDisplayName(verified.displayName), InvalidDisplayName);
    Success(State(
      Snapshot(1, [MemberFor(host, addr, verified)], [Tab(1, Leaf(1), None)], map[1 := FirstPane(host, 1, rows, cols)]),
      2, 2, 1, None))
  }

  function AddMember(
    verify: MachineVerifier, s: State, baseRevision: U64, peerId: PeerId, addr: Bytes, identity: MemberIdentity)
    : Result<(State, Option<Invalidated>), LayoutError>
  {
    var verified := VerifiedFor(verify, identity, peerId);
    :- CheckMutation(s, baseRevision);
    :- Need(ValidPeerId(peerId), InvalidPeerId);
    :- Need(ValidEndpointAddr(addr), InvalidEndpointAddress);
    :- Need(ValidDisplayName(verified.displayName), InvalidDisplayName);
    :- Need(!IsMember(s.layout.members, peerId), AlreadyMember);
    :- Need(|s.layout.members| < MAX_MEMBERS, MemberLimit);
    var members := s.layout.members + [MemberFor(peerId, addr, verified)];
    Success((s.(layout := s.layout.(revision := s.layout.revision + 1, members := members), pending := None),
             InvalidationOf(s)))
  }

  /** `None` as reply: the claim was refused or already there, and nothing moved. */
  function UpdateMemberKind(s: State, baseRevision: U64, peerId: PeerId, kind: MemberKind)
    : Result<(State, Option<Option<Invalidated>>), LayoutError>
  {
    var i := MemberIndex(s.layout.members, peerId);
    :- CheckMutation(s, baseRevision);
    :- Need(i < |s.layout.members|, NotMember);
    if kind.Unspecified? || !s.layout.members[i].kind.Unspecified? then Success((s, None))
    else
      var members := s.layout.members[i := s.layout.members[i].(kind := kind)];
      Success((s.(layout := s.layout.(revision := s.layout.revision + 1, members := members), pending := None),
               Some(InvalidationOf(s))))
  }

  function UpdateMemberEndpoint(s: State, baseRevision: U64, peerId: PeerId, addr: Bytes)
    : Result<(State, Option<Invalidated>), LayoutError>
  {
    var i := MemberIndex(s.layout.members, peerId);
    :- CheckMutation(s, baseRevision);
    :- Need(ValidEndpointAddr(addr), InvalidEndpointAddress);
    :- Need(i < |s.layout.members|, NotMember);
    var members := s.layout.members[i := s.layout.members[i].(endpointAddr := addr)];
    Success((s.(layout := s.layout.(revision := s.layout.revision + 1, members := members), pending := None),
             InvalidationOf(s)))
  }

  function HostedBy(panes: map<PaneId, Pane>, peerId: PeerId): set<PaneId> {
    set key | key in panes && panes[key].host == peerId :: panes[key].paneId
  }

  function MembersWithout(members: seq<Member>, peerId: PeerId): seq<Member> {
    if members == [] then []
    else (if members[0].peerId == peerId then [] else [members[0]]) + MembersWithout(members[1..], peerId)
  }

  /** What is left of one tab, if anything. */
  ghost function TabWithout(tab: Tab, gone: set<PaneId>): seq<Tab> {
    var root := RemoveLeaves(Some(tab.root), Ascending(gone));
    if root.None? then [] else [tab.(root := root.value)]
  }

  ghost function TabsWithout(tabs: seq<Tab>, gone: set<PaneId>): seq<Tab> {
    if tabs == [] then [] else TabWithout(tabs[0], gone) + TabsWithout(tabs[1..], gone)
  }

  /** The tabs are drained before the emptiness check, so that one failure loses them. */
  ghost function RemoveMember(s: State, peerId: PeerId): (State, Result<Option<Invalidated>, LayoutError>) {
    if !IsMember(s.layout.members, peerId) then (s, Failure(NotMember))
    else if |s.layout.members| == 1 then (s, Failure(InvalidSnapshot))
    else if s.layout.revision == U64_MAX then (s, Failure(RevisionExhausted))
    else
      var gone := HostedBy(s.layout.panes, peerId);
      var tabs := TabsWithout(s.layout.tabs, gone);
      if tabs == [] then (s.(layout := s.layout.(tabs := [])), Failure(InvalidSnapshot))
      else
        (s.(layout := Snapshot(
              s.layout.revision + 1,
              MembersWithout(s.layout.members, peerId),
              tabs,
              s.layout.panes - gone),
            pending := None),
         Success(InvalidationOf(s)))
  }

  function ReservePane(
    s: State, creator: PeerId, host: PeerId, baseRevision: U64, target: PaneId, axis: Axis,
    position: NewPanePosition, rows: U16, cols: U16)
    : Result<(State, PaneReservation), LayoutError>
  {
    var kind := PendingPane(s.nextPaneId, target, axis, position, rows, cols);
    :- CheckMutation(s, baseRevision);
    :- RequireMember(s, creator);
    :- Need(IsMember(s.layout.members, host), UnknownTarget);
    :- Need(ValidGrid(rows, cols), InvalidGrid);
    :- EnsureNoReservation(s);
    :- ValidatePaneCreate(s.layout.tabs, target);
    :- Need(s.nextPaneId < U64_MAX, IdExhausted);
    :- Need(s.nextReservationId < U64_MAX, IdExhausted);
    Success((s.(nextPaneId := s.nextPaneId + 1,
                nextReservationId := s.nextReservationId + 1,
                pending := Some(Pending(s.nextReservationId, creator, host, baseRevision, kind))),
             PaneReservation(s.nextReservationId, s.nextPaneId, None, host, rows, cols)))
  }

  function ReserveTab(s: State, creator: PeerId, host: PeerId, baseRevision: U64, rows: U16, cols: U16)
    : Result<(State, PaneReservation), LayoutError>
  {
    var kind := PendingTab(s.nextTabId, s.nextPaneId, rows, cols);
    :- CheckMutation(s, baseRevision);
    :- RequireMember(s, creator);
    :- Need(IsMember(s.layout.members, host), UnknownTarget);
    :- Need(ValidGrid(rows, cols), InvalidGrid);
    :- EnsureNoReservation(s);
    :- Need(|s.layout.tabs| < MAX_TABS, TabLimit);
    :- Need(s.nextTabId < U64_MAX, IdExhausted);
    :- Need(s.nextPaneId < U64_MAX, IdExhausted);
    :- Need(s.nextReservationId < U64_MAX, IdExhausted);
    Success((s.(nextTabId := s.nextTabId + 1,
                nextPaneId := s.nextPaneId + 1,
                nextReservationId := s.nextReservationId + 1,
                pending := Some(Pending(s.nextReservationId, creator, host, baseRevision, kind))),
             PaneReservation(s.nextReservationId, s.nextPaneId, Some(s.nextTabId), host, rows, cols)))
  }

  function NewSplit(target: PaneId, added: PaneId, axis: Axis, position: NewPanePosition): Node {
    match position
    case First => Split(axis, DEFAULT_FIRST_SHARE_BPS, Leaf(added), Leaf(target))
    case Second => Split(axis, DEFAULT_FIRST_SHARE_BPS, Leaf(target), Leaf(added))
  }

  function PaneReady(s: State, host: PeerId, baseRevision: U64, reservationId: ReservationId)
    : Result<(State, ReservationCommit), LayoutError>
  {
    var reservation :- MatchReservation(s, host, reservationId);
    :- Need(reservation.baseRevision == baseRevision, StaleRevision(reservation.baseRevision, baseRevision));
    :- CheckMutation(s, baseRevision);
    match reservation.kind
    case PendingPane(paneId, target, axis, position, rows, cols) =>
      :- ValidatePaneCreate(s.layout.tabs, target);
      var i := TabIndexForPane(s.layout.tabs, target);
      var (root, done) := ReplaceLeaf(s.layout.tabs[i].root, target, NewSplit(target, paneId, axis, position));
      :- Need(done, ReservationInvalid);
      var tabs := s.layout.tabs[i := s.layout.tabs[i].(root := root)];
      var panes := s.layout.panes[paneId := FirstPane(reservation.host, paneId, rows, cols)];
      Success((s.(layout := s.layout.(revision := s.layout.revision + 1, tabs := tabs, panes := panes),
                  pending := None),
               CommittedPane(paneId)))
    case PendingTab(tabId, paneId, rows, cols) =>
      :- Need(|s.layout.tabs| < MAX_TABS, ReservationInvalid);
      var tabs := s.layout.tabs + [Tab(tabId, Leaf(paneId), None)];
      var panes := s.layout.panes[paneId := FirstPane(reservation.host, paneId, rows, cols)];
      Success((s.(layout := s.layout.(revision := s.layout.revision + 1, tabs := tabs, panes := panes),
                  pending := None),
               CommittedTab(tabId, paneId)))
  }

  function CancelReservation(s: State, creator: PeerId, reservationId: ReservationId): Result<State, LayoutError> {
    var _ :- MatchReservation(s, creator, reservationId);
    Success(s.(pending := None))
  }

  function FailReservation(s: State, creator: PeerId, baseRevision: U64, reservationId: ReservationId)
    : Result<State, LayoutError>
  {
    var reservation :- MatchReservation(s, creator, reservationId);
    :- Need(reservation.baseRevision == baseRevision, StaleRevision(reservation.baseRevision, baseRevision));
    Success(s.(pending := None))
  }

  function ExpireReservation(s: State, reservationId: ReservationId): Result<State, LayoutError> {
    if s.pending.Some? && s.pending.value.reservationId == reservationId then Success(s.(pending := None))
    else Failure(UnknownReservation(reservationId))
  }

  /** Reserve and commit in one call; a failed commit would leave the reservation behind. */
  function CreatePane(
    s: State, requester: PeerId, baseRevision: U64, target: PaneId, axis: Axis,
    position: NewPanePosition, rows: U16, cols: U16)
    : (State, Result<PaneId, LayoutError>)
  {
    match ReservePane(s, requester, requester, baseRevision, target, axis, position, rows, cols)
    case Failure(error) => (s, Failure(error))
    case Success((reserved, reservation)) =>
      match PaneReady(reserved, requester, baseRevision, reservation.reservationId)
      case Failure(error) => (reserved, Failure(error))
      case Success((committed, commit)) => (committed, Success(commit.paneId))
  }

  function CreateTab(s: State, requester: PeerId, baseRevision: U64, rows: U16, cols: U16)
    : (State, Result<TabId, LayoutError>)
  {
    match ReserveTab(s, requester, requester, baseRevision, rows, cols)
    case Failure(error) => (s, Failure(error))
    case Success((reserved, reservation)) =>
      match PaneReady(reserved, requester, baseRevision, reservation.reservationId)
      case Failure(error) => (reserved, Failure(error))
      case Success((committed, commit)) => (committed, Success(if commit.CommittedTab? then commit.tabId else 0))
  }

  function DeletePane(s: State, requester: PeerId, baseRevision: U64, paneId: PaneId): Result<State, LayoutError> {
    var _ :- CheckRequest(s, requester, baseRevision);
    :- Need(paneId in s.layout.panes, UnknownPane(paneId));
    :- Need(s.layout.panes[paneId].host == requester, NotPaneHost(paneId));
    var i := TabIndexForPane(s.layout.tabs, paneId);
    :- Need(i < |s.layout.tabs|, UnknownPane(paneId));
    var tab := s.layout.tabs[i];
    :- Need(|PaneIds(tab.root)| != 1, LastPaneInTab(tab.tabId));
    LeavesOfASplit(tab.root);
    RemoveLeafTakesOne(tab.root, paneId);
    var tabs := s.layout.tabs[i := tab.(root := RemoveLeaf(tab.root, paneId).value)];
    Success(s.(layout := s.layout.(revision := s.layout.revision + 1, tabs := tabs,
                                   panes := s.layout.panes - {paneId})))
  }

  predicate AllHostedBy(panes: map<PaneId, Pane>, ids: seq<PaneId>, peerId: PeerId) {
    forall id :: id in ids ==> id in panes && panes[id].host == peerId
  }

  function DeleteTab(s: State, requester: PeerId, baseRevision: U64, tabId: TabId): Result<State, LayoutError> {
    var _ :- CheckRequest(s, requester, baseRevision);
    var i := TabIndex(s.layout.tabs, tabId);
    :- Need(i < |s.layout.tabs|, UnknownTab(tabId));
    :- Need(|s.layout.tabs| != 1, LastTab);
    var ids := PaneIds(s.layout.tabs[i].root);
    :- Need(AllHostedBy(s.layout.panes, ids, requester), NotTabHost(tabId));
    var tabs := s.layout.tabs[..i] + s.layout.tabs[i + 1..];
    var panes := s.layout.panes - (set id | id in ids);
    Success(s.(layout := s.layout.(revision := s.layout.revision + 1, tabs := tabs, panes := panes)))
  }

  function SetSplitRatio(
    s: State, requester: PeerId, baseRevision: U64, paneId: PaneId, axis: Axis, share: U16)
    : Result<State, LayoutError>
  {
    var _ :- CheckRequest(s, requester, baseRevision);
    :- Need(ValidShare(share), InvalidSplitRatio);
    var i := TabIndexForPane(s.layout.tabs, paneId);
    :- Need(i < |s.layout.tabs|, UnknownPane(paneId));
    var (root, done) := SetNearestSplitRatio(s.layout.tabs[i].root, paneId, axis, share);
    :- Need(done, NoMatchingSplit(paneId, axis));
    var tabs := s.layout.tabs[i := s.layout.tabs[i].(root := root)];
    Success(s.(layout := s.layout.(revision := s.layout.revision + 1, tabs := tabs)))
  }

  type GridChange = (PaneId, U16, U16)

  /** The first objection to a batch, in the order the changes are listed. */
  function CheckGrids(panes: map<PaneId, Pane>, requester: PeerId, grids: seq<GridChange>, seen: set<PaneId>)
    : Outcome<LayoutError>
  {
    if grids == [] then Pass
    else
      var (id, rows, cols) := grids[0];
      if !ValidGrid(rows, cols) || id in seen then Fail(InvalidGrid)
      else if id !in panes then Fail(UnknownPane(id))
      else if panes[id].host != requester then Fail(NotPaneHost(id))
      else CheckGrids(panes, requester, grids[1..], seen + {id})
  }

  function ApplyGrids(panes: map<PaneId, Pane>, grids: seq<GridChange>): map<PaneId, Pane> {
    if grids == [] then panes
    else
      var (id, rows, cols) := grids[0];
      ApplyGrids(if id in panes then panes[id := panes[id].(rows := rows, cols := cols)] else panes, grids[1..])
  }

  function UpdatePaneGrids(s: State, requester: PeerId, baseRevision: U64, grids: seq<GridChange>)
    : Result<State, LayoutError>
  {
    var _ :- CheckRequest(s, requester, baseRevision);
    :- Need(grids != [], InvalidGrid);
    :- CheckGrids(s.layout.panes, requester, grids, {});
    var panes := ApplyGrids(s.layout.panes, grids);
    Success(s.(layout := s.layout.(revision := s.layout.revision + 1, panes := panes)))
  }

  function WithPane(s: State, pane: Pane, paneId: PaneId): State
    requires s.layout.revision < U64_MAX
  {
    s.(layout := s.layout.(revision := s.layout.revision + 1, panes := s.layout.panes[paneId := pane]))
  }

  function SetPaneLock(s: State, requester: PeerId, baseRevision: U64, paneId: PaneId, locked: bool)
    : Result<State, LayoutError>
  {
    var _ :- CheckRequest(s, requester, baseRevision);
    :- Need(paneId in s.layout.panes, UnknownPane(paneId));
    :- Need(s.layout.panes[paneId].host == requester, NotPaneHost(paneId));
    Success(WithPane(s, s.layout.panes[paneId].(locked := locked), paneId))
  }

  /** Reporting an exit a second time succeeds and moves nothing. */
  function MarkPaneExited(s: State, requester: PeerId, baseRevision: U64, paneId: PaneId): Result<State, LayoutError> {
    var _ :- CheckRequest(s, requester, baseRevision);
    :- Need(paneId in s.layout.panes, UnknownPane(paneId));
    :- Need(s.layout.panes[paneId].host == requester, NotPaneHost(paneId));
    if s.layout.panes[paneId].exited then Success(s)
    else Success(WithPane(s, s.layout.panes[paneId].(exited := true), paneId))
  }

  function RenamePane(s: State, requester: PeerId, baseRevision: U64, paneId: PaneId, title: string)
    : Result<State, LayoutError>
  {
    var _ :- CheckRequest(s, requester, baseRevision);
    var normalized :- NormalizeTitle(title);
    :- Need(paneId in s.layout.panes, UnknownPane(paneId));
    Success(WithPane(s, s.layout.panes[paneId].(title := normalized), paneId))
  }

  function RenameTab(s: State, requester: PeerId, baseRevision: U64, tabId: TabId, title: string)
    : Result<State, LayoutError>
  {
    var _ :- CheckRequest(s, requester, baseRevision);
    var normalized :- NormalizeTitle(title);
    var i := TabIndex(s.layout.tabs, tabId);
    :- Need(i < |s.layout.tabs|, UnknownTab(tabId));
    var tabs := s.layout.tabs[i := s.layout.tabs[i].(title := normalized)];
    Success(s.(layout := s.layout.(revision := s.layout.revision + 1, tabs := tabs)))
  }

  // ---------------------------------------------------------------------------
  // One step of the session
  // ---------------------------------------------------------------------------

  datatype Op =
    | OpAddMember(baseRevision: U64, peerId: PeerId, addr: Bytes, identity: MemberIdentity)
    | OpUpdateKind(baseRevision: U64, peerId: PeerId, kind: MemberKind)
    | OpUpdateEndpoint(baseRevision: U64, peerId: PeerId, addr: Bytes)
    | OpRemoveMember(peerId: PeerId)
    | OpReservePane(creator: PeerId, host: PeerId, baseRevision: U64, target: PaneId, axis: Axis,
                    position: NewPanePosition, rows: U16, cols: U16)
    | OpReserveTab(creator: PeerId, host: PeerId, baseRevision: U64, rows: U16, cols: U16)
    | OpPaneReady(host: PeerId, baseRevision: U64, reservationId: ReservationId)
    | OpCancel(creator: PeerId, reservationId: ReservationId)
    | OpFail(creator: PeerId, baseRevision: U64, reservationId: ReservationId)
    | OpExpire(reservationId: ReservationId)
    | OpCreatePane(requester: PeerId, baseRevision: U64, target: PaneId, axis: Axis,
                   position: NewPanePosition, rows: U16, cols: U16)
    | OpCreateTab(requester: PeerId, baseRevision: U64, rows: U16, cols: U16)
    | OpDeletePane(requester: PeerId, baseRevision: U64, paneId: PaneId)
    | OpDeleteTab(requester: PeerId, baseRevision: U64, tabId: TabId)
    | OpSetRatio(requester: PeerId, baseRevision: U64, paneId: PaneId, axis: Axis, share: U16)
    | OpUpdateGrids(requester: PeerId, baseRevision: U64, grids: seq<GridChange>)
    | OpSetLock(requester: PeerId, baseRevision: U64, paneId: PaneId, locked: bool)
    | OpMarkExited(requester: PeerId, baseRevision: U64, paneId: PaneId)
    | OpRenamePane(requester: PeerId, baseRevision: U64, paneId: PaneId, title: string)
    | OpRenameTab(requester: PeerId, baseRevision: U64, tabId: TabId, title: string)

  datatype Reply =
    | Done
    | Invalidation(invalidated: Option<Invalidated>)
    | KindUpdate(change: Option<Option<Invalidated>>)
    | Reserved(reservation: PaneReservation)
    | Committed(commit: ReservationCommit)
    | NewPane(paneId: PaneId)
    | NewTab(tabId: TabId)

  type StepResult = (State, Result<Reply, LayoutError>)

  function Lift(s: State, r: Result<State, LayoutError>): StepResult {
    match r
    case Success(next) => (next, Success(Done))
    case Failure(error) => (s, Failure(error))
  }

  function LiftWith<T>(s: State, r: Result<(State, T), LayoutError>, wrap: T -> Reply): StepResult {
    match r
    case Success((next, reply)) => (next, Success(wrap(reply)))
    case Failure(error) => (s, Failure(error))
  }

  predicate OnMembers(op: Op) {
    op.OpAddMember? || op.OpUpdateKind? || op.OpUpdateEndpoint? || op.OpRemoveMember?
  }

  predicate OnReservations(op: Op) {
    op.OpReservePane? || op.OpReserveTab? || op.OpPaneReady? || op.OpCancel? || op.OpFail? || op.OpExpire?
  }

  predicate Creates(op: Op) {
    op.OpCreatePane? || op.OpCreateTab?
  }

  predicate OnStructure(op: Op) {
    op.OpDeletePane? || op.OpDeleteTab? || op.OpSetRatio? || op.OpUpdateGrids?
  }

  predicate OnDetails(op: Op) {
    op.OpSetLock? || op.OpMarkExited? || op.OpRenamePane? || op.OpRenameTab?
  }

  ghost function StepMembers(verify: MachineVerifier, s: State, op: Op): StepResult
    requires OnMembers(op)
  {
    match op
    case OpAddMember(base, peer, addr, identity) =>
      LiftWith(s, AddMember(verify, s, base, peer, addr, identity), i => Invalidation(i))
    case OpUpdateKind(base, peer, kind) =>
      LiftWith(s, UpdateMemberKind(s, base, peer, kind), c => KindUpdate(c))
    case OpUpdateEndpoint(base, peer, addr) =>
      LiftWith(s, UpdateMemberEndpoint(s, base, peer, addr), i => Invalidation(i))
    case OpRemoveMember(peer) =>
      var (next, r) := RemoveMember(s, peer);
      (next, if r.Success? then Success(Invalidation(r.value)) else Failure(r.error))
  }

  function StepReservations(s: State, op: Op): StepResult
    requires OnReservations(op)
  {
    match op
    case OpReservePane(creator, host, base, target, axis, position, rows, cols) =>
      LiftWith(s, ReservePane(s, creator, host, base, target, axis, position, rows, cols), r => Reserved(r))
    case OpReserveTab(creator, host, base, rows, cols) =>
      LiftWith(s, ReserveTab(s, creator, host, base, rows, cols), r => Reserved(r))
    case OpPaneReady(host, base, id) => LiftWith(s, PaneReady(s, host, base, id), c => Committed(c))
    case OpCancel(creator, id) => Lift(s, CancelReservation(s, creator, id))
    case OpFail(creator, base, id) => Lift(s, FailReservation(s, creator, base, id))
    case OpExpire(id) => Lift(s, ExpireReservation(s, id))
  }

  function StepCreation(s: State, op: Op): StepResult
    requires Creates(op)
  {
    match op
    case OpCreatePane(requester, base, target, axis, position, rows, cols) =>
      var (next, r) := CreatePane(s, requester, base, target, axis, position, rows, cols);
      (next, if r.Success? then Success(NewPane(r.value)) else Failure(r.error))
    case OpCreateTab(requester, base, rows, cols) =>
      var (next, r) := CreateTab(s, requester, base, rows, cols);
      (next, if r.Success? then Success(NewTab(r.value)) else Failure(r.error))
  }

  function StepStructure(s: State, op: Op): StepResult
    requires OnStructure(op)
  {
    match op
    case OpDeletePane(requester, base, paneId) => Lift(s, DeletePane(s, requester, base, paneId))
    case OpDeleteTab(requester, base, tabId) => Lift(s, DeleteTab(s, requester, base, tabId))
    case OpSetRatio(requester, base, paneId, axis, share) =>
      Lift(s, SetSplitRatio(s, requester, base, paneId, axis, share))
    case OpUpdateGrids(requester, base, grids) => Lift(s, UpdatePaneGrids(s, requester, base, grids))
  }

  function StepDetails(s: State, op: Op): StepResult
    requires OnDetails(op)
  {
    match op
    case OpSetLock(requester, base, paneId, locked) => Lift(s, SetPaneLock(s, requester, base, paneId, locked))
    case OpMarkExited(requester, base, paneId) => Lift(s, MarkPaneExited(s, requester, base, paneId))
    case OpRenamePane(requester, base, paneId, title) => Lift(s, RenamePane(s, requester, base, paneId, title))
    case OpRenameTab(requester, base, tabId, title) => Lift(s, RenameTab(s, requester, base, tabId, title))
  }

  ghost function Step(verify: MachineVerifier, s: State, op: Op): StepResult {
    if OnMembers(op) then StepMembers(verify, s, op)
    else if OnReservations(op) then StepReservations(s, op)
    else if Creates(op) then StepCreation(s, op)
    else if OnStructure(op) then StepStructure(s, op)
    else StepDetails(s, op)
  }
}
