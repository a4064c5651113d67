/** The control lease of one pane: whose keystrokes count, by epoch and with idle expiry. */
module Lease {
  import opened Common

  type PeerId = Bytes

  // Instants and durations are in milliseconds.
  const IDLE_AFTER: nat := 30_000

  datatype LeaseState = LeaseState(controller: PeerId, epoch: U64, lastActivity: nat)

  datatype Decision =
    | AcceptInput(data: Bytes)
    | Publish(state: LeaseState)
    | RejectStaleInput
    | RejectStaleRequest
    | RejectActiveController

  datatype LeaseError = EpochExhausted

  /** A free lease is idle; so is one whose controller has been quiet; earlier instants count as now. */
  predicate IsIdleAt(s: LeaseState, now: nat) {
    s.controller == [] || (if now < s.lastActivity then 0 else now - s.lastActivity) >= IDLE_AFTER
  }

  function ChangeController(s: LeaseState, sender: PeerId, now: nat): Result<LeaseState, LeaseError> {
    if s.epoch == U64_MAX then Failure(EpochExhausted)
    else Success(LeaseState(sender, s.epoch + 1, now))
  }

  // ---------------------------------------------------------------------------
  // Operations on the state
  // ---------------------------------------------------------------------------

  /** An idle controller is cleared first, so one input can move the epoch by two. */
  function Input(s: LeaseState, sender: PeerId, epoch: U64, data: Bytes, now: nat): (LeaseState, Decision) {
    if data == [] || epoch != s.epoch then (s, RejectStaleInput)
    else
      var cleared := if s.controller != [] && IsIdleAt(s, now) then ChangeController(s, [], now) else Success(s);
      if cleared.Failure? then (s, RejectStaleInput)
      else
        var free := cleared.value;
        if free.controller == [] then
          var taken := ChangeController(free, sender, now);
          if taken.Failure? then (free, RejectStaleInput)
          else (taken.value, AcceptInput(data))
        else if sender != free.controller then (free, RejectStaleInput)
        else (free.(lastActivity := now), AcceptInput(data))
  }

  function ClearController(s: LeaseState, now: nat): (LeaseState, Result<Option<LeaseState>, LeaseError>) {
    if s.controller == [] then (s, Success(None))
    else
      match ChangeController(s, [], now)
      case Failure(error) => (s, Failure(error))
      case Success(next) => (next, Success(Some(next)))
  }

  function ClearIfIdle(s: LeaseState, now: nat): (LeaseState, Result<Option<LeaseState>, LeaseError>) {
    if s.controller == [] || !IsIdleAt(s, now) then (s, Success(None))
    else ClearController(s, now)
  }

  function TakeControl(s: LeaseState, sender: PeerId, knownEpoch: U64, now: nat)
    : (LeaseState, Result<Decision, LeaseError>)
  {
    if knownEpoch != s.epoch then (s, Success(RejectStaleRequest))
    else if s.epoch == U64_MAX then (s, Failure(EpochExhausted))
    else if s.controller != [] && !IsIdleAt(s, now) then (s, Success(RejectActiveController))
    else
      match ChangeController(s, sender, now)
      case Failure(error) => (s, Failure(error))
      case Success(next) => (next, Success(Publish(next)))
  }

  // ---------------------------------------------------------------------------
  // Runs
  // ---------------------------------------------------------------------------

  datatype Call =
    | CallInput(sender: PeerId, epoch: U64, data: Bytes, at: nat)
    | CallTake(sender: PeerId, epoch: U64, at: nat)
    | CallClearIfIdle(at: nat)
    | CallClear(at: nat)

  function Apply(s: LeaseState, call: Call): LeaseState {
    match call
    case CallInput(sender, epoch, data, at) => Input(s, sender, epoch, data, at).0
    case CallTake(sender, epoch, at) => TakeControl(s, sender, epoch, at).0
    case CallClearIfIdle(at) => ClearIfIdle(s, at).0
    case CallClear(at) => ClearController(s, at).0
  }

  function ApplyAll(s: LeaseState, calls: seq<Call>): LeaseState
    decreases |calls|
  {
    if calls == [] then s else ApplyAll(Apply(s, calls[0]), calls[1..])
  }

  /** Whether the call gets `sender` what it wanted: its keystrokes through, or the lease. */
  predicate Succeeds(s: LeaseState, call: Call) {
    match call
    case CallInput(sender, epoch, data, at) => Input(s, sender, epoch, data, at).1.AcceptInput?
    case CallTake(sender, epoch, at) =>
      var r := TakeControl(s, sender, epoch, at).1;
      r.Success? && r.value.Publish?
    case _ => false
  }

  /** A change of controller costs at least one epoch, and epochs never go back. */
  lemma EpochFencesTheController(s: LeaseState, call: Call)
    ensures s.epoch <= Apply(s, call).epoch <= s.epoch + 2
    ensures s.epoch == Apply(s, call).epoch ==> Apply(s, call).controller == s.controller
    ensures Succeeds(s, call) ==> Apply(s, call).controller == call.sender && s.epoch == call.epoch
    ensures call.CallTake? && Succeeds(s, call) ==> Apply(s, call).epoch == s.epoch + 1
    ensures call.CallInput? && call.epoch != s.epoch ==> Apply(s, call) == s && !Succeeds(s, call)
  {
  }

  lemma {:induction false} EpochsOnlyGrow(s: LeaseState, calls: seq<Call>)
    ensures s.epoch <= ApplyAll(s, calls).epoch
    ensures s.epoch == ApplyAll(s, calls).epoch ==> ApplyAll(s, calls).controller == s.controller
    decreases |calls|
  {
    if calls != [] {
      EpochFencesTheController(s, calls[0]);
      EpochsOnlyGrow(Apply(s, calls[0]), calls[1..]);
    }
  }

  /**
   * Exclusion. Of any two successes of one run, however far apart, that leave the lease at one epoch, both are
   * one sender's: an epoch belongs to one controller.
   */
  lemma OneEpochOneController(s: LeaseState, first: Call, between: seq<Call>, second: Call)
    requires Succeeds(s, first)
    requires var t := ApplyAll(Apply(s, first), between);
             Succeeds(t, second) && Apply(t, second).epoch == Apply(s, first).epoch
    ensures first.sender == second.sender
  {
    var t := ApplyAll(Apply(s, first), between);
    EpochFencesTheController(s, first);
    EpochsOnlyGrow(Apply(s, first), between);
    EpochFencesTheController(t, second);
  }

  /** Calls in time order, none before `from` and all before `until`, and none that clears by force. */
  ghost predicate Within(calls: seq<Call>, from: nat, until: nat) {
    && (forall i, j :: 0 <= i < j < |calls| ==> calls[i].at <= calls[j].at)
    && (forall call :: call in calls ==> from <= call.at < until && !call.CallClear?)
  }

  lemma HeldThrough(s: LeaseState, call: Call)
    requires s.controller != [] && !call.CallClear?
    requires s.lastActivity <= call.at < s.lastActivity + IDLE_AFTER
    ensures var next := Apply(s, call);
            && next.controller == s.controller && next.epoch == s.epoch
            && s.lastActivity <= next.lastActivity <= call.at
  {
  }

  lemma {:induction false} ControllerHolds(s: LeaseState, calls: seq<Call>, from: nat, until: nat)
    requires s.controller != [] && s.lastActivity <= from && until <= s.lastActivity + IDLE_AFTER
    requires Within(calls, from, until)
    ensures var t := ApplyAll(s, calls);
            && t.controller == s.controller && t.epoch == s.epoch
            && s.lastActivity <= t.lastActivity
            && (calls != [] ==> t.lastActivity <= calls[|calls| - 1].at)
            && (calls == [] ==> t == s)
    decreases |calls|
  {
    if calls != [] {
      var call, rest := calls[0], calls[1..];
      assert call in calls && forall c :: c in rest ==> c in calls;
      var next := Apply(s, call);
      HeldThrough(s, call);
      assert forall i :: 0 <= i < |rest| ==> calls[i + 1] == rest[i] && call.at <= rest[i].at;
      ControllerHolds(next, rest, call.at, until);
    }
  }

  /**
   * For thirty seconds after its last accepted input or grant a controller cannot be displaced: whatever calls
   * come in, short of a forced clear, it keeps the lease and its epoch, and nobody else's input or request
   * succeeds.
   */
  lemma NobodyElseForThirtySeconds(s: LeaseState, granted: Call, calls: seq<Call>, other: Call)
    requires Succeeds(s, granted) && granted.sender != []
    requires Within(calls, granted.at, granted.at + IDLE_AFTER)
    requires granted.at <= other.at < granted.at + IDLE_AFTER && forall call :: call in calls ==> call.at <= other.at
    requires (other.CallInput? || other.CallTake?) && other.sender != granted.sender
    ensures var t := ApplyAll(Apply(s, granted), calls);
            && t.controller == granted.sender && t.epoch == Apply(s, granted).epoch
            && !Succeeds(t, other) && Apply(t, other) == t
  {
    var start := Apply(s, granted);
    assert start.controller == granted.sender && start.lastActivity == granted.at;
    ControllerHolds(start, calls, granted.at, granted.at + IDLE_AFTER);
  }

  /** And from thirty seconds of quiet on, whoever quotes the epoch gets through: the lease is not held for ever. */
  lemma AnybodyAfterThirtySeconds(s: LeaseState, call: Call)
    requires call.CallInput? || call.CallTake?
    requires s.controller != [] && s.lastActivity + IDLE_AFTER <= call.at && call.epoch == s.epoch
    requires call.CallInput? ==> call.data != []
    ensures Succeeds(s, call) <==> s.epoch < (if call.CallInput? then U64_MAX - 1 else U64_MAX)
  {
  }

  // ---------------------------------------------------------------------------
  // What each call comes to
  // ---------------------------------------------------------------------------

  /** Somebody holds the lease and has been heard from within thirty seconds. */
  predicate Held(s: LeaseState, now: nat) {
    s.controller != [] && now < s.lastActivity + IDLE_AFTER
  }

  /** Epochs that getting input through costs: none for the holder, one for a free lease, two for an idle one. */
  function Cost(s: LeaseState, now: nat): nat {
    if Held(s, now) then 0 else if s.controller == [] then 1 else 2
  }

  /** Input gets through with the epoch quoted, from the holder or to a lease nobody holds, and is delivered whole. */
  lemma InputExactly(s: LeaseState, sender: PeerId, epoch: U64, data: Bytes, now: nat)
    ensures var (t, decision) := Input(s, sender, epoch, data, now);
            if data != [] && epoch == s.epoch && (Held(s, now) ==> sender == s.controller)
               && s.epoch + Cost(s, now) <= U64_MAX
            then decision == AcceptInput(data) && t == LeaseState(sender, s.epoch + Cost(s, now), now)
            else
              && decision == RejectStaleInput
              && (t == s || (t == LeaseState([], U64_MAX, now) && Cost(s, now) == 2 && s.epoch == U64_MAX - 1))
  {
  }

  /** A request for control is granted at the cost of one epoch unless somebody holds the lease. */
  lemma TakeControlExactly(s: LeaseState, sender: PeerId, knownEpoch: U64, now: nat)
    ensures var (t, r) := TakeControl(s, sender, knownEpoch, now);
            && (t != s ==> t == LeaseState(sender, s.epoch + 1, now) && r == Success(Publish(t)))
            && (r.Success? && r.value.Publish? <==>
                  knownEpoch == s.epoch && s.epoch < U64_MAX && !Held(s, now))
            && (r == Success(RejectStaleRequest) <==> knownEpoch != s.epoch)
            && (r == Success(RejectActiveController) <==> knownEpoch == s.epoch < U64_MAX && Held(s, now))
            && (r == Failure(EpochExhausted) <==> knownEpoch == s.epoch == U64_MAX)
            && (r.Success? && r.value.Publish? ==> t != s)
  {
  }

  /** A lease that is held by nobody busy is cleared, by force a busy one too, and a cleared one is published. */
  lemma ClearingExactly(s: LeaseState, now: nat)
    ensures ClearController(s, now)
            == if s.controller == [] then (s, Success(None))
               else if s.epoch == U64_MAX then (s, Failure(EpochExhausted))
               else (LeaseState([], s.epoch + 1, now), Success(Some(LeaseState([], s.epoch + 1, now))))
    ensures ClearIfIdle(s, now) == if Held(s, now) then (s, Success(None)) else ClearController(s, now)
  {
  }

  // ---------------------------------------------------------------------------
  // The controller types
  // ---------------------------------------------------------------------------

  /** Input of `who` that quotes its epoch. */
  predicate Types(who: PeerId, epoch: U64, call: Call) {
    call.CallInput? && call.sender == who && call.epoch == epoch && call.data != []
  }

  /** Each call comes within thirty seconds of the last time `who` typed, and none clears by force. */
  predicate Busy(who: PeerId, epoch: U64, last: nat, calls: seq<Call>)
    decreases |calls|
  {
    calls == []
    || (&& calls[0].at < last + IDLE_AFTER && !calls[0].CallClear?
        && Busy(who, epoch, if Types(who, epoch, calls[0]) then calls[0].at else last, calls[1..]))
  }

  function TypedBy(who: PeerId, epoch: U64, calls: seq<Call>): seq<Bytes> {
    if calls == [] then []
    else (if Types(who, epoch, calls[0]) then [calls[0].data] else []) + TypedBy(who, epoch, calls[1..])
  }

  /** What reaches the pane, in order. */
  function Delivered(s: LeaseState, calls: seq<Call>): seq<Bytes>
    decreases |calls|
  {
    if calls == [] then []
    else Reaching(s, calls[0]) + Delivered(Apply(s, calls[0]), calls[1..])
  }

  function Reaching(s: LeaseState, call: Call): seq<Bytes> {
    if !call.CallInput? then []
    else
      match Input(s, call.sender, call.epoch, call.data, call.at).1
      case AcceptInput(data) => [data]
      case _ => []
  }

  lemma OneCallWhileHeld(s: LeaseState, call: Call)
    requires Held(s, call.at) && !call.CallClear?
    ensures Reaching(s, call) == if Types(s.controller, s.epoch, call) then [call.data] else []
    ensures Apply(s, call) == if Types(s.controller, s.epoch, call) then s.(lastActivity := call.at) else s
    ensures Succeeds(s, call) <==> Types(s.controller, s.epoch, call)
  {
  }

  /**
   * A controller that keeps typing keeps the lease and its epoch without end, every byte it types reaches the
   * pane in order, and nothing else does.
   */
  lemma {:induction false} ControllerTypesOn(s: LeaseState, calls: seq<Call>)
    requires s.controller != [] && Busy(s.controller, s.epoch, s.lastActivity, calls)
    ensures ApplyAll(s, calls).controller == s.controller && ApplyAll(s, calls).epoch == s.epoch
    ensures Delivered(s, calls) == TypedBy(s.controller, s.epoch, calls)
    decreases |calls|
  {
    if calls != [] {
      OneCallWhileHeld(s, calls[0]);
      ControllerTypesOn(Apply(s, calls[0]), calls[1..]);
    }
  }

  /** So from a grant on, for as long as the grantee is never quiet for thirty seconds. */
  lemma GranteeTypesOn(s: LeaseState, granted: Call, calls: seq<Call>)
    requires Succeeds(s, granted) && granted.sender != []
    requires Busy(granted.sender, Apply(s, granted).epoch, granted.at, calls)
    ensures var start := Apply(s, granted);
            && ApplyAll(start, calls).controller == granted.sender && ApplyAll(start, calls).epoch == start.epoch
            && Delivered(start, calls) == TypedBy(granted.sender, start.epoch, calls)
  {
    assert Apply(s, granted).controller == granted.sender && Apply(s, granted).lastActivity == granted.at;
    ControllerTypesOn(Apply(s, granted), calls);
  }
}
