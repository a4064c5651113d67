/** A pane's agent status: pushes, the grace clock that ends a stale one, and the record kept beside it. */
module AgentTracker {
  import opened Common
  import opened ProcessTree

  // Instants and durations are in milliseconds.
  const PUSHED_STATUS_GRACE: nat := 20_000

  datatype AgentState = Unknown | Idle | Working | Done | Pending | Error

  function KindWire(kind: AgentKind): string {
    match kind
    case Claude => "claude"
    case Codex => "codex"
    case Cursor => "cursor"
    case Pi => "pi"
    case OpenCode => "opencode"
    case Hermes => "hermes"
    case OpenClaw => "openclaw"
  }

  function StateWire(state: AgentState): string {
    match state
    case Unknown => "unknown"
    case Idle => "idle"
    case Working => "working"
    case Done => "done"
    case Pending => "pending"
    case Error => "error"
  }

  datatype PushedAgent = PushedAgent(
    kind: AgentKind, cwd: string, state: AgentState, message: string, at: nat, workingSince: U64)

  datatype DetectedAgent = DetectedAgent(kind: AgentKind, cwd: string)

  datatype ListedAgent = ListedAgent(agent: DetectedAgent, state: AgentState, message: string, workingSince: U64)

  /** `suspectSince` is when the pane was first seen at its prompt with a pushed status standing. */
  datatype Tracker = Tracker(active: Option<DetectedAgent>, pushed: Option<PushedAgent>, suspectSince: Option<nat>)

  /** One status report from a hook, with both clocks it is stamped with. */
  datatype Push = Push(kind: AgentKind, cwd: string, state: AgentState, message: string, at: nat, unixMs: U64)

  function ObserveLiveness(t: Tracker, hasChildren: bool, now: nat): Tracker {
    if t.pushed.None? || hasChildren then t.(suspectSince := None)
    else
      var since := if t.suspectSince.Some? then t.suspectSince.value else now;
      if now >= since && now - since >= PUSHED_STATUS_GRACE then t.(pushed := None, suspectSince := None)
      else t.(suspectSince := Some(since))
  }

  function RecordPush(t: Tracker, p: Push): Tracker {
    var previous := if t.pushed.Some? && t.pushed.value.kind == p.kind then t.pushed else None;
    var since :=
      if previous.Some? && previous.value.state == p.state && previous.value.workingSince != 0
      then previous.value.workingSince else p.unixMs;
    var message :=
      if p.message != "" then p.message
      else if previous.Some? then previous.value.message else "";
    t.(pushed := Some(PushedAgent(p.kind, p.cwd, p.state, message, p.at, since)), suspectSince := None)
  }

  function OwningPush(t: Tracker): Option<PushedAgent> {
    if t.pushed.Some? && t.pushed.value.state != Idle then t.pushed else None
  }

  function Listed(t: Tracker): Option<ListedAgent> {
    var owner := OwningPush(t);
    if owner.Some? then
      var p := owner.value;
      Some(ListedAgent(DetectedAgent(p.kind, p.cwd), p.state, p.message, p.workingSince))
    else if t.active.None? then None
    else if t.pushed.Some? && t.pushed.value.kind == t.active.value.kind then
      var p := t.pushed.value;
      Some(ListedAgent(t.active.value, p.state, p.message, p.workingSince))
    else Some(ListedAgent(t.active.value, Unknown, "", 0))
  }

  // ---------------------------------------------------------------------------
  // What a standing push means
  // ---------------------------------------------------------------------------

  datatype Event = Pushed(push: Push) | Liveness(hasChildren: bool, now: nat) | Scanned(detected: Option<DetectedAgent>)

  function React(t: Tracker, event: Event): Tracker {
    match event
    case Pushed(p) => RecordPush(t, p)
    case Liveness(hasChildren, now) => ObserveLiveness(t, hasChildren, now)
    case Scanned(detected) => t.(active := detected)
  }

  function ReactAll(t: Tracker, events: seq<Event>): Tracker {
    if events == [] then t else React(ReactAll(t, events[..|events| - 1]), events[|events| - 1])
  }

  const FRESH: Tracker := Tracker(None, None, None)

  /** A sighting of the pane at its prompt. */
  predicate Childless(event: Event) {
    event.Liveness? && !event.hasChildren
  }

  /** What ends a stretch at the prompt: a report, or a sighting with a child. */
  predicate Breaks(event: Event) {
    event.Pushed? || (event.Liveness? && event.hasChildren)
  }

  predicate BrokenAt(events: seq<Event>, k: nat)
    requires k < |events|
  {
    Breaks(events[k])
  }

  /** The stretch at the prompt that the history ends in began with sighting `i`. */
  ghost predicate StretchBegan(events: seq<Event>, i: nat) {
    && i < |events| && Childless(events[i])
    && (forall k | i < k < |events| :: !BrokenAt(events, k))
    && (forall j | 0 <= j < i && Childless(events[j]) :: exists k :: j < k < i && BrokenAt(events, k))
  }

  /** The next event is one more sighting of a stretch that is a grace period old. */
  ghost predicate Expires(events: seq<Event>, next: Event) {
    Childless(next) && exists i: nat :: StretchBegan(events, i) && next.now >= events[i].now + PUSHED_STATUS_GRACE
  }

  /** The pushes since the last expiry. */
  ghost function Standing(events: seq<Event>): seq<Push> {
    if events == [] then []
    else
      var before, last := events[..|events| - 1], events[|events| - 1];
      if last.Pushed? then Standing(before) + [last.push]
      else if Expires(before, last) then []
      else Standing(before)
  }

  /** Length of the run of pushes of the last one's kind, counted from the end. */
  function KindRun(pushes: seq<Push>): (n: nat)
    ensures n <= |pushes|
  {
    if pushes == [] then 0
    else if |pushes| > 1 && SameKind(pushes[|pushes| - 2], pushes[|pushes| - 1])
    then KindRun(pushes[..|pushes| - 1]) + 1 else 1
  }

  /** The same for kind and state together: the episode the row is in. */
  function StateRun(pushes: seq<Push>): (n: nat)
    ensures n <= |pushes|
  {
    if pushes == [] then 0
    else if |pushes| > 1 && SameEpisode(pushes[|pushes| - 2], pushes[|pushes| - 1])
    then StateRun(pushes[..|pushes| - 1]) + 1 else 1
  }

  function FirstClock(pushes: seq<Push>): U64 {
    if pushes == [] then 0 else if pushes[0].unixMs != 0 then pushes[0].unixMs else FirstClock(pushes[1..])
  }

  function LastMessage(pushes: seq<Push>): string {
    if pushes == [] then ""
    else if pushes[|pushes| - 1].message != "" then pushes[|pushes| - 1].message
    else LastMessage(pushes[..|pushes| - 1])
  }

  function Tail(pushes: seq<Push>, n: nat): seq<Push>
    requires n <= |pushes|
  {
    pushes[|pushes| - n..]
  }

  /** The status a history of pushes amounts to. */
  function StatusOf(pushes: seq<Push>): PushedAgent
    requires pushes != []
  {
    var last := pushes[|pushes| - 1];
    PushedAgent(last.kind, last.cwd, last.state, LastMessage(Tail(pushes, KindRun(pushes))), last.at,
                FirstClock(Tail(pushes, StateRun(pushes))))
  }

  lemma {:induction false} FirstClockOfMore(pushes: seq<Push>, p: Push)
    ensures FirstClock(pushes + [p]) == if FirstClock(pushes) != 0 then FirstClock(pushes) else p.unixMs
  {
    if pushes == [] {
      assert FirstClock([p]) == if p.unixMs != 0 then p.unixMs else FirstClock([p][1..]);
    } else {
      assert (pushes + [p])[1..] == pushes[1..] + [p];
      FirstClockOfMore(pushes[1..], p);
    }
  }

  predicate SameKind(a: Push, b: Push) {
    a.kind == b.kind
  }

  predicate SameEpisode(a: Push, b: Push) {
    a.kind == b.kind && a.state == b.state
  }

  lemma {:induction false} KindRunIsMaximal(pushes: seq<Push>)
    requires pushes != []
    ensures 0 < KindRun(pushes)
    ensures forall i :: |pushes| - KindRun(pushes) <= i < |pushes| ==> SameKind(pushes[i], pushes[|pushes| - 1])
    ensures KindRun(pushes) < |pushes| ==> !SameKind(pushes[|pushes| - KindRun(pushes) - 1], pushes[|pushes| - 1])
  {
    if |pushes| > 1 {
      KindRunIsMaximal(pushes[..|pushes| - 1]);
    }
  }

  lemma {:induction false} StateRunIsMaximal(pushes: seq<Push>)
    requires pushes != []
    ensures 0 < StateRun(pushes)
    ensures forall i :: |pushes| - StateRun(pushes) <= i < |pushes| ==> SameEpisode(pushes[i], pushes[|pushes| - 1])
    ensures StateRun(pushes) < |pushes| ==> !SameEpisode(pushes[|pushes| - StateRun(pushes) - 1], pushes[|pushes| - 1])
  {
    if |pushes| > 1 {
      StateRunIsMaximal(pushes[..|pushes| - 1]);
    }
  }

  /** The runs are maximal: alike throughout, and what stands before them is not. */
  lemma RunsAreMaximal(pushes: seq<Push>)
    requires pushes != []
    ensures 0 < StateRun(pushes) <= KindRun(pushes)
    ensures forall i :: |pushes| - KindRun(pushes) <= i < |pushes| ==> SameKind(pushes[i], pushes[|pushes| - 1])
    ensures KindRun(pushes) < |pushes| ==> !SameKind(pushes[|pushes| - KindRun(pushes) - 1], pushes[|pushes| - 1])
    ensures forall i :: |pushes| - StateRun(pushes) <= i < |pushes| ==> SameEpisode(pushes[i], pushes[|pushes| - 1])
    ensures StateRun(pushes) < |pushes| ==> !SameEpisode(pushes[|pushes| - StateRun(pushes) - 1], pushes[|pushes| - 1])
  {
    KindRunIsMaximal(pushes);
    StateRunIsMaximal(pushes);
  }

  lemma KindRunOfMore(pushes: seq<Push>, p: Push)
    requires pushes != []
    ensures KindRun(pushes + [p]) == if SameKind(pushes[|pushes| - 1], p) then KindRun(pushes) + 1 else 1
  {
    assert (pushes + [p])[..|pushes|] == pushes;
    assert (pushes + [p])[|pushes| - 1] == pushes[|pushes| - 1];
  }

  lemma StateRunOfMore(pushes: seq<Push>, p: Push)
    requires pushes != []
    ensures StateRun(pushes + [p]) == if SameEpisode(pushes[|pushes| - 1], p) then StateRun(pushes) + 1 else 1
  {
    assert (pushes + [p])[..|pushes|] == pushes;
    assert (pushes + [p])[|pushes| - 1] == pushes[|pushes| - 1];
  }

  lemma TailOfMore(pushes: seq<Push>, p: Push, n: nat)
    requires n <= |pushes|
    ensures Tail(pushes + [p], n + 1) == Tail(pushes, n) + [p]
  {
  }

  lemma LastMessageOfMore(pushes: seq<Push>, p: Push)
    ensures LastMessage(pushes + [p]) == if p.message != "" then p.message else LastMessage(pushes)
  {
    assert (pushes + [p])[..|pushes|] == pushes;
  }

  lemma OnePush(p: Push)
    ensures LastMessage([p]) == p.message && FirstClock([p]) == p.unixMs
    ensures Tail([p], KindRun([p])) == [p] && Tail([p], StateRun([p])) == [p]
  {
    assert [p][..0] == [] && [p][1..] == [];
    assert LastMessage([p][..0]) == "" && FirstClock([p][1..]) == 0;
  }

  lemma FirstPushStands(t: Tracker, p: Push)
    requires t.pushed.None?
    ensures RecordPush(t, p).pushed == Some(StatusOf([p]))
  {
    OnePush(p);
  }

  /** Recording one more push is what the longer history amounts to. */
  lemma RecordPushExtends(t: Tracker, pushes: seq<Push>, p: Push)
    requires if pushes == [] then t.pushed.None? else t.pushed == Some(StatusOf(pushes))
    ensures RecordPush(t, p).pushed == Some(StatusOf(pushes + [p]))
  {
    if pushes == [] {
      FirstPushStands(t, p);
      assert pushes + [p] == [p];
    } else {
      MessageOfMore(pushes, p);
      ClockOfMore(pushes, p);
    }
  }

  /** What the current run of one kind last said, one push later. */
  lemma MessageOfMore(pushes: seq<Push>, p: Push)
    requires pushes != []
    ensures var all := pushes + [p];
            LastMessage(Tail(all, KindRun(all)))
            == if p.message != "" then p.message
               else if SameKind(pushes[|pushes| - 1], p) then LastMessage(Tail(pushes, KindRun(pushes))) else ""
  {
    KindRunOfMore(pushes, p);
    if SameKind(pushes[|pushes| - 1], p) {
      TailOfMore(pushes, p, KindRun(pushes));
      LastMessageOfMore(Tail(pushes, KindRun(pushes)), p);
    } else {
      LastAlone(pushes, p);
      OnePush(p);
    }
  }

  /** When the current run of one kind and state began, one push later. */
  lemma ClockOfMore(pushes: seq<Push>, p: Push)
    requires pushes != []
    ensures var (all, since) := (pushes + [p], FirstClock(Tail(pushes, StateRun(pushes))));
            FirstClock(Tail(all, StateRun(all)))
            == if SameEpisode(pushes[|pushes| - 1], p) && since != 0 then since else p.unixMs
  {
    StateRunOfMore(pushes, p);
    if SameEpisode(pushes[|pushes| - 1], p) {
      TailOfMore(pushes, p, StateRun(pushes));
      FirstClockOfMore(Tail(pushes, StateRun(pushes)), p);
    } else {
      LastAlone(pushes, p);
      OnePush(p);
    }
  }

  lemma LastAlone(pushes: seq<Push>, p: Push)
    ensures Tail(pushes + [p], 1) == [p]
  {
  }

  // ---------------------------------------------------------------------------
  // When it is dropped
  // ---------------------------------------------------------------------------

  /** Two beginnings would have a break between them, and the earlier one allows none. */
  lemma StretchBeginsOnce(events: seq<Event>, i: nat, j: nat)
    requires StretchBegan(events, i) && StretchBegan(events, j)
    ensures i == j
  {
  }

  /** Every unbroken sighting at the end belongs to a stretch that began somewhere. */
  lemma {:induction false} StretchHasABeginning(events: seq<Event>, j: nat) returns (i: nat)
    requires j < |events| && Childless(events[j]) && forall k | j < k < |events| :: !BrokenAt(events, k)
    ensures StretchBegan(events, i)
  {
    if StretchBegan(events, j) {
      i := j;
    } else {
      var earlier :| 0 <= earlier < j && Childless(events[earlier])
                     && forall k :: earlier < k < j ==> !BrokenAt(events, k);
      i := StretchHasABeginning(events, earlier);
    }
  }

  /** Whatever does not break the stretch leaves its beginning where it was. */
  lemma StretchGoesOn(before: seq<Event>, last: Event, i: nat)
    requires i < |before|
    ensures StretchBegan(before + [last], i) <==> StretchBegan(before, i) && !Breaks(last)
  {
    var events := before + [last];
    assert forall k :: 0 <= k < |before| ==> BrokenAt(events, k) == BrokenAt(before, k);
    assert BrokenAt(events, |before|) == Breaks(last);
    if StretchBegan(before, i) && !Breaks(last) {
      forall j | 0 <= j < i && Childless(events[j]) ensures exists k :: j < k < i && BrokenAt(events, k) {
        var k :| j < k < i && BrokenAt(before, k);
        assert BrokenAt(events, k);
      }
    }
    if StretchBegan(events, i) {
      forall j | 0 <= j < i && Childless(before[j]) ensures exists k :: j < k < i && BrokenAt(before, k) {
        assert Childless(events[j]);
        var k :| j < k < i && BrokenAt(events, k);
        assert BrokenAt(before, k);
      }
    }
  }

  /** A sighting begins a stretch exactly when it is one and none was under way. */
  lemma StretchBegins(before: seq<Event>, last: Event)
    ensures StretchBegan(before + [last], |before|) <==> Childless(last) && forall i: nat :: !StretchBegan(before, i)
  {
    var events := before + [last];
    assert forall k :: 0 <= k < |before| ==> BrokenAt(events, k) == BrokenAt(before, k);
    forall i: nat | StretchBegan(before, i) ensures !StretchBegan(events, |before|) {
      assert Childless(events[i]);
    }
    if Childless(last) && forall i: nat :: !StretchBegan(before, i) {
      forall j | 0 <= j < |before| && Childless(events[j])
        ensures exists k :: j < k < |before| && BrokenAt(events, k)
      {
        if forall k | j < k < |before| :: !BrokenAt(before, k) {
          var i := StretchHasABeginning(before, j);
        }
        var k :| j < k < |before| && BrokenAt(before, k);
        assert BrokenAt(events, k);
      }
    }
  }

  /**
   * The suspicion clock is the start of the stretch the history ends in, as long as a status stands: it is
   * running if and only if there is such a stretch, and it shows when that began.
   */
  lemma {:induction false} SuspicionIsTheStretch(events: seq<Event>)
    ensures var t := ReactAll(FRESH, events);
            && (t.suspectSince.Some? ==> t.pushed.Some?)
            && (t.pushed.Some? ==>
                  && (t.suspectSince.Some? <==> exists i: nat :: StretchBegan(events, i))
                  && forall i: nat :: StretchBegan(events, i) ==> t.suspectSince == Some(events[i].now))
  {
    if events != [] {
      var before, last := events[..|events| - 1], events[|events| - 1];
      assert events == before + [last];
      SuspicionIsTheStretch(before);
      forall i: nat | i < |before| ensures StretchBegan(events, i) <==> StretchBegan(before, i) && !Breaks(last) {
        StretchGoesOn(before, last, i);
      }
      StretchBegins(before, last);
      SuspicionFollows(ReactAll(FRESH, before), before, last);
    }
  }

  /** One step of the clock, in terms of the stretch before and after it. */
  lemma SuspicionFollows(t: Tracker, before: seq<Event>, last: Event)
    requires t.suspectSince.Some? ==> t.pushed.Some?
    requires t.pushed.Some? ==>
               && (t.suspectSince.Some? <==> exists i: nat :: StretchBegan(before, i))
               && forall i: nat :: StretchBegan(before, i) ==> t.suspectSince == Some(before[i].now)
    requires forall i: nat | i < |before| ::
               StretchBegan(before + [last], i) <==> StretchBegan(before, i) && !Breaks(last)
    requires StretchBegan(before + [last], |before|) <==> Childless(last) && forall i: nat :: !StretchBegan(before, i)
    ensures var (u, events) := (React(t, last), before + [last]);
            && (u.suspectSince.Some? ==> u.pushed.Some?)
            && (u.pushed.Some? ==>
                  && (u.suspectSince.Some? <==> exists i: nat :: StretchBegan(events, i))
                  && forall i: nat :: StretchBegan(events, i) ==> u.suspectSince == Some(events[i].now))
  {
    var (u, events) := (React(t, last), before + [last]);
    if u.pushed.Some? && !Breaks(last) {
      if i: nat :| StretchBegan(before, i) {
        assert i < |before| && StretchBegan(events, i);
        forall j: nat | StretchBegan(events, j) ensures u.suspectSince == Some(events[j].now) {
          StretchBeginsOnce(events, i, j);
        }
      }
    }
  }

  /**
   * A status ends in one way only: a sighting without children, a whole grace period after the first one of
   * an unbroken stretch of them. Short of that, whatever happens, it stands.
   */
  lemma DroppedExactlyAfterGrace(events: seq<Event>, next: Event)
    requires ReactAll(FRESH, events).pushed.Some?
    ensures ReactAll(FRESH, events + [next]).pushed.None? <==> Expires(events, next)
  {
    assert (events + [next])[..|events|] == events;
    SuspicionIsTheStretch(events);
    var t := ReactAll(FRESH, events);
    if Childless(next) && t.suspectSince.Some? {
      var i: nat :| StretchBegan(events, i);
      assert t.suspectSince.value == events[i].now;
    }
  }

  /** In the history alone: a status stands if and only if some push has not expired since. */
  lemma {:induction false} StandsExactly(events: seq<Event>)
    ensures ReactAll(FRESH, events).pushed.Some? <==>
            exists i :: 0 <= i < |events| && events[i].Pushed? && NeverExpires(events, i)
  {
    if events != [] {
      var before, last := events[..|events| - 1], events[|events| - 1];
      assert events == before + [last];
      StandsExactly(before);
      if last.Pushed? {
        assert NeverExpires(events, |before|);
      } else {
        if ReactAll(FRESH, before).pushed.Some? {
          DroppedExactlyAfterGrace(before, last);
        }
        forall i: nat | i < |before|
          ensures NeverExpires(events, i) <==> NeverExpires(before, i) && !Expires(before, last)
        {
          ExpiryGoesOn(before, last, i);
        }
      }
    }
  }

  ghost predicate ExpiresAt(events: seq<Event>, n: nat)
    requires n < |events|
  {
    Expires(events[..n], events[n])
  }

  ghost predicate NeverExpires(events: seq<Event>, since: nat) {
    forall n | since < n < |events| :: !ExpiresAt(events, n)
  }

  lemma ExpiryGoesOn(before: seq<Event>, last: Event, since: nat)
    requires since < |before|
    ensures NeverExpires(before + [last], since) <==> NeverExpires(before, since) && !Expires(before, last)
  {
    var events := before + [last];
    assert events[..|before|] == before;
    forall n | since < n < |before| ensures ExpiresAt(events, n) == ExpiresAt(before, n) {
      assert events[..n] == before[..n];
    }
    assert ExpiresAt(events, |before|) == Expires(before, last);
  }

  /**
   * The status in force is the history's own: its clock is the first time read in the current run of pushes
   * alike in kind and state, its message the last thing said in the current run of one kind.
   */
  lemma {:induction false} StandingPushIsItsHistory(events: seq<Event>)
    ensures var t := ReactAll(FRESH, events);
            && (t.pushed.None? <==> Standing(events) == [])
            && (t.pushed.Some? ==> t.pushed.value == StatusOf(Standing(events)))
  {
    if events != [] {
      var before, last := events[..|events| - 1], events[|events| - 1];
      assert events == before + [last];
      StandingPushIsItsHistory(before);
      if last.Pushed? {
        RecordPushExtends(ReactAll(FRESH, before), Standing(before), last.push);
      } else if ReactAll(FRESH, before).pushed.Some? {
        DroppedExactlyAfterGrace(before, last);
      }
    }
  }

  // ---------------------------------------------------------------------------
  // The record kept on this machine
  // ---------------------------------------------------------------------------

  datatype StatusRecord = StatusRecord(
    kind: string, state: string, cwd: string, message: string, workingSince: U64, startTime: U64)

  /** The twin of `RecordPush`, on wire values. */
  function MergedRecord(previous: Option<StatusRecord>, p: Push, startTime: U64): StatusRecord {
    var same := if previous.Some? && previous.value.kind == KindWire(p.kind) then previous else None;
    var since :=
      if same.Some? && same.value.state == StateWire(p.state) && same.value.workingSince != 0
      then same.value.workingSince else p.unixMs;
    var message :=
      if p.message != "" then p.message
      else if same.Some? then same.value.message else "";
    StatusRecord(KindWire(p.kind), StateWire(p.state), p.cwd, message, since, startTime)
  }

  function MergeAll(pushes: seq<Push>, startTime: U64): Option<StatusRecord> {
    if pushes == [] then None
    else Some(MergedRecord(MergeAll(pushes[..|pushes| - 1], startTime), pushes[|pushes| - 1], startTime))
  }

  function AsRecord(p: PushedAgent, startTime: U64): StatusRecord {
    StatusRecord(KindWire(p.kind), StateWire(p.state), p.cwd, p.message, p.workingSince, startTime)
  }

  lemma WireValuesAreDistinct(k1: AgentKind, k2: AgentKind, s1: AgentState, s2: AgentState)
    ensures KindWire(k1) == KindWire(k2) ==> k1 == k2
    ensures StateWire(s1) == StateWire(s2) ==> s1 == s2
  {
    assert |KindWire(Claude)| == 6 && KindWire(Claude)[1] == 'l';
    assert |KindWire(Codex)| == 5;
    assert |KindWire(Cursor)| == 6 && KindWire(Cursor)[1] == 'u';
    assert |KindWire(Pi)| == 2;
    assert |KindWire(OpenCode)| == 8 && KindWire(OpenCode)[5] == 'o';
    assert |KindWire(Hermes)| == 6 && KindWire(Hermes)[1] == 'e';
    assert |KindWire(OpenClaw)| == 8 && KindWire(OpenClaw)[5] == 'l';
    assert |StateWire(Unknown)| == 7 && StateWire(Unknown)[0] == 'u';
    assert |StateWire(Idle)| == 4 && StateWire(Idle)[0] == 'i';
    assert |StateWire(Working)| == 7 && StateWire(Working)[0] == 'w';
    assert |StateWire(Done)| == 4 && StateWire(Done)[0] == 'd';
    assert |StateWire(Pending)| == 7 && StateWire(Pending)[0] == 'p';
    assert |StateWire(Error)| == 5;
  }

  lemma MergedAgrees(t: Tracker, p: Push, startTime: U64)
    ensures
      var before := if t.pushed.None? then None else Some(AsRecord(t.pushed.value, startTime));
      MergedRecord(before, p, startTime) == AsRecord(RecordPush(t, p).pushed.value, startTime)
  {
    if t.pushed.Some? {
      WireValuesAreDistinct(t.pushed.value.kind, p.kind, t.pushed.value.state, p.state);
    }
  }

  /** The record folded over pushes is what the history of those pushes amounts to. */
  lemma {:induction false} RecordIsItsHistory(pushes: seq<Push>, startTime: U64)
    requires pushes != []
    ensures MergeAll(pushes, startTime) == Some(AsRecord(StatusOf(pushes), startTime))
  {
    var before, last := pushes[..|pushes| - 1], pushes[|pushes| - 1];
    assert pushes == before + [last];
    var t := if before == [] then FRESH else FRESH.(pushed := Some(StatusOf(before)));
    if before != [] {
      RecordIsItsHistory(before, startTime);
    }
    RecordPushExtends(t, before, last);
    MergedAgrees(t, last, startTime);
  }

  /**
   * Whatever a pane's tracker has seen, the record folded over the pushes that stand says what the tracker
   * says, and there are none to fold when the tracker says nothing.
   */
  lemma RecordAgreesWithTracker(events: seq<Event>, startTime: U64)
    ensures var t := ReactAll(FRESH, events);
            MergeAll(Standing(events), startTime)
            == if t.pushed.Some? then Some(AsRecord(t.pushed.value, startTime)) else None
  {
    StandingPushIsItsHistory(events);
    if Standing(events) != [] {
      RecordIsItsHistory(Standing(events), startTime);
    }
  }

  // ---------------------------------------------------------------------------
  // The row
  // ---------------------------------------------------------------------------

  /** What the latest scan of the pane's processes found. */
  function LastScan(events: seq<Event>): Option<DetectedAgent> {
    if events == [] then None
    else
      var last := events[|events| - 1];
      if last.Scanned? then last.detected else LastScan(events[..|events| - 1])
  }

  lemma {:induction false} ActiveIsTheLastScan(events: seq<Event>)
    ensures ReactAll(FRESH, events).active == LastScan(events)
  {
    if events != [] {
      ActiveIsTheLastScan(events[..|events| - 1]);
    }
  }

  /** The last report still stands and is of an agent that is doing something. */
  ghost predicate Reporting(pushes: seq<Push>) {
    pushes != [] && pushes[|pushes| - 1].state != Idle
  }

  /**
   * The row, whole, in terms of the history: there is one exactly when an agent reported itself active or the
   * latest scan sees one; it is about the reporter first; it says what the reports amount to when they are
   * that kind of agent's, and nothing otherwise.
   */
  lemma RowExactly(events: seq<Event>)
    ensures var (row, pushes, seen) := (Listed(ReactAll(FRESH, events)), Standing(events), LastScan(events));
            && (row.Some? <==> Reporting(pushes) || seen.Some?)
            && (row.Some? ==>
                  var said := if pushes == [] then None else Some(StatusOf(pushes));
                  && row.value.agent == (if Reporting(pushes) then DetectedAgent(said.value.kind, said.value.cwd)
                                         else seen.value)
                  && (if said.Some? && said.value.kind == row.value.agent.kind then
                        && row.value.state == said.value.state
                        && row.value.message == said.value.message
                        && row.value.workingSince == said.value.workingSince
                      else row.value.state == Unknown && row.value.message == "" && row.value.workingSince == 0))
  {
    StandingPushIsItsHistory(events);
    ActiveIsTheLastScan(events);
  }

  // ---------------------------------------------------------------------------
  // The tracker, updated in place
  // ---------------------------------------------------------------------------

  class PaneAgentTracker {
    var activeAgent: Option<DetectedAgent>
    var pushed: Option<PushedAgent>
    var suspectSince: Option<nat>

    function View(): Tracker
      reads this
    {
      Tracker(activeAgent, pushed, suspectSince)
    }

    constructor ()
      ensures View() == FRESH
    {
      activeAgent, pushed, suspectSince := None, None, None;
    }

    method ObservePaneLiveness(hasChildren: bool, now: nat)
      modifies this
      ensures View() == React(old(View()), Liveness(hasChildren, now))
    {
      if pushed.None? || hasChildren {
        suspectSince := None;
        return;
      }
      if suspectSince.None? {
        suspectSince := Some(now);
      }
      var since := suspectSince.value;
      var elapsed := if now < since then 0 else now - since;
      if elapsed >= PUSHED_STATUS_GRACE {
        pushed := None;
        suspectSince := None;
      }
    }

    method RecordPushedStatus(kind: AgentKind, cwd: string, state: AgentState, message: string, now: nat, unixMs: U64)
      modifies this
      ensures View() == React(old(View()), Pushed(Push(kind, cwd, state, message, now, unixMs)))
    {
      var previous := if pushed.Some? && pushed.value.kind == kind then pushed else None;
      var since := unixMs;
      if previous.Some? && previous.value.state == state && previous.value.workingSince != 0 {
        since := previous.value.workingSince;
      }
      var words := message;
      if message == "" && previous.Some? {
        words := previous.value.message;
      }
      pushed := Some(PushedAgent(kind, cwd, state, words, now, since));
      suspectSince := None;
    }

    method Update(detected: Option<DetectedAgent>)
      modifies this
      ensures View() == React(old(View()), Scanned(detected))
    {
      activeAgent := detected;
    }
  }
}
