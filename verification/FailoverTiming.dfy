/**
 * The election of Failover put on a clock: members of one session that lose their coordinator at about the
 * same time, poll `RoleAfter` now and then, and tell each other when they take over. Nobody votes; ranks
 * are time. The theorem is that this elects one coordinator, the same one for everybody.
 */
module FailoverTiming {
  import opened Common
  import opened Failover

  /**
   * One outage. `live` are the members still running; the first of them notices at `outage`, all of them
   * within `skew`. A member that is waiting polls at least every `poll`, and a claim takes at most
   * `delivery` to reach a live member.
   */
  datatype Setting = Setting(
    members: seq<PeerId>,
    coordinator: PeerId,
    epoch: U64,
    grace: nat,
    live: set<PeerId>,
    outage: nat,
    skew: nat,
    poll: nat,
    delivery: nat)

  datatype Node = Node(election: Election, lostAt: Option<nat>, lastPoll: nat, coordinating: bool)

  datatype Claim = Claim(to: PeerId, from: PeerId, epoch: U64, sentAt: nat)

  datatype World = World(now: nat, nodes: map<PeerId, Node>, mail: set<Claim>)

  function View(s: Setting, p: PeerId): Election {
    Election(s.members, s.coordinator, s.epoch, p)
  }

  function Start(s: Setting): World {
    World(0, map p | p in s.live :: Node(View(s, p), None, 0, false), {})
  }

  // ---------------------------------------------------------------------------
  // Steps
  // ---------------------------------------------------------------------------

  datatype Step =
    | Detect(peer: PeerId)
    | Poll(peer: PeerId)
    | Deliver(claim: Claim)
    | Tick

  predicate Undetected(s: Setting, n: Node) {
    n.lostAt.None? && n.election.epoch == s.epoch
  }

  /** Time may pass only while nobody is overdue: to notice, to poll, to receive. */
  predicate MayTick(s: Setting, w: World) {
    && (w.now + 1 <= s.outage + s.skew || forall p :: p in w.nodes ==> !Undetected(s, w.nodes[p]))
    && (forall p :: p in w.nodes && w.nodes[p].lostAt.Some? ==> w.now + 1 <= w.nodes[p].lastPoll + s.poll)
    && (forall c :: c in w.mail ==> w.now + 1 <= c.sentAt + s.delivery)
  }

  predicate Enabled(s: Setting, w: World, step: Step) {
    match step
    case Detect(p) => p in w.nodes && Undetected(s, w.nodes[p]) && s.outage <= w.now
    case Poll(p) => p in w.nodes && w.nodes[p].lostAt.Some? && w.nodes[p].lostAt.value <= w.now
    case Deliver(c) => c in w.mail && c.to in w.nodes
    case Tick => MayTick(s, w)
  }

  function Polled(s: Setting, w: World, p: PeerId): World
    requires Enabled(s, w, Poll(p))
  {
    var n := w.nodes[p];
    match RoleAfter(n.election, Some(w.now - n.lostAt.value), s.grace)
    case Promote(epoch) =>
      World(w.now,
            w.nodes[p := Node(Rotated(n.election, p, epoch), None, w.now, true)],
            w.mail + set q | q in s.live && q != p :: Claim(q, p, epoch, w.now))
    case _ => w.(nodes := w.nodes[p := n.(lastPoll := w.now)])
  }

  /** A member follows whoever it finds acceptable. */
  function Delivered(s: Setting, w: World, c: Claim): World
    requires Enabled(s, w, Deliver(c))
  {
    var n := w.nodes[c.to];
    var mail := w.mail - {c};
    if Acceptable(n.election, c.from, c.epoch) then
      World(w.now, w.nodes[c.to := Node(Rotated(n.election, c.from, c.epoch), None, n.lastPoll, false)], mail)
    else w.(mail := mail)
  }

  function Next(s: Setting, w: World, step: Step): World
    requires Enabled(s, w, step)
  {
    match step
    case Detect(p) => w.(nodes := w.nodes[p := w.nodes[p].(lostAt := Some(w.now), lastPoll := w.now)])
    case Poll(p) => Polled(s, w, p)
    case Deliver(c) => Delivered(s, w, c)
    case Tick => w.(now := w.now + 1)
  }

  /** Steps that are not enabled do not happen. */
  function Run(s: Setting, w: World, steps: seq<Step>): World
    decreases |steps|
  {
    if steps == [] then w
    else Run(s, if Enabled(s, w, steps[0]) then Next(s, w, steps[0]) else w, steps[1..])
  }

  // ---------------------------------------------------------------------------
  // The invariant
  // ---------------------------------------------------------------------------

  /** What the stagger was sized for, and who is expected to win: the lowest-ranked live member. */
  ghost predicate WellTimed(s: Setting, winner: PeerId) {
    && |s.members| <= U32_MAX
    && s.epoch < U64_MAX
    && s.skew + s.poll + s.delivery < PROMOTION_STAGGER
    && winner in s.live
    && (forall p :: p in s.live ==> p in s.members && p != s.coordinator)
    && (forall p :: p in s.live && p != winner ==> RankOf(s, winner) < RankOf(s, p))
  }

  function RankOf(s: Setting, p: PeerId): nat {
    var rank := Rank(View(s, p), p);
    if rank.Some? then rank.value else 0
  }

  function Delay(s: Setting, p: PeerId): nat {
    s.grace + PROMOTION_STAGGER * RankOf(s, p)
  }

  /** The latest instant at which the winner is still waiting. */
  function Deadline(s: Setting, winner: PeerId): nat {
    s.outage + s.skew + Delay(s, winner) + s.poll
  }

  /** The view every member shares once the takeover is through. */
  function NewView(s: Setting, winner: PeerId, p: PeerId): Election {
    Election(s.members, winner, SaturatingSucc(s.epoch), p)
  }

  ghost predicate Before(s: Setting, now: nat, p: PeerId, n: Node) {
    && n.election == View(s, p) && !n.coordinating
    && match n.lostAt {
         case None => now <= s.outage + s.skew
         case Some(t) =>
           && s.outage <= t <= s.outage + s.skew
           && t <= n.lastPoll <= now <= n.lastPoll + s.poll
           && (n.lastPoll == t || n.lastPoll - t < Delay(s, p))
       }
  }

  ghost predicate After(s: Setting, winner: PeerId, p: PeerId, n: Node) {
    n.election == NewView(s, winner, p) && n.lostAt.None? && (n.coordinating <==> p == winner)
  }

  ghost predicate Inv(s: Setting, winner: PeerId, w: World) {
    && w.nodes.Keys == s.live && winner in s.live
    && (forall p :: p in s.live ==> Before(s, w.now, p, w.nodes[p]) || After(s, winner, p, w.nodes[p]))
    && (Before(s, w.now, winner, w.nodes[winner]) ==>
          w.mail == {} && forall p :: p in s.live ==> Before(s, w.now, p, w.nodes[p]))
    && (After(s, winner, winner, w.nodes[winner]) ==>
          var promoted := w.nodes[winner].lastPoll;
          && promoted <= w.now && promoted <= Deadline(s, winner)
          && (forall c :: c in w.mail ==>
                && c == Claim(c.to, winner, SaturatingSucc(s.epoch), promoted)
                && c.to in s.live && c.to != winner
                && Before(s, w.now, c.to, w.nodes[c.to])
                && w.now <= promoted + s.delivery)
          && (forall p :: p in s.live && p != winner && Before(s, w.now, p, w.nodes[p]) ==>
                Claim(p, winner, SaturatingSucc(s.epoch), promoted) in w.mail))
  }

  lemma DelayIs(s: Setting, winner: PeerId, p: PeerId)
    requires WellTimed(s, winner) && p in s.live
    ensures DelayFor(View(s, p), p, s.grace) == Some(Delay(s, p))
    ensures p != winner ==> Delay(s, winner) + PROMOTION_STAGGER <= Delay(s, p)
  {
    RankedExactly(View(s, p), p);
    RankedExactly(View(s, winner), winner);
    assert RankOf(s, p) <= U32_MAX;
    if p != winner {
      assert RankOf(s, winner) + 1 <= RankOf(s, p);
      assert PROMOTION_STAGGER * (RankOf(s, winner) + 1) <= PROMOTION_STAGGER * RankOf(s, p);
    }
  }

  /** Whoever is behind the winner is still waiting, or has heard, when its own turn would come. */
  lemma NobodyElsesTurn(s: Setting, winner: PeerId, w: World, p: PeerId)
    requires WellTimed(s, winner) && Inv(s, winner, w) && p in s.live && p != winner
    requires Enabled(s, w, Poll(p))
    ensures RoleAfter(w.nodes[p].election, Some(w.now - w.nodes[p].lostAt.value), s.grace) == Waiting
  {
    DelayIs(s, winner, p);
    assert w.now < s.outage + Delay(s, winner) + PROMOTION_STAGGER;
  }

  lemma WaitingKeepsInv(s: Setting, winner: PeerId, w: World, p: PeerId)
    requires WellTimed(s, winner) && Inv(s, winner, w) && Enabled(s, w, Poll(p))
    requires w.now - w.nodes[p].lostAt.value < Delay(s, p)
    requires RoleAfter(w.nodes[p].election, Some(w.now - w.nodes[p].lostAt.value), s.grace) == Waiting
    ensures Inv(s, winner, Next(s, w, Poll(p)))
  {
    var t := Next(s, w, Poll(p));
    PollWhileWaiting(s, w, p);
    assert Before(s, w.now, p, w.nodes[p]) && Before(s, t.now, p, t.nodes[p]);
    WaitersStay(s, winner, w, t, p);
  }

  lemma PollWhileWaiting(s: Setting, w: World, p: PeerId)
    requires Enabled(s, w, Poll(p))
    requires RoleAfter(w.nodes[p].election, Some(w.now - w.nodes[p].lostAt.value), s.grace) == Waiting
    ensures Next(s, w, Poll(p)) == w.(nodes := w.nodes[p := w.nodes[p].(lastPoll := w.now)])
  {
  }

  /** A member that was waiting and still is changes nothing for the others. */
  lemma WaitersStay(s: Setting, winner: PeerId, w: World, t: World, p: PeerId)
    requires Inv(s, winner, w) && p in s.live
    requires t.nodes.Keys == w.nodes.Keys && t.mail == w.mail && t.now == w.now
    requires forall q :: q in s.live && q != p ==> t.nodes[q] == w.nodes[q]
    requires Before(s, w.now, p, w.nodes[p]) && Before(s, t.now, p, t.nodes[p])
    ensures Inv(s, winner, t)
  {
    assert !After(s, winner, p, t.nodes[p]) || p != winner;
    forall q | q in s.live ensures Before(s, w.now, q, w.nodes[q]) <==> Before(s, t.now, q, t.nodes[q]) {
    }
  }

  lemma PromotionKeepsInv(s: Setting, winner: PeerId, w: World)
    requires WellTimed(s, winner) && Inv(s, winner, w) && Enabled(s, w, Poll(winner))
    requires w.now - w.nodes[winner].lostAt.value >= Delay(s, winner)
    ensures Inv(s, winner, Next(s, w, Poll(winner)))
  {
    var t := Polled(s, w, winner);
    DelayIs(s, winner, winner);
    assert Before(s, w.now, winner, w.nodes[winner]);
    assert t.nodes[winner] == Node(NewView(s, winner, winner), None, w.now, true);
    assert t.mail == set q | q in s.live && q != winner :: Claim(q, winner, SaturatingSucc(s.epoch), w.now);
    forall q | q in s.live && q != winner ensures Before(s, t.now, q, t.nodes[q]) {
      assert Before(s, w.now, q, w.nodes[q]);
    }
  }

  lemma PollKeepsInv(s: Setting, winner: PeerId, w: World, p: PeerId)
    requires WellTimed(s, winner) && Inv(s, winner, w) && Enabled(s, w, Poll(p))
    ensures Inv(s, winner, Next(s, w, Poll(p)))
  {
    RoleIsWhatTheDelaySays(s, winner, w, p);
    if w.now - w.nodes[p].lostAt.value < Delay(s, p) {
      WaitingKeepsInv(s, winner, w, p);
    } else {
      PromotionKeepsInv(s, winner, w);
    }
  }

  lemma RoleIsWhatTheDelaySays(s: Setting, winner: PeerId, w: World, p: PeerId)
    requires WellTimed(s, winner) && Inv(s, winner, w) && Enabled(s, w, Poll(p))
    ensures w.now - w.nodes[p].lostAt.value < Delay(s, p)
            <==> RoleAfter(w.nodes[p].election, Some(w.now - w.nodes[p].lostAt.value), s.grace) == Waiting
    ensures w.now - w.nodes[p].lostAt.value >= Delay(s, p) ==> p == winner
  {
    DelayIs(s, winner, p);
    assert Before(s, w.now, p, w.nodes[p]);
    if p != winner {
      NobodyElsesTurn(s, winner, w, p);
    }
  }

  lemma DeliveryIsFollowed(s: Setting, winner: PeerId, w: World, c: Claim)
    requires WellTimed(s, winner) && Inv(s, winner, w) && Enabled(s, w, Deliver(c))
    ensures VerdictOn(w.nodes[c.to].election, c.from, c.epoch).Accepted?
    ensures After(s, winner, winner, w.nodes[winner]) && c.to != winner
    ensures Next(s, w, Deliver(c))
            == World(w.now,
                     w.nodes[c.to := Node(NewView(s, winner, c.to), None, w.nodes[c.to].lastPoll, false)],
                     w.mail - {c})
  {
    assert After(s, winner, winner, w.nodes[winner]);
  }

  lemma DeliverKeepsInv(s: Setting, winner: PeerId, w: World, c: Claim)
    requires WellTimed(s, winner) && Inv(s, winner, w) && Enabled(s, w, Deliver(c))
    ensures VerdictOn(w.nodes[c.to].election, c.from, c.epoch).Accepted?
    ensures Inv(s, winner, Next(s, w, Deliver(c)))
  {
    DeliveryIsFollowed(s, winner, w, c);
    var t := Next(s, w, Deliver(c));
    forall p | p in s.live && p != winner && Before(s, t.now, p, t.nodes[p])
      ensures Claim(p, winner, SaturatingSucc(s.epoch), w.nodes[winner].lastPoll) in t.mail
    {
      assert p != c.to;
    }
  }

  lemma DetectKeepsInv(s: Setting, winner: PeerId, w: World, p: PeerId)
    requires WellTimed(s, winner) && Inv(s, winner, w) && Enabled(s, w, Detect(p))
    ensures Inv(s, winner, Next(s, w, Detect(p)))
  {
    var t := Next(s, w, Detect(p));
    assert Before(s, w.now, p, w.nodes[p]) && Before(s, t.now, p, t.nodes[p]);
    WaitersStay(s, winner, w, t, p);
  }

  lemma TickKeepsInv(s: Setting, winner: PeerId, w: World)
    requires WellTimed(s, winner) && Inv(s, winner, w) && Enabled(s, w, Tick)
    ensures Inv(s, winner, Next(s, w, Tick))
  {
    var t := w.(now := w.now + 1);
    forall q | q in s.live ensures Before(s, w.now, q, w.nodes[q]) <==> Before(s, t.now, q, t.nodes[q]) {
      if Before(s, w.now, q, w.nodes[q]) {
        assert q in w.nodes;
      }
    }
  }

  lemma StepKeepsInv(s: Setting, winner: PeerId, w: World, step: Step)
    requires WellTimed(s, winner) && Inv(s, winner, w) && Enabled(s, w, step)
    ensures Inv(s, winner, Next(s, w, step))
  {
    match step
    case Detect(p) => DetectKeepsInv(s, winner, w, p);
    case Poll(p) => PollKeepsInv(s, winner, w, p);
    case Deliver(c) => DeliverKeepsInv(s, winner, w, c);
    case Tick => TickKeepsInv(s, winner, w);
  }

  lemma {:induction false} RunKeepsInv(s: Setting, winner: PeerId, w: World, steps: seq<Step>)
    requires WellTimed(s, winner) && Inv(s, winner, w)
    ensures Inv(s, winner, Run(s, w, steps))
    decreases |steps|
  {
    if steps != [] {
      if Enabled(s, w, steps[0]) {
        StepKeepsInv(s, winner, w, steps[0]);
        RunKeepsInv(s, winner, Next(s, w, steps[0]), steps[1..]);
      } else {
        RunKeepsInv(s, winner, w, steps[1..]);
      }
    }
  }

  lemma EveryRunKeepsInv(s: Setting, winner: PeerId, steps: seq<Step>)
    requires WellTimed(s, winner)
    ensures Inv(s, winner, Run(s, Start(s), steps))
  {
    StartIsInvariant(s, winner);
    RunKeepsInv(s, winner, Start(s), steps);
  }

  lemma StartIsInvariant(s: Setting, winner: PeerId)
    requires WellTimed(s, winner)
    ensures Inv(s, winner, Start(s))
  {
  }

  // ---------------------------------------------------------------------------
  // The theorem
  // ---------------------------------------------------------------------------

  /**
   * One coordinator, in time. In every state of every run nobody but the lowest-ranked live member has taken
   * over, and nobody has followed anybody else; that member has taken over once its grace, its share of the
   * stagger, the detection skew and one poll have passed; and one delivery later every live member has
   * rotated to it, so that all of them share one view again.
   */
  lemma ExactlyOnePromotes(s: Setting, winner: PeerId, steps: seq<Step>)
    requires WellTimed(s, winner)
    ensures var w := Run(s, Start(s), steps);
            && w.nodes.Keys == s.live
            && (forall p :: p in s.live && w.nodes[p].coordinating ==> p == winner)
            && (forall p :: p in s.live ==> w.nodes[p].election in {View(s, p), NewView(s, winner, p)})
            && (w.now > Deadline(s, winner) ==> w.nodes[winner].coordinating)
            && (w.now > Deadline(s, winner) + s.delivery ==>
                  forall p :: p in s.live ==> w.nodes[p].election == NewView(s, winner, p) && w.nodes[p].lostAt.None?)
  {
    EveryRunKeepsInv(s, winner, steps);
    InvPromotesOne(s, winner, Run(s, Start(s), steps));
  }

  lemma InvPromotesOne(s: Setting, winner: PeerId, w: World)
    requires WellTimed(s, winner) && Inv(s, winner, w)
    ensures forall p :: p in s.live && w.nodes[p].coordinating ==> p == winner
    ensures forall p :: p in s.live ==> w.nodes[p].election in {View(s, p), NewView(s, winner, p)}
    ensures w.now > Deadline(s, winner) ==> w.nodes[winner].coordinating
    ensures w.now > Deadline(s, winner) + s.delivery ==>
              forall p :: p in s.live ==> w.nodes[p].election == NewView(s, winner, p) && w.nodes[p].lostAt.None?
  {
    assert Before(s, w.now, winner, w.nodes[winner]) ==> w.now <= Deadline(s, winner);
  }

  /** Every claim that is under way is one its addressee accepts on arrival. */
  lemma EveryClaimIsAccepted(s: Setting, winner: PeerId, steps: seq<Step>, c: Claim)
    requires WellTimed(s, winner) && c in Run(s, Start(s), steps).mail
    ensures var w := Run(s, Start(s), steps);
            c.to in w.nodes && c.from == winner && VerdictOn(w.nodes[c.to].election, c.from, c.epoch) == Accepted
  {
    EveryRunKeepsInv(s, winner, steps);
    ClaimIsAccepted(s, winner, Run(s, Start(s), steps), c);
  }

  lemma ClaimIsAccepted(s: Setting, winner: PeerId, w: World, c: Claim)
    requires WellTimed(s, winner) && Inv(s, winner, w) && c in w.mail
    ensures c.to in w.nodes && c.from == winner && VerdictOn(w.nodes[c.to].election, c.from, c.epoch) == Accepted
  {
    assert After(s, winner, winner, w.nodes[winner]);
    DeliverKeepsInv(s, winner, w, c);
  }

  // ---------------------------------------------------------------------------
  // Time passes
  // ---------------------------------------------------------------------------

  function Unmoved(s: Setting, w: World): set<PeerId> {
    set p | p in w.nodes && w.nodes[p].election == View(s, p)
  }

  function Unnoticing(s: Setting, w: World): set<PeerId> {
    set p | p in w.nodes && Undetected(s, w.nodes[p])
  }

  function Due(w: World): set<PeerId> {
    set p | p in w.nodes && w.nodes[p].lostAt.Some? && w.nodes[p].lastPoll < w.now
  }

  lemma DeliveryMovesOne(s: Setting, winner: PeerId, w: World, c: Claim)
    requires WellTimed(s, winner) && Inv(s, winner, w) && c in w.mail
    ensures Enabled(s, w, Deliver(c)) && Next(s, w, Deliver(c)).now == w.now
    ensures |Unmoved(s, Next(s, w, Deliver(c)))| < |Unmoved(s, w)|
  {
    assert After(s, winner, winner, w.nodes[winner]) && Before(s, w.now, c.to, w.nodes[c.to]);
    DeliveryIsFollowed(s, winner, w, c);
    OneMoves(s, w, Next(s, w, Deliver(c)), c.to);
  }

  /** When one member changes its view the others' stay. */
  lemma OneMoves(s: Setting, w: World, t: World, p: PeerId)
    requires p in w.nodes && w.nodes[p].election == View(s, p)
    requires p in t.nodes && t.nodes == w.nodes[p := t.nodes[p]] && t.nodes[p].election != View(s, p)
    ensures Unmoved(s, t) == Unmoved(s, w) - {p}
    ensures |Unmoved(s, t)| < |Unmoved(s, w)|
  {
    assert Unmoved(s, t) == Unmoved(s, w) - {p};
  }

  lemma PollGetsOn(s: Setting, w: World, p: PeerId)
    requires s.epoch < U64_MAX && p in Due(w) && Before(s, w.now, p, w.nodes[p])
    ensures Enabled(s, w, Poll(p))
    ensures var t := Next(s, w, Poll(p));
            && t.now == w.now
            && (|Unmoved(s, t)| < |Unmoved(s, w)|
                || (Unmoved(s, t) == Unmoved(s, w) && Unnoticing(s, t) == Unnoticing(s, w) && |Due(t)| < |Due(w)|))
  {
    var t := Next(s, w, Poll(p));
    if RoleAfter(w.nodes[p].election, Some(w.now - w.nodes[p].lostAt.value), s.grace).Promote? {
      assert t.nodes[p].election.epoch != s.epoch;
      OneMoves(s, w, t, p);
    } else {
      assert t.nodes == w.nodes[p := w.nodes[p].(lastPoll := w.now)];
      assert Unmoved(s, t) == Unmoved(s, w) && Unnoticing(s, t) == Unnoticing(s, w);
      assert Due(t) == Due(w) - {p};
    }
  }

  lemma DetectionNotices(s: Setting, w: World, p: PeerId)
    requires Enabled(s, w, Detect(p))
    ensures var t := Next(s, w, Detect(p));
            t.now == w.now && Unmoved(s, t) == Unmoved(s, w) && |Unnoticing(s, t)| < |Unnoticing(s, w)|
  {
    assert Unnoticing(s, Next(s, w, Detect(p))) == Unnoticing(s, w) - {p};
  }

  lemma SomebodyHasNotNoticed(s: Setting, w: World)
    requires !MayTick(s, w) && w.mail == {} && Due(w) == {} && s.poll > 0
    ensures exists p :: p in w.nodes && Undetected(s, w.nodes[p]) && s.outage <= w.now
  {
    forall p | p in w.nodes && w.nodes[p].lostAt.Some? ensures w.now + 1 <= w.nodes[p].lastPoll + s.poll {
      assert p !in Due(w);
    }
  }

  lemma StepTowardsTick(s: Setting, winner: PeerId, w: World) returns (step: Step)
    requires WellTimed(s, winner) && Inv(s, winner, w) && s.poll > 0 && !MayTick(s, w)
    ensures Enabled(s, w, step) && step != Tick
    ensures var t := Next(s, w, step);
            && t.now == w.now
            && (|| |Unmoved(s, t)| < |Unmoved(s, w)|
                || (Unmoved(s, t) == Unmoved(s, w)
                    && (|| |Unnoticing(s, t)| < |Unnoticing(s, w)|
                        || (Unnoticing(s, t) == Unnoticing(s, w) && |Due(t)| < |Due(w)|))))
  {
    if c :| c in w.mail {
      step := Deliver(c);
      DeliveryMovesOne(s, winner, w, c);
    } else if p :| p in Due(w) {
      step := Poll(p);
      assert Before(s, w.now, p, w.nodes[p]);
      PollGetsOn(s, w, p);
    } else {
      SomebodyHasNotNoticed(s, w);
      var p :| p in w.nodes && Undetected(s, w.nodes[p]) && s.outage <= w.now;
      step := Detect(p);
      DetectionNotices(s, w, p);
    }
  }

  /** What keeps the clock from moving can be worked off in finitely many steps. */
  lemma ClockMoves(s: Setting, winner: PeerId, w: World) returns (more: seq<Step>)
    requires WellTimed(s, winner) && Inv(s, winner, w) && s.poll > 0
    ensures Run(s, w, more).now == w.now + 1
    decreases |Unmoved(s, w)|, |Unnoticing(s, w)|, |Due(w)|
  {
    if MayTick(s, w) {
      more := [Tick];
      assert Enabled(s, w, Tick) && Run(s, Next(s, w, Tick), more[1..]) == Next(s, w, Tick);
    } else {
      var step := StepTowardsTick(s, winner, w);
      StepKeepsInv(s, winner, w, step);
      var rest := ClockMoves(s, winner, Next(s, w, step));
      more := [step] + rest;
      assert more[1..] == rest;
    }
  }

  /** The clock never gets stuck: every run can be continued past any instant, so the deadlines above do arrive. */
  lemma {:induction false} TimeAlwaysPasses(s: Setting, winner: PeerId, w: World, until: nat) returns (more: seq<Step>)
    requires WellTimed(s, winner) && Inv(s, winner, w) && s.poll > 0
    ensures Run(s, w, more).now >= until
    decreases until - w.now
  {
    more := [];
    if w.now < until {
      var first := ClockMoves(s, winner, w);
      RunKeepsInv(s, winner, w, first);
      var rest := TimeAlwaysPasses(s, winner, Run(s, w, first), until);
      RunsCompose(s, w, first, rest);
      more := first + rest;
    }
  }

  lemma {:induction false} RunsCompose(s: Setting, w: World, a: seq<Step>, b: seq<Step>)
    ensures Run(s, w, a + b) == Run(s, Run(s, w, a), b)
    decreases |a|
  {
    if a == [] {
      assert a + b == b;
    } else {
      assert (a + b)[1..] == a[1..] + b;
      RunsCompose(s, if Enabled(s, w, a[0]) then Next(s, w, a[0]) else w, a[1..], b);
    }
  }

  /** Every run of the outage can be continued until the takeover is complete. */
  lemma EveryOutageEnds(s: Setting, winner: PeerId, steps: seq<Step>) returns (more: seq<Step>)
    requires WellTimed(s, winner) && s.poll > 0
    ensures var w := Run(s, Start(s), steps + more);
            && w.nodes.Keys == s.live
            && forall p :: p in s.live ==>
                 && w.nodes[p].election == NewView(s, winner, p)
                 && (w.nodes[p].coordinating <==> p == winner)
  {
    EveryRunKeepsInv(s, winner, steps);
    more := TimeAlwaysPasses(s, winner, Run(s, Start(s), steps), Deadline(s, winner) + s.delivery + 1);
    RunsCompose(s, Start(s), steps, more);
    EveryRunKeepsInv(s, winner, steps + more);
    ExactlyOnePromotes(s, winner, steps + more);
  }
}
