/** The election of a new coordinator, which every member works out for itself from the join order. */
module Failover {
  import opened Common

  type PeerId = Bytes

  // Durations are in milliseconds.
  const PROMOTION_STAGGER: nat := 3_000
  const U32_MAX: nat := 0xFFFF_FFFF

  datatype Role = Following | Waiting | Promote(epoch: U64)

  datatype Verdict =
    | Accepted
    | Stale(current: U64, claimed: U64)
    | NotAMember
    | Deposed

  /** What one member knows of the coordinator and its possible successors; `members` in join order. */
  datatype Election = Election(members: seq<PeerId>, coordinator: PeerId, epoch: U64, me: PeerId)

  /** Position of the first occurrence. */
  function IndexOf(peers: seq<PeerId>, peer: PeerId): (r: Option<nat>)
    ensures r.Some? ==> r.value < |peers| && peers[r.value] == peer
    ensures r.None? <==> peer !in peers
  {
    if peers == [] then None
    else if peers[0] == peer then Some(0)
    else
      var rest := IndexOf(peers[1..], peer);
      if rest.None? then None else Some(rest.value + 1)
  }

  function WithoutPeer(peers: seq<PeerId>, peer: PeerId): seq<PeerId> {
    if peers == [] then []
    else (if peers[0] == peer then [] else [peers[0]]) + WithoutPeer(peers[1..], peer)
  }

  function Candidates(e: Election): seq<PeerId> {
    WithoutPeer(e.members, e.coordinator)
  }

  function Rank(e: Election, peer: PeerId): Option<nat> {
    IndexOf(Candidates(e), peer)
  }

  function OrderOf(e: Election, peer: PeerId): Option<nat> {
    IndexOf(e.members, peer)
  }

  predicate ConcedesTo(e: Election, claimant: PeerId, epoch: U64) {
    && epoch == e.epoch
    && OrderOf(e, claimant).Some? && OrderOf(e, e.me).Some?
    && OrderOf(e, claimant).value < OrderOf(e, e.me).value
  }

  function DelayFor(e: Election, peer: PeerId, grace: nat): Option<nat> {
    var rank := Rank(e, peer);
    if rank.None? then None else Some(grace + PROMOTION_STAGGER * Min(rank.value, U32_MAX))
  }

  function RoleAfter(e: Election, unreachableFor: Option<nat>, grace: nat): Role {
    if unreachableFor.None? then Following
    else
      var delay := DelayFor(e, e.me, grace);
      if delay.None? || unreachableFor.value < delay.value then Waiting
      else Promote(SaturatingSucc(e.epoch))
  }

  function VerdictOn(e: Election, claimant: PeerId, epoch: U64): Verdict {
    if epoch <= e.epoch then Stale(e.epoch, epoch)
    else if claimant == e.coordinator then Deposed
    else if claimant !in e.members then NotAMember
    else Accepted
  }

  function Rotated(e: Election, coordinator: PeerId, epoch: U64): Election {
    e.(coordinator := coordinator, epoch := epoch)
  }

  /** Whom a member attaches to when a peer answers it as coordinator of an epoch. */
  predicate Acceptable(e: Election, claimant: PeerId, epoch: U64) {
    || (claimant == e.coordinator && epoch == e.epoch)
    || VerdictOn(e, claimant, epoch) == Accepted
    || ConcedesTo(e, claimant, epoch)
  }

  // ---------------------------------------------------------------------------
  // The ranking
  // ---------------------------------------------------------------------------

  lemma {:induction false} WithoutPeerKeepsTheRest(peers: seq<PeerId>, peer: PeerId)
    ensures |WithoutPeer(peers, peer)| <= |peers|
    ensures forall p :: p in WithoutPeer(peers, peer) <==> p in peers && p != peer
  {
    if peers != [] {
      WithoutPeerKeepsTheRest(peers[1..], peer);
      assert forall p :: p in peers <==> p == peers[0] || p in peers[1..];
    }
  }

  /** A member ranks exactly when it is in the list and is not the coordinator being replaced. */
  lemma RankedExactly(e: Election, peer: PeerId)
    ensures Rank(e, peer).Some? <==> peer in e.members && peer != e.coordinator
    ensures Rank(e, peer).Some? ==> Rank(e, peer).value < |e.members|
  {
    WithoutPeerKeepsTheRest(e.members, e.coordinator);
  }

  lemma IndexOfCons(head: PeerId, rest: seq<PeerId>, p: PeerId)
    requires p == head || p in rest
    ensures IndexOf([head] + rest, p).Some?
    ensures IndexOf([head] + rest, p).value == if head == p then 0 else IndexOf(rest, p).value + 1
  {
    var all := [head] + rest;
    assert all[1..] == rest && all[0] == head;
  }

  /** The ranking is the join order with the coordinator left out. */
  lemma {:induction false} RankFollowsJoinOrder(peers: seq<PeerId>, gone: PeerId, a: PeerId, b: PeerId)
    requires a in peers && b in peers && a != gone && b != gone
    ensures IndexOf(WithoutPeer(peers, gone), a).Some? && IndexOf(WithoutPeer(peers, gone), b).Some?
    ensures IndexOf(WithoutPeer(peers, gone), a).value < IndexOf(WithoutPeer(peers, gone), b).value
            <==> IndexOf(peers, a).value < IndexOf(peers, b).value
  {
    var head, rest := peers[0], WithoutPeer(peers[1..], gone);
    WithoutPeerKeepsTheRest(peers, gone);
    WithoutPeerKeepsTheRest(peers[1..], gone);
    assert peers == [head] + peers[1..];
    IndexOfCons(head, peers[1..], a);
    IndexOfCons(head, peers[1..], b);
    if head == gone {
      assert WithoutPeer(peers, gone) == rest;
      RankFollowsJoinOrder(peers[1..], gone, a, b);
    } else {
      assert WithoutPeer(peers, gone) == [head] + rest;
      IndexOfCons(head, rest, a);
      IndexOfCons(head, rest, b);
      if head != a && head != b {
        RankFollowsJoinOrder(peers[1..], gone, a, b);
      }
    }
  }

  lemma RanksAreDistinct(e: Election, a: PeerId, b: PeerId)
    requires Rank(e, a).Some? && Rank(e, b).Some? && a != b
    ensures Rank(e, a).value != Rank(e, b).value
  {
  }

  /** One rank later is one stagger later, as long as ranks fit 32 bits. */
  lemma DelaysAreStaggered(e: Election, a: PeerId, b: PeerId, grace: nat)
    requires |e.members| <= U32_MAX
    requires Rank(e, a).Some? && Rank(e, b).Some? && Rank(e, a).value < Rank(e, b).value
    ensures DelayFor(e, a, grace).value + PROMOTION_STAGGER <= DelayFor(e, b, grace).value
  {
    RankedExactly(e, a);
    RankedExactly(e, b);
  }

  /** A member decides by the silence it has seen: it follows, waits for its turn, or takes over one epoch on. */
  lemma RoleAfterExactly(e: Election, unreachableFor: Option<nat>, grace: nat)
    requires |e.members| <= U32_MAX
    ensures RoleAfter(e, unreachableFor, grace) == Following <==> unreachableFor.None?
    ensures unreachableFor.Some? && (e.me !in e.members || e.me == e.coordinator) ==>
              RoleAfter(e, unreachableFor, grace) == Waiting
    ensures unreachableFor.Some? && e.me in e.members && e.me != e.coordinator ==>
              && Rank(e, e.me).Some?
              && RoleAfter(e, unreachableFor, grace)
                 == if unreachableFor.value < grace + PROMOTION_STAGGER * Rank(e, e.me).value then Waiting
                    else Promote(if e.epoch < U64_MAX then e.epoch + 1 else U64_MAX)
  {
    RankedExactly(e, e.me);
  }

  // ---------------------------------------------------------------------------
  // Claims from anybody
  // ---------------------------------------------------------------------------

  /** Whom a member believes, and what it tells the others. */
  lemma VerdictExactly(e: Election, claimant: PeerId, epoch: U64)
    ensures var verdict := VerdictOn(e, claimant, epoch);
            && (verdict == Accepted <==> epoch > e.epoch && Rank(e, claimant).Some?)
            && (verdict.Stale? <==> epoch <= e.epoch)
            && (verdict.Stale? ==> verdict == Stale(e.epoch, epoch))
            && (verdict == Deposed <==> epoch > e.epoch && claimant == e.coordinator)
            && (verdict == NotAMember <==> epoch > e.epoch && claimant != e.coordinator && claimant !in e.members)
  {
    RankedExactly(e, claimant);
  }

  /** Listed, and before the other in the join order. */
  ghost predicate JoinedBefore(members: seq<PeerId>, a: PeerId, b: PeerId) {
    a in members && b in members && IndexOf(members, a).value < IndexOf(members, b).value
  }

  /** An answer is accepted for three reasons and no other. */
  lemma AcceptableExactly(e: Election, claimant: PeerId, epoch: U64)
    ensures Acceptable(e, claimant, epoch) <==>
              if epoch > e.epoch then claimant in e.members && claimant != e.coordinator
              else epoch == e.epoch && (claimant == e.coordinator || JoinedBefore(e.members, claimant, e.me))
  {
    VerdictExactly(e, claimant, epoch);
    RankedExactly(e, claimant);
  }

  /** Somebody says that it coordinates an epoch. */
  datatype Assertion = Assertion(claimant: PeerId, epoch: U64)

  function Heed(e: Election, a: Assertion): Election {
    if Acceptable(e, a.claimant, a.epoch) then Rotated(e, a.claimant, a.epoch) else e
  }

  function HeedAll(e: Election, claims: seq<Assertion>): Election
    decreases |claims|
  {
    if claims == [] then e else HeedAll(Heed(e, claims[0]), claims[1..])
  }

  /** A later epoch under another listed member, or the same epoch under one that joined before me. */
  ghost predicate MovesOn(before: Election, a: Assertion) {
    || (a.epoch > before.epoch && a.claimant in before.members && a.claimant != before.coordinator)
    || (a.epoch == before.epoch && JoinedBefore(before.members, a.claimant, before.me))
  }

  /** One more claim, after any others, leaves the member where it is or moves it on. */
  lemma HeedingMovesOn(e: Election, claims: seq<Assertion>, a: Assertion)
    ensures var (before, after) := (HeedAll(e, claims), Heed(HeedAll(e, claims), a));
            && before.members == e.members && before.me == e.me
            && after == if MovesOn(before, a) then Election(e.members, a.claimant, a.epoch, e.me) else before
  {
    HeedingKeepsTheList(e, claims);
    AcceptableExactly(HeedAll(e, claims), a.claimant, a.epoch);
  }

  lemma {:induction false} HeedingKeepsTheList(e: Election, claims: seq<Assertion>)
    ensures HeedAll(e, claims).members == e.members && HeedAll(e, claims).me == e.me
    decreases |claims|
  {
    if claims != [] {
      HeedingKeepsTheList(Heed(e, claims[0]), claims[1..]);
    }
  }

  /**
   * Safety under any claims, from anybody and in any order: the epoch never goes back, whoever coordinates is
   * the one at the start or a listed member that claimed that epoch, and within an epoch the role only ever goes
   * to a member that joined before me.
   */
  lemma {:induction false} ClaimsAreSafe(e: Election, claims: seq<Assertion>)
    ensures var after := HeedAll(e, claims);
            && e.epoch <= after.epoch
            && (after != e ==> after.coordinator in e.members && Assertion(after.coordinator, after.epoch) in claims)
            && (after.epoch == e.epoch && after != e ==> JoinedBefore(e.members, after.coordinator, e.me))
    decreases |claims|
  {
    if claims != [] {
      AcceptableExactly(e, claims[0].claimant, claims[0].epoch);
      ClaimsAreSafe(Heed(e, claims[0]), claims[1..]);
    }
  }

  /** What no member is moved by. */
  ghost predicate Unconvincing(e: Election, a: Assertion) {
    || a.epoch < e.epoch || a.claimant !in e.members || a.claimant == e.coordinator
    || (a.epoch == e.epoch && !JoinedBefore(e.members, a.claimant, e.me))
  }

  /** Strangers, the coordinator itself, epochs already left, and rivals that joined later can say what they like. */
  lemma {:induction false} NobodyElseIsHeeded(e: Election, claims: seq<Assertion>)
    requires forall a :: a in claims ==> Unconvincing(e, a)
    ensures HeedAll(e, claims) == e
    decreases |claims|
  {
    if claims != [] {
      assert Unconvincing(e, claims[0]);
      AcceptableExactly(e, claims[0].claimant, claims[0].epoch);
      NobodyElseIsHeeded(e, claims[1..]);
    }
  }

  // ---------------------------------------------------------------------------
  // The tie-break, seen by members that hold no role
  // ---------------------------------------------------------------------------

  /** At one epoch the member only ever moves to a coordinator that joined before the one it has. */
  ghost predicate SettlesUpwards(e: Election) {
    forall claimant :: Acceptable(e, claimant, e.epoch) && claimant != e.coordinator ==>
      JoinedBefore(e.members, claimant, e.coordinator)
  }

  ghost predicate DistinctPeers(peers: seq<PeerId>) {
    forall i, j :: 0 <= i < j < |peers| ==> peers[i] != peers[j]
  }

  /** Nobody in the list stands between the coordinator and this member. */
  predicate RightBehind(e: Election) {
    var (mine, theirs) := (IndexOf(e.members, e.me), IndexOf(e.members, e.coordinator));
    mine.None? || mine.value <= (if theirs.Some? then theirs.value + 1 else 0)
  }

  /**
   * The tie-break was made for two coordinators of one epoch, and for a coordinator it settles: it gives way to
   * earlier ones alone. The same test decides for members that hold no role, and there it settles exactly for
   * those with nobody between them and their coordinator.
   */
  lemma TieBreakSettlesExactly(e: Election)
    requires DistinctPeers(e.members)
    ensures SettlesUpwards(e) <==> RightBehind(e)
    ensures e.me == e.coordinator ==> RightBehind(e)
  {
    var (mine, theirs) := (IndexOf(e.members, e.me), IndexOf(e.members, e.coordinator));
    if RightBehind(e) {
      forall claimant | Acceptable(e, claimant, e.epoch) && claimant != e.coordinator
        ensures JoinedBefore(e.members, claimant, e.coordinator)
      {
        AcceptableExactly(e, claimant, e.epoch);
      }
    } else {
      var next := if theirs.Some? then theirs.value + 1 else 0;
      var rival := e.members[next];
      PlaceOf(e.members, next);
      AcceptableExactly(e, rival, e.epoch);
      assert !JoinedBefore(e.members, rival, e.coordinator);
    }
  }

  lemma {:induction false} PlaceOf(peers: seq<PeerId>, i: nat)
    requires DistinctPeers(peers) && i < |peers|
    ensures IndexOf(peers, peers[i]) == Some(i)
  {
    if i > 0 {
      PlaceOf(peers[1..], i - 1);
    }
  }

  lemma EarlierRivalIsHeeded(e: Election, a: Assertion)
    requires a.epoch == e.epoch && JoinedBefore(e.members, a.claimant, e.me)
    ensures Heed(e, a) == e.(coordinator := a.claimant)
  {
  }

  lemma Ranked(peers: seq<PeerId>, i: nat, j: nat)
    requires DistinctPeers(peers) && i < j < |peers|
    ensures JoinedBefore(peers, peers[i], peers[j])
  {
    PlaceOf(peers, i);
    PlaceOf(peers, j);
  }

  lemma HeedingTwo(e: Election, a: Assertion, b: Assertion)
    ensures HeedAll(e, [a, b]) == Heed(Heed(e, a), b)
  {
    assert [a, b][1..] == [b] && [b][1..] == [];
    assert HeedAll(Heed(e, a), [b]) == HeedAll(Heed(Heed(e, a), b), []);
  }

  /** Two rivals of one epoch can hand a later member back and forth: after both claims it is where it was. */
  lemma Flap(e: Election, rival: PeerId)
    requires JoinedBefore(e.members, e.coordinator, rival) && JoinedBefore(e.members, rival, e.me)
    ensures Heed(e, Assertion(rival, e.epoch)) != e
    ensures HeedAll(e, [Assertion(rival, e.epoch), Assertion(e.coordinator, e.epoch)]) == e
  {
    EarlierRivalIsHeeded(e, Assertion(rival, e.epoch));
    EarlierRivalIsHeeded(e.(coordinator := rival), Assertion(e.coordinator, e.epoch));
    HeedingTwo(e, Assertion(rival, e.epoch), Assertion(e.coordinator, e.epoch));
  }

  lemma ALaterMemberCanFlap() returns (e: Election, rival: Assertion, back: Assertion)
    ensures rival.epoch == back.epoch == e.epoch && !RightBehind(e)
    ensures Heed(e, rival) != e && HeedAll(e, [rival, back]) == e
  {
    e := Election([[1], [2], [3], [4]], [2], 1, [4]);
    rival, back := Assertion([3], 1), Assertion([2], 1);
    Ranked(e.members, 1, 2);
    Ranked(e.members, 2, 3);
    Flap(e, [3]);
    PlaceOf(e.members, 1);
    PlaceOf(e.members, 3);
  }

  // ---------------------------------------------------------------------------
  // Split brain
  // ---------------------------------------------------------------------------

  /** The election as coordinator `me` sees it after taking the role over at `epoch`. */
  function Holder(members: seq<PeerId>, epoch: U64, me: PeerId): Election {
    Election(members, me, epoch, me)
  }

  ghost predicate Yields(members: seq<PeerId>, epoch: U64, loser: PeerId, winner: PeerId) {
    ConcedesTo(Holder(members, epoch, loser), winner, epoch)
  }

  /** Conceding is a strict total order on the members: of any two, exactly one steps down. */
  lemma ConcedingIsAStrictTotalOrder(members: seq<PeerId>, epoch: U64, a: PeerId, b: PeerId, c: PeerId)
    requires a in members && b in members && c in members
    ensures !Yields(members, epoch, a, a)
    ensures a != b ==> (Yields(members, epoch, a, b) <==> !Yields(members, epoch, b, a))
    ensures Yields(members, epoch, a, b) && Yields(members, epoch, b, c) ==> Yields(members, epoch, a, c)
  {
  }

  /** One exchange: `claimant` shows itself to `other`, both still coordinating. */
  datatype Exchange = Exchange(claimant: PeerId, other: PeerId)

  function Settle(members: seq<PeerId>, epoch: U64, holders: set<PeerId>, x: Exchange): set<PeerId> {
    if x.claimant in holders && x.other in holders
       && ConcedesTo(Holder(members, epoch, x.other), x.claimant, epoch)
    then holders - {x.other}
    else holders
  }

  function SettleAll(members: seq<PeerId>, epoch: U64, holders: set<PeerId>, xs: seq<Exchange>): set<PeerId>
    decreases |xs|
  {
    if xs == [] then holders else SettleAll(members, epoch, Settle(members, epoch, holders, xs[0]), xs[1..])
  }

  ghost predicate Earliest(members: seq<PeerId>, holders: set<PeerId>, first: PeerId) {
    && first in holders
    && forall p :: p in holders ==> p in members && IndexOf(members, first).Some?
                                    && IndexOf(members, first).value <= IndexOf(members, p).value
  }

  lemma {:induction false} EarliestExists(members: seq<PeerId>, holders: set<PeerId>)
    requires holders != {} && forall p :: p in holders ==> p in members
    ensures exists first :: Earliest(members, holders, first)
  {
    var x :| x in holders;
    if holders == {x} {
      assert Earliest(members, holders, x);
    } else {
      EarliestExists(members, holders - {x});
      var rest :| Earliest(members, holders - {x}, rest);
      var first := if IndexOf(members, x).value < IndexOf(members, rest).value then x else rest;
      assert Earliest(members, holders, first);
    }
  }

  /** No exchange, in any order, ever makes the earliest-joined holder step down. */
  lemma {:induction false} EarliestNeverConcedes(
    members: seq<PeerId>, epoch: U64, holders: set<PeerId>, first: PeerId, xs: seq<Exchange>)
    requires Earliest(members, holders, first)
    ensures Earliest(members, SettleAll(members, epoch, holders, xs), first)
    ensures SettleAll(members, epoch, holders, xs) <= holders
    decreases |xs|
  {
    if xs != [] {
      EarliestNeverConcedes(members, epoch, Settle(members, epoch, holders, xs[0]), first, xs[1..]);
    }
  }

  /** Exchanges that each make somebody step down. */
  ghost predicate AllConcede(members: seq<PeerId>, epoch: U64, holders: set<PeerId>, xs: seq<Exchange>)
    decreases |xs|
  {
    xs == [] || (&& Settle(members, epoch, holders, xs[0]) != holders
                 && AllConcede(members, epoch, Settle(members, epoch, holders, xs[0]), xs[1..]))
  }

  /** Nobody left has an exchange to lose. */
  ghost predicate Settled(members: seq<PeerId>, epoch: U64, holders: set<PeerId>) {
    forall x :: Settle(members, epoch, holders, x) == holders
  }

  lemma {:induction false} EachConcessionCounts(
    members: seq<PeerId>, epoch: U64, holders: set<PeerId>, xs: seq<Exchange>)
    requires AllConcede(members, epoch, holders, xs)
    ensures |SettleAll(members, epoch, holders, xs)| + |xs| == |holders|
    decreases |xs|
  {
    if xs != [] {
      EachConcessionCounts(members, epoch, Settle(members, epoch, holders, xs[0]), xs[1..]);
    }
  }

  /**
   * Split-brain convergence. However several holders of one epoch exchange claims, at most n - 1 exchanges
   * can make somebody step down, and when none is left to, exactly the earliest-joined still coordinates.
   */
  lemma SplitBrainConverges(members: seq<PeerId>, epoch: U64, holders: set<PeerId>, first: PeerId, xs: seq<Exchange>)
    requires Earliest(members, holders, first) && AllConcede(members, epoch, holders, xs)
    ensures |xs| <= |holders| - 1
    ensures Settled(members, epoch, SettleAll(members, epoch, holders, xs))
            <==> SettleAll(members, epoch, holders, xs) == {first}
    ensures |xs| == |holders| - 1 ==> SettleAll(members, epoch, holders, xs) == {first}
  {
    var left := SettleAll(members, epoch, holders, xs);
    EarliestNeverConcedes(members, epoch, holders, first, xs);
    EachConcessionCounts(members, epoch, holders, xs);
    SettledExactly(members, epoch, left, first);
    if left != {first} {
      assert |left - {first}| == |left| - 1;
      assert left - {first} != {};
    }
  }

  /** So any group of members that all coordinate at one epoch ends with one of them, its earliest-joined. */
  lemma AnySplitBrainConverges(members: seq<PeerId>, epoch: U64, holders: set<PeerId>, xs: seq<Exchange>)
    returns (first: PeerId)
    requires holders != {} && forall p :: p in holders ==> p in members
    requires AllConcede(members, epoch, holders, xs)
    ensures Earliest(members, holders, first)
    ensures |xs| <= |holders| - 1
    ensures var left := SettleAll(members, epoch, holders, xs);
            first in left && (Settled(members, epoch, left) <==> left == {first})
  {
    EarliestExists(members, holders);
    first :| Earliest(members, holders, first);
    SplitBrainConverges(members, epoch, holders, first, xs);
    EarliestNeverConcedes(members, epoch, holders, first, xs);
  }

  /** And however far the exchanges have got, some can still follow that settle it. */
  lemma {:induction false} SettlingIsPossible(members: seq<PeerId>, epoch: U64, holders: set<PeerId>, first: PeerId)
    returns (xs: seq<Exchange>)
    requires Earliest(members, holders, first)
    ensures AllConcede(members, epoch, holders, xs) && SettleAll(members, epoch, holders, xs) == {first}
    decreases holders
  {
    xs := [];
    if holders != {first} {
      var other :| other in holders && other != first;
      ConcedingIsAStrictTotalOrder(members, epoch, other, first, first);
      var x := Exchange(first, other);
      assert Settle(members, epoch, holders, x) == holders - {other};
      var rest := SettlingIsPossible(members, epoch, holders - {other}, first);
      xs := [x] + rest;
      assert xs[1..] == rest;
    }
  }

  lemma SettledExactly(members: seq<PeerId>, epoch: U64, left: set<PeerId>, first: PeerId)
    requires Earliest(members, left, first)
    ensures Settled(members, epoch, left) <==> left == {first}
  {
    if left != {first} {
      var other :| other in left && other != first;
      ConcedingIsAStrictTotalOrder(members, epoch, other, first, first);
      assert Settle(members, epoch, left, Exchange(first, other)) == left - {other};
    } else {
      forall x ensures Settle(members, epoch, left, x) == left {
      }
    }
  }
}
