/** The order of succession over the life of a session: who joined first is first in line. */
module Succession {
  import opened Common
  import opened LayoutTree
  import opened LayoutModel
  import opened LayoutInvariant
  import opened LayoutRuns
  import opened LayoutRequests
  import opened LayoutEffects
  import F = Failover

  // ---------------------------------------------------------------------------
  // Join order
  // ---------------------------------------------------------------------------

  function Ids(members: seq<Member>): (ids: seq<PeerId>)
    ensures |ids| == |members|
    ensures forall i :: 0 <= i < |ids| ==> ids[i] == members[i].peerId
  {
    if members == [] then [] else [members[0].peerId] + Ids(members[1..])
  }

  ghost predicate Distinct(ids: seq<PeerId>) {
    forall i, j :: 0 <= i < j < |ids| ==> ids[i] != ids[j]
  }

  ghost predicate Before(ids: seq<PeerId>, p: PeerId, q: PeerId) {
    exists i, j :: 0 <= i < j < |ids| && ids[i] == p && ids[j] == q
  }

  /** Nobody moves: somebody new comes last, or somebody leaves, or neither. */
  ghost predicate KeepsPlaces(before: seq<PeerId>, after: seq<PeerId>) {
    || after == before
    || (|after| == |before| + 1 && before == after[..|before|] && after[|before|] !in before)
    || exists i :: Closes(before, after, i)
  }

  ghost predicate Closes(before: seq<PeerId>, after: seq<PeerId>, i: nat) {
    i < |before| && after == before[..i] + before[i + 1..]
  }

  lemma JoiningKeepsPlaces(
    verify: MachineVerifier, s: State, t: State, peer: PeerId, addr: Bytes, identity: MemberIdentity)
    requires JoinsLast(verify, s, t, peer, addr, identity) && !IsMember(s.layout.members, peer)
    ensures KeepsPlaces(Ids(s.layout.members), Ids(t.layout.members))
  {
    var (before, after) := (Ids(s.layout.members), Ids(t.layout.members));
    assert before == after[..|before|];
    assert after[|before|] == peer;
  }

  lemma LeavingKeepsPlaces(before: seq<Member>, after: seq<Member>, peer: PeerId)
    requires OneOut(before, after, peer)
    ensures KeepsPlaces(Ids(before), Ids(after))
  {
    var i :| 0 <= i < |before| && before[i].peerId == peer && after == before[..i] + before[i + 1..];
    var (a, b) := (Ids(before), Ids(after));
    assert b == a[..i] + a[i + 1..];
    assert Closes(a, b, i);
  }

  lemma UpdatingKeepsPlaces(before: seq<Member>, after: seq<Member>, peer: PeerId, kind: MemberKind, addr: Bytes)
    requires OneEntry(before, after, peer, kind, addr)
    ensures Ids(after) == Ids(before)
  {
  }

  lemma MembersKeepPlaces(verify: MachineVerifier, s: State, op: Op)
    requires Inv(s) && OnMembers(op) && StepMembers(verify, s, op).1.Success?
    ensures KeepsPlaces(Ids(s.layout.members), Ids(StepMembers(verify, s, op).0.layout.members))
  {
    var t := StepMembers(verify, s, op).0;
    MembersPerform(verify, s, op);
    match op
    case OpAddMember(base, peer, addr, identity) =>
      AddMemberAnswers(verify, s, base, peer, addr, identity);
      assert !Objection(s, op, AlreadyMember);
      JoiningKeepsPlaces(verify, s, t, peer, addr, identity);
    case OpUpdateKind(_, peer, kind) =>
      if t != s {
        var m :| Entry(s.layout.members, m, peer)
                 && OneEntry(s.layout.members, t.layout.members, peer, kind, m.endpointAddr);
        UpdatingKeepsPlaces(s.layout.members, t.layout.members, peer, kind, m.endpointAddr);
      }
    case OpUpdateEndpoint(_, peer, addr) =>
      var m :| Entry(s.layout.members, m, peer) && OneEntry(s.layout.members, t.layout.members, peer, m.kind, addr);
      UpdatingKeepsPlaces(s.layout.members, t.layout.members, peer, m.kind, addr);
    case OpRemoveMember(peer) =>
      LeavingKeepsPlaces(s.layout.members, t.layout.members, peer);
  }

  lemma ReservationsKeepMembers(s: State, op: Op)
    requires Inv(s) && OnReservations(op)
    ensures StepReservations(s, op).0.layout.members == s.layout.members
  {
    RefusedReservation(s, op);
    ReservationsPerform(s, op);
  }

  lemma CreationKeepsMembers(s: State, op: Op)
    requires Inv(s) && Creates(op)
    ensures StepCreation(s, op).0.layout.members == s.layout.members
  {
    RefusedCreation(s, op);
    CreationPerforms(s, op);
  }

  /** Whatever else is asked for, the list of members stays. */
  lemma OthersKeepMembers(verify: MachineVerifier, s: State, op: Op)
    requires Inv(s) && !OnMembers(op)
    ensures Step(verify, s, op).0.layout.members == s.layout.members
  {
    if OnReservations(op) {
      ReservationsKeepMembers(s, op);
    } else if Creates(op) {
      CreationKeepsMembers(s, op);
    } else if OnStructure(op) {
      StructureEditsAreDirect(s, op);
    } else {
      DetailEditsAreDirect(s, op);
    }
  }

  lemma StepKeepsPlaces(verify: MachineVerifier, s: State, op: Op)
    requires Inv(s) && !LosesTabs(s, op)
    ensures KeepsPlaces(Ids(s.layout.members), Ids(Step(verify, s, op).0.layout.members))
  {
    if !OnMembers(op) {
      OthersKeepMembers(verify, s, op);
    } else if StepMembers(verify, s, op).1.Success? {
      MembersKeepPlaces(verify, s, op);
    } else {
      RefusedMembership(verify, s, op);
    }
  }

  /** Removing one and adding one at the end never swaps two that stay. */
  lemma PlacesKeepOrder(before: seq<PeerId>, after: seq<PeerId>, p: PeerId, q: PeerId)
    requires Distinct(before) && KeepsPlaces(before, after) && p in after && q in after && p in before && p != q
    requires q in before ==> Before(before, p, q)
    ensures Before(after, p, q)
  {
    if exists i :: Closes(before, after, i) {
      var i :| Closes(before, after, i);
      ClosingKeepsOrder(before, after, i, p, q);
    } else if after != before {
      var k :| 0 <= k < |before| && before[k] == p;
      assert after[k] == p;
      if q in before {
        var a, b :| 0 <= a < b < |before| && before[a] == p && before[b] == q;
        assert after[a] == p && after[b] == q;
      } else {
        var j :| 0 <= j < |after| && after[j] == q;
        assert j == |before|;
      }
    }
  }

  lemma ClosingKeepsOrder(before: seq<PeerId>, after: seq<PeerId>, i: nat, p: PeerId, q: PeerId)
    requires Distinct(before) && Closes(before, after, i) && p in after && q in after
    requires q in before ==> Before(before, p, q)
    ensures Before(after, p, q)
  {
    ClosingMoves(before, after, i);
    var c :| 0 <= c < |after| && after[c] == p;
    var d :| 0 <= d < |after| && after[d] == q;
    var a, b :| 0 <= a < b < |before| && before[a] == p && before[b] == q;
    assert a == PlaceBefore(i, c) && b == PlaceBefore(i, d);
  }

  function PlaceBefore(i: nat, k: nat): nat {
    if k < i then k else k + 1
  }

  lemma ClosingMoves(before: seq<PeerId>, after: seq<PeerId>, i: nat)
    requires Closes(before, after, i)
    ensures |after| == |before| - 1
    ensures forall k :: 0 <= k < |after| ==> after[k] == before[PlaceBefore(i, k)]
  {
  }

  /** The session's members in the order they joined. */
  function Order(s: State): seq<PeerId> {
    Ids(s.layout.members)
  }

  /** Once `q` is behind `p`, or not there, one step leaves it so while `p` is there. */
  lemma StepKeepsOrder(verify: MachineVerifier, s: State, op: Op, t: State, p: PeerId, q: PeerId)
    requires Inv(s) && !LosesTabs(s, op) && t == Step(verify, s, op).0 && p != q
    requires p in Order(s) && p in Order(t) && q in Order(t) && (q in Order(s) ==> Before(Order(s), p, q))
    ensures Before(Order(t), p, q)
  {
    StepKeepsPlaces(verify, s, op);
    OrderIsDistinct(s);
    PlacesKeepOrder(Order(s), Order(t), p, q);
  }

  lemma OrderIsDistinct(s: State)
    requires Inv(s)
    ensures Distinct(Order(s))
  {
  }

  // ---------------------------------------------------------------------------
  // Runs
  // ---------------------------------------------------------------------------

  /** The peer is a member all the way. */
  ghost predicate Stays(verify: MachineVerifier, s: State, ops: seq<Op>, p: PeerId)
    decreases |ops|
  {
    p in Order(s) && (ops == [] || Stays(verify, Step(verify, s, ops[0]).0, ops[1..], p))
  }

  lemma {:induction false} StaysToTheEnd(verify: MachineVerifier, s: State, ops: seq<Op>, p: PeerId)
    requires Stays(verify, s, ops, p)
    ensures p in Order(After(verify, s, ops))
    decreases |ops|
  {
    if ops != [] {
      StaysToTheEnd(verify, Step(verify, s, ops[0]).0, ops[1..], p);
    }
  }

  /** While `p` stays, whoever is behind it or joins later is behind it at the end, coming and going as it may. */
  lemma {:induction false} BehindWhoStays(verify: MachineVerifier, s: State, ops: seq<Op>, p: PeerId, q: PeerId)
    requires Inv(s) && KeepsTabs(verify, s, ops) && Stays(verify, s, ops, p) && p != q
    requires q in Order(s) ==> Before(Order(s), p, q)
    requires q in Order(After(verify, s, ops))
    ensures Before(Order(After(verify, s, ops)), p, q)
    decreases |ops|
  {
    if ops != [] {
      var t := Step(verify, s, ops[0]).0;
      StepKeepsInvExactly(verify, s, ops[0]);
      assert p in Order(t);
      if q in Order(t) {
        StepKeepsOrder(verify, s, ops[0], t, p, q);
      }
      BehindWhoStays(verify, t, ops[1..], p, q);
    }
  }

  lemma OneWayRound(ids: seq<PeerId>, p: PeerId, q: PeerId)
    requires Distinct(ids) && p in ids && q in ids && p != q
    ensures Before(ids, p, q) <==> !Before(ids, q, p)
  {
    var i :| 0 <= i < |ids| && ids[i] == p;
    var j :| 0 <= j < |ids| && ids[j] == q;
  }

  /** Two members that stay keep their order. */
  lemma JoinOrderIsKept(verify: MachineVerifier, s: State, ops: seq<Op>, p: PeerId, q: PeerId)
    requires Inv(s) && KeepsTabs(verify, s, ops) && Stays(verify, s, ops, p) && Stays(verify, s, ops, q) && p != q
    ensures Before(Order(After(verify, s, ops)), p, q) <==> Before(Order(s), p, q)
  {
    StaysToTheEnd(verify, s, ops, p);
    StaysToTheEnd(verify, s, ops, q);
    RunKeepsInv(verify, s, ops);
    OrderIsDistinct(s);
    OrderIsDistinct(After(verify, s, ops));
    OneWayRound(Order(s), p, q);
    OneWayRound(Order(After(verify, s, ops)), p, q);
    if Before(Order(s), p, q) {
      BehindWhoStays(verify, s, ops, p, q);
    } else {
      BehindWhoStays(verify, s, ops, q, p);
    }
  }

  // ---------------------------------------------------------------------------
  // The election
  // ---------------------------------------------------------------------------

  /** The election as member `me` of the session sees it. */
  function ElectionIn(s: State, coordinator: PeerId, epoch: U64, me: PeerId): F.Election {
    F.Election(Order(s), coordinator, epoch, me)
  }

  lemma {:induction false} PlaceIs(ids: seq<PeerId>, p: PeerId, i: nat)
    requires Distinct(ids) && i < |ids| && ids[i] == p
    ensures F.IndexOf(ids, p) == Some(i)
  {
    if i > 0 {
      PlaceIs(ids[1..], p, i - 1);
    }
  }

  lemma BeforeIsEarlier(ids: seq<PeerId>, p: PeerId, q: PeerId)
    requires Distinct(ids) && p in ids && q in ids
    ensures Before(ids, p, q) <==> F.IndexOf(ids, p).value < F.IndexOf(ids, q).value
  {
    var i :| 0 <= i < |ids| && ids[i] == p;
    var j :| 0 <= j < |ids| && ids[j] == q;
    PlaceIs(ids, p, i);
    PlaceIs(ids, q, j);
    if Before(ids, p, q) {
      var a, b :| 0 <= a < b < |ids| && ids[a] == p && ids[b] == q;
    }
  }

  /** In a valid session, whoever else coordinates, the ranks of two candidates are their join order. */
  lemma RankIsJoinOrder(s: State, coordinator: PeerId, epoch: U64, me: PeerId, p: PeerId, q: PeerId)
    requires Inv(s) && p in Order(s) && q in Order(s) && p != coordinator && q != coordinator
    ensures var e := ElectionIn(s, coordinator, epoch, me);
            && F.Rank(e, p).Some? && F.Rank(e, q).Some?
            && (F.Rank(e, p).value < F.Rank(e, q).value <==> Before(Order(s), p, q))
  {
    F.RankFollowsJoinOrder(Order(s), coordinator, p, q);
    OrderIsDistinct(s);
    BeforeIsEarlier(Order(s), p, q);
  }

  /** Nobody ranks before a candidate that is before all the others. */
  lemma FirstInLine(s: State, coordinator: PeerId, epoch: U64, me: PeerId, p: PeerId)
    requires Inv(s) && p in Order(s) && p != coordinator
    requires forall q :: q in Order(s) && q != p && q != coordinator ==> Before(Order(s), p, q)
    ensures F.Rank(ElectionIn(s, coordinator, epoch, me), p) == Some(0)
  {
    var e := ElectionIn(s, coordinator, epoch, me);
    F.WithoutPeerKeepsTheRest(e.members, coordinator);
    F.RankedExactly(e, p);
    assert p in F.Candidates(e);
    var first := F.Candidates(e)[0];
    assert first in F.Candidates(e) && F.Rank(e, first) == Some(0);
    if first != p {
      RankIsJoinOrder(s, coordinator, epoch, me, p, first);
      assert false;
    }
  }

  /**
   * Succession over a whole run. A member that stays, and before which nobody is but the coordinator and those
   * who are gone at the end, is then first in line, whoever has joined, left and come back meanwhile.
   */
  lemma EarliestSurvivorRanksFirst(
    verify: MachineVerifier, s: State, ops: seq<Op>, coordinator: PeerId, epoch: U64, me: PeerId, p: PeerId)
    requires Inv(s) && KeepsTabs(verify, s, ops) && Stays(verify, s, ops, p) && p != coordinator
    requires forall q :: Before(Order(s), q, p) && q != coordinator ==> q !in Order(After(verify, s, ops))
    ensures F.Rank(ElectionIn(After(verify, s, ops), coordinator, epoch, me), p) == Some(0)
  {
    var t := After(verify, s, ops);
    RunKeepsInv(verify, s, ops);
    StaysToTheEnd(verify, s, ops, p);
    OrderIsDistinct(s);
    forall q | q in Order(t) && q != p && q != coordinator ensures Before(Order(t), p, q) {
      if q in Order(s) {
        OneWayRound(Order(s), p, q);
      }
      BehindWhoStays(verify, s, ops, p, q);
    }
    FirstInLine(t, coordinator, epoch, me, p);
  }
}
