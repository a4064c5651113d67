/** The agents of a process table that no pane holds: one row each, whatever order the table is in. */
module LooseAgents {
  import opened Common
  import opened ProcessTree

  datatype LooseAgent = LooseAgent(kind: AgentKind, pid: Pid, cwd: string, startTime: Option<U64>, nodePid: Pid)

  type Agent = p: Process | p.agent.Some? witness Process(0, None, Some(Claude), false, "", None)

  /** An agent no pane root is an ancestor of (or is itself). */
  ghost predicate Outside(t: Table, roots: seq<Pid>, p: Process) {
    p.agent.Some? && forall root :: root in roots ==> Depth(t, root, p.pid).None?
  }

  /** The agents outside the panes, in the order of the table. */
  ghost function OutsideOf(t: Table, roots: seq<Pid>, processes: seq<Process>): seq<Agent> {
    if processes == [] then []
    else
      var last := processes[|processes| - 1];
      OutsideOf(t, roots, processes[..|processes| - 1]) + if Outside(t, roots, last) then [last] else []
  }

  /** The kind found for each pid; a later agent with the same pid replaces an earlier one. */
  function KindByPid(agents: seq<Agent>): map<Pid, Option<AgentKind>> {
    if agents == [] then map[]
    else
      var last := agents[|agents| - 1];
      KindByPid(agents[..|agents| - 1])[last.pid := last.agent]
  }

  /** No agent outside the panes and of the same kind is above this one. */
  ghost predicate Outermost(t: Table, kinds: map<Pid, Option<AgentKind>>, p: Process) {
    forall x :: Above(t, p.pid, x) && x in kinds ==> kinds[x] != p.agent
  }

  ghost function Row(t: Table, known: set<Pid>, p: Agent): LooseAgent {
    var node := EnclosingNode(t, known, p.pid);
    LooseAgent(p.agent.value, p.pid, p.cwd, p.startTime, if node.Some? then node.value else 0)
  }

  ghost function RowsOf(t: Table, known: set<Pid>, kinds: map<Pid, Option<AgentKind>>, agents: seq<Agent>)
    : seq<LooseAgent>
  {
    if agents == [] then []
    else
      var last := agents[|agents| - 1];
      RowsOf(t, known, kinds, agents[..|agents| - 1])
      + if Outermost(t, kinds, last) then [Row(t, known, last)] else []
  }

  // ---------------------------------------------------------------------------
  // Sorting by (kind, pid)
  // ---------------------------------------------------------------------------

  predicate KeyLess(a: LooseAgent, b: LooseAgent) {
    a.kind.Index() < b.kind.Index() || (a.kind == b.kind && a.pid < b.pid)
  }

  /** A stable sort, one insertion at a time. */
  function Insert(rows: seq<LooseAgent>, row: LooseAgent): seq<LooseAgent> {
    if rows == [] || KeyLess(row, rows[0]) then [row] + rows else [rows[0]] + Insert(rows[1..], row)
  }

  function SortByKey(rows: seq<LooseAgent>): seq<LooseAgent> {
    if rows == [] then [] else Insert(SortByKey(rows[..|rows| - 1]), rows[|rows| - 1])
  }

  ghost predicate Sorted(rows: seq<LooseAgent>) {
    forall i, j :: 0 <= i < j < |rows| ==> !KeyLess(rows[j], rows[i])
  }

  lemma {:induction false} InsertPermutes(rows: seq<LooseAgent>, row: LooseAgent)
    ensures multiset(Insert(rows, row)) == multiset(rows) + multiset{row}
  {
    if rows != [] && !KeyLess(row, rows[0]) {
      assert rows == [rows[0]] + rows[1..];
      InsertPermutes(rows[1..], row);
    }
  }

  lemma {:induction false} InsertHolds(rows: seq<LooseAgent>, row: LooseAgent, r: LooseAgent)
    ensures r in Insert(rows, row) <==> r == row || r in rows
  {
    if rows != [] && !KeyLess(row, rows[0]) {
      InsertHolds(rows[1..], row, r);
    }
  }

  /** A row that belongs in front of sorted rows makes them sorted rows. */
  lemma SortedFromTheFront(first: LooseAgent, rest: seq<LooseAgent>)
    requires Sorted(rest) && forall r :: r in rest ==> !KeyLess(r, first)
    ensures Sorted([first] + rest)
  {
    var all := [first] + rest;
    forall i, j | 0 <= i < j < |all| ensures !KeyLess(all[j], all[i]) {
      assert all[j] == rest[j - 1] && rest[j - 1] in rest;
    }
  }

  lemma SortedTail(rows: seq<LooseAgent>)
    requires rows != [] && Sorted(rows)
    ensures Sorted(rows[1..]) && forall r :: r in rows[1..] ==> !KeyLess(r, rows[0])
  {
    forall r | r in rows[1..] ensures !KeyLess(r, rows[0]) {
      var k :| 0 <= k < |rows[1..]| && rows[1..][k] == r;
      assert rows[k + 1] == r;
    }
  }

  lemma {:induction false} InsertSorts(rows: seq<LooseAgent>, row: LooseAgent)
    requires Sorted(rows)
    ensures Sorted(Insert(rows, row))
  {
    if rows == [] {
    } else if KeyLess(row, rows[0]) {
      forall r | r in rows ensures !KeyLess(r, row) {
        if r != rows[0] {
          SortedTail(rows);
          assert rows == [rows[0]] + rows[1..];
        }
      }
      SortedFromTheFront(row, rows);
    } else {
      SortedTail(rows);
      InsertSorts(rows[1..], row);
      forall r | r in Insert(rows[1..], row) ensures !KeyLess(r, rows[0]) {
        InsertHolds(rows[1..], row, r);
      }
      SortedFromTheFront(rows[0], Insert(rows[1..], row));
    }
  }

  lemma {:induction false} SortPermutes(rows: seq<LooseAgent>)
    ensures multiset(SortByKey(rows)) == multiset(rows)
  {
    if rows != [] {
      var front, last := rows[..|rows| - 1], rows[|rows| - 1];
      SortPermutes(front);
      InsertPermutes(SortByKey(front), last);
      assert rows == front + [last];
    }
  }

  lemma {:induction false} SortSorts(rows: seq<LooseAgent>)
    ensures Sorted(SortByKey(rows)) && multiset(SortByKey(rows)) == multiset(rows)
  {
    SortPermutes(rows);
    if rows != [] {
      SortSorts(rows[..|rows| - 1]);
      InsertSorts(SortByKey(rows[..|rows| - 1]), rows[|rows| - 1]);
    }
  }

  ghost predicate DistinctPids(rows: seq<LooseAgent>) {
    forall i, j :: 0 <= i < j < |rows| ==> rows[i].pid != rows[j].pid
  }

  lemma FirstIsTheSame(a: seq<LooseAgent>, b: seq<LooseAgent>)
    requires Sorted(a) && Sorted(b) && DistinctPids(a) && DistinctPids(b)
    requires a != [] && b != [] && a[0] in b && b[0] in a
    ensures a[0] == b[0]
  {
    var i :| 0 <= i < |b| && b[i] == a[0];
    var j :| 0 <= j < |a| && a[j] == b[0];
  }

  lemma TailIsTheRest(rows: seq<LooseAgent>, r: LooseAgent)
    requires rows != [] && DistinctPids(rows)
    ensures r in rows[1..] <==> r in rows && r != rows[0]
  {
    if r in rows[1..] {
      var k :| 0 <= k < |rows[1..]| && rows[1..][k] == r;
      assert rows[k + 1] == r;
    }
    assert rows == [rows[0]] + rows[1..];
  }

  lemma HeadIsMember(rows: seq<LooseAgent>)
    requires rows != []
    ensures rows[0] in rows
  {
  }

  /** There is only one way to sort rows whose pids are distinct. */
  lemma {:induction false} SortedIsUnique(a: seq<LooseAgent>, b: seq<LooseAgent>)
    requires Sorted(a) && Sorted(b) && DistinctPids(a) && DistinctPids(b)
    requires forall r :: r in a <==> r in b
    ensures a == b
  {
    if a == [] {
      if b != [] {
        HeadIsMember(b);
      }
    } else if b == [] {
      HeadIsMember(a);
    } else {
      FirstIsTheSame(a, b);
      assert a == [a[0]] + a[1..] && b == [b[0]] + b[1..];
      forall r ensures r in a[1..] <==> r in b[1..] {
        TailIsTheRest(a, r);
        TailIsTheRest(b, r);
      }
      SortedIsUnique(a[1..], b[1..]);
    }
  }

  // ---------------------------------------------------------------------------
  // The listing
  // ---------------------------------------------------------------------------

  lemma {:induction false} OutsideOfFilters(t: Table, roots: seq<Pid>, processes: seq<Process>)
    ensures forall p :: p in OutsideOf(t, roots, processes) <==> p in processes && Outside(t, roots, p)
  {
    if processes != [] {
      var front, last := processes[..|processes| - 1], processes[|processes| - 1];
      OutsideOfFilters(t, roots, front);
      assert processes == front + [last];
    }
  }

  ghost function Listing(processes: seq<Process>, roots: seq<Pid>, known: set<Pid>): seq<LooseAgent> {
    var t := ByPid(processes);
    var outside := OutsideOf(t, roots, processes);
    SortByKey(RowsOf(t, known, KindByPid(outside), outside))
  }

  method AgentsOutside(t: Table, roots: seq<Pid>, processes: seq<Process>) returns (outside: seq<Agent>)
    ensures outside == OutsideOf(t, roots, processes)
  {
    outside := [];
    for i := 0 to |processes|
      invariant outside == OutsideOf(t, roots, processes[..i])
    {
      var p := processes[i];
      assert processes[..i + 1][..i] == processes[..i];
      if p.agent.Some? {
        var inside := InsidePane(t, roots, p.pid);
        if !inside {
          outside := outside + [p];
        }
      }
    }
    assert processes[..|processes|] == processes;
  }

  method RowsFor(t: Table, known: set<Pid>, kinds: map<Pid, Option<AgentKind>>, agents: seq<Agent>)
    returns (rows: seq<LooseAgent>)
    ensures rows == RowsOf(t, known, kinds, agents)
  {
    rows := [];
    for i := 0 to |agents|
      invariant rows == RowsOf(t, known, kinds, agents[..i])
    {
      var p := agents[i];
      assert agents[..i + 1][..i] == agents[..i];
      var outermost := IsOutermost(t, kinds, p);
      if outermost {
        var node := EnclosingNodeAmong(t, known, p.pid);
        rows := rows + [LooseAgent(p.agent.value, p.pid, p.cwd, p.startTime, if node.Some? then node.value else 0)];
      }
    }
    assert agents[..|agents|] == agents;
  }

  method ListLooseAgents(processes: seq<Process>, roots: seq<Pid>, known: set<Pid>) returns (found: seq<LooseAgent>)
    ensures found == Listing(processes, roots, known)
  {
    var t := ByPid(processes);
    var outside := AgentsOutside(t, roots, processes);
    var rows := RowsFor(t, known, KindByPid(outside), outside);
    return SortByKey(rows);
  }

  method InsidePane(t: Table, roots: seq<Pid>, pid: Pid) returns (inside: bool)
    ensures inside <==> exists root :: root in roots && Depth(t, root, pid).Some?
  {
    for i := 0 to |roots|
      invariant forall j :: 0 <= j < i ==> Depth(t, roots[j], pid).None?
    {
      var depth := DescendantDepth(t, roots[i], pid);
      if depth.Some? {
        return true;
      }
    }
    return false;
  }

  method IsOutermost(t: Table, kinds: map<Pid, Option<AgentKind>>, p: Process) returns (outermost: bool)
    ensures outermost <==> Outermost(t, kinds, p)
  {
    var above := AncestorsOf(t, p.pid);
    forall x ensures x in above <==> Above(t, p.pid, x) {
      AncestorsAreExact(t, p.pid, above, x);
    }
    for i := 0 to |above|
      invariant forall j :: 0 <= j < i ==> !(above[j] in kinds && kinds[above[j]] == p.agent)
    {
      if above[i] in kinds && kinds[above[i]] == p.agent {
        assert above[i] in above;
        return false;
      }
    }
    return true;
  }

  // ---------------------------------------------------------------------------
  // What the listing shows
  // ---------------------------------------------------------------------------

  ghost predicate UniquePids(processes: seq<Process>) {
    forall i, j :: 0 <= i < j < |processes| ==> processes[i].pid != processes[j].pid
  }

  lemma {:induction false} ByPidFinds(processes: seq<Process>)
    requires UniquePids(processes)
    ensures forall p :: p in processes ==> p.pid in ByPid(processes) && ByPid(processes)[p.pid] == p
    ensures forall pid :: pid in ByPid(processes) ==>
              ByPid(processes)[pid] in processes && ByPid(processes)[pid].pid == pid
  {
    if processes != [] {
      var front, last := processes[..|processes| - 1], processes[|processes| - 1];
      ByPidFinds(front);
      assert processes == front + [last];
      LastPidIsNew(processes);
    }
  }

  lemma LastPidIsNew(processes: seq<Process>)
    requires UniquePids(processes) && processes != []
    ensures forall p :: p in processes[..|processes| - 1] ==> p.pid != processes[|processes| - 1].pid
  {
    var front, last := processes[..|processes| - 1], processes[|processes| - 1];
    forall p | p in front ensures p.pid != last.pid {
      var k :| 0 <= k < |front| && front[k] == p;
      assert processes[k] == p;
    }
  }

  lemma FrontPidsDiffer(agents: seq<Agent>, p: Agent)
    requires UniquePids(agents) && agents != [] && p in agents[..|agents| - 1]
    ensures p.pid != agents[|agents| - 1].pid && p in agents
  {
    var front := agents[..|agents| - 1];
    var k :| 0 <= k < |front| && front[k] == p;
    assert agents[k] == p;
  }

  lemma {:induction false} KindByPidHas(agents: seq<Agent>, p: Agent)
    requires UniquePids(agents) && p in agents
    ensures p.pid in KindByPid(agents) && KindByPid(agents)[p.pid] == p.agent
  {
    var front, last := agents[..|agents| - 1], agents[|agents| - 1];
    assert agents == front + [last];
    if p in front {
      FrontPidsDiffer(agents, p);
      KindByPidHas(front, p);
    }
  }

  lemma {:induction false} KindByPidHasOnly(agents: seq<Agent>, pid: Pid) returns (p: Agent)
    requires pid in KindByPid(agents)
    ensures p in agents && p.pid == pid && p.agent == KindByPid(agents)[pid]
  {
    var front, last := agents[..|agents| - 1], agents[|agents| - 1];
    if pid == last.pid {
      p := last;
    } else {
      p := KindByPidHasOnly(front, pid);
      assert agents == front + [last];
    }
  }

  lemma {:induction false} OutsideOfKeepsUnique(t: Table, roots: seq<Pid>, processes: seq<Process>)
    requires UniquePids(processes)
    ensures UniquePids(OutsideOf(t, roots, processes))
  {
    if processes != [] {
      var front, last := processes[..|processes| - 1], processes[|processes| - 1];
      OutsideOfKeepsUnique(t, roots, front);
      OutsideOfFilters(t, roots, front);
      var rest := OutsideOf(t, roots, front);
      forall j | 0 <= j < |rest| ensures rest[j].pid != last.pid {
        assert rest[j] in front;
      }
    }
  }

  /** An agent that gets a row: outside the panes, and under no other such agent of its kind. */
  ghost predicate Listed(t: Table, roots: seq<Pid>, processes: seq<Process>, p: Process) {
    && p in processes && Outside(t, roots, p)
    && forall q :: q in processes && Outside(t, roots, q) && q.agent == p.agent ==> !Above(t, p.pid, q.pid)
  }

  lemma OutermostIsListed(processes: seq<Process>, roots: seq<Pid>, p: Process)
    requires UniquePids(processes)
    requires p in processes && Outside(ByPid(processes), roots, p)
    ensures var t := ByPid(processes);
            Outermost(t, KindByPid(OutsideOf(t, roots, processes)), p) <==> Listed(t, roots, processes, p)
  {
    var t := ByPid(processes);
    var outside := OutsideOf(t, roots, processes);
    OutsideOfFilters(t, roots, processes);
    OutsideOfKeepsUnique(t, roots, processes);
    var kinds := KindByPid(outside);
    if !Outermost(t, kinds, p) {
      var x: Pid :| Above(t, p.pid, x) && x in kinds && kinds[x] == p.agent;
      var q := KindByPidHasOnly(outside, x);
    }
    if Outermost(t, kinds, p) {
      forall q | q in processes && Outside(t, roots, q) && q.agent == p.agent ensures !Above(t, p.pid, q.pid) {
        KindByPidHas(outside, q);
      }
    }
  }

  ghost predicate RowFor(
    t: Table, known: set<Pid>, kinds: map<Pid, Option<AgentKind>>, agents: seq<Agent>, r: LooseAgent)
  {
    exists p: Agent :: p in agents && Outermost(t, kinds, p) && r == Row(t, known, p)
  }

  lemma {:induction false} RowsOfShow(
    t: Table, known: set<Pid>, kinds: map<Pid, Option<AgentKind>>, agents: seq<Agent>, r: LooseAgent)
    ensures r in RowsOf(t, known, kinds, agents) <==> RowFor(t, known, kinds, agents, r)
  {
    if agents != [] {
      var front, last := agents[..|agents| - 1], agents[|agents| - 1];
      RowsOfShow(t, known, kinds, front, r);
      assert agents == front + [last];
      if RowFor(t, known, kinds, front, r) {
        var p: Agent :| p in front && Outermost(t, kinds, p) && r == Row(t, known, p);
        assert p in agents;
      }
      if Outermost(t, kinds, last) && r == Row(t, known, last) {
        assert last in agents;
      }
    }
  }

  lemma {:induction false} RowsOfAreDistinct(
    t: Table, known: set<Pid>, kinds: map<Pid, Option<AgentKind>>, agents: seq<Agent>)
    requires UniquePids(agents)
    ensures DistinctPids(RowsOf(t, known, kinds, agents))
  {
    if agents != [] {
      var front, last := agents[..|agents| - 1], agents[|agents| - 1];
      var rest := RowsOf(t, known, kinds, front);
      RowsOfAreDistinct(t, known, kinds, front);
      forall j | 0 <= j < |rest| ensures rest[j].pid != last.pid {
        RowsOfShow(t, known, kinds, front, rest[j]);
        var p: Agent :| p in front && Outermost(t, kinds, p) && rest[j] == Row(t, known, p);
        var k :| 0 <= k < |front| && front[k] == p;
        assert agents[k] == p;
      }
    }
  }

  ghost predicate ListedRow(t: Table, roots: seq<Pid>, known: set<Pid>, processes: seq<Process>, r: LooseAgent) {
    exists p: Agent :: Listed(t, roots, processes, p) && r == Row(t, known, p)
  }

  /** Exactly the listed agents have a row, each its own, and the rows are in order. */
  lemma ListingShowsTheListed(processes: seq<Process>, roots: seq<Pid>, known: set<Pid>)
    requires UniquePids(processes)
    ensures var t := ByPid(processes);
            && (forall r :: r in Listing(processes, roots, known) <==> ListedRow(t, roots, known, processes, r))
            && Sorted(Listing(processes, roots, known))
            && DistinctPids(Listing(processes, roots, known))
  {
    var t := ByPid(processes);
    var outside := OutsideOf(t, roots, processes);
    var kinds := KindByPid(outside);
    OutsideOfFilters(t, roots, processes);
    OutsideOfKeepsUnique(t, roots, processes);
    RowsOfAreDistinct(t, known, kinds, outside);
    var rows := RowsOf(t, known, kinds, outside);
    SortSorts(rows);
    PermutationKeepsDistinct(rows, SortByKey(rows));
    forall r ensures r in Listing(processes, roots, known) <==> ListedRow(t, roots, known, processes, r) {
      RowsOfShow(t, known, kinds, outside, r);
      assert r in SortByKey(rows) <==> r in multiset(SortByKey(rows));
      assert r in rows <==> r in multiset(rows);
      if r in rows {
        var p: Agent :| p in outside && Outermost(t, kinds, p) && r == Row(t, known, p);
        OutermostIsListed(processes, roots, p);
      }
      if p: Agent :| Listed(t, roots, processes, p) && r == Row(t, known, p) {
        OutermostIsListed(processes, roots, p);
        assert p in outside;
      }
    }
  }

  lemma AboveIsTransitive(t: Table, a: Pid, b: Pid, c: Pid)
    requires Above(t, a, b) && Above(t, b, c)
    ensures Above(t, a, c)
  {
    var i :| i >= 1 && Up(t, a, i) == Some(b);
    var j :| j >= 1 && Up(t, b, j) == Some(c);
    UpAdds(t, a, i, j);
    assert Up(t, a, i + j) == Some(c);
  }

  /** The listed agents a process is filed under: itself, or an agent of its kind above it. */
  ghost predicate FiledUnder(t: Table, p: Process, q: Process) {
    q.agent == p.agent && (q == p || Above(t, p.pid, q.pid))
  }

  ghost predicate Loose(t: Table, roots: seq<Pid>, processes: seq<Process>, p: Process) {
    p in processes && Outside(t, roots, p)
  }

  ghost predicate Filed(t: Table, roots: seq<Pid>, processes: seq<Process>, p: Process) {
    exists q :: Listed(t, roots, processes, q) && FiledUnder(t, p, q)
  }

  /** No loose agent that `p` could be filed under is on a cycle. */
  ghost predicate NoCycleAbove(t: Table, roots: seq<Pid>, processes: seq<Process>, p: Process) {
    forall q :: Loose(t, roots, processes, q) && FiledUnder(t, p, q) ==> !Above(t, q.pid, q.pid)
  }

  lemma FilingIsTransitive(t: Table, p: Process, q: Process, u: Process)
    requires FiledUnder(t, p, q) && FiledUnder(t, q, u)
    ensures FiledUnder(t, p, u)
  {
    if p != q && q != u {
      AboveIsTransitive(t, p.pid, q.pid, u.pid);
    }
  }

  lemma {:induction false} FiledWithoutCycles(
    processes: seq<Process>, roots: seq<Pid>, p: Process, above: set<Pid>)
    requires UniquePids(processes) && Loose(ByPid(processes), roots, processes, p)
    requires NoCycleAbove(ByPid(processes), roots, processes, p)
    requires forall q :: q in processes && Above(ByPid(processes), p.pid, q.pid) ==> q.pid in above
    ensures Filed(ByPid(processes), roots, processes, p)
    decreases above
  {
    var t := ByPid(processes);
    if Listed(t, roots, processes, p) {
      assert FiledUnder(t, p, p);
    } else {
      var q :| q in processes && Outside(t, roots, q) && q.agent == p.agent && Above(t, p.pid, q.pid);
      assert Loose(t, roots, processes, q) && FiledUnder(t, p, q);
      forall u | u in processes && Above(t, q.pid, u.pid) ensures u.pid in above - {q.pid} {
        AboveIsTransitive(t, p.pid, q.pid, u.pid);
        assert !Above(t, q.pid, q.pid);
      }
      forall u | Loose(t, roots, processes, u) && FiledUnder(t, q, u) ensures !Above(t, u.pid, u.pid) {
        FilingIsTransitive(t, p, q, u);
      }
      FiledWithoutCycles(processes, roots, q, above - {q.pid});
      var shown :| Listed(t, roots, processes, shown) && FiledUnder(t, q, shown);
      FilingIsTransitive(t, p, q, shown);
    }
  }

  /** A walk that comes back to where it began does so again after any number of hops. */
  lemma {:induction false} RoundAndRound(t: Table, pid: Pid, around: nat, least: nat) returns (hops: nat)
    requires around >= 1 && Up(t, pid, around) == Some(pid)
    ensures hops >= least && Up(t, pid, hops) == Some(pid)
  {
    if least == 0 {
      hops := 0;
    } else {
      var fewer := RoundAndRound(t, pid, around, least - 1);
      UpAdds(t, pid, fewer, around);
      hops := fewer + around;
    }
  }

  /** What is on a cycle above a process is above everything else that is above that process. */
  lemma CyclesAreOnTop(t: Table, pid: Pid, x: Pid, i: nat, c: Pid, j: nat)
    requires Up(t, pid, i) == Some(x) && Up(t, pid, j) == Some(c) && Above(t, c, c)
    ensures Above(t, x, c)
  {
    var around :| around >= 1 && Up(t, c, around) == Some(c);
    var hops := RoundAndRound(t, c, around, i + 1);
    UpAdds(t, pid, j, hops);
    UpAdds(t, pid, i, j + hops - i);
    assert Up(t, x, j + hops - i) == Some(c);
  }

  lemma HopsTo(t: Table, p: Process, q: Process) returns (hops: nat)
    requires FiledUnder(t, p, q)
    ensures Up(t, p.pid, hops) == Some(q.pid)
  {
    if q == p {
      hops := 0;
    } else {
      hops :| hops >= 1 && Up(t, p.pid, hops) == Some(q.pid);
    }
  }

  lemma NothingListedUnderACycle(
    t: Table, roots: seq<Pid>, processes: seq<Process>, p: Process, c: Process, q: Process)
    requires Loose(t, roots, processes, c) && FiledUnder(t, p, c) && Above(t, c.pid, c.pid)
    requires FiledUnder(t, p, q)
    ensures !Listed(t, roots, processes, q)
  {
    var i := HopsTo(t, p, q);
    var j := HopsTo(t, p, c);
    CyclesAreOnTop(t, p.pid, q.pid, i, c.pid, j);
  }

  /**
   * When a loose agent is filed under a listed one: exactly when neither it nor any loose agent of its kind
   * above it is on a cycle. Cycles that hold no such agent do no harm.
   */
  lemma FiledExactly(processes: seq<Process>, roots: seq<Pid>, p: Process)
    requires UniquePids(processes) && Loose(ByPid(processes), roots, processes, p)
    ensures var t := ByPid(processes);
            Filed(t, roots, processes, p) <==> NoCycleAbove(t, roots, processes, p)
  {
    var t := ByPid(processes);
    if NoCycleAbove(t, roots, processes, p) {
      FiledWithoutCycles(processes, roots, p, set q | q in processes :: q.pid);
    } else {
      var c :| Loose(t, roots, processes, c) && FiledUnder(t, p, c) && Above(t, c.pid, c.pid);
      forall q | FiledUnder(t, p, q) ensures !Listed(t, roots, processes, q) {
        NothingListedUnderACycle(t, roots, processes, p, c, q);
      }
    }
  }

  /** The agent, or one of its kind above it, has a row. */
  ghost predicate Shown(processes: seq<Process>, roots: seq<Pid>, known: set<Pid>, p: Process) {
    var t := ByPid(processes);
    exists q: Agent :: q in processes && FiledUnder(t, p, q) && Row(t, known, q) in Listing(processes, roots, known)
  }

  lemma ShownIsFiled(processes: seq<Process>, roots: seq<Pid>, known: set<Pid>, p: Process)
    requires UniquePids(processes) && Loose(ByPid(processes), roots, processes, p)
    ensures Shown(processes, roots, known, p) <==> Filed(ByPid(processes), roots, processes, p)
  {
    var t := ByPid(processes);
    ListingShowsTheListed(processes, roots, known);
    ByPidFinds(processes);
    if Filed(t, roots, processes, p) {
      var q: Agent :| Listed(t, roots, processes, q) && FiledUnder(t, p, q);
      assert ListedRow(t, roots, known, processes, Row(t, known, q));
    }
    if Shown(processes, roots, known, p) {
      var q: Agent :| q in processes && FiledUnder(t, p, q) && Row(t, known, q) in Listing(processes, roots, known);
      var listed: Agent :| Listed(t, roots, processes, listed) && Row(t, known, q) == Row(t, known, listed);
      assert listed == q;
    }
  }

  /** For one agent: it is shown exactly when no loose agent of its kind, itself included, is on a cycle over it. */
  lemma ShownExactly(processes: seq<Process>, roots: seq<Pid>, known: set<Pid>, p: Process)
    requires UniquePids(processes) && Loose(ByPid(processes), roots, processes, p)
    ensures Shown(processes, roots, known, p) <==> NoCycleAbove(ByPid(processes), roots, processes, p)
  {
    ShownIsFiled(processes, roots, known, p);
    FiledExactly(processes, roots, p);
  }

  /** For all of them: no agent goes missing if and only if no loose agent is above itself. */
  lemma EveryLooseAgentIsShown(processes: seq<Process>, roots: seq<Pid>, known: set<Pid>)
    requires UniquePids(processes)
    ensures var t := ByPid(processes);
            (forall p :: Loose(t, roots, processes, p) ==> Shown(processes, roots, known, p))
            <==> (forall p :: Loose(t, roots, processes, p) ==> !Above(t, p.pid, p.pid))
  {
    var t := ByPid(processes);
    forall p | Loose(t, roots, processes, p)
      ensures Shown(processes, roots, known, p) <==> NoCycleAbove(t, roots, processes, p)
    {
      ShownExactly(processes, roots, known, p);
    }
    if p :| Loose(t, roots, processes, p) && Above(t, p.pid, p.pid) {
      assert FiledUnder(t, p, p);
      assert !NoCycleAbove(t, roots, processes, p);
    }
  }

  lemma ParentIsAbove(t: Table, pid: Pid, parent: Pid)
    requires ParentOf(t, pid) == Some(parent)
    ensures Above(t, pid, parent)
  {
    assert Up(t, pid, 0) == Some(pid);
    assert Up(t, pid, 1) == Some(parent);
  }

  /** A loose agent on a cycle has no row, and nothing it could be filed under has one. */
  lemma CyclicAgentsAreLeftOut(processes: seq<Process>, roots: seq<Pid>, known: set<Pid>, p: Agent, q: Agent)
    requires UniquePids(processes) && Loose(ByPid(processes), roots, processes, p)
    requires Above(ByPid(processes), p.pid, p.pid)
    requires q in processes && FiledUnder(ByPid(processes), p, q)
    ensures Row(ByPid(processes), known, q) !in Listing(processes, roots, known)
  {
    var t := ByPid(processes);
    assert FiledUnder(t, p, p) && !NoCycleAbove(t, roots, processes, p);
    ShownExactly(processes, roots, known, p);
  }

  /** One agent whose parent is a plain process whose parent is that agent: the list is empty. */
  lemma AnAgentGoesMissing(known: set<Pid>) returns (processes: seq<Process>, missing: Agent)
    ensures UniquePids(processes) && Loose(ByPid(processes), [], processes, missing)
    ensures forall p :: p in processes && p != missing ==> p.agent.None?
    ensures Listing(processes, [], known) == []
  {
    missing := Process(1, Some(2), Some(Claude), false, "", None);
    var plain := Process(2, Some(1), None, false, "", None);
    processes := [missing, plain];
    var t := ByPid(processes);
    ByPidFinds(processes);
    assert missing in processes && plain in processes;
    ParentIsAbove(t, 1, 2);
    ParentIsAbove(t, 2, 1);
    AboveIsTransitive(t, 1, 2, 1);
    ListingShowsTheListed(processes, [], known);
    assert !Listed(t, [], processes, missing) && !Listed(t, [], processes, plain);
    if Listing(processes, [], known) != [] {
      HeadIsMember(Listing(processes, [], known));
    }
  }

  /** And no row stands for a part of another: of two listed agents of one kind neither is above the other. */
  lemma ListedAgentsAreApart(processes: seq<Process>, roots: seq<Pid>, p: Process, q: Process)
    requires Listed(ByPid(processes), roots, processes, p) && Listed(ByPid(processes), roots, processes, q)
    requires p.agent == q.agent
    ensures !Above(ByPid(processes), p.pid, q.pid) && !Above(ByPid(processes), q.pid, p.pid)
  {
  }

  /** Two snapshots of the same processes, in whatever order, give the same list. */
  lemma ListingIgnoresOrder(a: seq<Process>, b: seq<Process>, roots: seq<Pid>, known: set<Pid>)
    requires UniquePids(a) && UniquePids(b) && forall p :: p in a <==> p in b
    ensures Listing(a, roots, known) == Listing(b, roots, known)
  {
    ByPidFinds(a);
    ByPidFinds(b);
    var t := ByPid(a);
    assert t == ByPid(b) by {
      forall pid ensures pid in ByPid(a) <==> pid in ByPid(b) {
        if pid in ByPid(a) {
          assert ByPid(a)[pid] in b;
        }
        if pid in ByPid(b) {
          assert ByPid(b)[pid] in a;
        }
      }
      forall pid | pid in ByPid(a) ensures ByPid(a)[pid] == ByPid(b)[pid] {
        assert ByPid(a)[pid] in b;
      }
    }
    ListingShowsTheListed(a, roots, known);
    ListingShowsTheListed(b, roots, known);
    var (x, y) := (Listing(a, roots, known), Listing(b, roots, known));
    assert forall p :: Listed(t, roots, a, p) <==> Listed(t, roots, b, p);
    forall r ensures r in x <==> r in y {
      assert ListedRow(t, roots, known, a, r) <==> ListedRow(t, roots, known, b, r);
    }
    SortedIsUnique(x, y);
  }

  lemma {:induction false} OnceEach(rows: seq<LooseAgent>, r: LooseAgent)
    requires DistinctPids(rows)
    ensures multiset(rows)[r] == if r in rows then 1 else 0
  {
    if rows != [] {
      assert rows == [rows[0]] + rows[1..];
      OnceEach(rows[1..], r);
      assert r in rows[1..] ==> r != rows[0];
    }
  }

  lemma TwoPlacesCountTwice(rows: seq<LooseAgent>, i: nat, j: nat)
    requires i < j < |rows| && rows[i] == rows[j]
    ensures multiset(rows)[rows[i]] >= 2
  {
    assert rows == rows[..i] + [rows[i]] + rows[i + 1..j] + [rows[j]] + rows[j + 1..];
  }

  lemma PermutationKeepsDistinct(a: seq<LooseAgent>, b: seq<LooseAgent>)
    requires DistinctPids(a) && multiset(a) == multiset(b)
    ensures DistinctPids(b)
  {
    forall i, j | 0 <= i < j < |b| ensures b[i].pid != b[j].pid {
      assert b[i] in multiset(a) && b[j] in multiset(a);
      var k :| 0 <= k < |a| && a[k] == b[i];
      var l :| 0 <= l < |a| && a[l] == b[j];
      OnceEach(a, b[i]);
      if b[i] == b[j] {
        TwoPlacesCountTwice(b, i, j);
      }
    }
  }

  // ---------------------------------------------------------------------------
  // What a row says
  // ---------------------------------------------------------------------------

  /** The process is a pane's root or below one. */
  ghost predicate InPane(t: Table, roots: seq<Pid>, pid: Pid) {
    exists root :: root in roots && (root == pid || Above(t, pid, root))
  }

  /** Below `root` is what has it above, and the root itself. */
  lemma BelowExactly(t: Table, root: Pid, pid: Pid)
    ensures Depth(t, root, pid).Some? <==> root == pid || Above(t, pid, root)
  {
    var goal := (x: Pid) => x == root;
    if root == pid {
      assert Up(t, pid, 0) == Some(root);
      assert Reaches(t, pid, 0, goal);
    }
    if Above(t, pid, root) {
      var k :| k >= 1 && Up(t, pid, k) == Some(root);
      assert goal(Up(t, pid, k).value);
      assert Reaches(t, pid, 0, goal);
    }
    if Depth(t, root, pid).Some? {
      var k := Depth(t, root, pid).value;
      assert Up(t, pid, k) == Some(root);
      assert k == 0 ==> root == pid;
    }
  }

  lemma OutsideExactly(t: Table, roots: seq<Pid>, p: Process)
    ensures Outside(t, roots, p) <==> p.agent.Some? && !InPane(t, roots, p.pid)
  {
    forall root | root in roots ensures Depth(t, root, p.pid).None? <==> !(root == p.pid || Above(t, p.pid, root)) {
      BelowExactly(t, root, p.pid);
    }
  }

  /** `node` stands `k` parents above the process, and no node is nearer. */
  ghost predicate NearestNode(t: Table, known: set<Pid>, pid: Pid, node: Pid, k: nat) {
    && k >= 1 && Up(t, pid, k) == Some(node) && MarksNode(t, known, node)
    && forall j, y :: 1 <= j < k && Up(t, pid, j) == Some(y) ==> !MarksNode(t, known, y)
  }

  /** The caller knows it for a node, or the process table does. */
  predicate MarksNode(t: Table, known: set<Pid>, pid: Pid) {
    if pid in t && t[pid].isNode then true else pid in known
  }

  lemma EnclosingNodeIsNearest(t: Table, known: set<Pid>, pid: Pid)
    ensures match EnclosingNode(t, known, pid)
            case Some(node) => exists k: nat :: NearestNode(t, known, pid, node, k)
            case None => forall x :: Above(t, pid, x) ==> !MarksNode(t, known, x)
  {
    var goal := (x: Pid) => IsNode(t, known, x);
    var first := FirstUp(t, pid, 1, goal);
    if first.Some? {
      assert NearestNode(t, known, pid, Up(t, pid, first.value).value, first.value);
    } else {
      forall x: Pid | Above(t, pid, x) ensures !MarksNode(t, known, x) {
        var k :| k >= 1 && Up(t, pid, k) == Some(x);
        assert Up(t, pid, k).Some? && !goal(Up(t, pid, k).value) by {
          assert !Reaches(t, pid, 1, goal);
        }
      }
    }
  }

  /** The row says of the process what the table says of it, and the node it runs under. */
  ghost predicate SaysOf(t: Table, known: set<Pid>, p: Process, r: LooseAgent) {
    && r.pid == p.pid && p.agent == Some(r.kind) && r.cwd == p.cwd && r.startTime == p.startTime
    && ((exists k: nat :: NearestNode(t, known, p.pid, r.nodePid, k))
        || (r.nodePid == 0 && forall x :: Above(t, p.pid, x) ==> !MarksNode(t, known, x)))
  }

  lemma RowSays(t: Table, known: set<Pid>, p: Agent)
    ensures SaysOf(t, known, p, Row(t, known, p))
  {
    EnclosingNodeIsNearest(t, known, p.pid);
  }

  /** Every row is about an agent of the table that is in no pane, and what it says of it is so. */
  lemma RowsAreTrue(processes: seq<Process>, roots: seq<Pid>, known: set<Pid>, r: LooseAgent)
    requires UniquePids(processes) && r in Listing(processes, roots, known)
    ensures !InPane(ByPid(processes), roots, r.pid)
    ensures exists p :: p in processes && SaysOf(ByPid(processes), known, p, r)
  {
    var t := ByPid(processes);
    ListingShowsTheListed(processes, roots, known);
    var p: Agent :| Listed(t, roots, processes, p) && r == Row(t, known, p);
    OutsideExactly(t, roots, p);
    RowSays(t, known, p);
  }
}
