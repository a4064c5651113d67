/** Walks over a sampled process table, which may be stale, cyclic or incomplete. */
module ProcessTree {
  import opened Common

  type Pid = U32

  /** In the order of their declaration, which is also their sorting order. */
  datatype AgentKind = Claude | Codex | Cursor | Pi | OpenCode | Hermes | OpenClaw {
    function Index(): nat {
      match this
      case Claude => 0
      case Codex => 1
      case Cursor => 2
      case Pi => 3
      case OpenCode => 4
      case Hermes => 5
      case OpenClaw => 6
    }
  }

  /** One process as sampled; `agent` and `isNode` are what its command line was recognised as. */
  datatype Process = Process(
    pid: Pid,
    parent: Option<Pid>,
    agent: Option<AgentKind>,
    isNode: bool,
    cwd: string,
    startTime: Option<U64>)

  type Table = map<Pid, Process>

  /** A later process with the same pid replaces an earlier one. */
  function ByPid(processes: seq<Process>): Table {
    if processes == [] then map[]
    else
      var last := processes[|processes| - 1];
      ByPid(processes[..|processes| - 1])[last.pid := last]
  }

  function ParentOf(t: Table, pid: Pid): Option<Pid> {
    if pid in t then t[pid].parent else None
  }

  /** The pid `hops` parents above `pid`, if the snapshot goes that far. */
  function Up(t: Table, pid: Pid, hops: nat): Option<Pid> {
    if hops == 0 then Some(pid)
    else
      var below := Up(t, pid, hops - 1);
      if below.None? then None else ParentOf(t, below.value)
  }

  ghost predicate Reaches(t: Table, pid: Pid, from: nat, goal: Pid -> bool) {
    exists k :: k >= from && Up(t, pid, k).Some? && goal(Up(t, pid, k).value)
  }

  ghost predicate IsFirst(t: Table, pid: Pid, from: nat, goal: Pid -> bool, k: nat) {
    && from <= k && Up(t, pid, k).Some? && goal(Up(t, pid, k).value)
    && forall j: nat :: from <= j < k && Up(t, pid, j).Some? ==> !goal(Up(t, pid, j).value)
  }

  lemma {:induction false} FirstExists(t: Table, pid: Pid, from: nat, goal: Pid -> bool, k: nat)
    requires from <= k && Up(t, pid, k).Some? && goal(Up(t, pid, k).value)
    ensures exists first: nat :: IsFirst(t, pid, from, goal, first)
    decreases k
  {
    if j: nat :| from <= j < k && Up(t, pid, j).Some? && goal(Up(t, pid, j).value) {
      FirstExists(t, pid, from, goal, j);
    } else {
      assert IsFirst(t, pid, from, goal, k);
    }
  }

  /** The least number of hops, at least `from`, after which the goal is met. */
  ghost function FirstUp(t: Table, pid: Pid, from: nat, goal: Pid -> bool): (r: Option<nat>)
    ensures r.Some? <==> Reaches(t, pid, from, goal)
    ensures r.Some? ==> IsFirst(t, pid, from, goal, r.value)
  {
    if Reaches(t, pid, from, goal) then
      var k: nat :| k >= from && Up(t, pid, k).Some? && goal(Up(t, pid, k).value);
      FirstExists(t, pid, from, goal, k);
      var first: nat :| IsFirst(t, pid, from, goal, first);
      Some(first)
    else None
  }

  /** How far below `root` a process is, by the shortest way up; `None` when no way leads there. */
  ghost function Depth(t: Table, root: Pid, pid: Pid): Option<nat> {
    FirstUp(t, pid, 0, (x: Pid) => x == root)
  }

  ghost predicate Above(t: Table, pid: Pid, x: Pid) {
    exists k :: k >= 1 && Up(t, pid, k) == Some(x)
  }

  // ---------------------------------------------------------------------------
  // Bounded walks
  // ---------------------------------------------------------------------------

  lemma {:induction false} UpAdds(t: Table, pid: Pid, a: nat, b: nat)
    requires Up(t, pid, a).Some?
    ensures Up(t, pid, a + b) == Up(t, Up(t, pid, a).value, b)
    decreases b
  {
    if b > 0 {
      UpAdds(t, pid, a, b - 1);
    }
  }

  lemma {:induction false} UpStaysNone(t: Table, pid: Pid, a: nat, b: nat)
    requires Up(t, pid, a).None? && a <= b
    ensures Up(t, pid, b).None?
    decreases b
  {
    if a < b {
      UpStaysNone(t, pid, a, b - 1);
    }
  }

  function Walk(t: Table, pid: Pid, n: nat): seq<Pid>
    requires n > 0 ==> Up(t, pid, n - 1).Some?
  {
    if n == 0 then [] else
      (if n > 1 then UpSomeBelow(t, pid, n - 2, n - 1); Walk(t, pid, n - 1) else []) + [Up(t, pid, n - 1).value]
  }

  lemma UpSomeBelow(t: Table, pid: Pid, a: nat, b: nat)
    requires a <= b && Up(t, pid, b).Some?
    ensures Up(t, pid, a).Some?
  {
    if Up(t, pid, a).None? {
      UpStaysNone(t, pid, a, b);
    }
  }

  lemma {:induction false} WalkIs(t: Table, pid: Pid, n: nat)
    requires n > 0 ==> Up(t, pid, n - 1).Some?
    ensures |Walk(t, pid, n)| == n
    ensures forall k: nat :: k < n ==> Up(t, pid, k) == Some(Walk(t, pid, n)[k])
  {
    if n > 0 {
      if n > 1 {
        UpSomeBelow(t, pid, n - 2, n - 1);
        WalkIs(t, pid, n - 1);
      }
    }
  }

  lemma {:induction false} DistinctFits(s: seq<Pid>, universe: set<Pid>)
    requires forall x :: x in s ==> x in universe
    requires forall i, j :: 0 <= i < j < |s| ==> s[i] != s[j]
    ensures |s| <= |universe|
  {
    if s != [] {
      var last := s[|s| - 1];
      var front := s[..|s| - 1];
      forall x | x in front ensures x in universe - {last} {
        assert x in s;
      }
      DistinctFits(front, universe - {last});
    }
  }

  /** More steps than processes: the walk has met some process twice. */
  lemma LongWalkRepeats(t: Table, pid: Pid, n: nat) returns (i: nat, j: nat)
    requires n > |t| && Up(t, pid, n).Some?
    ensures i < j < n && Up(t, pid, i).Some? && Up(t, pid, i) == Up(t, pid, j)
  {
    UpSomeBelow(t, pid, n - 1, n);
    var walk := Walk(t, pid, n);
    WalkIs(t, pid, n);
    forall x | x in walk ensures x in t.Keys {
      var k: nat :| k < n && walk[k] == x;
      UpSomeBelow(t, pid, k + 1, n);
    }
    if forall i, j :: 0 <= i < j < |walk| ==> walk[i] != walk[j] {
      DistinctFits(walk, t.Keys);
      assert false;
    }
    i, j :| 0 <= i < j < |walk| && walk[i] == walk[j];
  }

  /** Whatever can be met by walking up at all is met within as many steps as there are processes. */
  lemma {:induction false} ReachedEarly(t: Table, pid: Pid, from: nat, goal: Pid -> bool, k: nat)
    requires from <= 1 && IsFirst(t, pid, from, goal, k)
    ensures k <= |t|
  {
    if k > |t| {
      var i, j := LongWalkRepeats(t, pid, k);
      UpAdds(t, pid, i, k - j);
      UpAdds(t, pid, j, k - j);
    }
  }

  /** The bounded walk is exact, on cyclic tables and on roots the snapshot never saw. */
  method DescendantDepth(t: Table, root: Pid, pid: Pid) returns (r: Option<nat>)
    ensures r == Depth(t, root, pid)
  {
    ghost var goal: Pid -> bool := (x: Pid) => x == root;
    var current, depth := pid, 0;
    while current != root
      invariant Up(t, pid, depth) == Some(current)
      invariant depth <= |t|
      invariant forall j: nat :: j < depth ==> Up(t, pid, j) != Some(root)
      decreases |t| - depth
    {
      var parent := ParentOf(t, current);
      if parent.None? {
        forall k: nat ensures Up(t, pid, k) != Some(root) {
          if k > depth {
            assert Up(t, pid, depth + 1).None?;
            UpStaysNone(t, pid, depth + 1, k);
          }
        }
        return None;
      }
      current := parent.value;
      depth := depth + 1;
      if depth > |t| {
        forall k: nat ensures Up(t, pid, k) != Some(root) {
          if Up(t, pid, k) == Some(root) {
            FirstExists(t, pid, 0, goal, k);
            var first: nat :| IsFirst(t, pid, 0, goal, first);
            ReachedEarly(t, pid, 0, goal, first);
          }
        }
        return None;
      }
    }
    assert IsFirst(t, pid, 0, goal, depth);
    return Some(depth);
  }

  /** The pids above `pid` in walking order, at most as many as there are processes. */
  method AncestorsOf(t: Table, pid: Pid) returns (r: seq<Pid>)
    ensures forall k: nat :: k < |r| ==> Up(t, pid, k + 1) == Some(r[k])
    ensures |r| <= |t|
    ensures |r| < |t| ==> Up(t, pid, |r| + 1).None?
  {
    r := [];
    var current := pid;
    while true
      invariant Up(t, pid, |r|) == Some(current)
      invariant forall k: nat :: k < |r| ==> Up(t, pid, k + 1) == Some(r[k])
      invariant |r| <= |t|
      decreases |t| - |r|
    {
      var parent := ParentOf(t, current);
      if parent.None? || |r| + 1 > |t| {
        return;
      }
      current := parent.value;
      r := r + [current];
    }
  }

  /** A list as `AncestorsOf` returns it holds exactly the pids above, however many hops away. */
  lemma AncestorsAreExact(t: Table, pid: Pid, r: seq<Pid>, x: Pid)
    requires forall k: nat :: k < |r| ==> Up(t, pid, k + 1) == Some(r[k])
    requires |r| <= |t| && (|r| < |t| ==> Up(t, pid, |r| + 1).None?)
    ensures x in r <==> Above(t, pid, x)
  {
    if x in r {
      var k: nat :| k < |r| && r[k] == x;
      assert Up(t, pid, k + 1) == Some(x);
    }
    if Above(t, pid, x) {
      var goal: Pid -> bool := (y: Pid) => y == x;
      var k: nat :| k >= 1 && Up(t, pid, k) == Some(x);
      FirstExists(t, pid, 1, goal, k);
      var first: nat :| IsFirst(t, pid, 1, goal, first);
      ReachedEarly(t, pid, 1, goal, first);
      if first > |r| {
        UpStaysNone(t, pid, |r| + 1, first);
      }
      assert r[first - 1] == x;
    }
  }

  /** The p2pmux node a process runs under: the nearest one above it, if any. */
  ghost function EnclosingNode(t: Table, known: set<Pid>, pid: Pid): Option<Pid> {
    var first := FirstUp(t, pid, 1, (x: Pid) => IsNode(t, known, x));
    if first.None? then None else Up(t, pid, first.value)
  }

  predicate IsNode(t: Table, known: set<Pid>, pid: Pid) {
    pid in known || (pid in t && t[pid].isNode)
  }

  method EnclosingNodeAmong(t: Table, known: set<Pid>, pid: Pid) returns (r: Option<Pid>)
    ensures r == EnclosingNode(t, known, pid)
  {
    ghost var goal: Pid -> bool := (x: Pid) => IsNode(t, known, x);
    var above := AncestorsOf(t, pid);
    for i := 0 to |above|
      invariant forall k: nat :: k < i ==> !IsNode(t, known, above[k])
    {
      if IsNode(t, known, above[i]) {
        assert IsFirst(t, pid, 1, goal, i + 1) by {
          forall j: nat | 1 <= j < i + 1 && Up(t, pid, j).Some? ensures !goal(Up(t, pid, j).value) {
            assert Up(t, pid, j) == Some(above[j - 1]);
          }
        }
        FirstIsUnique(t, pid, 1, goal, i + 1);
        return Some(above[i]);
      }
    }
    if Reaches(t, pid, 1, goal) {
      var k: nat :| k >= 1 && Up(t, pid, k).Some? && goal(Up(t, pid, k).value);
      AncestorsAreExact(t, pid, above, Up(t, pid, k).value);
      assert false;
    }
    return None;
  }

  lemma FirstIsUnique(t: Table, pid: Pid, from: nat, goal: Pid -> bool, k: nat)
    requires IsFirst(t, pid, from, goal, k)
    ensures FirstUp(t, pid, from, goal) == Some(k)
  {
    var first := FirstUp(t, pid, from, goal).value;
    if first < k || k < first {
      assert false;
    }
  }
}
