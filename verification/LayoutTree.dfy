/** The binary split tree of one tab (`Node` in src/layout.rs) and what its algorithms preserve. */
module LayoutTree {
  import opened Common

  type PaneId = U64

  const MAX_SPLIT_DEPTH: nat := 4
  const MIN_FIRST_SHARE_BPS: U16 := 1
  const MAX_FIRST_SHARE_BPS: U16 := 9_999
  const DEFAULT_FIRST_SHARE_BPS: U16 := 5_000

  datatype Axis = LeftRight | TopBottom

  datatype Node =
    | Leaf(paneId: PaneId)
    | Split(axis: Axis, share: U16, first: Node, second: Node)

  // ---------------------------------------------------------------------------
  // The source's algorithms
  // ---------------------------------------------------------------------------

  predicate ContainsLeaf(n: Node, wanted: PaneId) {
    match n
    case Leaf(id) => id == wanted
    case Split(_, _, first, second) => ContainsLeaf(first, wanted) || ContainsLeaf(second, wanted)
  }

  function LeafDepth(n: Node, wanted: PaneId): (r: Option<nat>)
    ensures r.Some? <==> ContainsLeaf(n, wanted)
  {
    match n
    case Leaf(id) => if id == wanted then Some(0) else None
    case Split(_, _, first, second) =>
      var inner := if LeafDepth(first, wanted).Some? then LeafDepth(first, wanted)
                   else LeafDepth(second, wanted);
      if inner.Some? then Some(inner.value + 1) else None
  }

  function PaneIds(n: Node): seq<PaneId> {
    match n
    case Leaf(id) => [id]
    case Split(_, _, first, second) => PaneIds(first) + PaneIds(second)
  }

  predicate ValidShare(share: U16) {
    MIN_FIRST_SHARE_BPS <= share <= MAX_FIRST_SHARE_BPS
  }

  predicate HasValidRatios(n: Node) {
    match n
    case Leaf(_) => true
    case Split(_, share, first, second) =>
      ValidShare(share) && HasValidRatios(first) && HasValidRatios(second)
  }

  /** The ids met so far once `n` has been walked, or `None` when the walk is refused. */
  function CollectPaneIds(n: Node, depth: nat, seen: set<PaneId>): Option<set<PaneId>> {
    match n
    case Leaf(id) => if id != 0 && id !in seen then Some(seen + {id}) else None
    case Split(_, _, first, second) =>
      if depth < MAX_SPLIT_DEPTH then
        match CollectPaneIds(first, depth + 1, seen)
        case None => None
        case Some(met) => CollectPaneIds(second, depth + 1, met)
      else None
  }

  /** The tree with the first leaf `wanted` replaced, and whether there was one. */
  function ReplaceLeaf(n: Node, wanted: PaneId, replacement: Node): (Node, bool) {
    match n
    case Leaf(id) => if id == wanted then (replacement, true) else (n, false)
    case Split(_, _, first, second) =>
      var (newFirst, done) := ReplaceLeaf(first, wanted, replacement);
      if done then (n.(first := newFirst), true)
      else
        var (newSecond, doneSecond) := ReplaceLeaf(second, wanted, replacement);
        (n.(second := newSecond), doneSecond)
  }

  function SetNearestSplitRatio(n: Node, wanted: PaneId, axis: Axis, share: U16): (Node, bool) {
    match n
    case Leaf(_) => (n, false)
    case Split(splitAxis, _, first, second) =>
      var inFirst := SetNearestSplitRatio(first, wanted, axis, share);
      var inSecond := SetNearestSplitRatio(second, wanted, axis, share);
      if ContainsLeaf(first, wanted) && inFirst.1 then (n.(first := inFirst.0), true)
      else if ContainsLeaf(second, wanted) && inSecond.1 then (n.(second := inSecond.0), true)
      else if splitAxis == axis && ContainsLeaf(n, wanted) then (n.(share := share), true)
      else (n, false)
  }

  function RemoveLeaf(n: Node, wanted: PaneId): Option<Node> {
    match n
    case Leaf(id) => if id != wanted then Some(n) else None
    case Split(axis, share, first, second) =>
      if ContainsLeaf(first, wanted) then
        match RemoveLeaf(first, wanted)
        case Some(kept) => Some(Split(axis, share, kept, second))
        case None => Some(second)
      else if ContainsLeaf(second, wanted) then
        match RemoveLeaf(second, wanted)
        case Some(kept) => Some(Split(axis, share, first, kept))
        case None => Some(first)
      else Some(n)
  }

  /** `remove_member`'s inner loop: one removal after another, stopping at an empty tree. */
  function RemoveLeaves(root: Option<Node>, ids: seq<PaneId>): Option<Node>
    decreases |ids|
  {
    if ids == [] || root.None? then root
    else RemoveLeaves(RemoveLeaf(root.value, ids[0]), ids[1..])
  }

  // ---------------------------------------------------------------------------
  // Vocabulary of the specification
  // ---------------------------------------------------------------------------

  /** How many leaves of the tree carry the id. */
  function Count(n: Node, id: PaneId): nat {
    match n
    case Leaf(own) => if own == id then 1 else 0
    case Split(_, _, first, second) => Count(first, id) + Count(second, id)
  }

  function CountIn(root: Option<Node>, id: PaneId): nat {
    if root.None? then 0 else Count(root.value, id)
  }

  ghost predicate DistinctLeaves(n: Node) {
    forall id :: Count(n, id) <= 1
  }

  function Height(n: Node): nat {
    match n
    case Leaf(_) => 0
    case Split(_, _, first, second) => 1 + Max(Height(first), Height(second))
  }

  /** One structural pass that keeps the leaves outside `gone` and collapses what empties. */
  function Prune(n: Node, gone: set<PaneId>): Option<Node> {
    match n
    case Leaf(id) => if id in gone then None else Some(n)
    case Split(axis, share, first, second) =>
      var (f, s) := (Prune(first, gone), Prune(second, gone));
      if f.None? then s
      else if s.None? then f
      else Some(Split(axis, share, f.value, s.value))
  }

  function Without(ids: seq<PaneId>, gone: set<PaneId>): seq<PaneId> {
    if ids == [] then []
    else (if ids[0] in gone then [] else [ids[0]]) + Without(ids[1..], gone)
  }

  /** The divider (axis and share) of the split at which the ways to `a` and `b` part. */
  function Divider(n: Node, a: PaneId, b: PaneId): Option<(Axis, U16)> {
    match n
    case Leaf(_) => None
    case Split(axis, share, first, second) =>
      if ContainsLeaf(first, a) && ContainsLeaf(first, b) then Divider(first, a, b)
      else if ContainsLeaf(second, a) && ContainsLeaf(second, b) then Divider(second, a, b)
      else Some((axis, share))
  }

  // ---------------------------------------------------------------------------
  // Leaves
  // ---------------------------------------------------------------------------

  lemma {:induction false} CountsMembers(n: Node, id: PaneId)
    ensures ContainsLeaf(n, id) <==> Count(n, id) > 0
    ensures multiset(PaneIds(n))[id] == Count(n, id)
    ensures id in PaneIds(n) <==> ContainsLeaf(n, id)
  {
    match n
    case Leaf(_) =>
    case Split(_, _, first, second) =>
      CountsMembers(first, id);
      CountsMembers(second, id);
      assert multiset(PaneIds(n)) == multiset(PaneIds(first)) + multiset(PaneIds(second));
  }

  lemma {:induction false} LeavesOfASplit(n: Node)
    ensures |PaneIds(n)| >= 1
    ensures n.Split? <==> |PaneIds(n)| > 1
  {
    match n
    case Leaf(_) =>
    case Split(_, _, first, second) =>
      LeavesOfASplit(first);
      LeavesOfASplit(second);
  }

  lemma DistinctHalves(n: Node)
    requires n.Split?
    ensures DistinctLeaves(n) <==>
            && DistinctLeaves(n.first) && DistinctLeaves(n.second)
            && (forall id :: id in PaneIds(n.first) ==> id !in PaneIds(n.second))
    ensures DistinctLeaves(n) ==> forall id :: ContainsLeaf(n.first, id) ==> !ContainsLeaf(n.second, id)
  {
    forall id
      ensures id in PaneIds(n.first) <==> ContainsLeaf(n.first, id)
      ensures ContainsLeaf(n.first, id) <==> Count(n.first, id) > 0
      ensures id in PaneIds(n.second) <==> ContainsLeaf(n.second, id)
      ensures ContainsLeaf(n.second, id) <==> Count(n.second, id) > 0
      ensures Count(n, id) == Count(n.first, id) + Count(n.second, id)
    {
      CountsMembers(n.first, id);
      CountsMembers(n.second, id);
    }
    if DistinctLeaves(n) {
      assert forall id :: Count(n.first, id) <= Count(n, id) <= 1;
      assert forall id :: Count(n.second, id) <= Count(n, id) <= 1;
      assert forall id :: Count(n, id) <= 1 && (id in PaneIds(n.first) ==> id !in PaneIds(n.second));
    } else {
      var id :| Count(n, id) > 1;
      assert Count(n.first, id) + Count(n.second, id) > 1;
    }
  }

  ghost predicate Collectible(n: Node, seen: set<PaneId>) {
    DistinctLeaves(n) && forall id :: id in PaneIds(n) ==> id != 0 && id !in seen
  }

  lemma CollectibleHalves(n: Node, seen: set<PaneId>, met: set<PaneId>)
    requires n.Split?
    requires Collectible(n.first, seen) ==> forall id :: id in met <==> id in seen || id in PaneIds(n.first)
    ensures Collectible(n, seen) <==> Collectible(n.first, seen) && Collectible(n.second, met)
  {
    DistinctHalves(n);
    assert forall id :: id in PaneIds(n) <==> id in PaneIds(n.first) || id in PaneIds(n.second);
    if Collectible(n.first, seen) && Collectible(n.second, met) {
      assert forall id :: id in PaneIds(n.first) ==> id in met;
    }
  }

  /** What the walk of `validate_snapshot` accepts, exactly. */
  lemma {:induction false} CollectAcceptsExactly(n: Node, depth: nat, seen: set<PaneId>)
    requires depth <= MAX_SPLIT_DEPTH
    ensures CollectPaneIds(n, depth, seen).Some? <==> depth + Height(n) <= MAX_SPLIT_DEPTH && Collectible(n, seen)
    ensures CollectPaneIds(n, depth, seen).Some? ==>
              forall id :: id in CollectPaneIds(n, depth, seen).value <==> id in seen || id in PaneIds(n)
  {
    match n
    case Leaf(_) =>
    case Split(_, _, first, second) =>
      if depth < MAX_SPLIT_DEPTH {
        CollectAcceptsExactly(first, depth + 1, seen);
        var walk := CollectPaneIds(first, depth + 1, seen);
        var met := seen + set id | id in PaneIds(first);
        CollectibleHalves(n, seen, met);
        if walk.Some? {
          assert walk.value == met;
          CollectAcceptsExactly(second, depth + 1, met);
        }
      }
  }

  // ---------------------------------------------------------------------------
  // Removal
  // ---------------------------------------------------------------------------

  /** Removing takes one occurrence, and a tree without the leaf is returned as it is. */
  lemma {:induction false} RemoveLeafTakesOne(n: Node, wanted: PaneId)
    ensures RemoveLeaf(n, wanted).None? <==> n == Leaf(wanted)
    ensures !ContainsLeaf(n, wanted) ==> RemoveLeaf(n, wanted) == Some(n)
    ensures forall id :: CountIn(RemoveLeaf(n, wanted), id)
                         == Count(n, id) - (if id == wanted && ContainsLeaf(n, wanted) then 1 else 0)
  {
    match n
    case Leaf(_) =>
    case Split(_, _, first, second) =>
      RemoveLeafTakesOne(first, wanted);
      RemoveLeafTakesOne(second, wanted);
  }

  lemma {:induction false} RemoveLeafStaysValid(n: Node, wanted: PaneId)
    requires RemoveLeaf(n, wanted).Some?
    ensures HasValidRatios(n) ==> HasValidRatios(RemoveLeaf(n, wanted).value)
    ensures Height(RemoveLeaf(n, wanted).value) <= Height(n)
  {
    match n
    case Leaf(_) =>
    case Split(_, _, first, second) =>
      if RemoveLeaf(first, wanted).Some? { RemoveLeafStaysValid(first, wanted); }
      if RemoveLeaf(second, wanted).Some? { RemoveLeafStaysValid(second, wanted); }
  }

  /** Pruning an id the tree does not hold changes nothing. */
  lemma {:induction false} PruneAbsent(n: Node, gone: set<PaneId>)
    requires forall id :: id in gone ==> !ContainsLeaf(n, id)
    ensures Prune(n, gone) == Some(n)
  {
    match n
    case Leaf(own) => assert ContainsLeaf(n, own);
    case Split(_, _, first, second) =>
      PruneAbsent(first, gone);
      PruneAbsent(second, gone);
  }

  /** With distinct leaves a removal is the structural pruning of one id. */
  lemma {:induction false} RemoveLeafIsPrune(n: Node, wanted: PaneId)
    requires DistinctLeaves(n)
    ensures RemoveLeaf(n, wanted) == Prune(n, {wanted})
  {
    match n
    case Leaf(_) =>
    case Split(_, _, first, second) =>
      DistinctHalves(n);
      RemoveLeafIsPrune(first, wanted);
      RemoveLeafIsPrune(second, wanted);
      if ContainsLeaf(first, wanted) {
        PruneAbsent(second, {wanted});
        assert Prune(second, {wanted}) == Some(second);
      } else if ContainsLeaf(second, wanted) {
        PruneAbsent(first, {wanted});
        assert Prune(first, {wanted}) == Some(first);
      } else {
        PruneAbsent(n, {wanted});
      }
  }

  /** Pruning twice is pruning the union, so the order of removals cannot matter. */
  lemma {:induction false} PruneComposes(n: Node, a: set<PaneId>, b: set<PaneId>)
    ensures Prune(n, a + b) == (if Prune(n, a).None? then None else Prune(Prune(n, a).value, b))
  {
    match n
    case Leaf(_) =>
    case Split(_, _, first, second) =>
      PruneComposes(first, a, b);
      PruneComposes(second, a, b);
  }

  /** Removing leaves one at a time, in any order, is one structural pruning of their set. */
  lemma {:induction false} RemovingInAnyOrderIsPruning(n: Node, ids: seq<PaneId>, gone: set<PaneId>)
    requires DistinctLeaves(n)
    requires forall id :: id in ids <==> id in gone
    ensures RemoveLeaves(Some(n), ids) == Prune(n, gone)
    decreases |ids|
  {
    if ids == [] {
      PruneAbsent(n, gone);
    } else {
      var rest := set id | id in ids[1..];
      assert gone == {ids[0]} + rest;
      RemoveLeafIsPrune(n, ids[0]);
      PruneComposes(n, {ids[0]}, rest);
      var left := RemoveLeaf(n, ids[0]);
      assert RemoveLeaves(Some(n), ids) == RemoveLeaves(left, ids[1..]);
      if left.Some? {
        RemoveLeafTakesOne(n, ids[0]);
        assert forall id :: Count(left.value, id) == CountIn(left, id) <= Count(n, id);
        RemovingInAnyOrderIsPruning(left.value, ids[1..], rest);
      }
    }
  }

  lemma {:induction false} WithoutConcat(a: seq<PaneId>, b: seq<PaneId>, gone: set<PaneId>)
    ensures Without(a + b, gone) == Without(a, gone) + Without(b, gone)
  {
    if a == [] {
      assert a + b == b;
    } else {
      assert (a + b)[1..] == a[1..] + b;
      WithoutConcat(a[1..], b, gone);
    }
  }

  /** The in-order leaves after a pruning are the original ones, filtered. */
  lemma {:induction false} PruneFiltersTheLeaves(n: Node, gone: set<PaneId>)
    ensures (if Prune(n, gone).None? then [] else PaneIds(Prune(n, gone).value)) == Without(PaneIds(n), gone)
  {
    match n
    case Leaf(_) =>
    case Split(_, _, first, second) =>
      PruneFiltersTheLeaves(first, gone);
      PruneFiltersTheLeaves(second, gone);
      WithoutConcat(PaneIds(first), PaneIds(second), gone);
  }

  /** Occurrences after a pruning: unchanged outside `gone`, none inside. */
  lemma {:induction false} PruneCounts(n: Node, gone: set<PaneId>, id: PaneId)
    ensures CountIn(Prune(n, gone), id) == if id in gone then 0 else Count(n, id)
    ensures id !in gone ==> (ContainsLeaf(n, id) <==> Prune(n, gone).Some? && ContainsLeaf(Prune(n, gone).value, id))
  {
    match n
    case Leaf(_) =>
    case Split(_, _, first, second) =>
      PruneCounts(first, gone, id);
      PruneCounts(second, gone, id);
  }

  lemma {:induction false} PruneStaysValid(n: Node, gone: set<PaneId>)
    requires Prune(n, gone).Some?
    ensures Height(Prune(n, gone).value) <= Height(n)
    ensures |PaneIds(Prune(n, gone).value)| <= |PaneIds(n)|
    ensures HasValidRatios(n) ==> HasValidRatios(Prune(n, gone).value)
  {
    match n
    case Leaf(_) =>
    case Split(_, _, first, second) =>
      if Prune(first, gone).Some? { PruneStaysValid(first, gone); }
      if Prune(second, gone).Some? { PruneStaysValid(second, gone); }
  }

  /** No surviving leaf gets deeper. */
  lemma {:induction false} PruneNeverDeepens(n: Node, gone: set<PaneId>, id: PaneId)
    requires ContainsLeaf(n, id) && id !in gone
    ensures Prune(n, gone).Some? && ContainsLeaf(Prune(n, gone).value, id)
    ensures LeafDepth(Prune(n, gone).value, id).value <= LeafDepth(n, id).value
  {
    match n
    case Leaf(_) =>
    case Split(_, _, first, second) =>
      PruneCounts(first, gone, id);
      PruneCounts(second, gone, id);
      if ContainsLeaf(first, id) {
        PruneNeverDeepens(first, gone, id);
      } else {
        PruneNeverDeepens(second, gone, id);
      }
  }

  /** Two surviving panes are still parted by the divider that parted them before. */
  lemma {:induction false} PruneKeepsDividers(n: Node, gone: set<PaneId>, a: PaneId, b: PaneId)
    requires DistinctLeaves(n)
    requires ContainsLeaf(n, a) && ContainsLeaf(n, b) && a != b
    requires a !in gone && b !in gone
    ensures Divider(n, a, b).Some?
    ensures Prune(n, gone).Some? && Divider(Prune(n, gone).value, a, b) == Divider(n, a, b)
  {
    match n
    case Leaf(_) =>
    case Split(_, _, first, second) =>
      DistinctHalves(n);
      PruneCounts(first, gone, a);
      PruneCounts(first, gone, b);
      PruneCounts(second, gone, a);
      PruneCounts(second, gone, b);
      if ContainsLeaf(first, a) && ContainsLeaf(first, b) {
        PruneKeepsDividers(first, gone, a, b);
      } else if ContainsLeaf(second, a) && ContainsLeaf(second, b) {
        PruneKeepsDividers(second, gone, a, b);
      }
  }

  // ---------------------------------------------------------------------------
  // Splitting
  // ---------------------------------------------------------------------------

  lemma {:induction false} ReplaceLeafFinds(n: Node, wanted: PaneId, replacement: Node)
    ensures ReplaceLeaf(n, wanted, replacement).1 <==> ContainsLeaf(n, wanted)
    ensures !ContainsLeaf(n, wanted) ==> ReplaceLeaf(n, wanted, replacement).0 == n
  {
    match n
    case Leaf(_) =>
    case Split(_, _, first, second) =>
      ReplaceLeafFinds(first, wanted, replacement);
      ReplaceLeafFinds(second, wanted, replacement);
  }

  /** One occurrence of `wanted` gives way to the leaves of the replacement. */
  lemma {:induction false} ReplaceLeafSwapsOne(n: Node, wanted: PaneId, replacement: Node, id: PaneId)
    requires ContainsLeaf(n, wanted)
    ensures Count(ReplaceLeaf(n, wanted, replacement).0, id)
            == Count(n, id) + Count(replacement, id) - (if id == wanted then 1 else 0)
  {
    match n
    case Leaf(_) =>
    case Split(_, _, first, second) =>
      ReplaceLeafFinds(first, wanted, replacement);
      if ContainsLeaf(first, wanted) {
        ReplaceLeafSwapsOne(first, wanted, replacement, id);
      } else {
        ReplaceLeafSwapsOne(second, wanted, replacement, id);
      }
  }

  /** The replacement happens in the half that is found first to hold the leaf. */
  lemma ReplaceLeafInHalf(n: Node, wanted: PaneId, replacement: Node)
    requires n.Split? && ContainsLeaf(n, wanted)
    ensures var (inFirst, root) := (ContainsLeaf(n.first, wanted), ReplaceLeaf(n, wanted, replacement).0);
            && root == (if inFirst then n.(first := ReplaceLeaf(n.first, wanted, replacement).0)
                        else n.(second := ReplaceLeaf(n.second, wanted, replacement).0))
            && LeafDepth(n, wanted).value
               == 1 + LeafDepth(if inFirst then n.first else n.second, wanted).value
  {
    ReplaceLeafFinds(n.first, wanted, replacement);
  }

  lemma HeightOfSplit(n: Node)
    requires n.Split?
    ensures Height(n.first) < Height(n) && Height(n.second) < Height(n)
    ensures Height(n) == 1 + Height(n.first) || Height(n) == 1 + Height(n.second)
  {
  }

  /** A bound on the half that changed is a bound on the tree, one higher. */
  lemma HeightThroughHalf(n: Node, changed: Node, inFirst: bool, bound: nat)
    requires n.Split? && changed.Split?
    requires if inFirst then changed.second == n.second && Height(changed.first) <= Max(Height(n.first), bound)
             else changed.first == n.first && Height(changed.second) <= Max(Height(n.second), bound)
    ensures Height(changed) <= Max(Height(n), bound + 1)
  {
    HeightOfSplit(n);
    HeightOfSplit(changed);
  }

  lemma {:induction false} ReplaceLeafBoundsHeight(n: Node, wanted: PaneId, replacement: Node)
    requires ContainsLeaf(n, wanted)
    ensures Height(ReplaceLeaf(n, wanted, replacement).0)
            <= Max(Height(n), LeafDepth(n, wanted).value + Height(replacement))
  {
    if n.Split? {
      var half := if ContainsLeaf(n.first, wanted) then n.first else n.second;
      ReplaceLeafInHalf(n, wanted, replacement);
      ReplaceLeafBoundsHeight(half, wanted, replacement);
      HeightThroughHalf(n, ReplaceLeaf(n, wanted, replacement).0, ContainsLeaf(n.first, wanted),
                        LeafDepth(half, wanted).value + Height(replacement));
    }
  }

  lemma {:induction false} ReplaceLeafKeepsRatios(n: Node, wanted: PaneId, replacement: Node)
    requires HasValidRatios(n) && HasValidRatios(replacement)
    ensures HasValidRatios(ReplaceLeaf(n, wanted, replacement).0)
  {
    match n
    case Leaf(_) =>
    case Split(_, _, first, second) =>
      ReplaceLeafKeepsRatios(first, wanted, replacement);
      ReplaceLeafKeepsRatios(second, wanted, replacement);
  }

  /** Splitting a leaf at depth `d` cannot make the tree taller than `d` plus the new split. */
  lemma ReplaceLeafStaysValid(n: Node, wanted: PaneId, replacement: Node)
    requires ContainsLeaf(n, wanted)
    ensures Height(ReplaceLeaf(n, wanted, replacement).0)
            <= Max(Height(n), LeafDepth(n, wanted).value + Height(replacement))
    ensures HasValidRatios(n) && HasValidRatios(replacement) ==>
              HasValidRatios(ReplaceLeaf(n, wanted, replacement).0)
  {
    ReplaceLeafBoundsHeight(n, wanted, replacement);
    if HasValidRatios(n) && HasValidRatios(replacement) {
      ReplaceLeafKeepsRatios(n, wanted, replacement);
    }
  }

  lemma FallsInFront(
    front: seq<PaneId>, back: seq<PaneId>, pre: seq<PaneId>, x: PaneId, suf: seq<PaneId>, y: seq<PaneId>)
    requires front + back == pre + [x] + suf && |pre| < |front|
    ensures front == pre + [x] + front[|pre| + 1..]
    ensures pre + y + suf == (pre + y + front[|pre| + 1..]) + back
  {
    assert front == (pre + [x] + suf)[..|front|];
    assert suf == (front + back)[|pre| + 1..] == front[|pre| + 1..] + back;
  }

  lemma FallsInBack(
    front: seq<PaneId>, back: seq<PaneId>, pre: seq<PaneId>, x: PaneId, suf: seq<PaneId>, y: seq<PaneId>)
    requires front + back == pre + [x] + suf && |front| <= |pre|
    ensures pre == front + pre[|front|..]
    ensures back == pre[|front|..] + [x] + suf
    ensures pre + y + suf == front + (pre[|front|..] + y + suf)
  {
    assert pre == (front + back)[..|pre|];
    assert back == (pre + [x] + suf)[|front|..];
  }

  /** The replacement stands exactly where the leaf stood in reading order. */
  lemma {:induction false} ReplaceLeafInPlace(
    n: Node, wanted: PaneId, replacement: Node, pre: seq<PaneId>, suf: seq<PaneId>)
    requires PaneIds(n) == pre + [wanted] + suf && wanted !in pre
    ensures PaneIds(ReplaceLeaf(n, wanted, replacement).0) == pre + PaneIds(replacement) + suf
  {
    var y := PaneIds(replacement);
    if n.Leaf? {
      assert |pre| + 1 + |suf| == |PaneIds(n)| == 1;
      assert PaneIds(n)[0] == wanted;
      assert pre + y + suf == y;
    } else {
      var front, back := PaneIds(n.first), PaneIds(n.second);
      ReplaceLeafFinds(n.first, wanted, replacement);
      CountsMembers(n.first, wanted);
      if |pre| < |front| {
        FallsInFront(front, back, pre, wanted, suf, y);
        assert front[|pre|] == wanted;
        ReplaceLeafInPlace(n.first, wanted, replacement, pre, front[|pre| + 1..]);
      } else {
        FallsInBack(front, back, pre, wanted, suf, y);
        ReplaceLeafInPlace(n.second, wanted, replacement, pre[|front|..], suf);
      }
    }
  }

  /** Opening a pane and closing it again gives back the tree, shares and all. */
  lemma {:induction false} SplitThenRemoveUndoes(n: Node, wanted: PaneId, added: PaneId, replacement: Node)
    requires ContainsLeaf(n, wanted) && !ContainsLeaf(n, added)
    requires replacement.Split?
    requires (replacement.first == Leaf(wanted) && replacement.second == Leaf(added))
             || (replacement.first == Leaf(added) && replacement.second == Leaf(wanted))
    ensures ContainsLeaf(ReplaceLeaf(n, wanted, replacement).0, added)
    ensures RemoveLeaf(ReplaceLeaf(n, wanted, replacement).0, added) == Some(n)
  {
    match n
    case Leaf(_) =>
    case Split(_, _, first, second) =>
      ReplaceLeafFinds(first, wanted, replacement);
      if ContainsLeaf(first, wanted) {
        SplitThenRemoveUndoes(first, wanted, added, replacement);
      } else {
        SplitThenRemoveUndoes(second, wanted, added, replacement);
      }
  }

  // ---------------------------------------------------------------------------
  // Ratios
  // ---------------------------------------------------------------------------

  /** The way from the root to a leaf: `true` goes to `first`. */
  function PathTo(n: Node, wanted: PaneId): (path: seq<bool>)
    requires ContainsLeaf(n, wanted)
    ensures At(n, path) == Some(Leaf(wanted))
  {
    match n
    case Leaf(_) => []
    case Split(_, _, first, second) =>
      if ContainsLeaf(first, wanted) then [true] + PathTo(first, wanted)
      else [false] + PathTo(second, wanted)
  }

  function At(n: Node, path: seq<bool>): Option<Node> {
    if path == [] then Some(n)
    else if n.Leaf? then None
    else At(if path[0] then n.first else n.second, path[1..])
  }

  function WithShareAt(n: Node, path: seq<bool>, share: U16): Node {
    if n.Leaf? then n
    else if path == [] then n.(share := share)
    else if path[0] then n.(first := WithShareAt(n.first, path[1..], share))
    else n.(second := WithShareAt(n.second, path[1..], share))
  }

  ghost predicate SplitsOnAxis(n: Node, path: seq<bool>, axis: Axis) {
    At(n, path).Some? && At(n, path).value.Split? && At(n, path).value.axis == axis
  }

  /** `k` is the deepest step of the way to `wanted` whose split has the axis. */
  ghost predicate NearestOnPath(n: Node, wanted: PaneId, axis: Axis, k: nat)
    requires ContainsLeaf(n, wanted)
  {
    var path := PathTo(n, wanted);
    && k < |path|
    && SplitsOnAxis(n, path[..k], axis)
    && (forall j :: k < j < |path| ==> !SplitsOnAxis(n, path[..j], axis))
  }

  /** The half on the way to the leaf. */
  function Towards(n: Node, wanted: PaneId): (next: Node)
    requires n.Split? && ContainsLeaf(n, wanted)
    ensures ContainsLeaf(next, wanted)
  {
    if ContainsLeaf(n.first, wanted) then n.first else n.second
  }

  lemma PathStep(n: Node, wanted: PaneId, axis: Axis)
    requires n.Split? && ContainsLeaf(n, wanted)
    ensures |PathTo(n, wanted)| > 0
    ensures var (path, next) := (PathTo(n, wanted), Towards(n, wanted));
            && (path[0] <==> ContainsLeaf(n.first, wanted)) && PathTo(next, wanted) == path[1..]
            && (forall k | 0 < k <= |path| ::
                  SplitsOnAxis(n, path[..k], axis) <==> SplitsOnAxis(next, path[1..][..k - 1], axis))
  {
    var path := PathTo(n, wanted);
    forall k | 0 < k <= |path|
      ensures SplitsOnAxis(n, path[..k], axis) <==> SplitsOnAxis(Towards(n, wanted), path[1..][..k - 1], axis)
    {
      assert path[..k][1..] == path[1..][..k - 1];
    }
  }

  /** Below the root, the nearest split of the tree is the nearest split of the half that holds the leaf. */
  lemma NearestBelow(n: Node, wanted: PaneId, axis: Axis, k: nat)
    requires n.Split? && ContainsLeaf(n, wanted) && k > 0
    ensures NearestOnPath(n, wanted, axis, k) <==> NearestOnPath(Towards(n, wanted), wanted, axis, k - 1)
  {
    var path, next := PathTo(n, wanted), Towards(n, wanted);
    PathStep(n, wanted, axis);
    if NearestOnPath(next, wanted, axis, k - 1) {
      forall j | k < j < |path| ensures !SplitsOnAxis(n, path[..j], axis) {
        assert !SplitsOnAxis(next, path[1..][..j - 1], axis);
      }
    }
    if NearestOnPath(n, wanted, axis, k) {
      forall j | k - 1 < j < |path| - 1 ensures !SplitsOnAxis(next, path[1..][..j], axis) {
        assert !SplitsOnAxis(n, path[..j + 1], axis);
      }
    }
  }

  /** The root is the nearest split when the half has none and it has the axis itself. */
  lemma NearestAtTheRoot(n: Node, wanted: PaneId, axis: Axis)
    requires n.Split? && ContainsLeaf(n, wanted)
    requires forall k: nat :: !NearestOnPath(Towards(n, wanted), wanted, axis, k)
    ensures NearestOnPath(n, wanted, axis, 0) <==> n.axis == axis
  {
    var path, next := PathTo(n, wanted), Towards(n, wanted);
    PathStep(n, wanted, axis);
    assert path[..0] == [];
    NoneNearestMeansNone(next, wanted, axis, |path| - 1);
    forall j | 0 < j < |path| ensures !SplitsOnAxis(n, path[..j], axis) {
      assert !SplitsOnAxis(next, path[1..][..j - 1], axis);
    }
  }

  /** There is a nearest split exactly when the half has one or the root has the axis. */
  lemma NearestExists(n: Node, wanted: PaneId, axis: Axis)
    requires n.Split? && ContainsLeaf(n, wanted)
    ensures (exists k: nat :: NearestOnPath(n, wanted, axis, k))
            <==> n.axis == axis || exists k: nat :: NearestOnPath(Towards(n, wanted), wanted, axis, k)
  {
    if k: nat :| NearestOnPath(Towards(n, wanted), wanted, axis, k) {
      NearestBelow(n, wanted, axis, k + 1);
    } else {
      NearestAtTheRoot(n, wanted, axis);
      forall k: nat | NearestOnPath(n, wanted, axis, k) ensures k == 0 {
        if k > 0 {
          NearestBelow(n, wanted, axis, k);
        }
      }
    }
  }

  lemma {:induction false} RatioIsSetExactly(n: Node, wanted: PaneId, axis: Axis, share: U16)
    requires ContainsLeaf(n, wanted) && DistinctLeaves(n)
    ensures SetNearestSplitRatio(n, wanted, axis, share).1 <==> exists k: nat :: NearestOnPath(n, wanted, axis, k)
    ensures !SetNearestSplitRatio(n, wanted, axis, share).1 ==> SetNearestSplitRatio(n, wanted, axis, share).0 == n
  {
    if n.Split? {
      DistinctHalves(n);
      RatioIsSetExactly(Towards(n, wanted), wanted, axis, share);
      NearestExists(n, wanted, axis);
    }
  }

  lemma {:induction false} RatioIsSetThere(n: Node, wanted: PaneId, axis: Axis, share: U16, k: nat)
    requires ContainsLeaf(n, wanted) && DistinctLeaves(n) && NearestOnPath(n, wanted, axis, k)
    ensures SetNearestSplitRatio(n, wanted, axis, share).0 == WithShareAt(n, PathTo(n, wanted)[..k], share)
  {
    var path, next := PathTo(n, wanted), Towards(n, wanted);
    DistinctHalves(n);
    PathStep(n, wanted, axis);
    RatioIsSetExactly(next, wanted, axis, share);
    if k > 0 {
      NearestBelow(n, wanted, axis, k);
      RatioIsSetThere(next, wanted, axis, share, k - 1);
      assert path[..k][1..] == path[1..][..k - 1];
    } else {
      forall j: nat ensures !NearestOnPath(next, wanted, axis, j) {
        NearestBelow(n, wanted, axis, j + 1);
      }
      assert path[..0] == [];
    }
  }

  /** The ratio changes on the nearest enclosing split with the axis, and nowhere else. */
  lemma RatioGoesToTheNearestSplit(n: Node, wanted: PaneId, axis: Axis, share: U16)
    requires ContainsLeaf(n, wanted) && DistinctLeaves(n)
    ensures SetNearestSplitRatio(n, wanted, axis, share).1 <==> exists k: nat :: NearestOnPath(n, wanted, axis, k)
    ensures forall k: nat :: NearestOnPath(n, wanted, axis, k) ==>
              SetNearestSplitRatio(n, wanted, axis, share).0 == WithShareAt(n, PathTo(n, wanted)[..k], share)
    ensures !SetNearestSplitRatio(n, wanted, axis, share).1 ==> SetNearestSplitRatio(n, wanted, axis, share).0 == n
  {
    RatioIsSetExactly(n, wanted, axis, share);
    forall k: nat | NearestOnPath(n, wanted, axis, k)
      ensures SetNearestSplitRatio(n, wanted, axis, share).0 == WithShareAt(n, PathTo(n, wanted)[..k], share)
    {
      RatioIsSetThere(n, wanted, axis, share, k);
    }
  }

  /** When no step is the nearest one, no step has the axis at all. */
  lemma {:induction false} NoneNearestMeansNone(n: Node, wanted: PaneId, axis: Axis, upTo: nat)
    requires ContainsLeaf(n, wanted) && upTo <= |PathTo(n, wanted)|
    requires forall k: nat :: !NearestOnPath(n, wanted, axis, k)
    requires forall j :: upTo <= j < |PathTo(n, wanted)| ==> !SplitsOnAxis(n, PathTo(n, wanted)[..j], axis)
    ensures forall j :: 0 <= j < |PathTo(n, wanted)| ==> !SplitsOnAxis(n, PathTo(n, wanted)[..j], axis)
    decreases upTo
  {
    if upTo > 0 {
      var k := upTo - 1;
      assert !NearestOnPath(n, wanted, axis, k);
      NoneNearestMeansNone(n, wanted, axis, k);
    }
  }

  /** Setting a ratio moves no leaf and keeps the tree valid. */
  lemma {:induction false} RatioMovesNoLeaf(n: Node, wanted: PaneId, axis: Axis, share: U16)
    requires ValidShare(share)
    ensures PaneIds(SetNearestSplitRatio(n, wanted, axis, share).0) == PaneIds(n)
    ensures forall id :: Count(SetNearestSplitRatio(n, wanted, axis, share).0, id) == Count(n, id)
    ensures Height(SetNearestSplitRatio(n, wanted, axis, share).0) == Height(n)
    ensures HasValidRatios(n) ==> HasValidRatios(SetNearestSplitRatio(n, wanted, axis, share).0)
  {
    match n
    case Leaf(_) =>
    case Split(_, _, first, second) =>
      RatioMovesNoLeaf(first, wanted, axis, share);
      RatioMovesNoLeaf(second, wanted, axis, share);
  }

  /** A tree without the leaf keeps its shares. */
  lemma {:induction false} RatioNeedsTheLeaf(n: Node, wanted: PaneId, axis: Axis, share: U16)
    requires !ContainsLeaf(n, wanted)
    ensures SetNearestSplitRatio(n, wanted, axis, share) == (n, false)
  {
  }

  ghost predicate SharedFairly(n: Node, path: seq<bool>) {
    At(n, path).Some? && At(n, path).value.Split? ==> 1 <= At(n, path).value.share <= 9_999
  }

  /** The validator asks of every split in the tree that neither half gets nothing. */
  lemma {:induction false} RatiosAreValidExactly(n: Node)
    ensures HasValidRatios(n) <==> forall path :: SharedFairly(n, path)
  {
    if n.Split? {
      RatiosAreValidExactly(n.first);
      RatiosAreValidExactly(n.second);
      forall path ensures SharedFairly(n, path) <==>
          if path == [] then ValidShare(n.share) else SharedFairly(if path[0] then n.first else n.second, path[1..]) {
      }
      assert SharedFairly(n, []) <==> ValidShare(n.share);
      forall path ensures SharedFairly(n.first, path) <==> SharedFairly(n, [true] + path) {
        assert ([true] + path)[1..] == path;
      }
      forall path ensures SharedFairly(n.second, path) <==> SharedFairly(n, [false] + path) {
        assert ([false] + path)[1..] == path;
      }
    }
  }
}
