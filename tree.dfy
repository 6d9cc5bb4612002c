/** The shape of the game tree that `draw_tree` walks: a perfect binary tree
    whose nodes are named by path ("Root", "RootL", "RootLR", ...), whose
    depth is a counter of levels still to go, and whose roles alternate
    between the maximizer and the minimizer from one level to the next. */
module GameTree {

  /** The identifier given to the root of every tree. */
  const RootId: string := "Root"

  /** The bounds of the depth widget that feeds the root call. */
  const MinDepth: nat := 1
  const MaxDepth: nat := 10

  /** One call of `draw_tree`: the node's identifier, the number of levels
      still below it, and whether it is a maximizer. */
  datatype Call = Call(id: string, depth: nat, isMax: bool)

  function Pow2(n: nat): (p: nat)
    ensures p >= 1
  {
    if n == 0 then 1 else 2 * Pow2(n - 1)
  }

  /** The role of node `id` in a tree rooted at "Root": the maximizer iff
      its id adds an even number of letters to the root's. */
  predicate IsMaxAt(id: string)
  {
    (|id| - |RootId|) % 2 == 0
  }

  /** A node reached by the recursion is a leaf exactly when no levels remain. */
  predicate IsLeaf(depth: nat)
  {
    depth == 0
  }

  /** The identifier of the left or the right child of node `id`. */
  function ChildId(id: string, right: bool): (c: string)
    ensures |c| == |id| + 1 && c[..|id|] == id
    ensures c[|id|] == (if right then 'R' else 'L')
  {
    id + (if right then "R" else "L")
  }

  /** The identifiers of the leaves below node `id`, `depth` levels down,
      in the left-to-right order in which the recursion reaches them. */
  function LeafIds(depth: nat, id: string): (ids: seq<string>)
    ensures |ids| == Pow2(depth)
    decreases depth
  {
    if IsLeaf(depth) then [id]
    else LeafIds(depth - 1, ChildId(id, false)) + LeafIds(depth - 1, ChildId(id, true))
  }

  /** Every call that the recursion makes below (and including) the call
      `Call(id, depth, isMax)`, in the order in which they are entered: the
      node itself, then all of its left subtree, then all of its right one. */
  function Calls(depth: nat, isMax: bool, id: string): (cs: seq<Call>)
    ensures |cs| == 2 * Pow2(depth) - 1
    ensures cs[0] == Call(id, depth, isMax)
    decreases depth
  {
    if IsLeaf(depth) then [Call(id, depth, isMax)]
    else
      [Call(id, depth, isMax)]
      + Calls(depth - 1, !isMax, ChildId(id, false))
      + Calls(depth - 1, !isMax, ChildId(id, true))
  }

  /** `x` is `id` followed by exactly `depth` letters, each 'L' or 'R'. */
  predicate IsPathBelow(x: string, id: string, depth: nat)
  {
    && |x| == |id| + depth
    && x[..|id|] == id
    && forall k :: |id| <= k < |x| ==> x[k] == 'L' || x[k] == 'R'
  }

  /** A string lies `depth` levels below child `ChildId(id, right)` iff it
      lies `depth + 1` levels below `id` and its next letter names that child. */
  lemma PathBelowChild(x: string, id: string, depth: nat, right: bool)
    ensures IsPathBelow(x, ChildId(id, right), depth) <==>
      IsPathBelow(x, id, depth + 1) && x[|id|] == (if right then 'R' else 'L')
  {
    var c := ChildId(id, right);
    if IsPathBelow(x, c, depth) {
      assert x[..|id|] == x[..|c|][..|id|];
      assert x[|id|] == x[..|c|][|id|];
    }
    if IsPathBelow(x, id, depth + 1) && x[|id|] == (if right then 'R' else 'L') {
      assert x[..|c|] == x[..|id|] + [x[|id|]];
    }
  }

  /** The leaves below `id` are exactly the strings `id` followed by
      `depth` letters from {L, R}. */
  lemma {:induction false} LeafIdsExactly(depth: nat, id: string, x: string)
    ensures x in LeafIds(depth, id) <==> IsPathBelow(x, id, depth)
    decreases depth
  {
    if depth == 0 {
      if IsPathBelow(x, id, 0) {
        assert x == x[..|id|];
      }
    } else {
      var l, r := ChildId(id, false), ChildId(id, true);
      LeafIdsExactly(depth - 1, l, x);
      LeafIdsExactly(depth - 1, r, x);
      PathBelowChild(x, id, depth - 1, false);
      PathBelowChild(x, id, depth - 1, true);
      if IsPathBelow(x, id, depth) {
        assert |id| <= |id| < |x|;
      }
    }
  }

  /** The leaves of the left child and those of the right child have no
      identifier in common. */
  lemma LeftRightLeavesDisjoint(depth: nat, id: string, x: string, y: string)
    requires depth > 0
    requires x in LeafIds(depth - 1, ChildId(id, false)) && y in LeafIds(depth - 1, ChildId(id, true))
    ensures x != y
  {
    LeafIdsExactly(depth - 1, ChildId(id, false), x);
    LeafIdsExactly(depth - 1, ChildId(id, true), y);
    PathBelowChild(x, id, depth - 1, false);
    PathBelowChild(y, id, depth - 1, true);
  }

  /** No leaf identifier occurs twice: distinct leaves have distinct paths. */
  lemma {:induction false} LeafIdsDistinct(depth: nat, id: string)
    ensures forall i, j :: 0 <= i < j < |LeafIds(depth, id)| ==> LeafIds(depth, id)[i] != LeafIds(depth, id)[j]
    decreases depth
  {
    if depth > 0 {
      var l, r := ChildId(id, false), ChildId(id, true);
      var ls, rs := LeafIds(depth - 1, l), LeafIds(depth - 1, r);
      var ids := LeafIds(depth, id);
      assert ids == ls + rs;
      LeafIdsDistinct(depth - 1, l);
      LeafIdsDistinct(depth - 1, r);
      forall i, j | 0 <= i < j < |ids|
        ensures ids[i] != ids[j]
      {
        if j < |ls| {
          assert ids[i] == ls[i] && ids[j] == ls[j];
        } else if |ls| <= i {
          assert ids[i] == rs[i - |ls|] && ids[j] == rs[j - |ls|];
        } else {
          assert ids[i] == ls[i] && ids[j] == rs[j - |ls|];
          LeftRightLeavesDisjoint(depth, id, ids[i], ids[j]);
        }
      }
    }
  }

  /** Call `c` sits `depth - c.depth` levels below `Call(id, depth, isMax)`:
      its identifier extends `id` by one letter per level, and its role is
      that of the top call iff that number of levels is even. */
  predicate PlacedBelow(c: Call, depth: nat, isMax: bool, id: string)
  {
    && c.depth <= depth
    && IsPathBelow(c.id, id, depth - c.depth)
    && (c.isMax <==> (isMax <==> (depth - c.depth) % 2 == 0))
  }

  /** A call placed below a child is placed below its parent. */
  lemma PlacedBelowChild(c: Call, depth: nat, isMax: bool, id: string, right: bool)
    requires depth > 0 && PlacedBelow(c, depth - 1, !isMax, ChildId(id, right))
    ensures PlacedBelow(c, depth, isMax, id)
  {
    PathBelowChild(c.id, id, depth - 1 - c.depth, right);
  }

  /** The calls below `Call(id, depth, isMax)` go down one level per letter
      appended to the identifier, and flip the role at each level: a node
      `k` levels below shares the role of the top one iff `k` is even. */
  lemma {:induction false} RolesAlternate(depth: nat, isMax: bool, id: string)
    ensures forall c :: c in Calls(depth, isMax, id) ==> PlacedBelow(c, depth, isMax, id)
    decreases depth
  {
    if depth == 0 {
      assert id[..|id|] == id;
    } else {
      var l, r := ChildId(id, false), ChildId(id, true);
      RolesAlternate(depth - 1, !isMax, l);
      RolesAlternate(depth - 1, !isMax, r);
      forall c | c in Calls(depth, isMax, id)
        ensures PlacedBelow(c, depth, isMax, id)
      {
        if c == Call(id, depth, isMax) {
          assert id[..|id|] == id;
        } else if c in Calls(depth - 1, !isMax, l) {
          PlacedBelowChild(c, depth, isMax, id, false);
        } else {
          PlacedBelowChild(c, depth, isMax, id, true);
        }
      }
    }
  }

  /** From the root call: a node is the maximizer iff it lies an even number
      of levels below "Root", and its identifier is "Root" followed by one
      letter from {L, R} per level. */
  lemma RootRoles(depth: nat)
    ensures forall c :: c in Calls(depth, true, RootId) ==>
      && c.depth <= depth
      && IsPathBelow(c.id, RootId, depth - c.depth)
      && (c.isMax <==> (|c.id| - |RootId|) % 2 == 0)
  {
    RolesAlternate(depth, true, RootId);
  }
}
