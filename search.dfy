/** The backed-up value of a node: a leaf takes its terminal value, an
    internal node combines the values of its left and right child with the
    rule of the selected algorithm. Neither algorithm keeps alpha or beta
    bounds; both combine with a plain max or min. */
module Search {
  import opened GameTree

  /** The two choices of the algorithm selector. */
  datatype Algorithm = Minimax | AlphaBetaPruning

  /** Python's `max` of two numbers: the first argument unless the second
      is larger. */
  function Max(a: int, b: int): (m: int)
    ensures m >= a && m >= b && (m == a || m == b)
  {
    if b > a then b else a
  }

  /** Python's `min` of two numbers: the first argument unless the second
      is smaller. */
  function Min(a: int, b: int): (m: int)
    ensures m <= a && m <= b && (m == a || m == b)
  {
    if b < a then b else a
  }

  /** The inline combine of the "Minimax" branch: a maximizer keeps the
      larger child value, a minimizer the smaller. */
  function MinimaxCombine(left: int, right: int, isMax: bool): (v: int)
    ensures v == left || v == right
    ensures isMax ==> v >= left && v >= right
    ensures !isMax ==> v <= left && v <= right
  {
    if isMax then Max(left, right) else Min(left, right)
  }

  /** `alpha_beta_pruning`: given both child values and the node's role,
      return the larger one for a maximizer and the smaller one otherwise.
      It keeps no bounds and prunes nothing. */
  function AlphaBeta(left: int, right: int, isMax: bool): (v: int)
    ensures v == left || v == right
    ensures isMax ==> v >= left && v >= right
    ensures !isMax ==> v <= left && v <= right
  {
    if isMax then
      Max(left, right)
    else
      Min(left, right)
  }

  /** The combine applied at an internal node, by algorithm. */
  function Combine(alg: Algorithm, left: int, right: int, isMax: bool): int
  {
    match alg
    case Minimax => MinimaxCombine(left, right, isMax)
    case AlphaBetaPruning => AlphaBeta(left, right, isMax)
  }

  /** Both combines pick the same value for every pair of children and role. */
  lemma CombinesAgree(left: int, right: int, isMax: bool)
    ensures AlphaBeta(left, right, isMax) == MinimaxCombine(left, right, isMax)
  {
  }

  /** Every id in `ids` has a value in `leaves`. */
  predicate Covers(leaves: map<string, int>, ids: seq<string>)
  {
    forall x :: x in ids ==> x in leaves
  }

  /** Every leaf below node `id`, `depth` levels down, has a value in
      `leaves`; stated along the recursion of `draw_tree`. */
  predicate Defined(depth: nat, id: string, leaves: map<string, int>)
    decreases depth
  {
    if IsLeaf(depth) then id in leaves
    else Defined(depth - 1, ChildId(id, false), leaves) && Defined(depth - 1, ChildId(id, true), leaves)
  }

  /** `m'` keeps every entry of `m`: it may add keys but changes no value. */
  predicate Extends(m: map<string, int>, m': map<string, int>)
  {
    forall x :: x in m ==> x in m' && m'[x] == m[x]
  }

  /** `v` is the value of one of the leaves `ids`. */
  predicate IsLeafValue(v: int, leaves: map<string, int>, ids: seq<string>)
  {
    exists x :: x in ids && x in leaves && v == leaves[x]
  }

  /** `Defined` says exactly that all of the node's leaves have values. */
  lemma {:induction false} DefinedCovers(depth: nat, id: string, leaves: map<string, int>)
    ensures Defined(depth, id, leaves) <==> Covers(leaves, LeafIds(depth, id))
    decreases depth
  {
    if IsLeaf(depth) {
      assert LeafIds(depth, id) == [id];
    } else {
      var l, r := ChildId(id, false), ChildId(id, true);
      DefinedCovers(depth - 1, l, leaves);
      DefinedCovers(depth - 1, r, leaves);
      assert LeafIds(depth, id) == LeafIds(depth - 1, l) + LeafIds(depth - 1, r);
    }
  }

  /** Adding entries to the leaf map keeps a node's leaves defined. */
  lemma {:induction false} DefinedExtends(depth: nat, id: string, leaves: map<string, int>, leaves': map<string, int>)
    requires Defined(depth, id, leaves) && Extends(leaves, leaves')
    ensures Defined(depth, id, leaves')
    decreases depth
  {
    if !IsLeaf(depth) {
      DefinedExtends(depth - 1, ChildId(id, false), leaves, leaves');
      DefinedExtends(depth - 1, ChildId(id, true), leaves, leaves');
    }
  }

  /** A value of one child's leaves is a value of the parent's leaves. */
  lemma IsLeafValueOfChild(v: int, depth: nat, id: string, leaves: map<string, int>, right: bool)
    requires depth > 0 && IsLeafValue(v, leaves, LeafIds(depth - 1, ChildId(id, right)))
    ensures IsLeafValue(v, leaves, LeafIds(depth, id))
  {
    var x :| x in LeafIds(depth - 1, ChildId(id, right)) && x in leaves && v == leaves[x];
    assert x in LeafIds(depth, id);
  }

  /** The value `draw_tree` returns for node `id` with `depth` levels below
      it and the given role, reading terminal values from `leaves`. */
  function Evaluate(alg: Algorithm, depth: nat, isMax: bool, id: string, leaves: map<string, int>): int
    requires Defined(depth, id, leaves)
    decreases depth
  {
    if IsLeaf(depth) then leaves[id]
    else
      var left := Evaluate(alg, depth - 1, !isMax, ChildId(id, false), leaves);
      var right := Evaluate(alg, depth - 1, !isMax, ChildId(id, true), leaves);
      Combine(alg, left, right, isMax)
  }

  /** A node's value is always the terminal value of one of its own leaves. */
  lemma {:induction false} EvaluateIsLeafValue(alg: Algorithm, depth: nat, isMax: bool, id: string, leaves: map<string, int>)
    requires Defined(depth, id, leaves)
    ensures IsLeafValue(Evaluate(alg, depth, isMax, id, leaves), leaves, LeafIds(depth, id))
    decreases depth
  {
    var v := Evaluate(alg, depth, isMax, id, leaves);
    if IsLeaf(depth) {
      assert id in LeafIds(depth, id);
    } else {
      var l, r := ChildId(id, false), ChildId(id, true);
      var lv, rv := Evaluate(alg, depth - 1, !isMax, l, leaves), Evaluate(alg, depth - 1, !isMax, r, leaves);
      EvaluateIsLeafValue(alg, depth - 1, !isMax, l, leaves);
      EvaluateIsLeafValue(alg, depth - 1, !isMax, r, leaves);
      IsLeafValueOfChild(lv, depth, id, leaves, false);
      IsLeafValueOfChild(rv, depth, id, leaves, true);
      assert v == Combine(alg, lv, rv, isMax);
    }
  }

  /** A leaf's value is its terminal value. (What a caller of the walk sees
      at a leaf, the cached value or else the next draw, is stated by
      `Session.DrawTree`.) */
  lemma EvaluateLeaf(alg: Algorithm, isMax: bool, id: string, leaves: map<string, int>)
    requires id in leaves
    ensures Defined(0, id, leaves)
    ensures Evaluate(alg, 0, isMax, id, leaves) == leaves[id]
  {
  }

  /** An internal node's value is the larger of its children's values at a
      maximizer and the smaller one at a minimizer, whichever algorithm runs. */
  lemma EvaluateInternal(alg: Algorithm, depth: nat, isMax: bool, id: string, leaves: map<string, int>)
    requires depth > 0 && Defined(depth, id, leaves)
    ensures Defined(depth - 1, ChildId(id, false), leaves) && Defined(depth - 1, ChildId(id, true), leaves)
    ensures var v := Evaluate(alg, depth, isMax, id, leaves);
            var l := Evaluate(alg, depth - 1, !isMax, ChildId(id, false), leaves);
            var r := Evaluate(alg, depth - 1, !isMax, ChildId(id, true), leaves);
            (v == l || v == r) && (isMax ==> v >= l && v >= r) && (!isMax ==> v <= l && v <= r)
  {
  }

  /** Choosing "Alpha-Beta Pruning" never changes any node's value: it is
      the Minimax value for every depth, role, node and leaf assignment. */
  lemma {:induction false} AlgorithmsAgree(depth: nat, isMax: bool, id: string, leaves: map<string, int>)
    requires Defined(depth, id, leaves)
    ensures Evaluate(AlphaBetaPruning, depth, isMax, id, leaves) == Evaluate(Minimax, depth, isMax, id, leaves)
    decreases depth
  {
    if !IsLeaf(depth) {
      var l, r := ChildId(id, false), ChildId(id, true);
      AlgorithmsAgree(depth - 1, !isMax, l, leaves);
      AlgorithmsAgree(depth - 1, !isMax, r, leaves);
      var lv, rv := Evaluate(Minimax, depth - 1, !isMax, l, leaves), Evaluate(Minimax, depth - 1, !isMax, r, leaves);
      CombinesAgree(lv, rv, isMax);
    }
  }

  /** A reference evaluator that does not thread the role: each node takes
      its role from its own identifier, by `IsMaxAt`. */
  function EvaluateByIdRole(alg: Algorithm, depth: nat, id: string, leaves: map<string, int>): int
    requires Defined(depth, id, leaves)
    decreases depth
  {
    if IsLeaf(depth) then leaves[id]
    else
      Combine(alg, EvaluateByIdRole(alg, depth - 1, ChildId(id, false), leaves),
                   EvaluateByIdRole(alg, depth - 1, ChildId(id, true), leaves), IsMaxAt(id))
  }

  /** Flipping the role at each recursive call, as the walk does, gives each
      node the role its identifier's length dictates: once a node's role
      agrees with `IsMaxAt`, the whole subtree is evaluated with the roles
      of the reference evaluator. In particular the root "Root" evaluated as
      the maximizer gets every node's role from its depth below the root. */
  lemma {:induction false} RolesFollowIds(alg: Algorithm, depth: nat, isMax: bool, id: string, leaves: map<string, int>)
    requires Defined(depth, id, leaves)
    requires isMax == IsMaxAt(id)
    ensures Evaluate(alg, depth, isMax, id, leaves) == EvaluateByIdRole(alg, depth, id, leaves)
    decreases depth
  {
    if !IsLeaf(depth) {
      RolesFollowIds(alg, depth - 1, !isMax, ChildId(id, false), leaves);
      RolesFollowIds(alg, depth - 1, !isMax, ChildId(id, true), leaves);
    }
  }

  /** A node's value does not change when the leaf map gains entries: values
      already present are all it reads. */
  lemma {:induction false} EvaluateStable(alg: Algorithm, depth: nat, isMax: bool, id: string, leaves: map<string, int>, leaves': map<string, int>)
    requires Defined(depth, id, leaves) && Extends(leaves, leaves')
    ensures Defined(depth, id, leaves')
    ensures Evaluate(alg, depth, isMax, id, leaves') == Evaluate(alg, depth, isMax, id, leaves)
    decreases depth
  {
    DefinedExtends(depth, id, leaves, leaves');
    if !IsLeaf(depth) {
      EvaluateStable(alg, depth - 1, !isMax, ChildId(id, false), leaves, leaves');
      EvaluateStable(alg, depth - 1, !isMax, ChildId(id, true), leaves, leaves');
    }
  }

  /** A node's value lies within any bounds that hold for all of its leaves,
      in particular between the least and the greatest of them. */
  lemma EvaluateBounded(alg: Algorithm, depth: nat, isMax: bool, id: string, leaves: map<string, int>, lo: int, hi: int)
    requires Defined(depth, id, leaves)
    requires forall x :: x in LeafIds(depth, id) && x in leaves ==> lo <= leaves[x] <= hi
    ensures lo <= Evaluate(alg, depth, isMax, id, leaves) <= hi
  {
    EvaluateIsLeafValue(alg, depth, isMax, id, leaves);
  }

  /** Depth 1 with leaves 4 and 7 under the maximizing root gives 7. */
  lemma ExampleDepthOne(alg: Algorithm)
    ensures Defined(1, RootId, map["RootL" := 4, "RootR" := 7])
    ensures Evaluate(alg, 1, true, RootId, map["RootL" := 4, "RootR" := 7]) == 7
  {
    assert ChildId(RootId, false) == "RootL";
    assert ChildId(RootId, true) == "RootR";
  }

  /** Depth 2 with leaves 3, 5, 2, 9 from left to right gives
      max(min(3, 5), min(2, 9)) = 3. */
  lemma ExampleDepthTwo(alg: Algorithm)
    ensures Defined(2, RootId, map["RootLL" := 3, "RootLR" := 5, "RootRL" := 2, "RootRR" := 9])
    ensures Evaluate(alg, 2, true, RootId, map["RootLL" := 3, "RootLR" := 5, "RootRL" := 2, "RootRR" := 9]) == 3
  {
    assert ChildId(RootId, false) == "RootL";
    assert ChildId(RootId, true) == "RootR";
    assert ChildId("RootL", false) == "RootLL";
    assert ChildId("RootL", true) == "RootLR";
    assert ChildId("RootR", false) == "RootRL";
    assert ChildId("RootR", true) == "RootRR";
  }
}
