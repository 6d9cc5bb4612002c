/** The session's terminal-value cache and the recursive walk that fills it.
    The cache maps leaf identifiers to values; it outlives one walk, so a
    walk may find some leaves already cached from an earlier one. A leaf
    missing from the cache is given the next number of the random stream,
    which the model takes as an injected sequence of draws `rng(0), rng(1),
    ...` together with the count of draws made so far. */
module Session {
  import opened GameTree
  import opened Search

  /** The range of a random terminal value. */
  const MinLeaf: int := -10
  const MaxLeaf: int := 10

  /** Every draw of the random stream lies in [MinLeaf, MaxLeaf]. */
  ghost predicate RollsInRange(rng: nat -> int)
  {
    forall k: nat :: MinLeaf <= rng(k) <= MaxLeaf
  }

  /** Every cached terminal value lies in [MinLeaf, MaxLeaf]. */
  predicate CacheInRange(cache: map<string, int>)
  {
    forall x :: x in cache ==> MinLeaf <= cache[x] <= MaxLeaf
  }

  /** The cache and draw count after the leaves `ids` are visited in order,
      starting from `cache` with `next` draws made: a leaf already cached is
      left alone, a leaf not yet cached gets the next draw. Each visit makes
      at most one draw. */
  function TouchLeaves(ids: seq<string>, cache: map<string, int>, rng: nat -> int, next: nat): (r: (map<string, int>, nat))
    ensures next <= r.1 <= next + |ids|
    decreases |ids|
  {
    if ids == [] then (cache, next)
    else if ids[0] in cache then TouchLeaves(ids[1..], cache, rng, next)
    else TouchLeaves(ids[1..], cache[ids[0] := rng(next)], rng, next + 1)
  }

  /** Visiting `a` and then `b` is visiting `a + b`. */
  lemma {:induction false} TouchLeavesAppend(a: seq<string>, b: seq<string>, cache: map<string, int>, rng: nat -> int, next: nat)
    ensures var (c1, n1) := TouchLeaves(a, cache, rng, next);
            TouchLeaves(a + b, cache, rng, next) == TouchLeaves(b, c1, rng, n1)
    decreases |a|
  {
    if a == [] {
      assert a + b == b;
    } else {
      assert (a + b)[0] == a[0];
      assert (a + b)[1..] == a[1..] + b;
      if a[0] in cache {
        TouchLeavesAppend(a[1..], b, cache, rng, next);
      } else {
        TouchLeavesAppend(a[1..], b, cache[a[0] := rng(next)], rng, next + 1);
      }
    }
  }

  /** A cached value is never reassigned. */
  lemma {:induction false} TouchLeavesKeeps(ids: seq<string>, cache: map<string, int>, rng: nat -> int, next: nat, x: string)
    requires x in cache
    ensures x in TouchLeaves(ids, cache, rng, next).0
    ensures TouchLeaves(ids, cache, rng, next).0[x] == cache[x]
    decreases |ids|
  {
    if ids != [] {
      if ids[0] in cache {
        TouchLeavesKeeps(ids[1..], cache, rng, next, x);
      } else {
        TouchLeavesKeeps(ids[1..], cache[ids[0] := rng(next)], rng, next + 1, x);
      }
    }
  }

  /** The cache is write-once: the walk keeps every entry it finds. */
  lemma TouchLeavesExtends(ids: seq<string>, cache: map<string, int>, rng: nat -> int, next: nat)
    ensures Extends(cache, TouchLeaves(ids, cache, rng, next).0)
  {
    forall x | x in cache
      ensures x in TouchLeaves(ids, cache, rng, next).0 && TouchLeaves(ids, cache, rng, next).0[x] == cache[x]
    {
      TouchLeavesKeeps(ids, cache, rng, next, x);
    }
  }

  /** After the walk the cache holds exactly the keys it held before and the
      visited leaves. */
  lemma {:induction false} TouchLeavesKeys(ids: seq<string>, cache: map<string, int>, rng: nat -> int, next: nat, x: string)
    ensures x in TouchLeaves(ids, cache, rng, next).0 <==> x in cache || x in ids
    decreases |ids|
  {
    if ids != [] {
      if ids[0] in cache {
        TouchLeavesKeys(ids[1..], cache, rng, next, x);
      } else {
        TouchLeavesKeys(ids[1..], cache[ids[0] := rng(next)], rng, next + 1, x);
      }
      assert x in ids <==> x == ids[0] || x in ids[1..];
    }
  }

  /** Every value the walk adds is one of the draws it made, so with draws
      in [MinLeaf, MaxLeaf] every new entry lies in that range too. */
  lemma {:induction false} TouchLeavesInRange(ids: seq<string>, cache: map<string, int>, rng: nat -> int, next: nat, x: string)
    requires RollsInRange(rng)
    requires x in TouchLeaves(ids, cache, rng, next).0 && x !in cache
    ensures MinLeaf <= TouchLeaves(ids, cache, rng, next).0[x] <= MaxLeaf
    decreases |ids|
  {
    if ids[0] in cache {
      TouchLeavesInRange(ids[1..], cache, rng, next, x);
    } else {
      var c1 := cache[ids[0] := rng(next)];
      if x == ids[0] {
        TouchLeavesKeeps(ids[1..], c1, rng, next + 1, x);
      } else {
        TouchLeavesInRange(ids[1..], c1, rng, next + 1, x);
      }
    }
  }

  /** No identifier occurs twice in `ids`. */
  predicate NoRepeats(ids: seq<string>)
  {
    forall i, j :: 0 <= i < j < |ids| ==> ids[i] != ids[j]
  }

  /** Leaves that are fresh and distinct stay so once the first is cached. */
  lemma FreshTail(ids: seq<string>, cache: map<string, int>, v: int)
    requires ids != [] && NoRepeats(ids) && forall x :: x in ids ==> x !in cache
    ensures NoRepeats(ids[1..])
    ensures forall x :: x in ids[1..] ==> x !in cache[ids[0] := v]
  {
    var tail := ids[1..];
    forall x | x in tail
      ensures x !in cache[ids[0] := v]
    {
      var k :| 0 <= k < |tail| && tail[k] == x;
      assert ids[k + 1] == x;
    }
    forall i, j | 0 <= i < j < |tail|
      ensures tail[i] != tail[j]
    {
      assert tail[i] == ids[i + 1] && tail[j] == ids[j + 1];
    }
  }

  /** On leaves none of which is cached yet, and none of which repeats, the
      walk makes one draw per leaf. */
  lemma {:induction false} TouchLeavesCount(ids: seq<string>, cache: map<string, int>, rng: nat -> int, next: nat)
    requires NoRepeats(ids) && forall x :: x in ids ==> x !in cache
    ensures TouchLeaves(ids, cache, rng, next).1 == next + |ids|
    decreases |ids|
  {
    if ids != [] {
      FreshTail(ids, cache, rng(next));
      TouchLeavesCount(ids[1..], cache[ids[0] := rng(next)], rng, next + 1);
    }
  }

  /** On leaves none of which is cached yet, and none of which repeats, the
      i-th leaf from the left gets the i-th draw: leaves are first touched,
      and cached, in left-to-right order. */
  lemma {:induction false} TouchLeavesInOrder(ids: seq<string>, cache: map<string, int>, rng: nat -> int, next: nat, i: nat)
    requires NoRepeats(ids) && forall x :: x in ids ==> x !in cache
    requires i < |ids|
    ensures ids[i] in TouchLeaves(ids, cache, rng, next).0
    ensures TouchLeaves(ids, cache, rng, next).0[ids[i]] == rng(next + i)
    decreases |ids|
  {
    var c1 := cache[ids[0] := rng(next)];
    if i == 0 {
      TouchLeavesKeeps(ids[1..], c1, rng, next + 1, ids[0]);
    } else {
      FreshTail(ids, cache, rng(next));
      TouchLeavesInOrder(ids[1..], c1, rng, next + 1, i - 1);
      assert ids[1..][i - 1] == ids[i];
    }
  }

  /** `draw_tree` without its drawing: returns the value of node `id` with
      `depth` levels below it and role `isMax`, and the cache and draw count
      after the walk. The new cache is the old one with the node's leaves
      touched left to right; it keeps every old entry and has a value for
      every leaf of the node, and the value returned is the node's
      backed-up value over it. A leaf returns its cached value, drawing one
      first if it has none. */
  method DrawTree(alg: Algorithm, depth: nat, isMax: bool, id: string, cache: map<string, int>, rng: nat -> int, drawn: nat)
    returns (value: int, cache': map<string, int>, drawn': nat)
    ensures (cache', drawn') == TouchLeaves(LeafIds(depth, id), cache, rng, drawn)
    ensures Extends(cache, cache') && Defined(depth, id, cache')
    ensures value == Evaluate(alg, depth, isMax, id, cache')
    ensures IsLeaf(depth) ==> value == if id in cache then cache[id] else rng(drawn)
    decreases depth
  {
    if IsLeaf(depth) {
      if id !in cache {
        cache' := cache[id := rng(drawn)];
        drawn' := drawn + 1;
      } else {
        cache', drawn' := cache, drawn;
      }
      value := cache'[id];
      WalkLeaf(alg, isMax, id, cache, rng, drawn);
      return;
    }
    var l, r := ChildId(id, false), ChildId(id, true);
    var leftValue, c1, d1 := DrawTree(alg, depth - 1, !isMax, l, cache, rng, drawn);
    var rightValue, c2, d2 := DrawTree(alg, depth - 1, !isMax, r, c1, rng, d1);
    match alg {
      case Minimax =>
        value := MinimaxCombine(leftValue, rightValue, isMax);
      case AlphaBetaPruning =>
        value := AlphaBeta(leftValue, rightValue, isMax);
    }
    cache', drawn' := c2, d2;
    WalkBothChildren(alg, depth, isMax, id, cache, rng, drawn, c1, d1, c2, d2);
  }

  /** Walking a leaf caches it if need be and reads its cached value. */
  lemma WalkLeaf(alg: Algorithm, isMax: bool, id: string, cache: map<string, int>, rng: nat -> int, drawn: nat)
    ensures var c := if id in cache then cache else cache[id := rng(drawn)];
            var n := if id in cache then drawn else drawn + 1;
            && (c, n) == TouchLeaves(LeafIds(0, id), cache, rng, drawn)
            && Extends(cache, c) && Defined(0, id, c)
            && Evaluate(alg, 0, isMax, id, c) == c[id]
  {
    assert LeafIds(0, id) == [id];
  }

  /** Walking the left subtree and then the right one walks the node: the
      cache and draw count compose, and the left value read before the
      right walk is still the left value over the final cache. */
  lemma WalkBothChildren(alg: Algorithm, depth: nat, isMax: bool, id: string, cache: map<string, int>, rng: nat -> int, drawn: nat,
                         c1: map<string, int>, d1: nat, c2: map<string, int>, d2: nat)
    requires depth > 0
    requires (c1, d1) == TouchLeaves(LeafIds(depth - 1, ChildId(id, false)), cache, rng, drawn)
    requires (c2, d2) == TouchLeaves(LeafIds(depth - 1, ChildId(id, true)), c1, rng, d1)
    requires Extends(cache, c1) && Defined(depth - 1, ChildId(id, false), c1)
    requires Extends(c1, c2) && Defined(depth - 1, ChildId(id, true), c2)
    ensures (c2, d2) == TouchLeaves(LeafIds(depth, id), cache, rng, drawn)
    ensures Extends(cache, c2) && Defined(depth, id, c2)
    ensures Evaluate(alg, depth - 1, !isMax, ChildId(id, false), c2) == Evaluate(alg, depth - 1, !isMax, ChildId(id, false), c1)
  {
    EvaluateStable(alg, depth - 1, !isMax, ChildId(id, false), c1, c2);
    TouchLeavesAppend(LeafIds(depth - 1, ChildId(id, false)), LeafIds(depth - 1, ChildId(id, true)), cache, rng, drawn);
  }

  /** The root call: the maximizing root "Root" evaluated at the depth the
      user chose. The best value is the Minimax value whichever algorithm is
      selected, each node playing the role its identifier dictates; with cached values and draws in [MinLeaf, MaxLeaf] it
      lies in that range, and so does every entry of the new cache. */
  method GenerateTree(alg: Algorithm, depth: nat, cache: map<string, int>, rng: nat -> int, drawn: nat)
    returns (best: int, cache': map<string, int>, drawn': nat)
    requires MinDepth <= depth <= MaxDepth
    ensures (cache', drawn') == TouchLeaves(LeafIds(depth, RootId), cache, rng, drawn)
    ensures Extends(cache, cache') && Defined(depth, RootId, cache')
    ensures best == Evaluate(Minimax, depth, true, RootId, cache')
    ensures best == EvaluateByIdRole(Minimax, depth, RootId, cache')
    ensures CacheInRange(cache) && RollsInRange(rng) ==> CacheInRange(cache') && MinLeaf <= best <= MaxLeaf
  {
    best, cache', drawn' := DrawTree(alg, depth, true, RootId, cache, rng, drawn);
    AlgorithmsAgree(depth, true, RootId, cache');
    RolesFollowIds(Minimax, depth, true, RootId, cache');
    if CacheInRange(cache) && RollsInRange(rng) {
      forall x | x in cache'
        ensures MinLeaf <= cache'[x] <= MaxLeaf
      {
        if x !in cache {
          TouchLeavesInRange(LeafIds(depth, RootId), cache, rng, drawn, x);
        }
      }
      EvaluateBounded(Minimax, depth, true, RootId, cache', MinLeaf, MaxLeaf);
    }
  }

  /** On a first walk over a tree none of whose leaves is cached yet, the
      walk makes 2^depth draws and the i-th leaf from the left gets the i-th. */
  lemma FreshTreeInOrder(depth: nat, id: string, cache: map<string, int>, rng: nat -> int, next: nat, i: nat)
    requires forall x :: x in LeafIds(depth, id) ==> x !in cache
    requires i < Pow2(depth)
    ensures TouchLeaves(LeafIds(depth, id), cache, rng, next).1 == next + Pow2(depth)
    ensures LeafIds(depth, id)[i] in TouchLeaves(LeafIds(depth, id), cache, rng, next).0
    ensures TouchLeaves(LeafIds(depth, id), cache, rng, next).0[LeafIds(depth, id)[i]] == rng(next + i)
  {
    LeafIdsDistinct(depth, id);
    TouchLeavesCount(LeafIds(depth, id), cache, rng, next);
    TouchLeavesInOrder(LeafIds(depth, id), cache, rng, next, i);
  }
}
