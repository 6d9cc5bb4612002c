# Game-tree evaluation of the Minimax / Alpha-Beta demo

This project models the evaluation core of a small Streamlit app that
builds a perfect binary game tree and reports the backed-up value at its
root. The app names nodes by path: the root is `"Root"`, and the children
of `id` are `id + "L"` and `id + "R"`. A counter of remaining depth reaches
0 at the leaves. The maximizer and minimizer roles alternate level by
level, with the root as maximizer.

A leaf reads its terminal value from a session-wide cache keyed by leaf id.
When the id is missing, the leaf draws a random integer in [-10, 10] and
stores it. The cache lives in the session state, so it survives from one
press of "Generate Tree" to the next. An internal node evaluates its left
child, then its right child, and combines the two:

- "Minimax" takes `max`/`min` inline.
- "Alpha-Beta Pruning" calls `alpha_beta_pruning`, which also returns `max`/`min`.

Neither branch keeps alpha or beta bounds, tests for cutoffs, or records
pruned or explored nodes.

The model has three modules:

- `GameTree` (`tree.dfy`) covers node identity and tree shape. It holds
  `ChildId`, the left-to-right list of leaf ids `LeafIds`, and the pre-order
  list of recursive calls `Calls`. Lemmas show that leaf ids are exactly
  `id` followed by `depth` letters from {L, R}, that there are 2^depth of
  them and no two are equal, and that roles alternate by level along the
  call list `Calls`. That the walk itself gives each node the role its
  identifier dictates is shown in `Search` (`RolesFollowIds`).
- `Search` (`search.dfy`) covers the values. It holds both combines, Python's
  `max`/`min`, and the pure recursive `Evaluate` over a leaf map. Lemmas
  show the leaf and internal-node rules, that flipping the role at each
  call matches a reference evaluator that reads each node's role off its
  identifier, that the two algorithms agree,
  that values stay within the leaf bounds, that a value does not change as
  the map gains entries, and the two worked examples.
- `Session` (`session.dfy`) covers the cache. The spec function
  `TouchLeaves` says how the cache fills when leaves are visited in order.
  The recursive method `DrawTree` threads the cache, and `GenerateTree`
  makes the root call. Lemmas show that the cache is write-once, that new
  entries lie in [-10, 10], and that a fresh tree is cached in left-to-right
  order.

The random generator is an injected stream `rng: nat -> int` plus the
number of draws made so far. The k-th call of `random.randint` yields
`rng(k)`. This lets the model state the order in which leaves are first
cached.

Two facts about the code worth stating outright:

- "Alpha-Beta Pruning" computes exactly the Minimax combine
  (streamlit_app.py:63-66); no subtree is skipped.
- A leaf id missing from the cache is never an error: the leaf draws a
  value and caches it (streamlit_app.py:28-30).

## Model

| member | source | states |
|---|---|---|
| GameTree.ChildId | streamlit_app.py:44-45 | a child id is the parent id plus one letter, 'L' for the left child and 'R' for the right |
| GameTree.LeafIds | streamlit_app.py:26-45 | the tree has exactly 2^depth leaves below any node |
| GameTree.Calls | streamlit_app.py:24-60 | a walk of depth d makes 2^(d+1) - 1 calls, and the first call is the node itself with its own depth and role |
| GameTree.LeafIdsExactly | streamlit_app.py:44-45 | a string is a leaf id below `id` iff it is `id` followed by exactly `depth` letters from {L, R} (both directions) |
| GameTree.LeftRightLeavesDisjoint | streamlit_app.py:44-45 | the left subtree and the right subtree share no leaf id |
| GameTree.LeafIdsDistinct | streamlit_app.py:44-45 | no leaf id occurs twice among a node's leaves |
| GameTree.RolesAlternate | streamlit_app.py:44-45 | a call k levels below a node has an id one letter longer per level, and has the node's role iff k is even |
| GameTree.RootRoles | streamlit_app.py:83 | from the root "Root" as maximizer, a node is a maximizer iff its id is "Root" plus an even number of letters |
| Search.Max | streamlit_app.py:49 | Python's max of two ints is one of them and at least both |
| Search.Min | streamlit_app.py:49 | Python's min of two ints is one of them and at most both |
| Search.MinimaxCombine | streamlit_app.py:49 | the Minimax combine returns one of the child values: the larger at a maximizer, the smaller at a minimizer |
| Search.AlphaBeta | streamlit_app.py:63-66 | `alpha_beta_pruning` returns one of the child values: the larger when `is_max`, else the smaller |
| Search.CombinesAgree | streamlit_app.py:63-66 | `alpha_beta_pruning` equals the Minimax combine for every pair of values and every role |
| Search.EvaluateLeaf | streamlit_app.py:26-33 | base case of `Evaluate`: a node with no levels below it returns the terminal value of its own id (the walk's leaf behaviour, cached value or else next draw, is `Session.DrawTree`'s last ensures) |
| Search.EvaluateInternal | streamlit_app.py:44-51 | an internal node's value is one of its children's values, at least both at a maximizer and at most both at a minimizer |
| Search.EvaluateIsLeafValue | streamlit_app.py:24-60 | every node's value is the terminal value of one of its own leaves |
| Search.RolesFollowIds | streamlit_app.py:44-45 | when a node's role agrees with its id's parity (maximizer iff the id adds an even number of letters to "Root"), the walk's `not is_max` flips give every node below the role of the reference evaluator `EvaluateByIdRole`, so the value is the same |
| Search.AlgorithmsAgree | streamlit_app.py:48-51 | "Alpha-Beta Pruning" gives every node the same value as "Minimax", for every depth, role, id and leaf assignment |
| Search.EvaluateStable | streamlit_app.py:28-30 | a node's value is unchanged when the leaf map gains entries but keeps its old ones |
| Search.EvaluateBounded | streamlit_app.py:47-51 | a node's value lies within any bounds that hold for all its leaves, so between their least and greatest value |
| Search.DefinedCovers | streamlit_app.py:26-30 | `Defined` holds iff every leaf id below the node has a value in the map |
| Search.ExampleDepthOne | streamlit_app.py:83 | depth 1 with leaves 4 and 7 gives best value 7 |
| Search.ExampleDepthTwo | streamlit_app.py:83 | depth 2 with leaves 3, 5, 2 and 9 gives best value max(min(3,5), min(2,9)) = 3 |
| Session.TouchLeaves | streamlit_app.py:28-30 | visiting leaves makes at most one draw per visit, and the draw count never goes back |
| Session.TouchLeavesAppend | streamlit_app.py:44-45 | visiting the left subtree's leaves and then the right one's is visiting all of the node's leaves in order |
| Session.TouchLeavesKeeps | streamlit_app.py:28-30 | a cached value is never reassigned |
| Session.TouchLeavesExtends | streamlit_app.py:28-30 | the walk keeps every cache entry it finds (write-once) |
| Session.TouchLeavesKeys | streamlit_app.py:28-30 | after the walk the cache holds exactly its old keys plus the visited leaf ids |
| Session.TouchLeavesInRange | streamlit_app.py:30 | with draws in [-10, 10], every newly cached value lies in [-10, 10] |
| Session.TouchLeavesCount | streamlit_app.py:28-30 | on distinct, uncached leaves the walk makes exactly one draw per leaf |
| Session.TouchLeavesInOrder | streamlit_app.py:44-45 | on distinct, uncached leaves the i-th leaf from the left gets the i-th draw |
| Session.DrawTree | streamlit_app.py:24-60 | the walk leaves the cache as `TouchLeaves` of the node's leaves in left-to-right order, keeps every old entry, defines every leaf, and returns the node's `Evaluate` value; a leaf returns its cached value or else the next draw |
| Session.WalkLeaf | streamlit_app.py:26-33 | walking a leaf caches it only if it is missing and reads back the cached value |
| Session.WalkBothChildren | streamlit_app.py:44-45 | walking the left child and then the right one composes into walking the node, and the right walk does not change the left value |
| Session.GenerateTree | streamlit_app.py:83 | the root call on "Root" as maximizer returns the Minimax value whichever algorithm is chosen, equal to the reference evaluator in which every node's role is read off its id; with cache and draws in [-10, 10] the best value and the new cache lie in [-10, 10] |
| Session.FreshTreeInOrder | streamlit_app.py:44-45 | on a first walk over uncached leaves the walk makes 2^depth draws and the i-th leaf from the left gets the i-th draw |

## Left out

- Page setup, sidebar widgets, the "Generate Tree" button and the `tree_generated` flag (streamlit_app.py:8-21, 69-92) are UI plumbing. The depth widget's bounds 1..10 appear only as the precondition of `GenerateTree`, and the algorithm radio button appears only as its `alg` parameter.
- The matplotlib text, figure and `ConnectionPatch` calls (streamlit_app.py:32, 36, 53, 56-58, 71-74, 86) are rendering through a library outside this model.
- The node coordinates `x`, `y`, `step_x`, `step_y` (streamlit_app.py:39-41, 77-80) are floating-point layout only and do not affect any value.
- `random.randint` (streamlit_app.py:30) is not modelled as a generator. It is an injected stream of draws, and its range [-10, 10] is the hypothesis `RollsInRange`.
- Python's `max`/`min` return the first argument on a tie. `Max` and `Min` do the same, though for integers the choice cannot be observed.
- Session.TouchLeavesCount, Session.TouchLeavesInOrder and Session.FreshTreeInOrder state the draw count and draw order only for leaves not yet cached. When a previous walk left some leaves cached, the draws go to the remaining leaves in the same left-to-right order, which `TouchLeaves` defines but no lemma restates.
