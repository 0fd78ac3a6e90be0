# Density twins: the compatibility engine

`density-twins.cpp` searches the simple graphs of one order V (1..9) for
pairs of *density twins*: graphs that are *compatible*. Graph G1 is
compatible with G2 when, for every loop set S ⊆ V(G2), some vertex map
f : V(G1) → V(G2) is a *loop-homomorphism*, and the same holds from G2 to
G1. In a loop-homomorphism:

- every pair that f separates keeps its adjacency;
- every pair that f collapses onto one vertex k is an edge exactly when k
  carries a loop.

Before the expensive test, the program computes four invariants of every
graph:

- independence number;
- clique number;
- number of empty twin pairs;
- number of connected twin pairs.

A pair is only tested when the four invariants agree and the first graph
has twins of both kinds.

The model keeps the program's imperative shape. One object,
`DensityTwins.Engine`, holds the shared state:

- the graph corpus;
- the invariant table `homog`, an `array2<int>`;
- the loop vector `loopVec` and the vertex map `homomorph`, both `array<int>`.

Each routine of the program is a method on that object, and its `modifies`
clause names exactly the arrays it writes. Each method is proved against
pure predicates, which live in three further modules:

- `Counter`: digit vectors and the counter step. `Value` reads a vector as a
  number with position 0 least significant. `Succ` is one step of the
  program's carry loop. `Value` is injective and ranges over
  [0, b^|s|), so a counter whose value goes up by one per step
  visits every vector exactly once.
- `Graphs`: adjacency matrices, twin pairs and their counts, homogeneous
  subsets and the largest such subset, and the complement graph.
- `Oracle`: the loop-homomorphism condition (`IsLoopHom`) and its two
  partial checks. `Accepts` is what the program actually accepts.
  `Compatible` and `SampledPass` describe the staged sweep.

The three counter loops (the subset search, the map search and the sampled
sweep) share one method, `DensityTwins.Advance`. The source reads
`loopVec[j]` or `homomorph[j]` before testing `j < n`, so it reads one
element past the end of the array. `Advance` tests `j < n` first, and
nothing else changes: the program's answer does not depend on that read.
On a 0/1 vector, `Advance` raising `a[j]` by one is the same as the
source's `loopVec[j] = 1`.

The full pair check `checkLoopVecHom` starts its outer loop at vertex 1, so
pairs (0, j) are not checked there. For every map other than the all-zero
map, the even-row pre-check `checkLoopVecHomRand` covers those pairs, and
the two checks together decide exactly the loop-homomorphism condition
(`Oracle.AcceptsNonZero`). The all-zero map, however, is judged by
`checkLoopVecHom` alone.

The comment on `checkLoopVecHom` (density-twins.cpp:109) promises a loop
homomorphism: every pair (i, j), 0 <= i < j < n, is respected
(`Oracle.IsLoopHom`). The code does not check pairs (0, j) for the all-zero
map, and the model follows the code: `Oracle.Accepts` is written that way.
Three lemmas make the difference precise:

- `Oracle.AcceptsSomeCharacterized` shows that the map search succeeds
  exactly when a loop-homomorphism exists, or when the all-zero map passes
  the rows-from-one check.
- `Oracle.ZeroMapSkipsRowZero` gives a concrete case where the two differ:
  the single edge on two vertices against the edgeless graph on two
  vertices, with no loops.
- `Oracle.AcceptsSomeReflexive` shows that the search always succeeds from
  a graph to itself, because the identity map is not the all-zero map once
  n >= 2.

## Model

| member | source | states |
|---|---|---|
| DensityTwins.Engine.CountTwins | density-twins.cpp:54-71 | homog[r, 2] becomes the number of empty twin pairs and homog[r, 3] the number of connected twin pairs of graph[r] on n vertices; every other entry of homog is unchanged |
| DensityTwins.TwinCounts | density-twins.cpp:55-68 | the two nested pair loops return exactly EmptyTwins and ConnectedTwins: one count per pair i < j whose rows agree off {i, j}, split by whether i and j are adjacent |
| DensityTwins.TwinTest | density-twins.cpp:59-64 | the inner scan answers true exactly when i and j see every third vertex among the first n alike (IsTwin) |
| Graphs.TwinCountBound | density-twins.cpp:54-71 | the empty and connected twin counts together are at most n(n-1)/2 |
| Graphs.CompleteGraphTwins | density-twins.cpp:54-71 | on the complete graph every pair is a connected twin pair: n(n-1)/2 connected twins, no empty twins |
| Graphs.EmptyGraphTwins | density-twins.cpp:54-71 | on the edgeless graph every pair is an empty twin pair: n(n-1)/2 empty twins, no connected twins |
| DensityTwins.Engine.CheckHomog | density-twins.cpp:74-80 | returns true exactly when every two members i < j of the subset in loopVec are joined by edge (a clique for 1, an independent set for 0); changes nothing |
| DensityTwins.Engine.CountMembers | density-twins.cpp:100-103 | size is the number of members of the subset in loopVec |
| DensityTwins.Engine.Visit | density-twins.cpp:104-105 | homog[r, edge] takes the subset's size exactly when that size beats the old value and the subset is homogeneous; no other entry of homog changes |
| DensityTwins.Engine.MaxHomog | density-twins.cpp:83-107 | homog[r, edge] becomes the largest size of a homogeneous subset (independence or clique number), every other entry of homog is unchanged, and loopVec[..n] is left all zeros |
| DensityTwins.NoneLargerStep | density-twins.cpp:100-105 | visiting the subset of counter value v extends "no homogeneous subset below v is larger than the best" to v + 1 with the updated best |
| DensityTwins.NoneLargerDone | density-twins.cpp:94-97 | once every value below 2^n has been visited, the best so far, witnessed by a visited subset or by the empty set, is the maximum |
| Graphs.MaxHomogBounds | density-twins.cpp:83-107 | on n >= 1 vertices the independence and clique numbers lie in 1..n |
| Graphs.ComplementSwapsNumbers | density-twins.cpp:82-107 | the independence number of a graph is the clique number of its complement, and the other way round |
| DensityTwins.Advance | density-twins.cpp:89-99 | one counter step in place: a[..n] becomes Succ of its old value, the rest of a is unchanged, and the result says whether the counter wrapped (every digit was maximal) |
| Counter.StepFacts | density-twins.cpp:89-99 | a step keeps a digit vector of the same length; it either raises the value by one without reaching zeros, or wraps from b^n - 1 to the zero vector |
| Counter.SuccAfterCarry | density-twins.cpp:89-99 | with the first j digits maximal and digit j not, the step clears those j digits and raises digit j by one |
| Counter.ValueInjective | density-twins.cpp:88-106 | distinct digit vectors of one length have distinct values, so no counter visits a vector twice |
| Counter.ValueRange | density-twins.cpp:88-106 | the value of a digit vector lies in [0, b^n), so counting up from 0 to b^n - 1 visits every vector |
| Counter.ValueZeroIsZeros | density-twins.cpp:134-147 | the zero vector is the only vector of value 0, so the search that starts at the all-zero map has tested that map before any other |
| DensityTwins.Engine.CheckLoopVecHom | density-twins.cpp:110-119 | returns true exactly when the map in homomorph respects every pair 1 <= i < j < n for the loop set in loopVec |
| DensityTwins.Engine.CheckLoopVecHomRand | density-twins.cpp:122-131 | returns true exactly when the map respects every pair i < j with i even |
| Oracle.PartialChecksCoverAll | density-twins.cpp:110-131 | the even-row check and the rows-from-one check hold together exactly when every pair 0 <= i < j < n is respected |
| Oracle.AcceptsNonZero | density-twins.cpp:148 | for every map but the all-zero one, passing both checks is exactly the loop-homomorphism condition |
| DensityTwins.Engine.PairTest | density-twins.cpp:113-116 | answers true exactly when the current map respects the pair i < j: a separated pair keeps its adjacency, a collapsed pair is an edge exactly when its image carries a loop (PairOk); changes nothing |
| DensityTwins.Engine.CheckLoopVec | density-twins.cpp:134-151 | returns true exactly when some map of {0..n-1} passes the oracle for loopVec; homomorph stays a map with entries in [0, n); on success homomorph holds the first passing map in the base-n counter order, every map of smaller value being rejected; on failure it is back at all zeros; loopVec is not written |
| DensityTwins.RejectedNone | density-twins.cpp:135-136 | before the search starts, "every map below value 0 fails" holds trivially |
| DensityTwins.RejectedStep | density-twins.cpp:145-149 | a map of value v that fails extends "every map below v fails" to v + 1 |
| DensityTwins.RejectedDone | density-twins.cpp:145-146 | once every value below n^n has failed, no map passes |
| Oracle.AcceptsSomeCharacterized | density-twins.cpp:134-151 | the map search succeeds exactly when a loop-homomorphism exists or the all-zero map passes the rows-from-one check |
| Oracle.ZeroMapSkipsRowZero | density-twins.cpp:137 | the single edge on two vertices against the edgeless graph with no loops is accepted through the all-zero map, although no loop-homomorphism exists |
| Oracle.AcceptsSomeReflexive | density-twins.cpp:134-151 | from a graph to itself the search succeeds for every loop set, and a loop-homomorphism (the identity) exists |
| DensityTwins.Engine.FillLoopVec | density-twins.cpp:156-157 | loopVec[..n] becomes n copies of the given value (all ones for the sweep, all zeros or all ones for the two fixed loop sets); loopVec beyond n is unchanged |
| DensityTwins.Engine.Sample | density-twins.cpp:171-174 | a loop set of rank counter that is not a multiple of skip is skipped; one that is passes exactly when the map search succeeds for it; either the sampled pass extends past this set, or this set is the first sampled one that fails, which refutes the sampled pass |
| DensityTwins.Engine.CheckDeep | density-twins.cpp:153-176 | returns true exactly when the map search succeeds for every loop set whose counter value k + 1 is a multiple of skip; on true loopVec[..n] is left all zeros; on false loopVec holds the first sampled loop set, in counter order, that fails; loopVec beyond n is unchanged |
| DensityTwins.PassedStep | density-twins.cpp:171-174 | visiting the loop set of value v, skipped or passed, extends "every sampled set below v passes" to v + 1 |
| DensityTwins.PassedDone | density-twins.cpp:167-168 | once every value below 2^n is visited, the sampled pass holds |
| DensityTwins.SampledFails | density-twins.cpp:173-174 | one sampled loop set that fails refutes the sampled pass |
| DensityTwins.Engine.CheckCompatible | density-twins.cpp:179-202 | returns true exactly when, for every loop set, the map search succeeds in both directions |
| Oracle.RejectedLoopSet | density-twins.cpp:180-187 | a loop set for which the map search fails in one direction refutes compatibility, so the two early returns for the all-zero and all-one loop sets are sound |
| Oracle.RejectedStage | density-twins.cpp:188-199 | a sampled stage that fails in either direction refutes compatibility, so each early return of the staged sweep is sound |
| Oracle.CompatibleIsFullSweep | density-twins.cpp:201 | the stride-1 sweep in both directions is compatibility itself |
| Oracle.CompatiblePassesEveryStride | density-twins.cpp:188-199 | a compatible pair passes every sampled stage, so the earlier stages only reject what the final stage would reject |
| Oracle.CompatibleReflexive | density-twins.cpp:179-202 | every graph is compatible with itself |
| Oracle.CompatibleSymmetric | density-twins.cpp:179-202 | compatibility does not depend on the order of the two graphs |
| DensityTwins.Engine.ComputeInvariants | density-twins.cpp:208-212 | afterwards every row of homog holds the independence number, clique number, empty twins and connected twins of its graph |
| DensityTwins.Engine.Run | density-twins.cpp:204-231 | the reported pairs are exactly the pairs r1 < r2 that pass the pre-filter (twins of both kinds in graph[r1], all four invariants equal) and are compatible, listed in increasing lexicographic order; the invariant table is complete |

## Left out

- `loadGraph` (density-twins.cpp:25-41) reads the corpus from a file with a hard-coded path. The model takes the corpus as a constructor argument and requires each graph to be a symmetric 0/1 matrix with a zero diagonal.
- `printGraph` and every `printf` are left out: the progress markers every hundred graphs and the report of each compatible pair with both matrices. `Run` returns the list of compatible pairs instead.
- The claimed results are left out (one pair for V = 7, four for V = 8, and the running times). They depend on the external graph database.
- The constant V and the static sizing of the arrays (274668 graphs) are left out. The order is a field between 1 and 9, the corpus holds `NumGraphs[order]` graphs, and the arrays have exactly that many rows.
- The C widths `short` and `int` are not modelled; integers are unbounded. Every value stored stays small: `loopVec` holds only 0 and 1, `homomorph` at most n - 1 = 8, the homogeneous numbers at most 9 and the twin counts at most 36. The sweep counter reaches 2^n + 1 = 513, because it is incremented once more on the final wrap (density-twins.cpp:159) before the return (density-twins.cpp:168). So no wrap-around can occur.
- The out-of-bounds read of `loopVec[n]` or `homomorph[n]` in the carry loops (density-twins.cpp:90, 141, 161) is not modelled. The model tests `j < n` first.
- DensityTwins.Engine.MaxHomog does not state that `loopVec` entries at positions n and beyond are unchanged. The source's loops write only positions below n. The statement is left out to keep the proof small, and it is empty for the only call the program makes, where n is the order.
