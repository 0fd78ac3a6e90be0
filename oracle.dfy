/** The loop-homomorphism condition and what the program's oracle actually
    accepts.

    A vertex map f from G1 to G2 (both on n vertices, f given as the sequence of
    images) is a loop-homomorphism for the loop set S of G2 when every pair
    i < j of G1 keeps its adjacency if f separates it, and otherwise has the
    adjacency that the loop bit S[f(i)] gives the image vertex. */
module Oracle {
  import opened Counter
  import opened Graphs

  /** f is a vertex map of {0..n-1} into itself. */
  predicate IsMap(f: seq<int>, n: nat)
  {
    |f| == n && IsDigits(f, n)
  }

  /** Entry k of the loop vector; outside it reads as 0. */
  function LoopBit(s: seq<int>, k: int): int
  {
    if 0 <= k < |s| then s[k] else 0
  }

  /** The pair (i, j) of G1 is respected by f for the loop set s. */
  predicate PairOk(g1: Matrix, g2: Matrix, s: seq<int>, f: seq<int>, i: nat, j: nat)
    requires i < |f| && j < |f|
  {
    if f[i] != f[j] then Adj(g1, i, j) == Adj(g2, f[i], f[j])
    else Adj(g1, i, j) == LoopBit(s, f[i])
  }

  /** The intended condition: every pair 0 <= i < j < |f| is respected. */
  predicate IsLoopHom(g1: Matrix, g2: Matrix, s: seq<int>, f: seq<int>)
  {
    forall i, j :: 0 <= i < j < |f| ==> PairOk(g1, g2, s, f, i, j)
  }

  /** The pairs whose smaller vertex is at least 1 are respected (the full check
      of density-twins.cpp starts its outer loop at 1). */
  predicate RowsFromOneOk(g1: Matrix, g2: Matrix, s: seq<int>, f: seq<int>)
  {
    forall i, j :: 1 <= i < j < |f| ==> PairOk(g1, g2, s, f, i, j)
  }

  /** The pairs whose smaller vertex is even are respected (the cheap
      pre-check). */
  predicate EvenRowsOk(g1: Matrix, g2: Matrix, s: seq<int>, f: seq<int>)
  {
    forall i, j :: 0 <= i < j < |f| && i % 2 == 0 ==> PairOk(g1, g2, s, f, i, j)
  }

  /** What the oracle accepts, as written: the all-zero map passes on the
      rows-from-one check alone, every other map needs both checks. */
  predicate Accepts(g1: Matrix, g2: Matrix, s: seq<int>, f: seq<int>)
  {
    if f == Zeros(|f|) then RowsFromOneOk(g1, g2, s, f)
    else EvenRowsOk(g1, g2, s, f) && RowsFromOneOk(g1, g2, s, f)
  }

  /** Some map of {0..n-1} passes the oracle for the loop vector s. */
  ghost predicate AcceptsSome(g1: Matrix, g2: Matrix, n: nat, s: seq<int>)
  {
    exists f :: IsMap(f, n) && Accepts(g1, g2, s, f)
  }

  /** Some map is a loop-homomorphism for the loop vector s (intended meaning). */
  ghost predicate LoopHomExists(g1: Matrix, g2: Matrix, n: nat, s: seq<int>)
  {
    exists f :: IsMap(f, n) && IsLoopHom(g1, g2, s, f)
  }

  /** The two partial checks cover all pairs: row 0 is even. */
  lemma PartialChecksCoverAll(g1: Matrix, g2: Matrix, s: seq<int>, f: seq<int>)
    ensures (EvenRowsOk(g1, g2, s, f) && RowsFromOneOk(g1, g2, s, f)) == IsLoopHom(g1, g2, s, f)
  {
    if EvenRowsOk(g1, g2, s, f) && RowsFromOneOk(g1, g2, s, f) {
      forall i, j | 0 <= i < j < |f| ensures PairOk(g1, g2, s, f, i, j) {
        if i == 0 {
          assert i % 2 == 0;
        }
      }
    }
  }

  /** For every map except the all-zero one, the oracle decides exactly the
      loop-homomorphism condition. */
  lemma AcceptsNonZero(g1: Matrix, g2: Matrix, s: seq<int>, f: seq<int>)
    requires f != Zeros(|f|)
    ensures Accepts(g1, g2, s, f) == IsLoopHom(g1, g2, s, f)
  {
    PartialChecksCoverAll(g1, g2, s, f);
  }

  /** The oracle finds a map exactly when a loop-homomorphism exists or the
      all-zero map passes the rows-from-one check. */
  lemma AcceptsSomeCharacterized(g1: Matrix, g2: Matrix, n: nat, s: seq<int>)
    ensures AcceptsSome(g1, g2, n, s) ==
            (LoopHomExists(g1, g2, n, s) || RowsFromOneOk(g1, g2, s, Zeros(n)))
  {
    var z := Zeros(n);
    assert IsMap(z, n);
    if AcceptsSome(g1, g2, n, s) {
      var f :| IsMap(f, n) && Accepts(g1, g2, s, f);
      if f != Zeros(|f|) {
        AcceptsNonZero(g1, g2, s, f);
      }
    }
    if LoopHomExists(g1, g2, n, s) {
      var f :| IsMap(f, n) && IsLoopHom(g1, g2, s, f);
      PartialChecksCoverAll(g1, g2, s, f);
      assert Accepts(g1, g2, s, f);
    }
    if RowsFromOneOk(g1, g2, s, z) {
      assert Accepts(g1, g2, s, z);
    }
  }

  /** The identity map of {0..n-1}. */
  function Identity(n: nat): seq<int>
  {
    seq(n, i => i)
  }

  /** The identity map collapses nothing, so it is a loop-homomorphism from a
      graph to itself for every loop set. */
  lemma IdentityIsLoopHom(g: Matrix, n: nat, s: seq<int>)
    ensures IsMap(Identity(n), n) && IsLoopHom(g, g, s, Identity(n))
  {
  }

  /** Hence the oracle succeeds from a graph to itself for every loop vector
      (for n >= 2 the identity is not the all-zero map; for n <= 1 the
      all-zero map has no pair to check). */
  lemma AcceptsSomeReflexive(g: Matrix, n: nat, s: seq<int>)
    ensures AcceptsSome(g, g, n, s) && LoopHomExists(g, g, n, s)
  {
    var id := Identity(n);
    IdentityIsLoopHom(g, n, s);
    if n >= 2 {
      assert id[1] == 1;
      AcceptsNonZero(g, g, s, id);
    } else {
      assert id == Zeros(|id|);
    }
    assert Accepts(g, g, s, id);
  }

  /** The row-0 gap in the all-zero case is observable: the single edge K2
      against the edgeless graph on two vertices, with no loops, is accepted
      through the all-zero map although no loop-homomorphism exists (the pair
      (0, 1) is an edge, while its image is a non-loop vertex or a non-edge). */
  lemma ZeroMapSkipsRowZero()
    ensures AcceptsSome([[0, 1], [1, 0]], [[0, 0], [0, 0]], 2, [0, 0])
    ensures !LoopHomExists([[0, 1], [1, 0]], [[0, 0], [0, 0]], 2, [0, 0])
  {
    var g1: Matrix := [[0, 1], [1, 0]];
    var g2: Matrix := [[0, 0], [0, 0]];
    var s := [0, 0];
    var z := Zeros(2);
    assert IsMap(z, 2) && z == Zeros(|z|);
    assert Accepts(g1, g2, s, z);
    forall f | IsMap(f, 2) ensures !IsLoopHom(g1, g2, s, f) {
      assert !PairOk(g1, g2, s, f, 0, 1);
    }
  }

  // ------------------------------------------------------ compatibility

  /** Every loop set S whose counter rank Value(S) + 1 is a multiple of skip
      lets the oracle succeed from g1 to g2. */
  ghost predicate SampledPass(g1: Matrix, g2: Matrix, n: nat, skip: nat)
    requires skip > 0
  {
    forall s :: IsSubset(s, n) && (Value(s, 2) + 1) % skip == 0 ==> AcceptsSome(g1, g2, n, s)
  }

  /** The pair is compatible: for every loop set the oracle succeeds in both
      directions. */
  ghost predicate Compatible(g1: Matrix, g2: Matrix, n: nat)
  {
    forall s :: IsSubset(s, n) ==> AcceptsSome(g1, g2, n, s) && AcceptsSome(g2, g1, n, s)
  }

  /** The exhaustive sweep (stride 1) in both directions is compatibility. */
  lemma CompatibleIsFullSweep(g1: Matrix, g2: Matrix, n: nat)
    ensures Compatible(g1, g2, n) == (SampledPass(g1, g2, n, 1) && SampledPass(g2, g1, n, 1))
  {
    if SampledPass(g1, g2, n, 1) && SampledPass(g2, g1, n, 1) {
      forall s | IsSubset(s, n)
        ensures AcceptsSome(g1, g2, n, s) && AcceptsSome(g2, g1, n, s)
      {
        assert (Value(s, 2) + 1) % 1 == 0;
      }
    }
  }

  /** A sampled stage can only reject a compatible pair by a loop set the
      exhaustive stage would also reject: compatibility passes every stride. */
  lemma CompatiblePassesEveryStride(g1: Matrix, g2: Matrix, n: nat, skip: nat)
    requires skip > 0 && Compatible(g1, g2, n)
    ensures SampledPass(g1, g2, n, skip) && SampledPass(g2, g1, n, skip)
  {
  }

  /** A loop set on which the oracle fails in either direction refutes
      compatibility. */
  lemma RejectedLoopSet(g1: Matrix, g2: Matrix, n: nat, s: seq<int>)
    requires IsSubset(s, n)
    requires !AcceptsSome(g1, g2, n, s) || !AcceptsSome(g2, g1, n, s)
    ensures !Compatible(g1, g2, n)
  {
  }

  /** A sampled stage, stride skip1 from g1 to g2 and stride skip2 back, that
      fails in either direction refutes compatibility. */
  lemma RejectedStage(g1: Matrix, g2: Matrix, n: nat, skip1: nat, skip2: nat)
    requires skip1 > 0 && skip2 > 0
    requires !SampledPass(g1, g2, n, skip1) || !SampledPass(g2, g1, n, skip2)
    ensures !Compatible(g1, g2, n)
  {
    if Compatible(g1, g2, n) {
      CompatiblePassesEveryStride(g1, g2, n, skip1);
      CompatiblePassesEveryStride(g1, g2, n, skip2);
    }
  }

  /** Every graph is compatible with itself. */
  lemma CompatibleReflexive(g: Matrix, n: nat)
    ensures Compatible(g, g, n)
  {
    forall s | IsSubset(s, n) ensures AcceptsSome(g, g, n, s) {
      AcceptsSomeReflexive(g, n, s);
    }
  }

  /** Compatibility is symmetric in the two graphs. */
  lemma CompatibleSymmetric(g1: Matrix, g2: Matrix, n: nat)
    ensures Compatible(g1, g2, n) == Compatible(g2, g1, n)
  {
  }
}
