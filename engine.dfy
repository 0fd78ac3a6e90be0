/** The compatibility engine of density-twins.cpp: the program's shared state
    (graph corpus, invariant table, loop vector, vertex map) as one object, and
    each of its routines as a method over that state. */
module DensityTwins {
  import opened Counter
  import opened Graphs
  import opened Oracle

  /** Number of simple graphs on V vertices, for V = 0..9. */
  const NumGraphs: seq<nat> := [1, 1, 2, 4, 11, 34, 156, 1044, 12346, 274668]

  /** A positive stride of the staged sweep. */
  type Stride = k: nat | k > 0 witness 1

  /** The sampled stages of checkCompatible: stride for (r1, r2), stride for (r2, r1). */
  const Schedule: seq<(Stride, Stride)> := [(81, 79), (27, 25), (9, 7), (3, 3)]

  /** (a, b, c, d) is the invariant record of g on n vertices: independence
      number, clique number, empty twins, connected twins. */
  ghost predicate IsRecordOf(g: Matrix, n: nat, a: int, b: int, c: int, d: int)
  {
    IsMaxHomogSize(g, n, 0, a) && IsMaxHomogSize(g, n, 1, b) &&
    c == EmptyTwins(g, n) && d == ConnectedTwins(g, n)
  }

  /** The pair (r1, r2) comes before (q1, q2) in the scan's order. */
  predicate LexLess(p: (nat, nat), q: (nat, nat))
  {
    p.0 < q.0 || (p.0 == q.0 && p.1 < q.1)
  }

  // ----------------------------------------------- enumeration bookkeeping

  /** No homogeneous subset whose counter value is below v is larger than m. */
  ghost predicate NoneLargerBelow(g: Matrix, n: nat, edge: int, v: int, m: int)
  {
    forall s :: IsSubset(s, n) && Value(s, 2) < v && IsHomogeneous(g, s, edge) ==> Size(s) <= m
  }

  /** w is a homogeneous subset of size m whose counter value is below v. */
  ghost predicate Witness(g: Matrix, n: nat, edge: int, v: int, m: int, w: seq<int>)
  {
    IsSubset(w, n) && Value(w, 2) < v && IsHomogeneous(g, w, edge) && Size(w) == m
  }

  /** Before any subset is visited, the running maximum 0 is not exceeded. */
  lemma NoneLargerBelowZero(g: Matrix, n: nat, edge: int)
    ensures NoneLargerBelow(g, n, edge, 0, 0)
  {
    forall s | IsSubset(s, n)
      ensures Value(s, 2) >= 0
    {
      ValueRange(s, 2);
    }
  }

  /** Visiting the subset with value v extends the running maximum to v + 1. */
  lemma NoneLargerStep(g: Matrix, n: nat, edge: int, v: int, m: int, cur: seq<int>)
    requires NoneLargerBelow(g, n, edge, v, m)
    requires IsSubset(cur, n) && Value(cur, 2) == v
    ensures NoneLargerBelow(g, n, edge, v + 1,
                            if Size(cur) > m && IsHomogeneous(g, cur, edge) then Size(cur) else m)
  {
    forall s | IsSubset(s, n) && Value(s, 2) == v
      ensures s == cur
    {
      ValueInjective(s, cur, 2);
    }
  }

  /** After every value below 2^n, the running maximum m, witnessed by w or
      by the empty set when m is 0, is the maximum. */
  lemma NoneLargerDone(g: Matrix, n: nat, edge: int, m: int, w: seq<int>)
    requires NoneLargerBelow(g, n, edge, Pow(2, n), m)
    requires m == 0 || Witness(g, n, edge, Pow(2, n), m, w)
    ensures IsMaxHomogSize(g, n, edge, m)
  {
    forall s | IsSubset(s, n)
      ensures Value(s, 2) < Pow(2, n)
    {
      ValueRange(s, 2);
    }
    if m == 0 {
      var z := Zeros(n);
      assert IsSubset(z, n) && IsHomogeneous(g, z, edge);
      SizeZeros(n);
    }
  }

  lemma {:induction false} SizeZeros(n: nat)
    ensures Size(Zeros(n)) == 0
  {
    if n > 0 {
      assert Zeros(n)[..n - 1] == Zeros(n - 1);
      SizeZeros(n - 1);
    }
  }

  /** No map with counter value below v passes the oracle. */
  ghost predicate RejectedBelow(g1: Matrix, g2: Matrix, s: seq<int>, n: nat, v: int)
  {
    forall f :: IsMap(f, n) && Value(f, n) < v ==> !Accepts(g1, g2, s, f)
  }

  /** Before any map is tested, no map is known to pass: the empty prefix. */
  lemma RejectedNone(g1: Matrix, g2: Matrix, s: seq<int>, n: nat)
    ensures RejectedBelow(g1, g2, s, n, 0)
  {
    forall f | IsMap(f, n)
      ensures Value(f, n) >= 0
    {
      ValueRange(f, n);
    }
  }

  /** f is the first map, in counter order, that passes the oracle. */
  ghost predicate FirstAccepted(g1: Matrix, g2: Matrix, s: seq<int>, n: nat, f: seq<int>)
  {
    IsMap(f, n) && Accepts(g1, g2, s, f) && RejectedBelow(g1, g2, s, n, Value(f, n))
  }

  /** The all-zero map, tested first, has value 0; it is the only map below 1. */
  lemma RejectedFirst(g1: Matrix, g2: Matrix, s: seq<int>, n: nat)
    requires !Accepts(g1, g2, s, Zeros(n))
    ensures RejectedBelow(g1, g2, s, n, Value(Zeros(n), n) + 1)
    ensures 0 <= Value(Zeros(n), n) < Pow(n, n)
  {
    ValueZeros(n, n);
    forall f | IsMap(f, n) && Value(f, n) < 1
      ensures !Accepts(g1, g2, s, f)
    {
      ValueRange(f, n);
      ValueZeroIsZeros(f, n);
    }
    if n > 0 {
      assert IsDigits(Zeros(n), n);
      ValueRange(Zeros(n), n);
    }
  }

  lemma RejectedStep(g1: Matrix, g2: Matrix, s: seq<int>, n: nat, v: int, cur: seq<int>)
    requires RejectedBelow(g1, g2, s, n, v)
    requires IsMap(cur, n) && Value(cur, n) == v && !Accepts(g1, g2, s, cur)
    ensures RejectedBelow(g1, g2, s, n, v + 1)
  {
    forall f | IsMap(f, n) && Value(f, n) == v
      ensures f == cur
    {
      ValueInjective(f, cur, n);
    }
  }

  /** Once every value below n^n is rejected, no map passes. */
  lemma RejectedDone(g1: Matrix, g2: Matrix, s: seq<int>, n: nat)
    requires RejectedBelow(g1, g2, s, n, Pow(n, n))
    ensures !AcceptsSome(g1, g2, n, s)
  {
    forall f | IsMap(f, n)
      ensures !Accepts(g1, g2, s, f)
    {
      ValueRange(f, n);
    }
  }

  /** Every loop set below v whose rank is a multiple of skip has passed. */
  ghost predicate PassedBelow(g1: Matrix, g2: Matrix, n: nat, skip: nat, v: int)
    requires skip > 0
  {
    forall s :: IsSubset(s, n) && Value(s, 2) < v && (Value(s, 2) + 1) % skip == 0 ==>
      AcceptsSome(g1, g2, n, s)
  }

  lemma PassedStep(g1: Matrix, g2: Matrix, n: nat, skip: nat, v: int, cur: seq<int>)
    requires skip > 0 && PassedBelow(g1, g2, n, skip, v)
    requires IsSubset(cur, n) && Value(cur, 2) == v
    requires (v + 1) % skip == 0 ==> AcceptsSome(g1, g2, n, cur)
    ensures PassedBelow(g1, g2, n, skip, v + 1)
  {
    forall s | IsSubset(s, n) && Value(s, 2) == v
      ensures s == cur
    {
      ValueInjective(s, cur, 2);
    }
  }

  lemma PassedNone(g1: Matrix, g2: Matrix, n: nat, skip: nat)
    requires skip > 0
    ensures PassedBelow(g1, g2, n, skip, 0)
  {
    forall s | IsSubset(s, n)
      ensures Value(s, 2) >= 0
    {
      ValueRange(s, 2);
    }
  }

  lemma PassedDone(g1: Matrix, g2: Matrix, n: nat, skip: nat)
    requires skip > 0 && PassedBelow(g1, g2, n, skip, Pow(2, n))
    ensures SampledPass(g1, g2, n, skip)
  {
    forall s | IsSubset(s, n)
      ensures Value(s, 2) < Pow(2, n)
    {
      ValueRange(s, 2);
    }
  }

  /** s is the first sampled loop set, in counter order, on which the oracle
      fails: its rank is a multiple of skip, no map passes for it, and every
      sampled set before it passed. */
  ghost predicate FirstFailure(g1: Matrix, g2: Matrix, n: nat, skip: nat, s: seq<int>)
    requires skip > 0
  {
    IsSubset(s, n) && (Value(s, 2) + 1) % skip == 0 && !AcceptsSome(g1, g2, n, s) &&
    PassedBelow(g1, g2, n, skip, Value(s, 2))
  }

  /** One sampled loop set that the oracle rejects refutes the sampled pass. */
  lemma SampledFails(g1: Matrix, g2: Matrix, n: nat, skip: nat, s: seq<int>)
    requires skip > 0 && IsSubset(s, n) && (Value(s, 2) + 1) % skip == 0
    requires !AcceptsSome(g1, g2, n, s)
    ensures !SampledPass(g1, g2, n, skip)
  {
  }

  // ------------------------------------------------------------ the counter

  /** The two loops of the twin count over all pairs i < j of the first n
      vertices: twin counts the empty twin pairs, twinConn the connected ones. */
  method TwinCounts(g: Matrix, n: nat) returns (twin: nat, twinConn: nat)
    requires n <= |g| && forall x :: 0 <= x < n ==> n <= |g[x]|
    ensures twin == EmptyTwins(g, n) && twinConn == ConnectedTwins(g, n)
  {
    twin, twinConn := 0, 0;
    for i := 0 to n
      invariant twin == TwinsBefore(g, n, i, false)
      invariant twinConn == TwinsBefore(g, n, i, true)
    {
      for j := i + 1 to n
        invariant twin == TwinsBefore(g, n, i, false) + TwinsInRow(g, n, i, j, false)
        invariant twinConn == TwinsBefore(g, n, i, true) + TwinsInRow(g, n, i, j, true)
      {
        var found := TwinTest(g, n, i, j);
        if !found {
          continue;
        }
        if g[i][j] == 1 {
          twinConn := twinConn + 1;
        } else {
          twin := twin + 1;
        }
      }
    }
  }

  /** The inner scan of the twin count: whether i and j agree on every third
      vertex k; the scan stops at the first k that tells them apart. */
  method TwinTest(g: Matrix, n: nat, i: nat, j: nat) returns (found: bool)
    requires i < |g| && j < |g| && n <= |g[i]| && n <= |g[j]|
    ensures found == IsTwin(g, n, i, j)
  {
    found := true;
    for k := 0 to n
      invariant forall k' :: 0 <= k' < k && k' != i && k' != j ==> Adj(g, i, k') == Adj(g, j, k')
    {
      if g[i][k] != g[j][k] && k != i && k != j {
        assert Adj(g, i, k) != Adj(g, j, k);
        return false;
      }
    }
  }

  /** One step of an in-place counter over a[..n] in base `base`: clear the
      run of maximal digits from position 0, then increment the first digit
      that is not maximal.  Returns whether the run covered all n digits (the
      counter wrapped round to zeros).  The source tests `a[j] == base - 1`
      before `j < n` and so reads a[n]; here `j < n` is tested first.  For the
      binary counter over the loop vector, `a[j] + 1` is the source's
      `loopVec[j] = 1`, as a non-maximal binary digit is 0. */
  method Advance(a: array<int>, n: nat, base: nat) returns (wrapped: bool)
    requires n <= a.Length && IsDigits(a[..n], base)
    modifies a
    ensures wrapped == AllMax(old(a[..n]), base)
    ensures a[..n] == Succ(old(a[..n]), base)
    ensures a[n..] == old(a[n..])
  {
    ghost var s := a[..n];
    var j := 0;
    while j < n && a[j] == base - 1
      invariant 0 <= j <= n
      invariant forall i :: 0 <= i < j ==> s[i] == base - 1 && a[i] == 0
      invariant forall i :: j <= i < a.Length ==> a[i] == old(a[i])
    {
      a[j] := 0;
      j := j + 1;
    }
    wrapped := j == n;
    if wrapped {
      SuccWrap(s, base);
      assert a[..n] == Zeros(n);
    } else {
      a[j] := a[j] + 1;
      SuccAfterCarry(s, j, base);
      assert a[..n] == Zeros(j) + [s[j] + 1] + s[j + 1..];
    }
  }

  // -------------------------------------------------------------- the engine

  class Engine {
    /** V, the order of every graph in the corpus. */
    const order: nat
    /** graph[r]: the adjacency matrix of the r'th graph on V vertices. */
    const graph: seq<Matrix>
    /** homog[r, 0..3]: independence number, clique number, empty twins, connected twins. */
    const homog: array2<int>
    /** The loop vector: a 0/1 indicator of a vertex subset. */
    const loopVec: array<int>
    /** The candidate vertex map, homomorph[i] being the image of vertex i. */
    const homomorph: array<int>

    ghost predicate Valid()
    {
      1 <= order <= 9 && |graph| == NumGraphs[order] &&
      (forall r :: 0 <= r < |graph| ==> IsGraph(graph[r], order)) &&
      homog.Length0 == |graph| && homog.Length1 == 4 &&
      loopVec.Length == order && homomorph.Length == order && loopVec != homomorph
    }

    /** The corpus is loaded once, already in memory. */
    constructor (v: nat, corpus: seq<Matrix>)
      requires 1 <= v <= 9 && |corpus| == NumGraphs[v]
      requires forall r :: 0 <= r < |corpus| ==> IsGraph(corpus[r], v)
      ensures Valid() && order == v && graph == corpus
      ensures fresh(homog) && fresh(loopVec) && fresh(homomorph)
    {
      order := v;
      graph := corpus;
      homog := new int[|corpus|, 4];
      loopVec := new int[v];
      homomorph := new int[v];
    }

    /** Row r of homog holds the four invariants of graph[r]. */
    ghost predicate HasInvariants(r: nat)
      requires Valid() && r < |graph|
      reads homog
    {
      IsRecordOf(graph[r], order, homog[r, 0], homog[r, 1], homog[r, 2], homog[r, 3])
    }

    /** Count the empty and the connected twin pairs of graph[r] on n vertices
        into homog[r, 2] and homog[r, 3]. */
    method CountTwins(n: nat, r: nat)
      requires Valid() && n <= order && r < |graph|
      modifies homog
      ensures homog[r, 2] == EmptyTwins(graph[r], n)
      ensures homog[r, 3] == ConnectedTwins(graph[r], n)
      ensures forall r', e :: 0 <= r' < homog.Length0 && 0 <= e < 4 && !(r' == r && 2 <= e) ==>
        homog[r', e] == old(homog[r', e])
    {
      var twin, twinConn := TwinCounts(graph[r], n);
      homog[r, 2] := twin;
      homog[r, 3] := twinConn;
    }

    /** The first n entries of loopVec become v (all ones: the full set; all
        zeros: the empty set); the rest is untouched. */
    method FillLoopVec(n: nat, v: int)
      requires Valid() && n <= order
      modifies loopVec
      ensures loopVec[..n] == seq(n, _ => v) && loopVec[n..] == old(loopVec[n..])
    {
      for i := 0 to n
        invariant forall k :: 0 <= k < i ==> loopVec[k] == v
        invariant forall k :: i <= k < loopVec.Length ==> loopVec[k] == old(loopVec[k])
      {
        loopVec[i] := v;
      }
    }

    /** Whether the subset designated by loopVec is a clique (edge == 1) or an
        independent set (edge == 0) of graph[r]. */
    method CheckHomog(n: nat, r: nat, edge: int) returns (ok: bool)
      requires Valid() && n <= order && r < |graph|
      ensures ok == IsHomogeneous(graph[r], loopVec[..n], edge)
    {
      var s := loopVec[..n];
      for i := 0 to n
        invariant forall i', j' :: 0 <= i' < i && i' < j' < n && s[i'] == 1 && s[j'] == 1 ==>
          Adj(graph[r], i', j') == edge
      {
        for j := i + 1 to n
          invariant forall j' :: i < j' < j && s[i] == 1 && s[j'] == 1 ==> Adj(graph[r], i, j') == edge
        {
          if loopVec[i] == 1 && loopVec[j] == 1 && graph[r][i][j] != edge {
            assert s[i] == 1 && s[j] == 1 && Adj(graph[r], i, j) != edge;
            return false;
          }
        }
      }
      return true;
    }

    /** The number of members of the subset held in loopVec[..n]. */
    method CountMembers(n: nat) returns (size: nat)
      requires Valid() && n <= order
      ensures size == Size(loopVec[..n])
    {
      size := 0;
      for i := 0 to n
        invariant size == Size(loopVec[..i])
      {
        assert loopVec[..i + 1][..i] == loopVec[..i];
        if loopVec[i] == 1 {
          size := size + 1;
        }
      }
    }

    /** One step of the search: when the subset in loopVec is larger than the
        best so far and homogeneous, it becomes the best. */
    method Visit(n: nat, r: nat, edge: int)
      requires Valid() && n <= order && r < |graph| && 0 <= edge <= 1
      modifies homog
      ensures homog[r, edge] ==
        if Size(loopVec[..n]) > old(homog[r, edge]) && IsHomogeneous(graph[r], loopVec[..n], edge)
        then Size(loopVec[..n]) else old(homog[r, edge])
      ensures forall r', e :: 0 <= r' < homog.Length0 && 0 <= e < 4 && !(r' == r && e == edge) ==>
        homog[r', e] == old(homog[r', e])
    {
      var size := CountMembers(n);
      if size > homog[r, edge] {
        var ok := CheckHomog(n, r, edge);
        if ok {
          homog[r, edge] := size;
        }
      }
    }

    /** Set homog[r, edge] to the independence number (edge == 0) or the
        clique number (edge == 1) of graph[r] on n vertices, by running the
        binary counter over loopVec through all 2^n subsets: it starts at all
        ones, the first wrap yields the empty set, and the second wrap (after
        all ones again) ends the search. */
    method MaxHomog(n: nat, r: nat, edge: int)
      requires Valid() && n <= order && r < |graph| && 0 <= edge <= 1
      modifies homog, loopVec
      ensures IsMaxHomogSize(graph[r], n, edge, homog[r, edge])
      ensures forall r', e :: 0 <= r' < homog.Length0 && 0 <= e < 4 && !(r' == r && e == edge) ==>
        homog[r', e] == old(homog[r', e])
      ensures loopVec[..n] == Zeros(n)
    {
      homog[r, edge] := 0;
      var first := true;
      FillLoopVec(n, 1);
      ghost var vec := loopVec[..n];
      assert AllMax(vec, 2) && IsSubset(vec, n);
      ValueRange(vec, 2);
      ghost var w: seq<int> := [];
      ghost var best := 0;
      while true
        invariant loopVec[..n] == vec && IsSubset(vec, n)
        invariant homog[r, edge] == best
        invariant forall r', e :: 0 <= r' < homog.Length0 && 0 <= e < 4 && !(r' == r && e == edge) ==>
          homog[r', e] == old(homog[r', e])
        invariant first ==> AllMax(vec, 2) && best == 0
        invariant !first ==> NoneLargerBelow(graph[r], n, edge, Value(vec, 2) + 1, best)
        invariant !first && best != 0 ==> Witness(graph[r], n, edge, Value(vec, 2) + 1, best, w)
        invariant 0 <= Value(vec, 2) < Pow(2, n)
        decreases first, Pow(2, n) - Value(vec, 2)
      {
        var wrapped := Advance(loopVec, n, 2);
        StepFacts(vec, 2);
        vec := Succ(vec, 2);
        if wrapped && first {
          first := false;
          NoneLargerBelowZero(graph[r], n, edge);
        } else if wrapped {
          NoneLargerDone(graph[r], n, edge, best, w);
          return;
        }
        NoneLargerStep(graph[r], n, edge, Value(vec, 2), best, vec);
        Visit(n, r, edge);
        if homog[r, edge] != best {
          best, w := homog[r, edge], vec;
        }
      }
    }

    /** The test both checks apply to one pair i < j of the current map
        (density-twins.cpp:113-116, 125-128): a separated pair keeps its
        adjacency, a collapsed pair is an edge exactly when its image has a
        loop. */
    method PairTest(n: nat, r1: nat, r2: nat, i: nat, j: nat) returns (pass: bool)
      requires Valid() && n <= order && r1 < |graph| && r2 < |graph| && i < j < n
      requires IsMap(homomorph[..n], n)
      ensures pass == PairOk(graph[r1], graph[r2], loopVec[..n], homomorph[..n], i, j)
    {
      assert homomorph[i] == homomorph[..n][i] && homomorph[j] == homomorph[..n][j];
      pass := true;
      if homomorph[i] != homomorph[j] && graph[r1][i][j] != graph[r2][homomorph[i]][homomorph[j]] {
        pass := false;
      }
      if homomorph[i] == homomorph[j] && graph[r1][i][j] != loopVec[homomorph[i]] {
        pass := false;
      }
    }

    /** The full check of the current map: every pair i < j with i >= 1.  The
        source's outer loop starts at 1, so pairs (0, j) are not looked at. */
    method CheckLoopVecHom(n: nat, r1: nat, r2: nat) returns (ok: bool)
      requires Valid() && n <= order && r1 < |graph| && r2 < |graph|
      requires IsMap(homomorph[..n], n)
      ensures ok == RowsFromOneOk(graph[r1], graph[r2], loopVec[..n], homomorph[..n])
    {
      var s, f := loopVec[..n], homomorph[..n];
      var i := 1;
      while i < n
        invariant 1 <= i && (n >= 1 ==> i <= n)
        invariant forall i', j' :: 1 <= i' < i && i' < j' < n ==> PairOk(graph[r1], graph[r2], s, f, i', j')
      {
        for j := i + 1 to n
          invariant forall j' :: i < j' < j ==> PairOk(graph[r1], graph[r2], s, f, i, j')
        {
          var pass := PairTest(n, r1, r2, i, j);
          if !pass {
            return false;
          }
        }
        i := i + 1;
      }
      return true;
    }

    /** The cheap pre-check of the current map: the pairs i < j with i even. */
    method CheckLoopVecHomRand(n: nat, r1: nat, r2: nat) returns (ok: bool)
      requires Valid() && n <= order && r1 < |graph| && r2 < |graph|
      requires IsMap(homomorph[..n], n)
      ensures ok == EvenRowsOk(graph[r1], graph[r2], loopVec[..n], homomorph[..n])
    {
      var s, f := loopVec[..n], homomorph[..n];
      var i := 0;
      while i < n
        invariant 0 <= i && i % 2 == 0
        invariant forall i', j' :: 0 <= i' < i && i' < j' < n && i' % 2 == 0 ==>
          PairOk(graph[r1], graph[r2], s, f, i', j')
      {
        for j := i + 1 to n
          invariant forall j' :: i < j' < j ==> PairOk(graph[r1], graph[r2], s, f, i, j')
        {
          var pass := PairTest(n, r1, r2, i, j);
          if !pass {
            return false;
          }
        }
        i := i + 2;
      }
      return true;
    }

    /** Whether some vertex map from graph[r1] to graph[r2] passes the oracle
        for the current loopVec.  homomorph runs as a base-n counter from the
        all-zero map (homomorph[0] least significant) through all n^n maps; the
        all-zero map is judged by the full check alone, every later map by the
        pre-check and then the full check. */
    method CheckLoopVec(n: nat, r1: nat, r2: nat) returns (ok: bool)
      requires Valid() && n <= order && r1 < |graph| && r2 < |graph|
      modifies homomorph
      ensures ok == AcceptsSome(graph[r1], graph[r2], n, loopVec[..n])
      ensures IsMap(homomorph[..n], n) && homomorph[n..] == old(homomorph[n..])
      ensures ok ==> FirstAccepted(graph[r1], graph[r2], loopVec[..n], n, homomorph[..n])
      ensures !ok ==> homomorph[..n] == Zeros(n)
      ensures loopVec[..n] == old(loopVec[..n])
    {
      ghost var g1, g2, s := graph[r1], graph[r2], loopVec[..n];
      for i := 0 to n
        invariant forall k :: 0 <= k < i ==> homomorph[k] == 0
        invariant forall k :: i <= k < homomorph.Length ==> homomorph[k] == old(homomorph[k])
      {
        homomorph[i] := 0;
      }
      ghost var f := homomorph[..n];
      assert f == Zeros(n) && IsMap(f, n);
      assert homomorph[n..] == old(homomorph[n..]);
      ok := CheckLoopVecHom(n, r1, r2);
      if ok {
        assert Accepts(g1, g2, s, f);
        ValueZeros(n, n);
        RejectedNone(g1, g2, s, n);
        return;
      }
      RejectedFirst(g1, g2, s, n);
      while true
        invariant homomorph[..n] == f && IsMap(f, n) && homomorph[n..] == old(homomorph[n..])
        invariant loopVec[..n] == s
        invariant RejectedBelow(g1, g2, s, n, Value(f, n) + 1)
        invariant 0 <= Value(f, n) < Pow(n, n)
        decreases Pow(n, n) - Value(f, n)
      {
        var wrapped := Advance(homomorph, n, n);
        StepFacts(f, n);
        f := Succ(f, n);
        if wrapped {
          RejectedDone(g1, g2, s, n);
          return false;
        }
        var pre := CheckLoopVecHomRand(n, r1, r2);
        if pre {
          var full := CheckLoopVecHom(n, r1, r2);
          if full {
            assert f != Zeros(|f|);
            assert IsMap(f, n) && Accepts(g1, g2, s, f);
            return true;
          }
        }
        RejectedStep(g1, g2, s, n, Value(f, n), f);
      }
    }

    /** One visit of the sampled sweep (density-twins.cpp:171-175): the loop
        set in loopVec, of rank counter, is tested only when counter is a
        multiple of skip. Either the pass extends past this set, or this set
        is the first sampled one that fails. */
    method Sample(n: nat, r1: nat, r2: nat, skip: nat, counter: int, ghost vec: seq<int>) returns (ok: bool)
      requires Valid() && n <= order && r1 < |graph| && r2 < |graph| && skip > 0
      requires loopVec[..n] == vec && IsSubset(vec, n) && counter == Value(vec, 2) + 1
      requires PassedBelow(graph[r1], graph[r2], n, skip, Value(vec, 2))
      modifies homomorph
      ensures ok ==> PassedBelow(graph[r1], graph[r2], n, skip, Value(vec, 2) + 1)
      ensures !ok ==> FirstFailure(graph[r1], graph[r2], n, skip, vec) &&
                      !SampledPass(graph[r1], graph[r2], n, skip)
    {
      if counter % skip != 0 {
        PassedStep(graph[r1], graph[r2], n, skip, Value(vec, 2), vec);
        return true;
      }
      ok := CheckLoopVec(n, r1, r2);
      if !ok {
        SampledFails(graph[r1], graph[r2], n, skip, vec);
        return;
      }
      PassedStep(graph[r1], graph[r2], n, skip, Value(vec, 2), vec);
    }

    /** Sweep the binary counter over loopVec through all 2^n loop sets, the
        subset of value k getting counter k + 1, and run CheckLoopVec on those
        whose counter is a multiple of skip; false at the first failure. */
    method CheckDeep(n: nat, r1: nat, r2: nat, skip: nat) returns (ok: bool)
      requires Valid() && n <= order && r1 < |graph| && r2 < |graph| && skip > 0
      modifies loopVec, homomorph
      ensures ok == SampledPass(graph[r1], graph[r2], n, skip)
      ensures ok ==> loopVec[..n] == Zeros(n)
      ensures !ok ==> FirstFailure(graph[r1], graph[r2], n, skip, loopVec[..n])
      ensures loopVec[n..] == old(loopVec[n..])
    {
      var counter := 0;
      var first := true;
      FillLoopVec(n, 1);
      ghost var vec := loopVec[..n];
      assert AllMax(vec, 2) && IsSubset(vec, n);
      ValueRange(vec, 2);
      while true
        invariant loopVec[..n] == vec && IsSubset(vec, n) && loopVec[n..] == old(loopVec[n..])
        invariant first ==> AllMax(vec, 2) && counter == 0
        invariant !first ==> counter == Value(vec, 2) + 1
        invariant !first ==> PassedBelow(graph[r1], graph[r2], n, skip, Value(vec, 2) + 1)
        invariant 0 <= Value(vec, 2) < Pow(2, n)
        decreases first, Pow(2, n) - Value(vec, 2)
      {
        counter := counter + 1;
        var wrapped := Advance(loopVec, n, 2);
        StepFacts(vec, 2);
        vec := Succ(vec, 2);
        if wrapped && first {
          first := false;
          PassedNone(graph[r1], graph[r2], n, skip);
        } else if wrapped {
          PassedDone(graph[r1], graph[r2], n, skip);
          return true;
        }
        var c := Sample(n, r1, r2, skip, counter, vec);
        if !c {
          return false;
        }
      }
    }

    /** Whether graph[r1] and graph[r2] are compatible: the empty loop set and
        the full loop set in both directions, then the sampled sweeps of
        Schedule, then the exhaustive sweep in both directions. */
    method CheckCompatible(n: nat, r1: nat, r2: nat) returns (ok: bool)
      requires Valid() && n <= order && r1 < |graph| && r2 < |graph|
      modifies loopVec, homomorph
      ensures ok == Compatible(graph[r1], graph[r2], n)
    {
      ghost var g1, g2 := graph[r1], graph[r2];
      FillLoopVec(n, 0);
      ghost var empty := loopVec[..n];
      assert IsSubset(empty, n);
      ok := CheckLoopVec(n, r1, r2);
      if ok {
        ok := CheckLoopVec(n, r2, r1);
      }
      if !ok {
        RejectedLoopSet(g1, g2, n, empty);
        return;
      }
      FillLoopVec(n, 1);
      ghost var full := loopVec[..n];
      assert IsSubset(full, n);
      ok := CheckLoopVec(n, r1, r2);
      if ok {
        ok := CheckLoopVec(n, r2, r1);
      }
      if !ok {
        RejectedLoopSet(g1, g2, n, full);
        return;
      }
      for stage := 0 to |Schedule| {
        ok := CheckDeep(n, r1, r2, Schedule[stage].0);
        if ok {
          ok := CheckDeep(n, r2, r1, Schedule[stage].1);
        }
        if !ok {
          RejectedStage(g1, g2, n, Schedule[stage].0, Schedule[stage].1);
          return;
        }
      }
      // the exhaustive stage
      ok := CheckDeep(n, r1, r2, 1);
      if ok {
        ok := CheckDeep(n, r2, r1, 1);
      }
      CompatibleIsFullSweep(g1, g2, n);
    }

    /** The pre-filter of the scan: r1 < r2, graph[r1] has twins of both kinds
        (it is not density atomic), and all four invariants agree. */
    predicate MayBeCompatible(r1: nat, r2: nat)
      requires Valid() && r1 < |graph| && r2 < |graph|
      reads homog
    {
      r1 < r2 && homog[r1, 2] != 0 && homog[r1, 3] != 0 &&
      homog[r1, 2] == homog[r2, 2] && homog[r1, 3] == homog[r2, 3] &&
      homog[r1, 0] == homog[r2, 0] && homog[r1, 1] == homog[r2, 1]
    }

    /** Fill the invariant table: both homogeneous numbers and both twin
        counts of every graph. */
    method ComputeInvariants()
      requires Valid()
      modifies homog, loopVec
      ensures forall r :: 0 <= r < |graph| ==> HasInvariants(r)
    {
      for r := 0 to |graph|
        invariant forall r' :: 0 <= r' < r ==>
          IsRecordOf(graph[r'], order, homog[r', 0], homog[r', 1], homog[r', 2], homog[r', 3])
      {
        MaxHomog(order, r, 0);
        MaxHomog(order, r, 1);
        CountTwins(order, r);
      }
    }

    /** The whole program: compute the invariants, then report, in increasing
        order, every pair that passes the pre-filter and is compatible. */
    method Run() returns (pairs: seq<(nat, nat)>)
      requires Valid()
      modifies homog, loopVec, homomorph
      ensures forall r :: 0 <= r < |graph| ==> HasInvariants(r)
      ensures forall p :: p in pairs <==>
        p.0 < p.1 < |graph| && MayBeCompatible(p.0, p.1) && Compatible(graph[p.0], graph[p.1], order)
      ensures forall i, j :: 0 <= i < j < |pairs| ==> LexLess(pairs[i], pairs[j])
    {
      ComputeInvariants();
      pairs := [];
      for r1 := 0 to |graph|
        modifies loopVec, homomorph
        invariant forall p :: p in pairs <==>
          p.0 < r1 && p.0 < p.1 < |graph| && MayBeCompatible(p.0, p.1) &&
          Compatible(graph[p.0], graph[p.1], order)
        invariant forall i, j :: 0 <= i < j < |pairs| ==> LexLess(pairs[i], pairs[j])
      {
        if homog[r1, 2] == 0 || homog[r1, 3] == 0 {
          continue;
        }
        for r2 := r1 + 1 to |graph|
          invariant forall p :: p in pairs <==>
            (p.0 < r1 || (p.0 == r1 && p.1 < r2)) && p.0 < p.1 < |graph| &&
            MayBeCompatible(p.0, p.1) && Compatible(graph[p.0], graph[p.1], order)
          invariant forall i, j :: 0 <= i < j < |pairs| ==> LexLess(pairs[i], pairs[j])
        {
          if homog[r1, 2] != homog[r2, 2] || homog[r1, 3] != homog[r2, 3] ||
             homog[r1, 0] != homog[r2, 0] || homog[r1, 1] != homog[r2, 1] {
            continue;
          }
          var c := CheckCompatible(order, r1, r2);
          if c {
            pairs := pairs + [(r1, r2)];
          }
        }
      }
    }
  }
}
