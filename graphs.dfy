/** Graphs as 0/1 adjacency matrices and the four invariants the scan compares:
    independence number, clique number, number of empty twins and number of
    connected twins. */
module Graphs {
  import opened Counter

  /** Row-major adjacency matrix; entry [i][j] is 1 for an edge and 0 otherwise. */
  type Matrix = seq<seq<int>>

  /** Entry (i, j); positions outside the matrix read as 0 (no caller goes there). */
  function Adj(g: Matrix, i: int, j: int): int
  {
    if 0 <= i < |g| && 0 <= j < |g[i]| then g[i][j] else 0
  }

  /** A simple graph on n vertices: n x n, entries 0/1, symmetric, zero diagonal. */
  predicate IsGraph(g: Matrix, n: nat)
  {
    |g| == n &&
    (forall i :: 0 <= i < n ==> |g[i]| == n) &&
    (forall i, j :: 0 <= i < n && 0 <= j < n ==> 0 <= Adj(g, i, j) <= 1) &&
    (forall i, j :: 0 <= i < n && 0 <= j < n ==> Adj(g, i, j) == Adj(g, j, i)) &&
    (forall i :: 0 <= i < n ==> Adj(g, i, i) == 0)
  }

  // ---------------------------------------------------------------- twins

  /** i and j see every other vertex among the first n alike. */
  predicate IsTwin(g: Matrix, n: nat, i: nat, j: nat)
  {
    forall k :: 0 <= k < n && k != i && k != j ==> Adj(g, i, k) == Adj(g, j, k)
  }

  /** The pair (i, j) is a twin pair of the requested kind: connected when the
      entry (i, j) is 1, empty otherwise. */
  predicate IsTwinOfKind(g: Matrix, n: nat, i: nat, j: nat, connected: bool)
  {
    IsTwin(g, n, i, j) && ((Adj(g, i, j) == 1) == connected)
  }

  /** Number of twin partners j' of kind `connected` with i < j' < j. */
  function TwinsInRow(g: Matrix, n: nat, i: nat, j: nat, connected: bool): nat
  {
    if j <= i + 1 then 0
    else TwinsInRow(g, n, i, j - 1, connected)
         + (if IsTwinOfKind(g, n, i, j - 1, connected) then 1 else 0)
  }

  /** Number of twin pairs (i', j') of kind `connected` with i' < i and i' < j' < n. */
  function TwinsBefore(g: Matrix, n: nat, i: nat, connected: bool): nat
  {
    if i == 0 then 0
    else TwinsBefore(g, n, i - 1, connected) + TwinsInRow(g, n, i - 1, n, connected)
  }

  function EmptyTwins(g: Matrix, n: nat): nat { TwinsBefore(g, n, n, false) }

  function ConnectedTwins(g: Matrix, n: nat): nat { TwinsBefore(g, n, n, true) }

  /** The number of pairs i' < j' with i' < i, j' < n. */
  function PairsBefore(n: nat, i: nat): int
  {
    if i == 0 then 0 else PairsBefore(n, i - 1) + (n - i)
  }

  lemma {:induction false} PairsBeforeFormula(n: nat, i: nat)
    ensures 2 * PairsBefore(n, i) == i * (2 * n - i - 1)
  {
    if i > 0 {
      PairsBeforeFormula(n, i - 1);
    }
  }

  lemma {:induction false} RowBound(g: Matrix, n: nat, i: nat, j: nat)
    requires i < j
    ensures TwinsInRow(g, n, i, j, false) + TwinsInRow(g, n, i, j, true) <= j - i - 1
  {
    if j > i + 1 {
      RowBound(g, n, i, j - 1);
    }
  }

  lemma {:induction false} BeforeBound(g: Matrix, n: nat, i: nat)
    requires i <= n
    ensures TwinsBefore(g, n, i, false) + TwinsBefore(g, n, i, true) <= PairsBefore(n, i)
  {
    if i > 0 {
      BeforeBound(g, n, i - 1);
      RowBound(g, n, i - 1, n);
    }
  }

  /** Every twin pair is one unordered pair, so the two counts together are at
      most n(n-1)/2. */
  lemma TwinCountBound(g: Matrix, n: nat)
    ensures EmptyTwins(g, n) + ConnectedTwins(g, n) <= n * (n - 1) / 2
  {
    BeforeBound(g, n, n);
    PairsBeforeFormula(n, n);
  }

  /** When every pair in rows below i (up to column j) is a twin pair of one
      kind, the row count of that kind is full and the other is zero. */
  lemma {:induction false} UniformRow(g: Matrix, n: nat, i: nat, j: nat, connected: bool)
    requires i < j
    requires forall j' :: i < j' < j ==> IsTwinOfKind(g, n, i, j', connected)
    ensures TwinsInRow(g, n, i, j, connected) == j - i - 1
    ensures TwinsInRow(g, n, i, j, !connected) == 0
  {
    if j > i + 1 {
      UniformRow(g, n, i, j - 1, connected);
    }
  }

  lemma {:induction false} UniformBefore(g: Matrix, n: nat, i: nat, connected: bool)
    requires i <= n
    requires forall i', j' :: 0 <= i' < j' < n ==> IsTwinOfKind(g, n, i', j', connected)
    ensures TwinsBefore(g, n, i, connected) == PairsBefore(n, i)
    ensures TwinsBefore(g, n, i, !connected) == 0
  {
    if i > 0 {
      UniformBefore(g, n, i - 1, connected);
      UniformRow(g, n, i - 1, n, connected);
    }
  }

  /** The complete graph: every pair is a connected twin pair. */
  lemma CompleteGraphTwins(g: Matrix, n: nat)
    requires IsGraph(g, n)
    requires forall i, j :: 0 <= i < n && 0 <= j < n && i != j ==> Adj(g, i, j) == 1
    ensures ConnectedTwins(g, n) == n * (n - 1) / 2 && EmptyTwins(g, n) == 0
  {
    UniformBefore(g, n, n, true);
    PairsBeforeFormula(n, n);
  }

  /** The empty graph: every pair is an empty twin pair. */
  lemma EmptyGraphTwins(g: Matrix, n: nat)
    requires IsGraph(g, n)
    requires forall i, j :: 0 <= i < n && 0 <= j < n ==> Adj(g, i, j) == 0
    ensures EmptyTwins(g, n) == n * (n - 1) / 2 && ConnectedTwins(g, n) == 0
  {
    UniformBefore(g, n, n, false);
    PairsBeforeFormula(n, n);
  }

  // --------------------------------------------------- homogeneous subsets

  /** A vertex subset of {0..n-1} as its 0/1 indicator vector. */
  predicate IsSubset(s: seq<int>, n: nat)
  {
    |s| == n && IsDigits(s, 2)
  }

  /** Number of members (entries equal to 1) of the subset. */
  function Size(s: seq<int>): nat
  {
    if s == [] then 0 else Size(s[..|s| - 1]) + (if s[|s| - 1] == 1 then 1 else 0)
  }

  /** Every two members of s are joined by `edge`: an independent set for
      edge == 0, a clique for edge == 1. */
  predicate IsHomogeneous(g: Matrix, s: seq<int>, edge: int)
  {
    forall i, j :: 0 <= i < j < |s| && s[i] == 1 && s[j] == 1 ==> Adj(g, i, j) == edge
  }

  /** m is the largest size of a homogeneous subset of {0..n-1}: the
      independence number (edge == 0) or the clique number (edge == 1). */
  ghost predicate IsMaxHomogSize(g: Matrix, n: nat, edge: int, m: int)
  {
    (forall s :: IsSubset(s, n) && IsHomogeneous(g, s, edge) ==> Size(s) <= m) &&
    (exists s :: IsSubset(s, n) && IsHomogeneous(g, s, edge) && Size(s) == m)
  }

  lemma {:induction false} SizeBound(s: seq<int>)
    ensures Size(s) <= |s|
  {
    if s != [] {
      SizeBound(s[..|s| - 1]);
    }
  }

  /** The subset {0} of {0..n-1}. */
  function Singleton(n: nat): seq<int>
    requires n >= 1
  {
    [1] + Zeros(n - 1)
  }

  lemma {:induction false} SizeSingleton(n: nat)
    requires n >= 1
    ensures Size(Singleton(n)) == 1
  {
    if n > 1 {
      assert Singleton(n)[..n - 1] == Singleton(n - 1);
      SizeSingleton(n - 1);
    } else {
      assert Singleton(n)[..0] == [];
    }
  }

  /** On n >= 1 vertices the independence and clique numbers lie in 1..n. */
  lemma MaxHomogBounds(g: Matrix, n: nat, edge: int, m: int)
    requires n >= 1 && IsMaxHomogSize(g, n, edge, m)
    ensures 1 <= m <= n
  {
    var one := Singleton(n);
    SizeSingleton(n);
    assert IsSubset(one, n);
    assert IsHomogeneous(g, one, edge);
    var s :| IsSubset(s, n) && IsHomogeneous(g, s, edge) && Size(s) == m;
    SizeBound(s);
  }

  /** The complement graph on n vertices. */
  function Complement(g: Matrix, n: nat): Matrix
  {
    seq(n, i => seq(n, j => if i == j then 0 else 1 - Adj(g, i, j)))
  }

  lemma ComplementHomogeneous(g: Matrix, n: nat, s: seq<int>)
    requires IsGraph(g, n) && |s| == n
    ensures IsHomogeneous(g, s, 0) == IsHomogeneous(Complement(g, n), s, 1)
    ensures IsHomogeneous(g, s, 1) == IsHomogeneous(Complement(g, n), s, 0)
  {
  }

  /** The independence number of a graph is the clique number of its
      complement, and the other way round. */
  lemma ComplementSwapsNumbers(g: Matrix, n: nat, m: int)
    requires IsGraph(g, n)
    ensures IsMaxHomogSize(g, n, 0, m) == IsMaxHomogSize(Complement(g, n), n, 1, m)
    ensures IsMaxHomogSize(g, n, 1, m) == IsMaxHomogSize(Complement(g, n), n, 0, m)
  {
    forall s | IsSubset(s, n)
      ensures IsHomogeneous(g, s, 0) == IsHomogeneous(Complement(g, n), s, 1)
      ensures IsHomogeneous(g, s, 1) == IsHomogeneous(Complement(g, n), s, 0)
    {
      ComplementHomogeneous(g, n, s);
    }
  }
}
