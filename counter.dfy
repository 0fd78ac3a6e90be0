/** Digit vectors and the in-place counters that enumerate them.

    The program walks three counters over shared arrays: a binary counter over
    the loop vector (every vertex subset) in the independence/clique search and
    in the staged compatibility sweep, and a base-n counter over the candidate
    vertex map.  All three are the same step: clear the trailing run of maximal
    digits and increment the first digit that is not maximal.  Position 0 is the
    least significant digit. */
module Counter {

  /** b raised to the power e. */
  function Pow(b: nat, e: nat): nat
  {
    if e == 0 then 1 else b * Pow(b, e - 1)
  }

  /** Every entry of s is a digit in base b. */
  predicate IsDigits(s: seq<int>, b: nat)
  {
    forall i :: 0 <= i < |s| ==> 0 <= s[i] < b
  }

  /** Every entry of s is the largest digit b - 1: the counter is about to wrap. */
  predicate AllMax(s: seq<int>, b: nat)
  {
    forall i :: 0 <= i < |s| ==> s[i] == b - 1
  }

  /** The all-zero vector of length n. */
  function Zeros(n: nat): seq<int>
  {
    seq(n, _ => 0)
  }

  /** The number that s denotes in base b, s[0] being the least significant digit. */
  function Value(s: seq<int>, b: nat): int
  {
    if s == [] then 0 else s[0] + b * Value(s[1..], b)
  }

  /** One step of the counter: trailing maximal digits become 0 and the next
      digit goes up by one; a vector of maximal digits wraps round to zeros. */
  function Succ(s: seq<int>, b: nat): seq<int>
  {
    if s == [] then []
    else if s[0] == b - 1 then [0] + Succ(s[1..], b)
    else [s[0] + 1] + s[1..]
  }

  lemma MulMono(b: nat, x: int, y: int)
    requires x <= y
    ensures b * x <= b * y
  {
    assert b * y - b * x == b * (y - x);
  }

  /** A digit vector denotes a number in [0, b^|s|). */
  lemma {:induction false} ValueRange(s: seq<int>, b: nat)
    requires IsDigits(s, b)
    ensures 0 <= Value(s, b) < Pow(b, |s|)
  {
    if s != [] {
      ValueRange(s[1..], b);
      var v := Value(s[1..], b);
      MulMono(b, v, Pow(b, |s| - 1) - 1);
      assert b * (Pow(b, |s| - 1) - 1) == Pow(b, |s|) - b;
      MulMono(b, 0, v);
    }
  }

  /** The zero vector denotes 0. */
  lemma {:induction false} ValueZeros(n: nat, b: nat)
    ensures Value(Zeros(n), b) == 0
  {
    if n > 0 {
      assert Zeros(n)[1..] == Zeros(n - 1);
      ValueZeros(n - 1, b);
    }
  }

  /** The vector of maximal digits denotes the largest number, b^|s| - 1. */
  lemma {:induction false} AllMaxValue(s: seq<int>, b: nat)
    requires b >= 1 && AllMax(s, b)
    ensures Value(s, b) == Pow(b, |s|) - 1
  {
    if s != [] {
      AllMaxValue(s[1..], b);
      assert b * (Pow(b, |s| - 1) - 1) == Pow(b, |s|) - b;
    }
  }

  /** A number below base b is its own last digit: x + b*p == y + b*q with
      digits x, y forces x == y and p == q. */
  lemma DigitSplit(b: nat, x: int, y: int, p: int, q: int)
    requires 0 <= x < b && 0 <= y < b && x + b * p == y + b * q
    ensures x == y && p == q
  {
    if p < q {
      MulMono(b, p + 1, q);
    } else if q < p {
      MulMono(b, q + 1, p);
    }
  }

  /** Distinct digit vectors of one length denote distinct numbers, so a counter
      whose Value goes up by one per step never visits a vector twice. */
  lemma {:induction false} ValueInjective(s: seq<int>, t: seq<int>, b: nat)
    requires IsDigits(s, b) && IsDigits(t, b) && |s| == |t|
    requires Value(s, b) == Value(t, b)
    ensures s == t
  {
    if s != [] {
      DigitSplit(b, s[0], t[0], Value(s[1..], b), Value(t[1..], b));
      ValueInjective(s[1..], t[1..], b);
      assert s == [s[0]] + s[1..] && t == [t[0]] + t[1..];
    }
  }

  /** A vector that is not all maximal steps to the digit vector whose value is
      one larger. */
  lemma {:induction false} SuccValue(s: seq<int>, b: nat)
    requires IsDigits(s, b) && !AllMax(s, b)
    ensures |Succ(s, b)| == |s| && IsDigits(Succ(s, b), b)
    ensures Value(Succ(s, b), b) == Value(s, b) + 1
  {
    if s[0] == b - 1 {
      assert !AllMax(s[1..], b) by {
        var i :| 0 <= i < |s| && s[i] != b - 1;
        assert s[1..][i - 1] == s[i];
      }
      SuccValue(s[1..], b);
      var t := Succ(s[1..], b);
      assert Succ(s, b)[1..] == t;
      assert b * (Value(s[1..], b) + 1) == b * Value(s[1..], b) + b;
    } else {
      assert Succ(s, b)[1..] == s[1..];
    }
  }

  /** The vector of maximal digits wraps round to zeros. */
  lemma {:induction false} SuccWrap(s: seq<int>, b: nat)
    requires AllMax(s, b)
    ensures Succ(s, b) == Zeros(|s|)
  {
    if s != [] {
      SuccWrap(s[1..], b);
      assert Zeros(|s|) == [0] + Zeros(|s| - 1);
    }
  }

  /** What the carry loop leaves behind: with the first j digits maximal and
      digit j not, the step clears those j digits and increments digit j. */
  lemma {:induction false} SuccAfterCarry(s: seq<int>, j: nat, b: nat)
    requires j < |s| && s[j] != b - 1
    requires forall i :: 0 <= i < j ==> s[i] == b - 1
    ensures Succ(s, b) == Zeros(j) + [s[j] + 1] + s[j + 1..]
  {
    if j > 0 {
      SuccAfterCarry(s[1..], j - 1, b);
      assert s[1..][j - 1 + 1..] == s[j + 1..];
      assert Zeros(j) == [0] + Zeros(j - 1);
    }
  }

  /** The only digit vector with value 0 is the zero vector. */
  lemma ValueZeroIsZeros(s: seq<int>, b: nat)
    requires IsDigits(s, b) && Value(s, b) == 0
    ensures s == Zeros(|s|)
  {
    ValueZeros(|s|, b);
    ValueInjective(s, Zeros(|s|), b);
  }

  /** The wrapping step: the all-maximal vector (value b^|s| - 1) becomes the
      zero vector (value 0). */
  lemma StepWrap(s: seq<int>, b: nat)
    requires b >= 1 && AllMax(s, b)
    ensures Succ(s, b) == Zeros(|s|) && Value(Succ(s, b), b) == 0
    ensures Value(s, b) == Pow(b, |s|) - 1
  {
    SuccWrap(s, b);
    ValueZeros(|s|, b);
    AllMaxValue(s, b);
  }

  /** The ordinary step goes up by one, so it never reaches the zero vector. */
  lemma StepUp(s: seq<int>, b: nat)
    requires IsDigits(s, b) && !AllMax(s, b)
    ensures |Succ(s, b)| == |s| && IsDigits(Succ(s, b), b)
    ensures Value(Succ(s, b), b) == Value(s, b) + 1 && Succ(s, b) != Zeros(|s|)
  {
    SuccValue(s, b);
    ValueRange(s, b);
    ValueZeros(|s|, b);
  }

  /** What one step of a counter over a digit vector does: it stays a digit
      vector of the same length, and either the value goes up by one, or the
      vector was all maximal (value b^|s| - 1) and wraps round to zeros
      (value 0). */
  lemma StepFacts(s: seq<int>, b: nat)
    requires b >= 1 && IsDigits(s, b)
    ensures |Succ(s, b)| == |s| && IsDigits(Succ(s, b), b)
    ensures 0 <= Value(Succ(s, b), b) < Pow(b, |s|)
    ensures AllMax(s, b) ==>
      Succ(s, b) == Zeros(|s|) && Value(Succ(s, b), b) == 0 && Value(s, b) == Pow(b, |s|) - 1
    ensures !AllMax(s, b) ==> Value(Succ(s, b), b) == Value(s, b) + 1 && Succ(s, b) != Zeros(|s|)
  {
    if AllMax(s, b) {
      StepWrap(s, b);
    } else {
      StepUp(s, b);
    }
    ValueRange(Succ(s, b), b);
  }
}
