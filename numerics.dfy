/** Exact arithmetic used throughout the model: doubles become reals, and the
    few places where the source relies on IEEE behaviour (NaN, unsigned
    conversion) are written out. */
module Numerics {

  /** A double as it comes out of a linear solve: a real, or NaN. */
  datatype Value = Num(r: real) | NaN

  const TwoTo32: int := 0x1_0000_0000

  /** C++ conversion of an int to an unsigned int (modulo 2^32). */
  function ToUnsigned32(x: int): (u: nat)
    ensures u < TwoTo32
    ensures 0 <= x < TwoTo32 ==> u == x
    ensures x < 0 && -TwoTo32 <= x ==> u == x + TwoTo32
  {
    x % TwoTo32
  }

  function Abs(x: real): real { if x < 0.0 then -x else x }

  function Max(a: real, b: real): real { if a < b then b else a }

  /** `sqrt` behaves as the mathematical square root on non-negative reals. */
  ghost predicate IsSqrt(sqrt: real -> real) {
    sqrt(0.0) == 0.0 &&
    forall x: real {:trigger sqrt(x)} :: 0.0 <= x ==> 0.0 <= sqrt(x) && sqrt(x) * sqrt(x) == x
  }

  lemma SqrtPositive(sqrt: real -> real, x: real)
    requires IsSqrt(sqrt) && 0.0 < x
    ensures 0.0 < sqrt(x)
  {
    var r := sqrt(x);
    assert r * r == x;
  }

  function Pow(b: nat, e: nat): nat
  {
    if e == 0 then 1 else b * Pow(b, e - 1)
  }

  lemma {:induction false} PowPositive(b: nat, e: nat)
    requires 0 < b
    ensures 0 < Pow(b, e)
  {
    if e > 0 { PowPositive(b, e - 1); }
  }

  lemma {:induction false} PowAdd(b: nat, e1: nat, e2: nat)
    ensures Pow(b, e1 + e2) == Pow(b, e1) * Pow(b, e2)
  {
    if e1 > 0 {
      PowAdd(b, e1 - 1, e2);
      calc {
        Pow(b, e1 + e2);
        b * Pow(b, e1 - 1 + e2);
        b * (Pow(b, e1 - 1) * Pow(b, e2));
        (b * Pow(b, e1 - 1)) * Pow(b, e2);
      }
    }
  }

  /** (b^m)^d == b^(m*d): merging m axes of extent b into one of extent b^m. */
  lemma {:induction false} PowPow(b: nat, m: nat, d: nat)
    ensures Pow(Pow(b, m), d) == Pow(b, m * d)
  {
    if d > 0 {
      PowPow(b, m, d - 1);
      assert m * d == m + m * (d - 1);
      PowAdd(b, m, m * (d - 1));
    }
  }

  /** Sum of a sequence, front to back. */
  function Sum(s: seq<real>): real
  {
    if s == [] then 0.0 else s[0] + Sum(s[1..])
  }

  lemma {:induction false} SumAppend(a: seq<real>, b: seq<real>)
    ensures Sum(a + b) == Sum(a) + Sum(b)
  {
    if a == [] {
      assert a + b == b;
    } else {
      assert (a + b)[1..] == a[1..] + b;
      SumAppend(a[1..], b);
    }
  }

  /** Sum of the squares of a sequence, front to back. */
  function SumSq(s: seq<real>): (r: real)
    ensures 0.0 <= r
  {
    if s == [] then 0.0 else s[0] * s[0] + SumSq(s[1..])
  }

  /** A longer tail never has a smaller sum of squares. */
  lemma {:induction false} SumSqTailMonotone(s: seq<real>, i: nat, j: nat)
    requires i <= j <= |s|
    ensures SumSq(s[j..]) <= SumSq(s[i..])
    decreases j - i
  {
    if i < j {
      assert s[i..][1..] == s[i + 1..];
      SumSqTailMonotone(s, i + 1, j);
    }
  }

  lemma SumSqStep(s: seq<real>, i: nat)
    requires i < |s|
    ensures SumSq(s[i..]) == s[i] * s[i] + SumSq(s[i + 1..])
  {
    assert s[i..][1..] == s[i + 1..];
  }

  lemma MulDiv(a: real, x: real)
    requires x != 0.0
    ensures (a * x) / x == a
  {
  }

  lemma ZeroDiv(x: real)
    requires x != 0.0
    ensures 0.0 / x == 0.0
  {
  }

  /** A real whose square is zero is zero. */
  lemma SquareZero(x: real)
    requires x * x == 0.0
    ensures x == 0.0
  {
    if x != 0.0 {
      MulDiv(x, x);
      ZeroDiv(x);
    }
  }

  /** a * c == d with d == c nonzero forces a == 1. */
  lemma CancelRight(a: real, c: real, d: real)
    requires a * c == d && c == d && d != 0.0
    ensures a == 1.0
  {
    MulDiv(a, c);
    assert c / c == 1.0;
  }

  lemma SquareNonNegative(x: real)
    ensures 0.0 <= x * x
  {
  }

  /** A vector with zero sum of squares is the zero vector. */
  lemma {:induction false} SumSqZero(s: seq<real>)
    requires SumSq(s) == 0.0
    ensures forall i :: 0 <= i < |s| ==> s[i] == 0.0
  {
    if s != [] {
      SquareNonNegative(s[0]);
      assert s[0] * s[0] == 0.0;
      SquareZero(s[0]);
      SumSqZero(s[1..]);
      assert forall i :: 1 <= i < |s| ==> s[i] == s[1..][i - 1];
    }
  }

  /** Euclidean inner product of two vectors of equal length. */
  function Dot(a: seq<real>, b: seq<real>): real
    requires |a| == |b|
  {
    if a == [] then 0.0 else a[0] * b[0] + Dot(a[1..], b[1..])
  }

  lemma {:induction false} DotSymmetric(a: seq<real>, b: seq<real>)
    requires |a| == |b|
    ensures Dot(a, b) == Dot(b, a)
  {
    if a != [] { DotSymmetric(a[1..], b[1..]); }
  }

  /** The vector whose every entry is `v`. */
  function Constant(n: nat, v: real): (r: seq<real>)
    ensures |r| == n && forall i :: 0 <= i < n ==> r[i] == v
  {
    seq(n, i => v)
  }

  /** Every entry of `s` divided by `w`. */
  function DivideBy(s: seq<real>, w: real): (r: seq<real>)
    requires w != 0.0
    ensures |r| == |s| && forall i :: 0 <= i < |s| ==> r[i] == s[i] / w
  {
    seq(|s|, i requires 0 <= i < |s| => s[i] / w)
  }

  /** Multiplying the divided vector back by w gives the vector. */
  lemma DivideByInverse(s: seq<real>, w: real)
    requires w != 0.0
    ensures forall i :: 0 <= i < |s| ==> w * DivideBy(s, w)[i] == s[i]
  {
  }

  /** Dividing a vector by a root of its sum of squares gives a unit vector
      that, multiplied back, gives the vector. */
  lemma DivideByNorm(s: seq<real>, w: real)
    requires w != 0.0 && SumSq(s) != 0.0 && w * w == SumSq(s)
    ensures SumSq(DivideBy(s, w)) == 1.0
    ensures forall j :: 0 <= j < |s| ==> w * DivideBy(s, w)[j] == s[j]
  {
    DivideByInverse(s, w);
    SumSqDivide(s, w);
    CancelRight(SumSq(DivideBy(s, w)), w * w, SumSq(s));
  }

  /** Dividing by w divides the sum of squares by w*w. */
  lemma {:induction false} SumSqDivide(s: seq<real>, w: real)
    requires w != 0.0
    ensures SumSq(DivideBy(s, w)) * (w * w) == SumSq(s)
  {
    if s != [] {
      var d := DivideBy(s, w);
      assert d[1..] == DivideBy(s[1..], w);
      SumSqDivide(s[1..], w);
      assert d[0] * w == s[0];
      calc {
        SumSq(d) * (w * w);
        (d[0] * d[0] + SumSq(d[1..])) * (w * w);
        (d[0] * w) * (d[0] * w) + SumSq(d[1..]) * (w * w);
        s[0] * s[0] + SumSq(s[1..]);
      }
    }
  }
}
