/** What the overlap of two separated representations means: the Frobenius
    inner product of the tensors they stand for, that is the sum, over every
    index of the configurational layout, of the product of the two entries
    there. The Frobenius norm is then the root of the sum of the squared
    entries. */
module InnerProducts {
  import opened Numerics
  import opened Configs
  import opened Norms

  // ------------------------------------------------------ sums over indices

  /** The sum of f over every tuple that agrees with idx below position n and
      has entries below K from position n on. */
  function CompletionSum(f: seq<nat> -> real, K: nat, idx: seq<nat>, n: nat): real
    requires n <= |idx|
    decreases |idx| - n, 1, 0
  {
    if n == |idx| then f(idx) else RangeSum(f, K, idx, n, 0)
  }

  /** The completions of idx with m, m + 1, ..., K - 1 at position n. */
  function RangeSum(f: seq<nat> -> real, K: nat, idx: seq<nat>, n: nat, m: nat): real
    requires n < |idx| && m <= K
    decreases |idx| - n, 0, K - m
  {
    if m == K then 0.0 else CompletionSum(f, K, idx[n := m], n + 1) + RangeSum(f, K, idx, n, m + 1)
  }

  /** The sum of f over every tuple of length n with entries below K. */
  function IndexSum(f: seq<nat> -> real, K: nat, n: nat): real
  {
    CompletionSum(f, K, seq(n, _ => 0), 0)
  }

  /** Sums over indices are additive. */
  lemma {:induction false} CompletionAdd(f: seq<nat> -> real, g: seq<nat> -> real, h: seq<nat> -> real, K: nat, idx: seq<nat>, n: nat)
    requires n <= |idx|
    requires forall x :: h(x) == f(x) + g(x)
    ensures CompletionSum(h, K, idx, n) == CompletionSum(f, K, idx, n) + CompletionSum(g, K, idx, n)
    decreases |idx| - n, 1, 0
  {
    if n < |idx| { RangeAdd(f, g, h, K, idx, n, 0); }
  }

  lemma {:induction false} RangeAdd(f: seq<nat> -> real, g: seq<nat> -> real, h: seq<nat> -> real, K: nat, idx: seq<nat>, n: nat, m: nat)
    requires n < |idx| && m <= K
    requires forall x :: h(x) == f(x) + g(x)
    ensures RangeSum(h, K, idx, n, m) == RangeSum(f, K, idx, n, m) + RangeSum(g, K, idx, n, m)
    decreases |idx| - n, 0, K - m
  {
    if m < K {
      CompletionAdd(f, g, h, K, idx[n := m], n + 1);
      RangeAdd(f, g, h, K, idx, n, m + 1);
    }
  }

  /** The sum of zeros is zero. */
  lemma {:induction false} CompletionZero(f: seq<nat> -> real, K: nat, idx: seq<nat>, n: nat)
    requires n <= |idx|
    requires forall x :: f(x) == 0.0
    ensures CompletionSum(f, K, idx, n) == 0.0
    decreases |idx| - n, 1, 0
  {
    if n < |idx| { RangeZero(f, K, idx, n, 0); }
  }

  lemma {:induction false} RangeZero(f: seq<nat> -> real, K: nat, idx: seq<nat>, n: nat, m: nat)
    requires n < |idx| && m <= K
    requires forall x :: f(x) == 0.0
    ensures RangeSum(f, K, idx, n, m) == 0.0
    decreases |idx| - n, 0, K - m
  {
    if m < K {
      CompletionZero(f, K, idx[n := m], n + 1);
      RangeZero(f, K, idx, n, m + 1);
    }
  }

  /** A sum of non-negative values is non-negative. */
  lemma {:induction false} CompletionNonNegative(f: seq<nat> -> real, K: nat, idx: seq<nat>, n: nat)
    requires n <= |idx|
    requires forall x :: 0.0 <= f(x)
    ensures 0.0 <= CompletionSum(f, K, idx, n)
    decreases |idx| - n, 1, 0
  {
    if n < |idx| { RangeNonNegative(f, K, idx, n, 0); }
  }

  lemma {:induction false} RangeNonNegative(f: seq<nat> -> real, K: nat, idx: seq<nat>, n: nat, m: nat)
    requires n < |idx| && m <= K
    requires forall x :: 0.0 <= f(x)
    ensures 0.0 <= RangeSum(f, K, idx, n, m)
    decreases |idx| - n, 0, K - m
  {
    if m < K {
      CompletionNonNegative(f, K, idx[n := m], n + 1);
      RangeNonNegative(f, K, idx, n, m + 1);
    }
  }

  /** Two functions that agree everywhere have the same sum. */
  lemma IndexSumSame(f: seq<nat> -> real, g: seq<nat> -> real, K: nat, n: nat)
    requires forall x :: f(x) == g(x)
    ensures IndexSum(f, K, n) == IndexSum(g, K, n)
  {
    var zero: seq<nat> -> real := _ => 0.0;
    CompletionAdd(g, zero, f, K, seq(n, _ => 0), 0);
    CompletionZero(zero, K, seq(n, _ => 0), 0);
  }

  // ------------------------------------------- one pair of rank-one terms

  /** Every row has length K. */
  predicate RowsOfLength(rows: seq<seq<real>>, K: nat)
  {
    forall x :: 0 <= x < |rows| ==> |rows[x]| == K
  }

  /** Every position of idx is below K. */
  predicate Below(idx: seq<nat>, K: nat)
  {
    forall x :: 0 <= x < |idx| ==> idx[x] < K
  }

  /** w times the entries rows[x][idx[x]] of the rows below n: a rank-one
      term read at idx, up to axis n. */
  function Lead(w: real, rows: seq<seq<real>>, K: nat, idx: seq<nat>, n: nat): real
    requires RowsOfLength(rows, K) && Below(idx, K) && n <= |rows| == |idx|
  {
    if n == 0 then w else Lead(w, rows, K, idx, n - 1) * rows[n - 1][idx[n - 1]]
  }

  /** The entry by entry product of two rank-one terms. */
  function LeadProduct(wu: real, wv: real, u: seq<seq<real>>, v: seq<seq<real>>, K: nat): seq<nat> -> real
    requires RowsOfLength(u, K) && RowsOfLength(v, K) && |u| == |v|
  {
    x => if |x| == |u| && Below(x, K) then Lead(wu, u, K, x, |u|) * Lead(wv, v, K, x, |v|) else 0.0
  }

  /** The dots of the rows of u and v, axis by axis. */
  function RowDots(u: seq<seq<real>>, v: seq<seq<real>>, K: nat): (ds: seq<real>)
    requires RowsOfLength(u, K) && RowsOfLength(v, K) && |u| == |v|
    ensures |ds| == |u| && forall x :: 0 <= x < |u| ==> ds[x] == DotFrom(u[x], v[x], 0)
  {
    seq(|u|, x requires 0 <= x < |u| => DotFrom(u[x], v[x], 0))
  }

  /** ds[0] * ... * ds[n - 1]. */
  function ProductBelow(ds: seq<real>, n: nat): real
    requires n <= |ds|
  {
    if n == 0 then 1.0 else ProductBelow(ds, n - 1) * ds[n - 1]
  }

  /** ds[n] * ... * ds[|ds| - 1]. */
  function ProductFrom(ds: seq<real>, n: nat): real
    requires n <= |ds|
    decreases |ds| - n
  {
    if n == |ds| then 1.0 else ds[n] * ProductFrom(ds, n + 1)
  }

  /** sum over i = m .. |u| - 1 of u[i] * v[i]. */
  function DotFrom(u: seq<real>, v: seq<real>, m: nat): real
    requires |u| == |v| && m <= |u|
    decreases |u| - m
  {
    if m == |u| then 0.0 else u[m] * v[m] + DotFrom(u, v, m + 1)
  }

  lemma {:induction false} DotFromIsDot(u: seq<real>, v: seq<real>, m: nat)
    requires |u| == |v| && m <= |u|
    ensures DotFrom(u, v, m) == Dot(u[m..], v[m..])
    decreases |u| - m
  {
    if m < |u| {
      DotFromIsDot(u, v, m + 1);
      assert u[m..][1..] == u[m + 1..];
      assert v[m..][1..] == v[m + 1..];
    }
  }

  lemma Associate(x: real, d: real, y: real, z: real, w: real)
    requires z == d * y && x * z == w
    ensures (x * d) * y == w
  {
  }

  /** The product below n times the product from n on is the whole product. */
  lemma {:induction false} ProductSplit(ds: seq<real>, n: nat)
    requires n <= |ds|
    ensures ProductBelow(ds, n) * ProductFrom(ds, n) == ProductFrom(ds, 0)
  {
    if n > 0 {
      ProductSplit(ds, n - 1);
      Associate(ProductBelow(ds, n - 1), ds[n - 1], ProductFrom(ds, n), ProductFrom(ds, n - 1), ProductFrom(ds, 0));
    }
  }

  /** The factors below n read only the positions below n. */
  lemma {:induction false} LeadPrefix(w: real, rows: seq<seq<real>>, K: nat, idx: seq<nat>, j: nat, i: nat, n: nat)
    requires RowsOfLength(rows, K) && Below(idx, K) && |rows| == |idx| && n <= j < |idx| && i < K
    ensures Below(idx[j := i], K)
    ensures Lead(w, rows, K, idx[j := i], n) == Lead(w, rows, K, idx, n)
  {
    if n > 0 { LeadPrefix(w, rows, K, idx, j, i, n - 1); }
  }

  lemma Regroup(c: real, l1: real, l2: real, a1: real, a2: real, x: real, y: real, pf: real, u: real, v: real, uv: real)
    requires c == l1 * l2 * pf && l1 == a1 * u && l2 == a2 * v && a1 == x && a2 == y && uv == u * v
    ensures c == (x * y * pf) * uv
  {
  }

  lemma TimesOne(r: real, x: real, y: real, one: real)
    requires r == x * y && one == 1.0
    ensures r == x * y * one
  {
  }

  lemma Regroup2(r: real, a: real, s: real, d: real, x: real, y: real, pf: real, pd: real)
    requires r == a * s && s == d && a == x * y * pf && pd == d * pf
    ensures r == x * y * pd
  {
  }

  /** ds holds the dots of the rows of u and v from axis n on. */
  predicate DotsOf(ds: seq<real>, u: seq<seq<real>>, v: seq<seq<real>>, K: nat, n: nat)
    requires RowsOfLength(u, K) && RowsOfLength(v, K) && |u| == |v| == |ds| && n <= |u|
    decreases |u| - n
  {
    n == |u| || (ds[n] == DotFrom(u[n], v[n], 0) && DotsOf(ds, u, v, K, n + 1))
  }

  /** Summed over the completions of idx from position n on, the product of
      two rank-one terms is their factors below n times the dots from n on. */
  lemma {:induction false} LeadCompletion(wu: real, wv: real, u: seq<seq<real>>, v: seq<seq<real>>, K: nat, ds: seq<real>, idx: seq<nat>, n: nat)
    requires RowsOfLength(u, K) && RowsOfLength(v, K) && |u| == |v| == |idx| == |ds| && Below(idx, K) && n <= |idx|
    requires DotsOf(ds, u, v, K, n)
    ensures CompletionSum(LeadProduct(wu, wv, u, v, K), K, idx, n)
         == Lead(wu, u, K, idx, n) * Lead(wv, v, K, idx, n) * ProductFrom(ds, n)
    decreases |idx| - n, 3, 0
  {
    if n < |idx| {
      LeadCompletionStep(wu, wv, u, v, K, ds, idx, n);
    } else {
      TimesOne(CompletionSum(LeadProduct(wu, wv, u, v, K), K, idx, n), Lead(wu, u, K, idx, n), Lead(wv, v, K, idx, n), ProductFrom(ds, n));
    }
  }

  lemma {:induction false} LeadCompletionStep(wu: real, wv: real, u: seq<seq<real>>, v: seq<seq<real>>, K: nat, ds: seq<real>, idx: seq<nat>, n: nat)
    requires RowsOfLength(u, K) && RowsOfLength(v, K) && |u| == |v| == |idx| == |ds| && Below(idx, K) && n < |idx|
    requires DotsOf(ds, u, v, K, n)
    ensures CompletionSum(LeadProduct(wu, wv, u, v, K), K, idx, n)
         == Lead(wu, u, K, idx, n) * Lead(wv, v, K, idx, n) * ProductFrom(ds, n)
    decreases |idx| - n, 2, 0
  {
    var f := LeadProduct(wu, wv, u, v, K);
    var x, y := Lead(wu, u, K, idx, n), Lead(wv, v, K, idx, n);
    var pf := ProductFrom(ds, n + 1);
    LeadRange(wu, wv, u, v, K, ds, idx, n, 0);
    Regroup2(CompletionSum(f, K, idx, n), x * y * pf, DotFrom(u[n], v[n], 0), ds[n], x, y, pf, ProductFrom(ds, n));
  }

  /** The completions with m .. K - 1 at position n. */
  lemma {:induction false} LeadRange(wu: real, wv: real, u: seq<seq<real>>, v: seq<seq<real>>, K: nat, ds: seq<real>, idx: seq<nat>, n: nat, m: nat)
    requires RowsOfLength(u, K) && RowsOfLength(v, K) && |u| == |v| == |idx| == |ds| && Below(idx, K) && n < |idx| && m <= K
    requires DotsOf(ds, u, v, K, n + 1)
    ensures RangeSum(LeadProduct(wu, wv, u, v, K), K, idx, n, m)
         == (Lead(wu, u, K, idx, n) * Lead(wv, v, K, idx, n) * ProductFrom(ds, n + 1)) * DotFrom(u[n], v[n], m)
    decreases |idx| - n, 1, K - m
  {
    var a := Lead(wu, u, K, idx, n) * Lead(wv, v, K, idx, n) * ProductFrom(ds, n + 1);
    if m < K {
      LeadStep(wu, wv, u, v, K, ds, idx, n, m);
      LeadRange(wu, wv, u, v, K, ds, idx, n, m + 1);
      Distribute(RangeSum(LeadProduct(wu, wv, u, v, K), K, idx, n, m),
                 CompletionSum(LeadProduct(wu, wv, u, v, K), K, idx[n := m], n + 1),
                 RangeSum(LeadProduct(wu, wv, u, v, K), K, idx, n, m + 1),
                 a, u[n][m] * v[n][m], DotFrom(u[n], v[n], m + 1), DotFrom(u[n], v[n], m));
    } else {
      TimesZero(RangeSum(LeadProduct(wu, wv, u, v, K), K, idx, n, m), a, DotFrom(u[n], v[n], m));
    }
  }

  lemma Distribute(r: real, c: real, rest: real, a: real, p: real, s: real, t: real)
    requires r == c + rest && c == a * p && rest == a * s && t == p + s
    ensures r == a * t
  {
  }

  lemma TimesZero(r: real, a: real, z: real)
    requires r == 0.0 && z == 0.0
    ensures r == a * z
  {
  }

  /** One completion step: position n set to i. */
  lemma {:induction false} LeadStep(wu: real, wv: real, u: seq<seq<real>>, v: seq<seq<real>>, K: nat, ds: seq<real>, idx: seq<nat>, n: nat, i: nat)
    requires RowsOfLength(u, K) && RowsOfLength(v, K) && |u| == |v| == |idx| == |ds| && Below(idx, K) && n < |idx| && i < K
    requires DotsOf(ds, u, v, K, n + 1)
    ensures Below(idx[n := i], K)
    ensures CompletionSum(LeadProduct(wu, wv, u, v, K), K, idx[n := i], n + 1)
         == (Lead(wu, u, K, idx, n) * Lead(wv, v, K, idx, n) * ProductFrom(ds, n + 1)) * (u[n][i] * v[n][i])
    decreases |idx| - n, 0, 0
  {
    var idx' := idx[n := i];
    LeadPrefix(wu, u, K, idx, n, i, n);
    LeadPrefix(wv, v, K, idx, n, i, n);
    LeadCompletion(wu, wv, u, v, K, ds, idx', n + 1);
    Regroup(CompletionSum(LeadProduct(wu, wv, u, v, K), K, idx', n + 1), Lead(wu, u, K, idx', n + 1), Lead(wv, v, K, idx', n + 1),
            Lead(wu, u, K, idx', n), Lead(wv, v, K, idx', n), Lead(wu, u, K, idx, n), Lead(wv, v, K, idx, n),
            ProductFrom(ds, n + 1), u[n][i], v[n][i], u[n][i] * v[n][i]);
  }

  lemma {:induction false} RowDotsOf(u: seq<seq<real>>, v: seq<seq<real>>, K: nat, n: nat)
    requires RowsOfLength(u, K) && RowsOfLength(v, K) && |u| == |v| && n <= |u|
    ensures DotsOf(RowDots(u, v, K), u, v, K, n)
    decreases |u| - n
  {
    if n < |u| { RowDotsOf(u, v, K, n + 1); }
  }

  /** With empty rows there is no index to sum over, and the last dot is 0. */
  lemma EmptyRowsSum(wu: real, wv: real, u: seq<seq<real>>, v: seq<seq<real>>)
    requires RowsOfLength(u, 0) && RowsOfLength(v, 0) && 0 < |u| == |v|
    ensures IndexSum(LeadProduct(wu, wv, u, v, 0), 0, |u|) == 0.0
    ensures ProductBelow(RowDots(u, v, 0), |u|) == 0.0
  {
    var zeros: seq<nat> := seq(|u|, _ => 0);
    assert CompletionSum(LeadProduct(wu, wv, u, v, 0), 0, zeros, 0) == RangeSum(LeadProduct(wu, wv, u, v, 0), 0, zeros, 0, 0);
    assert RowDots(u, v, 0)[|u| - 1] == 0.0;
  }

  /** Summed over every index, the product of two rank-one terms is the two
      weights times the dots of their rows. */
  lemma LeadSum(wu: real, wv: real, u: seq<seq<real>>, v: seq<seq<real>>, K: nat)
    requires RowsOfLength(u, K) && RowsOfLength(v, K) && |u| == |v|
    ensures IndexSum(LeadProduct(wu, wv, u, v, K), K, |u|) == wu * wv * ProductBelow(RowDots(u, v, K), |u|)
  {
    if 0 < |u| && K == 0 {
      EmptyRowsSum(wu, wv, u, v);
    } else {
      var zeros: seq<nat> := seq(|u|, _ => 0);
      var ds := RowDots(u, v, K);
      RowDotsOf(u, v, K, 0);
      LeadCompletion(wu, wv, u, v, K, ds, zeros, 0);
      ProductSplit(ds, |u|);
    }
  }

  // ------------------------------------------ the products summed over

  /** Entry by entry product of term p of a and the first n terms of b. */
  function RowProduct(a: SRConf, b: SRConf, p: nat, n: nat): seq<nat> -> real
    requires Conformal(a, b) && p < Rank(a) && n <= Rank(b)
  {
    x => if IsIndex(a, x) then Term(a, p, x) * EntryUpTo(b, x, n) else 0.0
  }

  /** Entry by entry product of the first m terms of a and the first n of b. */
  function GridProduct(a: SRConf, b: SRConf, m: nat, n: nat): seq<nat> -> real
    requires Conformal(a, b) && m <= Rank(a) && n <= Rank(b)
  {
    x => if IsIndex(a, x) then EntryUpTo(a, x, m) * EntryUpTo(b, x, n) else 0.0
  }

  /** Entry by entry product of the tensors a and b stand for. */
  function EntryProduct(a: SRConf, b: SRConf): seq<nat> -> real
    requires Conformal(a, b)
  {
    x => if IsIndex(a, x) then Entry(a, x) * Entry(b, x) else 0.0
  }

  /** Row r of every factor matrix of c: the rank-one term r. */
  function RowsOf(c: SRConf, r: nat): (rows: seq<seq<real>>)
    requires Valid(c) && r < Rank(c)
    ensures |rows| == Axes(c) && RowsOfLength(rows, KVec(c))
    ensures forall x :: 0 <= x < Axes(c) ==> rows[x] == c.vectors[x][r]
  {
    seq(Axes(c), x requires 0 <= x < Axes(c) => c.vectors[x][r])
  }

  lemma {:induction false} FactorIsLead(c: SRConf, r: nat, idx: seq<nat>, n: nat)
    requires Valid(c) && IsIndex(c, idx) && r < Rank(c) && n <= Axes(c)
    ensures Below(idx, KVec(c))
    ensures Factor(c, r, idx, n) == Lead(c.weights[r], RowsOf(c, r), KVec(c), idx, n)
  {
    if n > 0 { FactorIsLead(c, r, idx, n - 1); }
  }

  lemma {:induction false} AxisDotsIsBelow(a: SRConf, b: SRConf, p: nat, q: nat, n: nat)
    requires Conformal(a, b) && p < Rank(a) && q < Rank(b) && n <= Axes(a)
    ensures AxisDots(a, b, p, q, n) == ProductBelow(RowDots(RowsOf(a, p), RowsOf(b, q), KVec(a)), n)
  {
    if n > 0 {
      AxisDotsIsBelow(a, b, p, q, n - 1);
      var u, v := a.vectors[n - 1][p], b.vectors[n - 1][q];
      DotFromIsDot(u, v, 0);
      assert u[0..] == u && v[0..] == v;
    }
  }

  /** Entry by entry product of term p of a and term q of b. */
  function PairProduct(a: SRConf, b: SRConf, p: nat, q: nat): seq<nat> -> real
    requires Conformal(a, b) && p < Rank(a) && q < Rank(b)
  {
    x => if IsIndex(a, x) then Term(a, p, x) * Term(b, q, x) else 0.0
  }

  /** Summed over every index, the product of term p of a and term q of b is
      their term overlap: the two weights times the dots of their factors. */
  lemma PairSum(a: SRConf, b: SRConf, p: nat, q: nat)
    requires Conformal(a, b) && p < Rank(a) && q < Rank(b)
    ensures IndexSum(PairProduct(a, b, p, q), KVec(a), Axes(a)) == TermOverlap(a, b, p, q)
  {
    var u, v, K := RowsOf(a, p), RowsOf(b, q), KVec(a);
    var g := LeadProduct(a.weights[p], b.weights[q], u, v, K);
    forall x
      ensures PairProduct(a, b, p, q)(x) == g(x)
    {
      if IsIndex(a, x) {
        FactorIsLead(a, p, x, Axes(a));
        FactorIsLead(b, q, x, Axes(a));
      }
    }
    IndexSumSame(PairProduct(a, b, p, q), g, K, Axes(a));
    LeadSum(a.weights[p], b.weights[q], u, v, K);
    AxisDotsIsBelow(a, b, p, q, Axes(a));
  }

  // ------------------------------------------------------------ bilinearity

  lemma {:induction false} RowSum(a: SRConf, b: SRConf, p: nat, n: nat)
    requires Conformal(a, b) && p < Rank(a) && n <= Rank(b)
    ensures IndexSum(RowProduct(a, b, p, n), KVec(a), Axes(a)) == RowOverlap(a, b, p, n)
  {
    var zeros: seq<nat> := seq(Axes(a), _ => 0);
    if n == 0 {
      CompletionZero(RowProduct(a, b, p, 0), KVec(a), zeros, 0);
    } else {
      RowSum(a, b, p, n - 1);
      PairSum(a, b, p, n - 1);
      CompletionAdd(RowProduct(a, b, p, n - 1), PairProduct(a, b, p, n - 1), RowProduct(a, b, p, n), KVec(a), zeros, 0);
    }
  }

  lemma {:induction false} GridSum(a: SRConf, b: SRConf, m: nat, n: nat)
    requires Conformal(a, b) && m <= Rank(a) && n <= Rank(b)
    ensures IndexSum(GridProduct(a, b, m, n), KVec(a), Axes(a)) == GridByRows(a, b, m, n)
  {
    var zeros: seq<nat> := seq(Axes(a), _ => 0);
    if m == 0 {
      CompletionZero(GridProduct(a, b, 0, n), KVec(a), zeros, 0);
    } else {
      GridSum(a, b, m - 1, n);
      RowSum(a, b, m - 1, n);
      CompletionAdd(GridProduct(a, b, m - 1, n), RowProduct(a, b, m - 1, n), GridProduct(a, b, m, n), KVec(a), zeros, 0);
    }
  }

  // ------------------------------------------------------------ the results

  /** `overlap` is the Frobenius inner product: the sum over every index of
      the product of the entries of the two tensors there. */
  lemma OverlapIsInnerProduct(a: SRConf, b: SRConf)
    requires Conformal(a, b)
    ensures Overlap(a, b) == IndexSum(EntryProduct(a, b), KVec(a), Axes(a))
  {
    GridSum(a, b, Rank(a), Rank(b));
    GridByRowsIsOverlap(a, b, Rank(a));
    IndexSumSame(EntryProduct(a, b), GridProduct(a, b, Rank(a), Rank(b)), KVec(a), Axes(a));
  }

  /** The self-overlap is the sum of the squared entries, so never negative. */
  lemma SelfOverlapIsSquareSum(c: SRConf)
    requires Valid(c)
    ensures Conformal(c, c)
    ensures SelfOverlap(c) == IndexSum(EntryProduct(c, c), KVec(c), Axes(c))
    ensures 0.0 <= SelfOverlap(c)
  {
    OverlapIsInnerProduct(c, c);
    CompletionNonNegative(EntryProduct(c, c), KVec(c), seq(Axes(c), _ => 0), 0);
  }

  /** Outside the clamp the Frobenius norm is the root of the sum of the
      squared entries of the tensor. */
  lemma FrobeniusNormIsEntryNorm(c: SRConf, sqrt: real -> real)
    requires Valid(c) && IsSqrt(sqrt)
    ensures Conformal(c, c)
    ensures var r := FrobeniusNorm(c, sqrt);
      r != 0.0 ==> r * r == IndexSum(EntryProduct(c, c), KVec(c), Axes(c))
  {
    SelfOverlapIsSquareSum(c);
  }
}
