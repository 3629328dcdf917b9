/** The data a separated representation keeps (MADNESS `SRConf`): a tensor
    type, the dimension and polynomial order of the tensor it stands for, one
    weight per term, and one factor matrix (rank x kVec) per effective axis.
    Several original axes may be merged into one effective axis; kVec is then
    k to the power of the number of merged axes. */
module Configs {
  import opened Numerics
  import opened Tensors

  /** The tensor representations the separated representation distinguishes. */
  datatype TensorType = TT_NONE | TT_2D | TT_3D

  /** Number of factor matrices a configuration of type tt keeps. */
  function DimEff(tt: TensorType): nat
  {
    match tt
    case TT_2D => 2
    case TT_3D => 3
    case TT_NONE => 0
  }

  /** An `SRConf`. The rank is the number of weights; `structured` is the
      view state switched by `make_structure` and `undo_structure`. */
  datatype SRConf = SRConf(
    tt: TensorType,
    dim: nat,
    k: nat,
    weights: seq<real>,
    vectors: seq<Matrix>,
    structured: bool)

  function Rank(c: SRConf): nat { |c.weights| }

  function Axes(c: SRConf): nat { DimEff(c.tt) }

  /** Original axes per effective axis (`dim_per_vector`). */
  function Merged(c: SRConf): nat
  {
    if Axes(c) == 0 then 0 else c.dim / Axes(c)
  }

  /** Length of one factor vector: k entries when every effective axis is
      one original axis. */
  function KVec(c: SRConf): (n: nat)
    ensures Merged(c) == 1 ==> n == c.k
  {
    assert Pow(c.k, 1) == c.k * Pow(c.k, 0);
    Pow(c.k, Merged(c))
  }

  /** The shape invariant: one factor matrix per effective axis, each with
      one row of length kVec per term, and dim a multiple of the axis count. */
  predicate Valid(c: SRConf)
  {
    |c.vectors| == Axes(c) &&
    (0 < Axes(c) ==> Merged(c) * Axes(c) == c.dim) &&
    forall a :: 0 <= a < Axes(c) ==> IsMatrix(c.vectors[a], Rank(c), KVec(c))
  }

  /** Two valid configurations whose factor vectors can be paired. */
  predicate Conformal(a: SRConf, b: SRConf)
  {
    Valid(a) && Valid(b) && a.tt == b.tt && KVec(a) == KVec(b)
  }

  /** The configuration of rank zero that `SRConf(dim, k, tt)` builds. */
  function EmptyConf(tt: TensorType, k: nat, dim: nat): (c: SRConf)
    requires 0 < DimEff(tt) ==> dim % DimEff(tt) == 0
    ensures Valid(c) && Rank(c) == 0
    ensures c.tt == tt && c.k == k && c.dim == dim
  {
    SRConf(tt, dim, k, [], seq(DimEff(tt), a => []), true)
  }

  // ------------------------------------------------------- reconstruction

  /** One index per effective axis, each inside a factor vector. */
  predicate IsIndex(c: SRConf, idx: seq<nat>)
  {
    |idx| == Axes(c) && forall a :: 0 <= a < |idx| ==> idx[a] < KVec(c)
  }

  /** The weight of term r times its factors on the axes below n, multiplied
      in axis order. */
  function Factor(c: SRConf, r: nat, idx: seq<nat>, n: nat): real
    requires Valid(c) && IsIndex(c, idx) && r < Rank(c) && n <= Axes(c)
  {
    if n == 0 then c.weights[r]
    else Factor(c, r, idx, n - 1) * c.vectors[n - 1][r][idx[n - 1]]
  }

  /** Contribution of term r at idx: w_r * F_0[r, i_0] * ... */
  function Term(c: SRConf, r: nat, idx: seq<nat>): real
    requires Valid(c) && IsIndex(c, idx) && r < Rank(c)
  {
    Factor(c, r, idx, Axes(c))
  }

  /** Sum of the first q terms at idx. */
  function EntryUpTo(c: SRConf, idx: seq<nat>, q: nat): real
    requires Valid(c) && IsIndex(c, idx) && q <= Rank(c)
  {
    if q == 0 then 0.0 else EntryUpTo(c, idx, q - 1) + Term(c, q - 1, idx)
  }

  /** Entry idx of the tensor the configuration represents. */
  function Entry(c: SRConf, idx: seq<nat>): real
    requires Valid(c) && IsIndex(c, idx)
  {
    EntryUpTo(c, idx, Rank(c))
  }

  lemma {:induction false} EntryOfRankZero(c: SRConf, idx: seq<nat>)
    requires Valid(c) && IsIndex(c, idx) && Rank(c) == 0
    ensures Entry(c, idx) == 0.0
  {
  }

  // -------------------------------------------------- adding configurations

  /** The sum of two configurations of the same type, order and dimension:
      the terms of b appended to those of a (`SRConf::operator+=`). */
  function Append(a: SRConf, b: SRConf): (r: SRConf)
    requires Valid(a) && Valid(b) && a.tt == b.tt && a.k == b.k && a.dim == b.dim
    ensures Valid(r) && r.tt == a.tt && r.k == a.k && r.dim == a.dim
    ensures r.structured == a.structured
    ensures r.weights == a.weights + b.weights
    ensures forall x :: 0 <= x < Axes(a) ==> r.vectors[x] == a.vectors[x] + b.vectors[x]
  {
    SRConf(a.tt, a.dim, a.k, a.weights + b.weights,
           seq(Axes(a), x requires 0 <= x < Axes(a) => a.vectors[x] + b.vectors[x]),
           a.structured)
  }

  /** The configuration with every weight negated. */
  function Negate(b: SRConf): (r: SRConf)
    requires Valid(b)
    ensures Valid(r) && r.tt == b.tt && r.k == b.k && r.dim == b.dim && r.vectors == b.vectors
    ensures |r.weights| == |b.weights| && forall i :: 0 <= i < |b.weights| ==> r.weights[i] == -b.weights[i]
  {
    b.(weights := seq(|b.weights|, i requires 0 <= i < |b.weights| => -b.weights[i]))
  }

  lemma {:induction false} FactorAppend(a: SRConf, b: SRConf, r: nat, idx: seq<nat>, n: nat)
    requires Valid(a) && Valid(b) && a.tt == b.tt && a.k == b.k && a.dim == b.dim
    requires IsIndex(a, idx) && r < Rank(a) + Rank(b) && n <= Axes(a)
    ensures IsIndex(Append(a, b), idx) && IsIndex(b, idx)
    ensures r < Rank(a) ==> Factor(Append(a, b), r, idx, n) == Factor(a, r, idx, n)
    ensures Rank(a) <= r ==> Factor(Append(a, b), r, idx, n) == Factor(b, r - Rank(a), idx, n)
  {
    if n > 0 { FactorAppend(a, b, r, idx, n - 1); }
  }

  lemma {:induction false} EntryUpToAppendLeft(a: SRConf, b: SRConf, idx: seq<nat>, q: nat)
    requires Valid(a) && Valid(b) && a.tt == b.tt && a.k == b.k && a.dim == b.dim
    requires IsIndex(a, idx) && q <= Rank(a)
    ensures IsIndex(Append(a, b), idx)
    ensures EntryUpTo(Append(a, b), idx, q) == EntryUpTo(a, idx, q)
  {
    if q > 0 {
      EntryUpToAppendLeft(a, b, idx, q - 1);
      FactorAppend(a, b, q - 1, idx, Axes(a));
    }
  }

  lemma {:induction false} EntryUpToAppendRight(a: SRConf, b: SRConf, idx: seq<nat>, q: nat)
    requires Valid(a) && Valid(b) && a.tt == b.tt && a.k == b.k && a.dim == b.dim
    requires IsIndex(a, idx) && q <= Rank(b)
    ensures IsIndex(Append(a, b), idx) && IsIndex(b, idx)
    ensures EntryUpTo(Append(a, b), idx, Rank(a) + q) == Entry(a, idx) + EntryUpTo(b, idx, q)
  {
    if q == 0 {
      EntryUpToAppendLeft(a, b, idx, Rank(a));
    } else {
      EntryUpToAppendRight(a, b, idx, q - 1);
      FactorAppend(a, b, Rank(a) + q - 1, idx, Axes(a));
    }
  }

  /** Appending terms adds the represented tensors entry by entry. */
  lemma AppendEntry(a: SRConf, b: SRConf, idx: seq<nat>)
    requires Valid(a) && Valid(b) && a.tt == b.tt && a.k == b.k && a.dim == b.dim
    requires IsIndex(a, idx)
    ensures IsIndex(Append(a, b), idx) && IsIndex(b, idx)
    ensures Entry(Append(a, b), idx) == Entry(a, idx) + Entry(b, idx)
  {
    EntryUpToAppendRight(a, b, idx, Rank(b));
  }

  lemma {:induction false} FactorNegate(b: SRConf, r: nat, idx: seq<nat>, n: nat)
    requires Valid(b) && IsIndex(b, idx) && r < Rank(b) && n <= Axes(b)
    ensures Factor(Negate(b), r, idx, n) == -Factor(b, r, idx, n)
  {
    if n > 0 { FactorNegate(b, r, idx, n - 1); }
  }

  lemma {:induction false} EntryUpToNegate(b: SRConf, idx: seq<nat>, q: nat)
    requires Valid(b) && IsIndex(b, idx) && q <= Rank(b)
    ensures EntryUpTo(Negate(b), idx, q) == -EntryUpTo(b, idx, q)
  {
    if q > 0 {
      EntryUpToNegate(b, idx, q - 1);
      FactorNegate(b, q - 1, idx, Axes(b));
    }
  }

  /** Negating the weights negates the represented tensor. */
  lemma NegateEntry(b: SRConf, idx: seq<nat>)
    requires Valid(b) && IsIndex(b, idx)
    ensures Entry(Negate(b), idx) == -Entry(b, idx)
  {
    EntryUpToNegate(b, idx, Rank(b));
  }

  // ---------------------------------------------------------------- overlap

  /** Product over the axes below n of the inner products of factor row p of
      a and factor row q of b. */
  function AxisDots(a: SRConf, b: SRConf, p: nat, q: nat, n: nat): real
    requires Conformal(a, b) && p < Rank(a) && q < Rank(b) && n <= Axes(a)
  {
    if n == 0 then 1.0
    else AxisDots(a, b, p, q, n - 1) * Dot(a.vectors[n - 1][p], b.vectors[n - 1][q])
  }

  /** Inner product of term p of a with term q of b. */
  function TermOverlap(a: SRConf, b: SRConf, p: nat, q: nat): real
    requires Conformal(a, b) && p < Rank(a) && q < Rank(b)
  {
    (a.weights[p] * b.weights[q]) * AxisDots(a, b, p, q, Axes(a))
  }

  function RowOverlap(a: SRConf, b: SRConf, p: nat, n: nat): real
    requires Conformal(a, b) && p < Rank(a) && n <= Rank(b)
  {
    if n == 0 then 0.0 else RowOverlap(a, b, p, n - 1) + TermOverlap(a, b, p, n - 1)
  }

  function OverlapUpTo(a: SRConf, b: SRConf, n: nat): real
    requires Conformal(a, b) && n <= Rank(a)
  {
    if n == 0 then 0.0 else OverlapUpTo(a, b, n - 1) + RowOverlap(a, b, n - 1, Rank(b))
  }

  /** The Frobenius inner product of the tensors two configurations
      represent, summed term by term (`overlap(SRConf, SRConf)`). */
  function Overlap(a: SRConf, b: SRConf): real
    requires Conformal(a, b)
  {
    OverlapUpTo(a, b, Rank(a))
  }

  lemma {:induction false} OverlapUpToEmptyRight(a: SRConf, b: SRConf, n: nat)
    requires Conformal(a, b) && n <= Rank(a) && Rank(b) == 0
    ensures OverlapUpTo(a, b, n) == 0.0
  {
    if n > 0 { OverlapUpToEmptyRight(a, b, n - 1); }
  }

  /** A configuration without terms has zero overlap with any other. */
  lemma OverlapWithRankZero(a: SRConf, b: SRConf)
    requires Conformal(a, b) && (Rank(a) == 0 || Rank(b) == 0)
    ensures Overlap(a, b) == 0.0
  {
    if Rank(b) == 0 { OverlapUpToEmptyRight(a, b, Rank(a)); }
  }

  lemma AppendConformal(a: SRConf, b: SRConf, c: SRConf)
    requires Conformal(a, c) && Valid(b) && a.tt == b.tt && a.k == b.k && a.dim == b.dim
    ensures Conformal(Append(a, b), c) && Conformal(b, c)
  {
  }

  lemma {:induction false} AxisDotsAppend(a: SRConf, b: SRConf, c: SRConf, p: nat, q: nat, n: nat)
    requires Conformal(a, c) && Valid(b) && a.tt == b.tt && a.k == b.k && a.dim == b.dim
    requires p < Rank(a) + Rank(b) && q < Rank(c) && n <= Axes(a)
    ensures Conformal(Append(a, b), c) && Conformal(b, c)
    ensures p < Rank(a) ==> AxisDots(Append(a, b), c, p, q, n) == AxisDots(a, c, p, q, n)
    ensures Rank(a) <= p ==> AxisDots(Append(a, b), c, p, q, n) == AxisDots(b, c, p - Rank(a), q, n)
  {
    if n > 0 { AxisDotsAppend(a, b, c, p, q, n - 1); }
  }

  lemma {:induction false} RowOverlapAppend(a: SRConf, b: SRConf, c: SRConf, p: nat, n: nat)
    requires Conformal(a, c) && Valid(b) && a.tt == b.tt && a.k == b.k && a.dim == b.dim
    requires p < Rank(a) + Rank(b) && n <= Rank(c)
    ensures Conformal(Append(a, b), c) && Conformal(b, c)
    ensures p < Rank(a) ==> RowOverlap(Append(a, b), c, p, n) == RowOverlap(a, c, p, n)
    ensures Rank(a) <= p ==> RowOverlap(Append(a, b), c, p, n) == RowOverlap(b, c, p - Rank(a), n)
  {
    AppendConformal(a, b, c);
    if n > 0 {
      RowOverlapAppend(a, b, c, p, n - 1);
      AxisDotsAppend(a, b, c, p, n - 1, Axes(a));
      var ab := Append(a, b);
      if p < Rank(a) {
        assert ab.weights[p] == a.weights[p];
        assert TermOverlap(ab, c, p, n - 1) == TermOverlap(a, c, p, n - 1);
      } else {
        assert ab.weights[p] == b.weights[p - Rank(a)];
        assert TermOverlap(ab, c, p, n - 1) == TermOverlap(b, c, p - Rank(a), n - 1);
      }
    }
  }

  lemma {:induction false} OverlapUpToAppendLeft(a: SRConf, b: SRConf, c: SRConf, n: nat)
    requires Conformal(a, c) && Valid(b) && a.tt == b.tt && a.k == b.k && a.dim == b.dim
    requires n <= Rank(a)
    ensures Conformal(Append(a, b), c)
    ensures OverlapUpTo(Append(a, b), c, n) == OverlapUpTo(a, c, n)
  {
    AppendConformal(a, b, c);
    if n > 0 {
      OverlapUpToAppendLeft(a, b, c, n - 1);
      RowOverlapAppend(a, b, c, n - 1, Rank(c));
    }
  }

  lemma {:induction false} OverlapUpToAppendRight(a: SRConf, b: SRConf, c: SRConf, n: nat)
    requires Conformal(a, c) && Valid(b) && a.tt == b.tt && a.k == b.k && a.dim == b.dim
    requires n <= Rank(b)
    ensures Conformal(Append(a, b), c) && Conformal(b, c)
    ensures OverlapUpTo(Append(a, b), c, Rank(a) + n) == Overlap(a, c) + OverlapUpTo(b, c, n)
  {
    if n == 0 {
      OverlapUpToAppendLeft(a, b, c, Rank(a));
    } else {
      OverlapUpToAppendRight(a, b, c, n - 1);
      RowOverlapAppend(a, b, c, Rank(a) + n - 1, Rank(c));
    }
  }

  /** The overlap is additive in its first argument: appending the terms of
      b to a adds their overlaps. */
  lemma OverlapAppend(a: SRConf, b: SRConf, c: SRConf)
    requires Conformal(a, c) && Valid(b) && a.tt == b.tt && a.k == b.k && a.dim == b.dim
    ensures Conformal(Append(a, b), c) && Conformal(b, c)
    ensures Overlap(Append(a, b), c) == Overlap(a, c) + Overlap(b, c)
  {
    OverlapUpToAppendRight(a, b, c, Rank(b));
  }

  lemma {:induction false} RowOverlapNegate(a: SRConf, c: SRConf, p: nat, n: nat)
    requires Conformal(a, c) && p < Rank(a) && n <= Rank(c)
    ensures Conformal(Negate(a), c)
    ensures RowOverlap(Negate(a), c, p, n) == -RowOverlap(a, c, p, n)
  {
    if n > 0 {
      RowOverlapNegate(a, c, p, n - 1);
      AxisDotsNegate(a, c, p, n - 1, Axes(a));
      var d := AxisDots(a, c, p, n - 1, Axes(a));
      assert TermOverlap(Negate(a), c, p, n - 1) == (-a.weights[p] * c.weights[n - 1]) * d;
      assert (-a.weights[p] * c.weights[n - 1]) * d == -((a.weights[p] * c.weights[n - 1]) * d);
    }
  }

  lemma {:induction false} AxisDotsNegate(a: SRConf, c: SRConf, p: nat, q: nat, n: nat)
    requires Conformal(a, c) && p < Rank(a) && q < Rank(c) && n <= Axes(a)
    ensures Conformal(Negate(a), c)
    ensures AxisDots(Negate(a), c, p, q, n) == AxisDots(a, c, p, q, n)
  {
    if n > 0 { AxisDotsNegate(a, c, p, q, n - 1); }
  }

  lemma {:induction false} OverlapUpToNegate(a: SRConf, c: SRConf, n: nat)
    requires Conformal(a, c) && n <= Rank(a)
    ensures Conformal(Negate(a), c)
    ensures OverlapUpTo(Negate(a), c, n) == -OverlapUpTo(a, c, n)
  {
    if n > 0 {
      OverlapUpToNegate(a, c, n - 1);
      RowOverlapNegate(a, c, n - 1, Rank(c));
    }
  }

  /** Negating the weights of the first argument negates the overlap. */
  lemma OverlapNegate(a: SRConf, c: SRConf)
    requires Conformal(a, c)
    ensures Conformal(Negate(a), c)
    ensures Overlap(Negate(a), c) == -Overlap(a, c)
  {
    OverlapUpToNegate(a, c, Rank(a));
  }

  /** Sum over the terms p < m of a of their overlaps with term q of b. */
  function ColOverlap(a: SRConf, b: SRConf, q: nat, m: nat): real
    requires Conformal(a, b) && q < Rank(b) && m <= Rank(a)
  {
    if m == 0 then 0.0 else ColOverlap(a, b, q, m - 1) + TermOverlap(a, b, m - 1, q)
  }

  /** The term overlaps of p < m and q < n, summed row by row. */
  function GridByRows(a: SRConf, b: SRConf, m: nat, n: nat): real
    requires Conformal(a, b) && m <= Rank(a) && n <= Rank(b)
  {
    if m == 0 then 0.0 else GridByRows(a, b, m - 1, n) + RowOverlap(a, b, m - 1, n)
  }

  /** The same overlaps summed column by column. */
  function GridByCols(a: SRConf, b: SRConf, m: nat, n: nat): real
    requires Conformal(a, b) && m <= Rank(a) && n <= Rank(b)
  {
    if n == 0 then 0.0 else GridByCols(a, b, m, n - 1) + ColOverlap(a, b, n - 1, m)
  }

  lemma {:induction false} GridByRowsStep(a: SRConf, b: SRConf, m: nat, n: nat)
    requires Conformal(a, b) && m <= Rank(a) && n < Rank(b)
    ensures GridByRows(a, b, m, n + 1) == GridByRows(a, b, m, n) + ColOverlap(a, b, n, m)
  {
    if m > 0 { GridByRowsStep(a, b, m - 1, n); }
  }

  lemma {:induction false} GridSwap(a: SRConf, b: SRConf, m: nat, n: nat)
    requires Conformal(a, b) && m <= Rank(a) && n <= Rank(b)
    ensures GridByRows(a, b, m, n) == GridByCols(a, b, m, n)
  {
    if n == 0 {
      GridByRowsEmpty(a, b, m);
    } else {
      GridSwap(a, b, m, n - 1);
      GridByRowsStep(a, b, m, n - 1);
    }
  }

  lemma {:induction false} GridByRowsEmpty(a: SRConf, b: SRConf, m: nat)
    requires Conformal(a, b) && m <= Rank(a)
    ensures GridByRows(a, b, m, 0) == 0.0
  {
    if m > 0 { GridByRowsEmpty(a, b, m - 1); }
  }

  lemma {:induction false} AxisDotsSymmetric(a: SRConf, b: SRConf, p: nat, q: nat, n: nat)
    requires Conformal(a, b) && p < Rank(a) && q < Rank(b) && n <= Axes(a)
    ensures AxisDots(a, b, p, q, n) == AxisDots(b, a, q, p, n)
  {
    if n > 0 {
      AxisDotsSymmetric(a, b, p, q, n - 1);
      DotSymmetric(a.vectors[n - 1][p], b.vectors[n - 1][q]);
    }
  }

  lemma {:induction false} ColOverlapIsRow(a: SRConf, b: SRConf, q: nat, m: nat)
    requires Conformal(a, b) && q < Rank(b) && m <= Rank(a)
    ensures ColOverlap(a, b, q, m) == RowOverlap(b, a, q, m)
  {
    if m > 0 {
      ColOverlapIsRow(a, b, q, m - 1);
      AxisDotsSymmetric(a, b, m - 1, q, Axes(a));
      var d := AxisDots(a, b, m - 1, q, Axes(a));
      assert a.weights[m - 1] * b.weights[q] == b.weights[q] * a.weights[m - 1];
      assert TermOverlap(a, b, m - 1, q) == (a.weights[m - 1] * b.weights[q]) * d;
      assert TermOverlap(b, a, q, m - 1) == (b.weights[q] * a.weights[m - 1]) * d;
    }
  }

  lemma {:induction false} GridByColsIsRows(a: SRConf, b: SRConf, n: nat)
    requires Conformal(a, b) && n <= Rank(b)
    ensures GridByCols(a, b, Rank(a), n) == OverlapUpTo(b, a, n)
  {
    if n > 0 {
      GridByColsIsRows(a, b, n - 1);
      ColOverlapIsRow(a, b, n - 1, Rank(a));
    }
  }

  lemma {:induction false} GridByRowsIsOverlap(a: SRConf, b: SRConf, m: nat)
    requires Conformal(a, b) && m <= Rank(a)
    ensures GridByRows(a, b, m, Rank(b)) == OverlapUpTo(a, b, m)
  {
    if m > 0 { GridByRowsIsOverlap(a, b, m - 1); }
  }

  /** The overlap does not depend on the order of its arguments. */
  lemma OverlapSymmetric(a: SRConf, b: SRConf)
    requires Conformal(a, b)
    ensures Overlap(a, b) == Overlap(b, a)
  {
    GridByRowsIsOverlap(a, b, Rank(a));
    GridSwap(a, b, Rank(a), Rank(b));
    GridByColsIsRows(a, b, Rank(b));
  }

  // ------------------------------------------------------------- reassign

  /** `reassign(axis, l, w, fvec)`: term l gets weight w and, on the given
      axis, the factor vector fvec; nothing else changes. */
  function Reassign(c: SRConf, axis: nat, l: nat, w: real, fvec: seq<real>): (r: SRConf)
    requires Valid(c) && axis < Axes(c) && l < Rank(c) && |fvec| == KVec(c)
    ensures Valid(r) && r.tt == c.tt && r.k == c.k && r.dim == c.dim && r.structured == c.structured
    ensures r.weights == c.weights[l := w]
    ensures r.vectors == c.vectors[axis := c.vectors[axis][l := fvec]]
  {
    c.(weights := c.weights[l := w], vectors := c.vectors[axis := c.vectors[axis][l := fvec]])
  }

  /** Largest weight of the first n terms (`maxWeight`), 0 without terms. */
  function MaxWeightUpTo(w: seq<real>, n: nat): (m: real)
    requires n <= |w|
    ensures n == 0 ==> m == 0.0
    ensures forall i :: 0 <= i < n ==> w[i] <= m
    ensures 0 < n ==> exists i :: 0 <= i < n && w[i] == m
  {
    if n == 0 then 0.0
    else if n == 1 then w[0]
    else Max(MaxWeightUpTo(w, n - 1), w[n - 1])
  }

  function MaxWeight(c: SRConf): real
  {
    MaxWeightUpTo(c.weights, Rank(c))
  }
}
