/** Slicing a separated representation (`SepRep::operator()`): one slice per
    original axis; the weights are kept and every factor row is cut by the
    slices of the axes merged into its effective axis. */
module Slicing {
  import opened Wrappers
  import opened Numerics
  import opened Tensors
  import opened Configs

  /** Every row of a factor matrix cut by the slices sl of its merged axes. */
  function SliceRows(rows: Matrix, k: nat, sl: seq<Slice>): (r: Matrix)
    requires forall l :: 0 <= l < |rows| ==> |rows[l]| == Pow(k, |sl|)
    requires AllFit(sl, k)
    ensures IsMatrix(r, |rows|, Extents(sl, k))
    ensures forall l :: 0 <= l < |rows| ==> r[l] == SliceRow(rows[l], k, sl)
  {
    seq(|rows|, l requires 0 <= l < |rows| => SliceRow(rows[l], k, sl))
  }

  /** The slices of the original axes merged into effective axis a. */
  function AxisSlices(s: seq<Slice>, m: nat, a: nat): (sl: seq<Slice>)
    requires m * a + m <= |s|
    ensures |sl| == m
  {
    s[m * a .. m * a + m]
  }

  lemma AxisSlicesFit(c: SRConf, s: seq<Slice>, a: nat)
    requires Valid(c) && 0 < Axes(c) && a < Axes(c) && |s| == c.dim
    ensures Merged(c) * a + Merged(c) <= |s|
  {
    BlockFits(a, Axes(c), Merged(c));
    assert Axes(c) * Merged(c) == Merged(c) * Axes(c);
  }

  /** The new order the source computes: end - start + 1 for the first
      slice, plus k on the path with terms when the end counts from the back. */
  function NewOrder(s0: Slice, k: nat, withTerms: bool): int
  {
    s0.end - s0.start + 1 + (if withTerms && s0.end < 0 then k else 0)
  }

  lemma DivisibleDim(c: SRConf)
    requires Valid(c)
    ensures 0 < DimEff(c.tt) ==> c.dim % DimEff(c.tt) == 0
  {
    if 0 < Axes(c) { assert c.dim == Merged(c) * Axes(c); }
  }

  /** The factor matrices of a configuration with terms, every row cut by
      the slices of its effective axis. */
  function SlicedVectors(c: SRConf, s: seq<Slice>): (v: seq<Matrix>)
    requires Valid(c) && 0 < Axes(c) && |s| == c.dim && AllFit(s, c.k)
    ensures |v| == Axes(c)
    ensures forall a :: 0 <= a < Axes(c) ==>
              (Merged(c) * a + Merged(c) <= |s| &&
               IsMatrix(v[a], Rank(c), Extents(AxisSlices(s, Merged(c), a), c.k)) &&
               forall l :: 0 <= l < Rank(c) ==> v[a][l] == SliceRow(c.vectors[a][l], c.k, AxisSlices(s, Merged(c), a)))
  {
    seq(Axes(c), a requires 0 <= a < Axes(c) => SlicedAxis(c, s, a))
  }

  /** The factor matrix of effective axis a, every row cut by the slices of
      the axes merged into it. */
  function SlicedAxis(c: SRConf, s: seq<Slice>, a: nat): (m: Matrix)
    requires Valid(c) && a < Axes(c) && |s| == c.dim && AllFit(s, c.k)
    ensures Merged(c) * a + Merged(c) <= |s|
    ensures IsMatrix(m, Rank(c), Extents(AxisSlices(s, Merged(c), a), c.k))
    ensures forall l :: 0 <= l < Rank(c) ==> m[l] == SliceRow(c.vectors[a][l], c.k, AxisSlices(s, Merged(c), a))
  {
    AxisSlicesFit(c, s, a);
    SliceRows(c.vectors[a], c.k, AxisSlices(s, Merged(c), a))
  }

  /** The slice of a configuration. Without terms the result is an empty
      configuration whose order is end - start + 1 of the first slice,
      converted to an unsigned int; otherwise every factor row is sliced. */
  function SliceConf(c: SRConf, s: seq<Slice>): (r: Result<SRConf>)
    requires Valid(c)
    ensures r.Err? && (|s| != c.dim || |s| == 0 || s[0].step != 1) ==> r.failure.AssertionFailed?
    ensures r.Ok? ==> |s| == c.dim && 0 < |s| && s[0].step == 1
    ensures r.Ok? ==> r.value.tt == c.tt && r.value.dim == c.dim && r.value.weights == c.weights
    ensures r.Ok? ==> r.value.k == ToUnsigned32(NewOrder(s[0], c.k, 0 < Rank(c)))
    ensures r.Ok? && Rank(c) == 0 ==> Valid(r.value)
    ensures r.Ok? && 0 < Rank(c) ==>
              c.structured && (Merged(c) == 1 || Merged(c) == 2 || Merged(c) == 3) && AllFit(s, c.k)
    ensures r.Ok? && 0 < Rank(c) ==> 0 < Axes(c) && r.value.vectors == SlicedVectors(c, s) && r.value.structured
  {
    if |s| != c.dim then Err(AssertionFailed("one slice per dimension"))
    else if |s| == 0 || s[0].step != 1 then Err(AssertionFailed("the first slice must have step 1"))
    else if Rank(c) == 0 then
      DivisibleDim(c);
      Ok(EmptyConf(c.tt, ToUnsigned32(NewOrder(s[0], c.k, false)), c.dim))
    else if !c.structured then Err(AssertionFailed("slicing needs structure"))
    else
      var m := Merged(c);
      if !(m == 1 || m == 2 || m == 3) then Err(AssertionFailed("merged dimension must be 1, 2 or 3"))
      else if !AllFit(s, c.k) then Err(TensorError("slice out of range"))
      else
        Ok(SRConf(c.tt, c.dim, ToUnsigned32(NewOrder(s[0], c.k, true)), c.weights, SlicedVectors(c, s), true))
  }

  /** On the path with terms, and for a non-negative start, the new order is
      the number of indices the first slice selects, whether its end counts
      from the front or from the back. */
  lemma SliceOrderIsExtent(c: SRConf, s: seq<Slice>)
    requires Valid(c) && 0 < Rank(c) && SliceConf(c, s).Ok? && 0 <= s[0].start && c.k < TwoTo32
    ensures Fits(s[0], c.k) && SliceConf(c, s).value.k == Extent(s[0], c.k)
  {
    UnitSliceExtent(s[0], c.k);
  }

  /** When every slice selects as many indices as the new order, the slice is
      a well-formed configuration with the same rank. */
  lemma SliceValid(c: SRConf, s: seq<Slice>)
    requires Valid(c) && 0 < Rank(c) && SliceConf(c, s).Ok?
    requires forall i :: 0 <= i < |s| ==> Fits(s[i], c.k) && Extent(s[i], c.k) == SliceConf(c, s).value.k
    ensures Valid(SliceConf(c, s).value) && Rank(SliceConf(c, s).value) == Rank(c)
  {
    var r := SliceConf(c, s).value;
    var m := Merged(c);
    assert Merged(r) == m;
    forall a | 0 <= a < Axes(c)
      ensures IsMatrix(r.vectors[a], Rank(r), KVec(r))
    {
      AxisSlicesFit(c, s, a);
      var sl := AxisSlices(s, m, a);
      assert forall i :: 0 <= i < |sl| ==> sl[i] == s[m * a + i];
      ExtentsUniform(sl, c.k, r.k);
    }
  }

  /** Every slice fits an axis of extent k and selects e indices. */
  predicate Uniform(s: seq<Slice>, k: nat, e: nat)
  {
    forall i :: 0 <= i < |s| ==> Fits(s[i], k) && Extent(s[i], k) == e
  }

  /** The position in a factor row of effective axis a that entry j of the
      sliced row comes from: the merged axes' slices each pick one original
      index, in row-major order. */
  function AxisPick(c: SRConf, s: seq<Slice>, e: nat, a: nat, j: nat): (p: nat)
    requires Valid(c) && 0 < Axes(c) && |s| == c.dim && Uniform(s, c.k, e)
    requires a < Axes(c) && j < Pow(e, Merged(c))
    ensures p < KVec(c)
  {
    AxisSlicesFit(c, s, a);
    var sl := AxisSlices(s, Merged(c), a);
    assert forall i :: 0 <= i < |sl| ==> sl[i] == s[Merged(c) * a + i];
    ExtentsUniform(sl, c.k, e);
    PickRow(sl, c.k, j)
  }

  /** The index of the original each index of the slice stands for, one
      per effective axis. */
  function Picked(c: SRConf, s: seq<Slice>, e: nat, idx: seq<nat>): (p: seq<nat>)
    requires Valid(c) && 0 < Axes(c) && |s| == c.dim && Uniform(s, c.k, e)
    requires |idx| == Axes(c) && forall a :: 0 <= a < |idx| ==> idx[a] < Pow(e, Merged(c))
    ensures IsIndex(c, p)
    ensures forall a :: 0 <= a < |idx| ==> p[a] == AxisPick(c, s, e, a, idx[a])
  {
    seq(|idx|, a requires 0 <= a < |idx| => AxisPick(c, s, e, a, idx[a]))
  }

  /** Row l of sliced factor matrix a is row l of the original cut by the
      slices of axis a. */
  lemma SlicedRow(c: SRConf, s: seq<Slice>, a: nat, l: nat)
    requires Valid(c) && 0 < Axes(c) && |s| == c.dim && AllFit(s, c.k) && a < Axes(c) && l < Rank(c)
    ensures Merged(c) * a + Merged(c) <= |s| && |c.vectors[a][l]| == Pow(c.k, Merged(c))
    ensures AllFit(AxisSlices(s, Merged(c), a), c.k)
    ensures SlicedVectors(c, s)[a][l] == SliceRow(c.vectors[a][l], c.k, AxisSlices(s, Merged(c), a))
  {
  }

  /** `AxisPick` is `PickRow` over the slices of the axis, which select
      e^m indices. */
  lemma AxisPickIsPickRow(c: SRConf, s: seq<Slice>, e: nat, a: nat, j: nat)
    requires Valid(c) && 0 < Axes(c) && |s| == c.dim && Uniform(s, c.k, e)
    requires a < Axes(c) && j < Pow(e, Merged(c))
    ensures Merged(c) * a + Merged(c) <= |s| && AllFit(AxisSlices(s, Merged(c), a), c.k)
    ensures j < Extents(AxisSlices(s, Merged(c), a), c.k)
    ensures AxisPick(c, s, e, a, j) == PickRow(AxisSlices(s, Merged(c), a), c.k, j)
  {
    AxisSlicesFit(c, s, a);
    var sl := AxisSlices(s, Merged(c), a);
    assert forall i :: 0 <= i < |sl| ==> sl[i] == s[Merged(c) * a + i];
    ExtentsUniform(sl, c.k, e);
  }

  /** Entry j of a sliced factor row is the entry of the original row at
      `AxisPick`. */
  lemma SliceRowEntry(c: SRConf, s: seq<Slice>, e: nat, a: nat, l: nat, j: nat)
    requires Valid(c) && 0 < Axes(c) && |s| == c.dim && Uniform(s, c.k, e)
    requires a < Axes(c) && l < Rank(c) && j < Pow(e, Merged(c))
    ensures AllFit(s, c.k) && j < |SlicedVectors(c, s)[a][l]|
    ensures SlicedVectors(c, s)[a][l][j] == c.vectors[a][l][AxisPick(c, s, e, a, j)]
  {
    AxisPickIsPickRow(c, s, e, a, j);
    SlicedRow(c, s, a, l);
    SliceRowPick(c.vectors[a][l], c.k, AxisSlices(s, Merged(c), a), j);
  }

  /** Two terms with the same weight whose factors agree at two indices axis
      by axis have the same partial products. */
  lemma {:induction false} FactorAgrees(r: SRConf, c: SRConf, l: nat, idx: seq<nat>, p: seq<nat>, n: nat)
    requires Valid(r) && Valid(c) && IsIndex(r, idx) && IsIndex(c, p) && Axes(r) == Axes(c)
    requires l < Rank(r) && l < Rank(c) && r.weights[l] == c.weights[l] && n <= Axes(c)
    requires forall a :: 0 <= a < n ==> r.vectors[a][l][idx[a]] == c.vectors[a][l][p[a]]
    ensures Factor(r, l, idx, n) == Factor(c, l, p, n)
    decreases n
  {
    if n > 0 { FactorAgrees(r, c, l, idx, p, n - 1); }
  }

  /** A configuration that has the weights of c and the sliced factors of c. */
  predicate SliceOf(r: SRConf, c: SRConf, s: seq<Slice>)
  {
    Valid(c) && 0 < Axes(c) && |s| == c.dim && Uniform(s, c.k, r.k) &&
    r.tt == c.tt && r.dim == c.dim && r.weights == c.weights && r.vectors == SlicedVectors(c, s) && Valid(r)
  }

  /** The factors of a term of the slice are those of the original at the
      picked indices. */
  lemma SliceFactor(c: SRConf, s: seq<Slice>, r: SRConf, l: nat, idx: seq<nat>)
    requires SliceOf(r, c, s) && IsIndex(r, idx) && l < Rank(c)
    ensures Merged(r) == Merged(c) && IsIndex(c, Picked(c, s, r.k, idx))
    ensures Term(r, l, idx) == Term(c, l, Picked(c, s, r.k, idx))
  {
    assert Merged(r) == Merged(c);
    var p := Picked(c, s, r.k, idx);
    forall a | 0 <= a < Axes(c)
      ensures r.vectors[a][l][idx[a]] == c.vectors[a][l][p[a]]
    {
      SliceRowEntry(c, s, r.k, a, l, idx[a]);
    }
    FactorAgrees(r, c, l, idx, p, Axes(c));
  }

  lemma {:induction false} SliceEntryUpTo(c: SRConf, s: seq<Slice>, r: SRConf, idx: seq<nat>, q: nat)
    requires SliceOf(r, c, s) && IsIndex(r, idx) && q <= Rank(c)
    ensures Merged(r) == Merged(c) && IsIndex(c, Picked(c, s, r.k, idx))
    ensures EntryUpTo(r, idx, q) == EntryUpTo(c, Picked(c, s, r.k, idx), q)
    decreases q
  {
    assert Merged(r) == Merged(c);
    if q > 0 {
      SliceEntryUpTo(c, s, r, idx, q - 1);
      SliceFactor(c, s, r, q - 1, idx);
    }
  }

  /** With every slice selecting as many indices as the new order, every
      entry of the slice is the entry of the original at the indices the
      slices pick, for one, two or three original axes per effective axis. */
  lemma SliceEntry(c: SRConf, s: seq<Slice>, idx: seq<nat>)
    requires Valid(c) && 0 < Rank(c) && SliceConf(c, s).Ok?
    requires Uniform(s, c.k, SliceConf(c, s).value.k)
    requires IsIndex(SliceConf(c, s).value, idx)
    ensures 0 < Axes(c) && Valid(SliceConf(c, s).value) && Merged(SliceConf(c, s).value) == Merged(c)
    ensures IsIndex(c, Picked(c, s, SliceConf(c, s).value.k, idx))
    ensures Entry(SliceConf(c, s).value, idx) == Entry(c, Picked(c, s, SliceConf(c, s).value.k, idx))
  {
    var r := SliceConf(c, s).value;
    SliceValid(c, s);
    SliceEntryUpTo(c, s, r, idx, Rank(c));
  }

  /** The path without terms ignores a negative end: Slice(1, -2) on each
      axis gives order 2^32 - 2 there, while with terms it gives k - 2. */
  lemma SliceWithoutTermsIgnoresNegativeEnd(c: SRConf, s: seq<Slice>)
    requires Valid(c) && Rank(c) == 0 && |s| == c.dim && 0 < |s| && s[0] == Slice(1, -2, 1)
    ensures SliceConf(c, s) == Ok(EmptyConf(c.tt, TwoTo32 - 2, c.dim))
    ensures Rank(SliceConf(c, s).value) == 0
  {
    DivisibleDim(c);
  }
}
