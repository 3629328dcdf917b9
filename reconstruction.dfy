/** The dense tensor a separated representation stands for: its entries in
    the configurational layout (kVec per effective axis), which, read in
    row-major order, are also the entries of the k x ... x k tensor of the
    original dimension. */
module Reconstruction {
  import opened Wrappers
  import opened Numerics
  import opened Tensors
  import opened Configs

  /** With every effective axis merging m = dim / axes original axes, kVec^axes
      is k^dim: the configurational and the original shape hold as many
      entries. */
  lemma LayoutSize(c: SRConf)
    requires Valid(c) && 0 < Axes(c)
    ensures Pow(KVec(c), Axes(c)) == Pow(c.k, c.dim)
    ensures Axes(c) == 2 ==> KVec(c) * KVec(c) == Pow(c.k, c.dim)
    ensures Axes(c) == 3 ==> KVec(c) * KVec(c) * KVec(c) == Pow(c.k, c.dim)
  {
    var n := KVec(c);
    PowPow(c.k, Merged(c), Axes(c));
    assert Merged(c) * Axes(c) == c.dim;
    assert Pow(n, 1) == n;
    assert Pow(n, 2) == n * Pow(n, 1);
    assert Pow(n, 3) == n * Pow(n, 2);
  }

  /** The all-zero tensor of shape k^dim. */
  function Zeros(k: nat, dim: nat): (t: Dense)
    ensures WellFormed(t) && t.shape == Repeat(k, dim)
    ensures forall p :: 0 <= p < |t.data| ==> t.data[p] == 0.0
  {
    Dense(Repeat(k, dim), Constant(Pow(k, dim), 0.0))
  }

  /** `reconstructTensor`: zero for rank 0; for two or three effective axes
      entry (i0, i1[, i2]) is the sum over the terms of the weight times the
      factors; any other number of axes is a failed assertion. The result has
      the original shape k^dim. */
  function Reconstruct(c: SRConf): (r: Result<Dense>)
    requires Valid(c)
    ensures Rank(c) == 0 ==> r == Ok(Zeros(c.k, c.dim))
    ensures 0 < Rank(c) ==> (r.Err? <==> Axes(c) != 2 && Axes(c) != 3)
    ensures r.Err? ==> r.failure.AssertionFailed?
    ensures r.Ok? ==> WellFormed(r.value) && r.value.shape == Repeat(c.k, c.dim)
  {
    var n := KVec(c);
    if Rank(c) == 0 then Ok(Zeros(c.k, c.dim))
    else if Axes(c) == 2 then
      LayoutSize(c);
      Ok(Dense(Repeat(c.k, c.dim), seq(n * n, p requires 0 <= p < n * n => Entry(c, Unflat2(n, p)))))
    else if Axes(c) == 3 then
      LayoutSize(c);
      Ok(Dense(Repeat(c.k, c.dim), seq(n * n * n, p requires 0 <= p < n * n * n => Entry(c, Unflat3(n, p)))))
    else Err(AssertionFailed("only config_dim=1,2,3 in SepRep::reconstructTensor"))
  }

  /** Position (i0, i1) of the row-major layout holds index (i0, i1). */
  lemma Unflat2Flat2(n: nat, i0: nat, i1: nat)
    requires i0 < n && i1 < n
    ensures Flat2(n, i0, i1) < n * n && Unflat2(n, Flat2(n, i0, i1)) == [i0, i1]
  {
    Flat2Facts(n, i0, i1, i0, i1);
    var idx := Unflat2(n, Flat2(n, i0, i1));
    Flat2Facts(n, i0, i1, idx[0], idx[1]);
  }

  /** Position (i0, i1, i2) of the row-major layout holds index (i0, i1, i2). */
  lemma Unflat3Flat3(n: nat, i0: nat, i1: nat, i2: nat)
    requires i0 < n && i1 < n && i2 < n
    ensures Flat3(n, i0, i1, i2) < n * n * n && Unflat3(n, Flat3(n, i0, i1, i2)) == [i0, i1, i2]
  {
    Flat3Facts(n, i0, i1, i2, i0, i1, i2);
    var idx := Unflat3(n, Flat3(n, i0, i1, i2));
    Flat3Facts(n, i0, i1, i2, idx[0], idx[1], idx[2]);
  }

  /** Entry (i0, i1) of a two-axis reconstruction is
      sum_r w_r * F0[r, i0] * F1[r, i1]. */
  lemma ReconstructEntry2(c: SRConf, i0: nat, i1: nat)
    requires Valid(c) && 0 < Rank(c) && Axes(c) == 2 && i0 < KVec(c) && i1 < KVec(c)
    ensures Reconstruct(c).Ok? && Flat2(KVec(c), i0, i1) < |Reconstruct(c).value.data|
    ensures IsIndex(c, [i0, i1])
    ensures Reconstruct(c).value.data[Flat2(KVec(c), i0, i1)] == Entry(c, [i0, i1])
  {
    Unflat2Flat2(KVec(c), i0, i1);
  }

  /** Entry (i0, i1, i2) of a three-axis reconstruction is
      sum_r w_r * F0[r, i0] * F1[r, i1] * F2[r, i2]. */
  lemma ReconstructEntry3(c: SRConf, i0: nat, i1: nat, i2: nat)
    requires Valid(c) && 0 < Rank(c) && Axes(c) == 3 && i0 < KVec(c) && i1 < KVec(c) && i2 < KVec(c)
    ensures Reconstruct(c).Ok? && Flat3(KVec(c), i0, i1, i2) < |Reconstruct(c).value.data|
    ensures IsIndex(c, [i0, i1, i2])
    ensures Reconstruct(c).value.data[Flat3(KVec(c), i0, i1, i2)] == Entry(c, [i0, i1, i2])
  {
    Unflat3Flat3(KVec(c), i0, i1, i2);
  }

  /** A successful reconstruction holds kVec^2 or kVec^3 entries. */
  lemma ReconstructSize(c: SRConf)
    requires Valid(c) && (Axes(c) == 2 || Axes(c) == 3)
    ensures Reconstruct(c).Ok?
    ensures Axes(c) == 2 ==> |Reconstruct(c).value.data| == KVec(c) * KVec(c)
    ensures Axes(c) == 3 ==> |Reconstruct(c).value.data| == KVec(c) * KVec(c) * KVec(c)
  {
    LayoutSize(c);
  }

  /** Whatever the rank, entry p of a two-axis reconstruction is the
      entry of the configuration at the index p stands for. */
  lemma ReconstructAt2(c: SRConf, p: nat)
    requires Valid(c) && Axes(c) == 2 && p < KVec(c) * KVec(c)
    ensures Reconstruct(c).Ok? && |Reconstruct(c).value.data| == KVec(c) * KVec(c)
    ensures Reconstruct(c).value.data[p] == Entry(c, Unflat2(KVec(c), p))
  {
    LayoutSize(c);
  }

  /** Whatever the rank, entry p of a three-axis reconstruction is the
      entry of the configuration at the index p stands for. */
  lemma ReconstructAt3(c: SRConf, p: nat)
    requires Valid(c) && Axes(c) == 3 && p < KVec(c) * KVec(c) * KVec(c)
    ensures Reconstruct(c).Ok? && |Reconstruct(c).value.data| == KVec(c) * KVec(c) * KVec(c)
    ensures Reconstruct(c).value.data[p] == Entry(c, Unflat3(KVec(c), p))
  {
    LayoutSize(c);
  }

  /** The reconstruction of a sum of two representations is the sum of
      their reconstructions, entry by entry. */
  lemma ReconstructAppend(a: SRConf, b: SRConf, p: nat)
    requires Valid(a) && Valid(b) && a.tt == b.tt && a.k == b.k && a.dim == b.dim
    requires Axes(a) == 2 || Axes(a) == 3
    requires p < Pow(a.k, a.dim)
    ensures Reconstruct(a).Ok? && Reconstruct(b).Ok? && Reconstruct(Append(a, b)).Ok?
    ensures |Reconstruct(b).value.data| == |Reconstruct(a).value.data| == |Reconstruct(Append(a, b)).value.data| == Pow(a.k, a.dim)
    ensures Reconstruct(Append(a, b)).value.data[p] == Reconstruct(a).value.data[p] + Reconstruct(b).value.data[p]
  {
    var n := KVec(a);
    var ab := Append(a, b);
    LayoutSize(a);
    if Axes(a) == 2 {
      ReconstructAt2(a, p);
      ReconstructAt2(b, p);
      ReconstructAt2(ab, p);
      AppendEntry(a, b, Unflat2(n, p));
    } else {
      ReconstructAt3(a, p);
      ReconstructAt3(b, p);
      ReconstructAt3(ab, p);
      AppendEntry(a, b, Unflat3(n, p));
    }
  }

  /** Negating the weights negates the reconstruction. */
  lemma ReconstructNegate(b: SRConf, p: nat)
    requires Valid(b) && (Axes(b) == 2 || Axes(b) == 3) && p < Pow(b.k, b.dim)
    ensures Reconstruct(b).Ok? && Reconstruct(Negate(b)).Ok?
    ensures |Reconstruct(Negate(b)).value.data| == |Reconstruct(b).value.data| == Pow(b.k, b.dim)
    ensures Reconstruct(Negate(b)).value.data[p] == -Reconstruct(b).value.data[p]
  {
    var n := KVec(b);
    LayoutSize(b);
    if Axes(b) == 2 {
      ReconstructAt2(b, p);
      ReconstructAt2(Negate(b), p);
      NegateEntry(b, Unflat2(n, p));
    } else {
      ReconstructAt3(b, p);
      ReconstructAt3(Negate(b), p);
      NegateEntry(b, Unflat3(n, p));
    }
  }
}
