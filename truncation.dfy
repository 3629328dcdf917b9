/** The rank-truncation rule of `computeSVD`: the singular values are scanned
    from the smallest up, their squares summed, and the scan stops at the
    first value whose addition exceeds the threshold; that value and all the
    larger ones are kept. */
module SvdTruncation {
  import opened Wrappers
  import opened Numerics
  import opened Tensors
  import opened Configs

  /** Factor by which `eps` is scaled into a truncation threshold. */
  const FacReduce: real := 0.0001

  /** The index of the last kept singular value, or -1 when even the sum of
      all squares is within the threshold: the largest i whose tail sum
      s_i^2 + ... exceeds the threshold. */
  function LastKept(s: seq<real>, threshold: real): (i: int)
    ensures -1 <= i < |s|
    ensures 0 <= i ==> threshold < SumSq(s[i..])
    ensures forall j :: i < j < |s| ==> SumSq(s[j..]) <= threshold
    decreases |s|
  {
    if s == [] then -1
    else
      var t := LastKept(s[1..], threshold);
      assert forall j :: 0 < j <= |s| ==> s[1..][j - 1..] == s[j..];
      if 0 <= t then t + 1
      else if threshold < SumSq(s) then 0
      else -1
  }

  /** Only one index can satisfy the two conditions of `LastKept`. */
  lemma LastKeptUnique(s: seq<real>, threshold: real, i: int)
    requires -1 <= i < |s|
    requires 0 <= i ==> threshold < SumSq(s[i..])
    requires forall j :: i < j < |s| ==> SumSq(s[j..]) <= threshold
    ensures i == LastKept(s, threshold)
  {
  }

  /** Keeping i+1 values is the fewest that drops at most the threshold:
      every shorter prefix drops more. */
  lemma LastKeptMinimal(s: seq<real>, threshold: real)
    ensures var i := LastKept(s, threshold);
            forall q :: 0 <= q <= i ==> threshold < SumSq(s[q..])
  {
    var i := LastKept(s, threshold);
    forall q | 0 <= q <= i
      ensures threshold < SumSq(s[q..])
    {
      SumSqTailMonotone(s, q, i);
    }
  }

  /** The backward scan of `computeSVD`: residual accumulates s(i)^2 from
      the last index down, and the scan breaks as soon as it exceeds the
      threshold. It finds `LastKept`, whose contract says what that index
      means. */
  method TruncationIndex(s: seq<real>, threshold: real) returns (i: int)
    ensures i == LastKept(s, threshold)
  {
    var residual := 0.0;
    i := |s| - 1;
    while 0 <= i
      invariant -1 <= i < |s|
      invariant residual == SumSq(s[i + 1..])
      invariant LastKept(s, threshold) <= i
      decreases i + 1
    {
      SumSqStep(s, i);
      residual := residual + s[i] * s[i];
      assert residual == SumSq(s[i..]);
      if residual > threshold {
        break;
      }
      i := i - 1;
    }
  }

  /** The configuration `computeSVD` builds from the first q singular
      triplets: the q largest singular values as weights, the transposed
      leading columns of U as the first factor and the leading rows of VT as
      the second; it is in the structured view. */
  function Truncated(c: SRConf, d: Svd, q: nat): (r: SRConf)
    requires q <= |d.s| && q <= |d.vt|
    requires forall p :: 0 <= p < |d.u| ==> q <= |d.u[p]|
    ensures r.tt == c.tt && r.dim == c.dim && r.k == c.k && r.structured
    ensures Rank(r) == q && r.weights == d.s[..q]
  {
    SRConf(c.tt, c.dim, c.k, d.s[..q], [LeadingColumns(d.u, q), d.vt[..q]], true)
  }

  /** The truncated configuration is well formed when the SVD belongs to a
      kVec x kVec matrix of a two-axis configuration. */
  lemma TruncatedValid(c: SRConf, d: Svd, q: nat)
    requires Valid(c) && c.tt == TT_2D && SvdShape(d, KVec(c), KVec(c)) && q <= KVec(c)
    ensures Valid(Truncated(c, d, q))
  {
    var r := Truncated(c, d, q);
    assert Merged(r) == Merged(c);
    assert IsMatrix(r.vectors[0], q, KVec(c));
    assert IsMatrix(r.vectors[1], q, KVec(c));
  }

  /** The first q terms of the truncated configuration at (i, j) are the
      first q terms of the SVD there. */
  lemma {:induction false} TruncatedEntryUpTo(c: SRConf, d: Svd, q: nat, idx: seq<nat>, t: nat)
    requires Valid(c) && c.tt == TT_2D && SvdShape(d, KVec(c), KVec(c)) && q <= KVec(c) && t <= q
    requires Valid(Truncated(c, d, q)) && IsIndex(Truncated(c, d, q), idx)
    ensures EntryUpTo(Truncated(c, d, q), idx, t) == SvdPartial(d, idx[0], idx[1], t)
    decreases t
  {
    if t > 0 {
      var r := Truncated(c, d, q);
      TruncatedEntryUpTo(c, d, q, idx, t - 1);
      var l := t - 1;
      assert r.vectors[0][l][idx[0]] == d.u[idx[0]][l];
      assert r.vectors[1][l][idx[1]] == d.vt[l][idx[1]];
      assert r.weights[l] == d.s[l];
      assert Factor(r, l, idx, 1) == r.weights[l] * r.vectors[0][l][idx[0]];
      assert Term(r, l, idx) == Factor(r, l, idx, 1) * r.vectors[1][l][idx[1]];
    }
  }

  /** Every entry of the truncated configuration is the partial sum of the
      first q singular triplets. */
  lemma TruncatedEntry(c: SRConf, d: Svd, q: nat, i: nat, j: nat)
    requires Valid(c) && c.tt == TT_2D && SvdShape(d, KVec(c), KVec(c)) && q <= KVec(c)
    requires i < KVec(c) && j < KVec(c)
    ensures Valid(Truncated(c, d, q)) && IsIndex(Truncated(c, d, q), [i, j])
    ensures Entry(Truncated(c, d, q), [i, j]) == SvdPartial(d, i, j, q)
  {
    TruncatedValid(c, d, q);
    TruncatedEntryUpTo(c, d, q, [i, j], q);
  }

  /** When no singular value is dropped the truncated configuration is the
      matrix itself, entry by entry. */
  lemma TruncatedFullIsExact(c: SRConf, d: Svd, a: Dense, i: nat, j: nat)
    requires Valid(c) && c.tt == TT_2D && IsSvdOf(a, d)
    requires a.shape == [KVec(c), KVec(c)] && i < KVec(c) && j < KVec(c)
    ensures Valid(Truncated(c, d, KVec(c))) && IsIndex(Truncated(c, d, KVec(c)), [i, j])
    ensures Flat2(KVec(c), i, j) < |a.data|
    ensures Entry(Truncated(c, d, KVec(c)), [i, j]) == a.data[Flat2(KVec(c), i, j)]
  {
    TruncatedEntry(c, d, KVec(c), i, j);
  }

  /** `computeSVD(eps, values_eff)` as a function of the old configuration:
      the input must be a matrix and the representation two-dimensional;
      a matrix of norm below eps * 1e-4 leaves everything as it was;
      otherwise the singular values are cut by `LastKept` with threshold
      eps^2 * 1e-4, the kept triplets replace the configuration (or nothing
      changes when none is kept), and the result is put in the structured
      view. */
  function ComputeSvd(c: SRConf, eps: real, values: Dense, lib: Lib): (r: Result<SRConf>)
    requires Valid(c) && WellFormed(values) && LibSpec(lib)
    ensures r.Err? ==> r.failure.AssertionFailed?
    ensures r.Err? <==> |values.shape| != 2 || c.tt != TT_2D ||
                        (values.shape != [KVec(c), KVec(c)] &&
                         !(lib.sqrt(SumSq(values.data)) < eps * FacReduce) &&
                         0 <= LastKept(lib.svd(values).s, eps * eps * FacReduce))
    ensures r.Ok? ==> Valid(r.value) && r.value.tt == c.tt && r.value.k == c.k && r.value.dim == c.dim
    ensures r.Ok? && lib.sqrt(SumSq(values.data)) < eps * FacReduce ==> r.value == c
    ensures r.Ok? && !(lib.sqrt(SumSq(values.data)) < eps * FacReduce) ==>
              r.value.structured &&
              var i := LastKept(lib.svd(values).s, eps * eps * FacReduce);
              (i < 0 ==> r.value == c.(structured := true)) &&
              (0 <= i ==> r.value == Truncated(c, lib.svd(values), i + 1))
  {
    if |values.shape| != 2 then Err(AssertionFailed("computeSVD needs a matrix"))
    else if c.tt != TT_2D then Err(AssertionFailed("computeSVD needs TT_2D"))
    else if lib.sqrt(SumSq(values.data)) < eps * FacReduce then Ok(c)
    else
      var d := lib.svd(values);
      var i := LastKept(d.s, eps * eps * FacReduce);
      if i < 0 then Ok(c.(structured := true))
      else if values.shape != [KVec(c), KVec(c)] then Err(AssertionFailed("kVec must match the vectors"))
      else
        TruncatedValid(c, d, i + 1);
        Ok(Truncated(c, d, i + 1))
  }

  /** After `computeSVD` on a kVec x kVec matrix of norm at least eps * 1e-4,
      with some singular value kept, every entry of the result is the
      partial SVD sum of the kept triplets, and the squares of the dropped
      singular values sum to at most eps^2 * 1e-4 while dropping one more
      would exceed it. */
  lemma ComputeSvdEntries(c: SRConf, eps: real, values: Dense, lib: Lib, i: nat, j: nat)
    requires Valid(c) && c.tt == TT_2D && WellFormed(values) && LibSpec(lib)
    requires values.shape == [KVec(c), KVec(c)] && i < KVec(c) && j < KVec(c)
    requires !(lib.sqrt(SumSq(values.data)) < eps * FacReduce)
    requires 0 <= LastKept(lib.svd(values).s, eps * eps * FacReduce)
    ensures var d := lib.svd(values);
            var q := LastKept(d.s, eps * eps * FacReduce) + 1;
            ComputeSvd(c, eps, values, lib).Ok? &&
            Rank(ComputeSvd(c, eps, values, lib).value) == q &&
            IsIndex(ComputeSvd(c, eps, values, lib).value, [i, j]) &&
            q <= |d.s| && (q < |d.s| ==> SumSq(d.s[q..]) <= eps * eps * FacReduce) &&
            eps * eps * FacReduce < SumSq(d.s[q - 1..]) &&
            Entry(ComputeSvd(c, eps, values, lib).value, [i, j]) == SvdPartial(d, i, j, q)
  {
    var d := lib.svd(values);
    var q := LastKept(d.s, eps * eps * FacReduce) + 1;
    TruncatedEntry(c, d, q, i, j);
  }

  /** What `computeSVD` has written when the kVec assertion after the cut
      fails: the weights, both factor matrices and the rank already hold the
      q kept triplets, and the structured view is not yet made. */
  function Overwritten(c: SRConf, d: Svd, q: nat): SRConf
    requires q <= |d.s| && q <= |d.vt|
    requires forall p :: 0 <= p < |d.u| ==> q <= |d.u[p]|
  {
    Truncated(c, d, q).(structured := c.structured)
  }

  /** The overwritten configuration of a two-axis representation, from the
      SVD of an m x n matrix with at least one triplet kept, is a valid
      configuration exactly when the matrix is kVec x kVec. */
  lemma OverwrittenValid(c: SRConf, d: Svd, m: nat, n: nat, q: nat)
    requires Valid(c) && c.tt == TT_2D && SvdShape(d, m, n) && 0 < q <= Min(m, n)
    ensures Valid(Overwritten(c, d, q)) <==> m == KVec(c) && n == KVec(c)
  {
    var r := Overwritten(c, d, q);
    assert |r.vectors[0][0]| == m && |r.vectors[1][0]| == n;
    if m == KVec(c) && n == KVec(c) {
      TruncatedValid(c, d, q);
      assert Merged(r) == Merged(Truncated(c, d, q));
    }
  }

  /** The configuration a failed `computeSVD` leaves: the old one when the
      matrix or type assertion fails, the overwritten one when the kVec
      assertion after a cut fails, and the old one when nothing fails. */
  function ComputeSvdLeaves(c: SRConf, eps: real, values: Dense, lib: Lib): (r: SRConf)
    requires Valid(c) && WellFormed(values) && LibSpec(lib)
    ensures |values.shape| != 2 || c.tt != TT_2D ==> r == c
    ensures ComputeSvd(c, eps, values, lib).Err? ==>
              (Valid(r) <==> |values.shape| != 2 || c.tt != TT_2D)
  {
    if |values.shape| != 2 || c.tt != TT_2D || lib.sqrt(SumSq(values.data)) < eps * FacReduce then c
    else
      var d := lib.svd(values);
      var i := LastKept(d.s, eps * eps * FacReduce);
      if i < 0 || values.shape == [KVec(c), KVec(c)] then c
      else
        OverwrittenValid(c, d, values.shape[0], values.shape[1], i + 1);
        Overwritten(c, d, i + 1)
  }
}
