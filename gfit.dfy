/** Two pieces of `GFit`, the fit of a radial function by a sum of Gaussians
    c_i * exp(-e_i * r^2): the truncation of a fit for a periodic cell of
    side L, and the empirical upper integration limit the quadratures of
    `bsh_fit` and `slater_fit` start from. */
module GFit {
  import opened Numerics

  /** A fit: coefficients and exponents, pairwise. */
  datatype Fit = Fit(coeffs: seq<real>, exponents: seq<real>)

  /** Extending the range [lo, hi) by one entry adds that entry. */
  lemma SumExtend(s: seq<real>, lo: nat, hi: nat)
    requires lo <= hi < |s|
    ensures Sum(s[lo..hi + 1]) == Sum(s[lo..hi]) + s[hi]
  {
    assert s[lo..hi + 1] == s[lo..hi] + [s[hi]];
    SumAppend(s[lo..hi], [s[hi]]);
    assert Sum([s[hi]]) == s[hi] + Sum([]);
  }

  /** The cutoff test of `truncate_periodic_expansion`: an exponent below
      0.25 / L^2 belongs to a Gaussian wider than the cell. For L = 0 the
      cutoff is +infinity in IEEE arithmetic, and every exponent is below it. */
  predicate BelowCutoff(x: real, L: real)
  {
    L == 0.0 || x < 0.25 / L / L
  }

  /** The index of the first exponent below the cutoff, or -1 when there is
      none. */
  function CutIndex(e: seq<real>, L: real): (i: int)
    ensures -1 <= i < |e|
    ensures 0 <= i ==> BelowCutoff(e[i], L)
    ensures forall j :: 0 <= j < |e| && (i < 0 || j < i) ==> !BelowCutoff(e[j], L)
    decreases |e|
  {
    if e == [] then -1
    else if BelowCutoff(e[0], L) then 0
    else
      var t := CutIndex(e[1..], L);
      assert forall j :: 0 < j < |e| ==> e[j] == e[1..][j - 1];
      if t < 0 then -1 else t + 1
  }

  /** `truncate_periodic_expansion(c, e, L, discardG0)` on the values: with
      no exponent below the cutoff nothing changes; otherwise, for icut the
      first such index, `discardG0` keeps the terms 0..icut, and without it
      the later coefficients are folded into term icut before the same cut,
      which is skipped when icut is 0. */
  function Truncated(f: Fit, L: real, discardG0: bool): (r: Fit)
    requires |f.coeffs| == |f.exponents|
    ensures |r.coeffs| == |r.exponents| <= |f.exponents|
    ensures r.exponents == f.exponents[..|r.exponents|]
    ensures CutIndex(f.exponents, L) < 0 ==> r == f
    ensures 0 <= CutIndex(f.exponents, L) && discardG0 ==>
              var n := CutIndex(f.exponents, L) + 1;
              r == Fit(f.coeffs[..n], f.exponents[..n])
    ensures CutIndex(f.exponents, L) == 0 && !discardG0 ==> r == f
    ensures 0 < CutIndex(f.exponents, L) && !discardG0 ==>
              var icut := CutIndex(f.exponents, L);
              |r.coeffs| == icut + 1 && r.coeffs[..icut] == f.coeffs[..icut] &&
              r.coeffs[icut] == Sum(f.coeffs[icut..])
    ensures !discardG0 ==> Sum(r.coeffs) == Sum(f.coeffs)
  {
    var icut := CutIndex(f.exponents, L);
    if icut < 0 then f
    else if discardG0 then Fit(f.coeffs[..icut + 1], f.exponents[..icut + 1])
    else if icut == 0 then f
    else
      var c := f.coeffs;
      assert c == c[..icut] + c[icut..];
      SumAppend(c[..icut], c[icut..]);
      SumAppend(c[..icut], [Sum(c[icut..])]);
      assert Sum([Sum(c[icut..])]) == Sum(c[icut..]) + Sum([]);
      Fit(c[..icut] + [Sum(c[icut..])], f.exponents[..icut + 1])
  }

  /** A truncated fit keeps its first sub-cutoff exponent last, so
      truncating it again changes nothing. */
  lemma TruncatedIdempotent(f: Fit, L: real, discardG0: bool)
    requires |f.coeffs| == |f.exponents|
    ensures Truncated(Truncated(f, L, discardG0), L, discardG0) == Truncated(f, L, discardG0)
  {
    var icut := CutIndex(f.exponents, L);
    var r := Truncated(f, L, discardG0);
    if 0 <= icut {
      assert r.exponents == f.exponents[..|r.exponents|];
      assert |r.exponents| == icut + 1 || r == f;
      if r != f {
        assert forall j :: 0 <= j <= icut ==> r.exponents[j] == f.exponents[j];
        assert CutIndex(r.exponents, L) == icut;
        if !discardG0 {
          assert r.coeffs[icut..] == [r.coeffs[icut]];
          assert Sum([r.coeffs[icut]]) == r.coeffs[icut] + Sum([]);
          assert r.coeffs == r.coeffs[..icut] + [r.coeffs[icut]];
        }
      }
    }
  }

  /** The accumulation `c(icut) += c(i)` for i = icut+1, ...: entry icut
      becomes the sum of the entries from icut on, the others stay. */
  method FoldTail(c: seq<real>, icut: nat) returns (c': seq<real>)
    requires icut < |c|
    ensures c' == c[icut := Sum(c[icut..])]
  {
    c' := c;
    var k := icut + 1;
    assert c[icut..k] == [c[icut]];
    assert Sum([c[icut]]) == c[icut] + Sum([]);
    while k < |c|
      invariant icut + 1 <= k <= |c|
      invariant c' == c[icut := Sum(c[icut..k])]
    {
      SumExtend(c, icut, k);
      c' := c'[icut := c'[icut] + c'[k]];
      k := k + 1;
    }
    assert c[icut..k] == c[icut..];
  }

  /** The imperative `truncate_periodic_expansion`: a scan for the first
      exponent below the cutoff, and, without `discardG0`, the accumulation
      `c(icut) += c(i)` over the later terms before the cut to 0..icut. */
  method TruncatePeriodicExpansion(c: seq<real>, e: seq<real>, L: real, discardG0: bool)
    returns (c': seq<real>, e': seq<real>)
    requires |c| == |e|
    ensures Fit(c', e') == Truncated(Fit(c, e), L, discardG0)
  {
    c', e' := c, e;
    if discardG0 {
      var i := 0;
      while i < |e|
        invariant 0 <= i <= |e|
        invariant forall j :: 0 <= j < i ==> !BelowCutoff(e[j], L)
      {
        if BelowCutoff(e[i], L) {
          c', e' := c[..i + 1], e[..i + 1];
          break;
        }
        i := i + 1;
      }
    } else {
      var icut := -1;
      var i := 0;
      while i < |e|
        invariant 0 <= i <= |e|
        invariant forall j :: 0 <= j < i ==> !BelowCutoff(e[j], L)
        invariant icut == -1
      {
        if BelowCutoff(e[i], L) {
          icut := i;
          break;
        }
        i := i + 1;
      }
      assert icut == CutIndex(e, L);
      if icut > 0 {
        c' := FoldTail(c, icut);
        c', e' := c'[..icut + 1], e[..icut + 1];
        assert c'[..icut] == c[..icut];
        assert c' == c[..icut] + [Sum(c[icut..])];
      }
    }
  }

  /** The empirical upper integration limit TT of `bsh_fit` and
      `slater_fit`: 5 for eps >= 1e-2, then 10, 14, 18, 22 and 26 for each
      further factor of 100, and 30 below 1e-12. */
  function QuadratureLimit(eps: real): (tt: nat)
    ensures 5 <= tt <= 30
    ensures eps >= 0.01 <==> tt == 5
    ensures eps < 0.000000000001 <==> tt == 30
  {
    if eps >= 0.01 then 5
    else if eps >= 0.0001 then 10
    else if eps >= 0.000001 then 14
    else if eps >= 0.00000001 then 18
    else if eps >= 0.0000000001 then 22
    else if eps >= 0.000000000001 then 26
    else 30
  }

  /** A tighter tolerance never asks for a smaller integration limit. */
  lemma QuadratureLimitMonotone(lo: real, hi: real)
    requires lo <= hi
    ensures QuadratureLimit(hi) <= QuadratureLimit(lo)
  {
  }
}
