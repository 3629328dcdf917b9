/** The read-only queries of a separated representation: compatibility,
    the inner product of two representations, the condition-number floor and
    the Frobenius norm with its zero clamp, and the validity test. */
module Norms {
  import opened Wrappers
  import opened Numerics
  import opened Configs

  /** The machine precision the separated representation assumes. */
  const MachinePrecision: real := 0.00000000000001

  /** Two representations are compatible when type, order and dimension agree. */
  predicate Compatible(a: SRConf, b: SRConf)
  {
    a.tt == b.tt && a.k == b.k && a.dim == b.dim
  }

  /** Compatible shapes have factor vectors of one length, so their terms
      pair up axis by axis; and compatibility is an equivalence. */
  lemma CompatibleConformal(a: SRConf, b: SRConf, c: SRConf)
    requires Valid(a) && Valid(b)
    ensures Compatible(a, b) ==> Conformal(a, b) && Conformal(b, a)
    ensures Compatible(a, a)
    ensures Compatible(a, b) ==> Compatible(b, a)
    ensures Compatible(a, b) && Compatible(b, c) ==> Compatible(a, c)
  {
  }

  /** The accuracy one can expect of a norm: the square of the largest
      weight times the machine precision, but never below the machine
      precision itself. */
  function ConditionNumber(c: SRConf): (r: real)
    ensures MachinePrecision <= r
    ensures MaxWeight(c) * MaxWeight(c) * MachinePrecision <= r
    ensures r == MachinePrecision || r == MaxWeight(c) * MaxWeight(c) * MachinePrecision
  {
    var large := MaxWeight(c);
    Max(large * large * MachinePrecision, MachinePrecision * 1.0)
  }

  /** `overlap(rhs, lhs)`: zero when either side has no terms, otherwise
      the overlap of the two configurations, which must be compatible. */
  function OverlapOf(rhs: SRConf, lhs: SRConf): (r: Result<real>)
    requires Valid(rhs) && Valid(lhs)
    ensures r.Err? <==> 0 < Rank(rhs) && 0 < Rank(lhs) && !Compatible(lhs, rhs)
    ensures r.Err? ==> r.failure.AssertionFailed?
    ensures Rank(rhs) == 0 || Rank(lhs) == 0 ==> r == Ok(0.0)
    ensures r.Ok? && 0 < Rank(rhs) && 0 < Rank(lhs) ==>
              Conformal(rhs, lhs) && r.value == Overlap(rhs, lhs)
  {
    if Rank(lhs) == 0 || Rank(rhs) == 0 then Ok(0.0)
    else if !Compatible(lhs, rhs) then Err(AssertionFailed("overlap: incompatible SepReps"))
    else
      CompatibleConformal(lhs, rhs, rhs);
      OverlapSymmetric(lhs, rhs);
      Ok(Overlap(lhs, rhs))
  }

  /** The overlap of a representation with itself. */
  function SelfOverlap(c: SRConf): (r: real)
    requires Valid(c)
    ensures 0 < Rank(c) ==> OverlapOf(c, c) == Ok(r)
  {
    CompatibleConformal(c, c, c);
    Overlap(c, c)
  }

  /** The Frobenius norm: zero without terms; otherwise the root of the
      absolute self-overlap, clamped to exactly zero when that root is below
      the condition number. */
  function FrobeniusNorm(c: SRConf, sqrt: real -> real): (r: real)
    requires Valid(c) && IsSqrt(sqrt)
    ensures 0.0 <= r
    ensures Rank(c) == 0 ==> r == 0.0
    ensures 0 < Rank(c) ==> (r == 0.0 <==> sqrt(Abs(SelfOverlap(c))) < ConditionNumber(c))
    ensures r != 0.0 ==> ConditionNumber(c) <= r && r * r == Abs(SelfOverlap(c))
  {
    if Rank(c) == 0 then 0.0
    else
      var ovlp := Abs(SelfOverlap(c));
      if sqrt(Abs(ovlp)) < ConditionNumber(c) then sqrt(0.0) else sqrt(ovlp)
  }

  /** `is_valid`: a representation is valid when its dimension is positive;
      one of positive dimension with order 0 and no tensor type trips an
      assertion. */
  function IsValid(c: SRConf): (r: Result<bool>)
    ensures r.Err? <==> 0 < c.dim && c.k == 0 && c.tt == TT_NONE
    ensures r.Err? ==> r.failure.AssertionFailed?
    ensures r.Ok? ==> (r.value <==> 0 < c.dim)
  {
    var itIs := c.dim > 0;
    if itIs && !(c.k > 0 || c.tt != TT_NONE) then Err(AssertionFailed("is_valid: k == 0 without a tensor type"))
    else Ok(itIs)
  }
}
