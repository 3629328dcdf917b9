/** The rank reduction of `SepRep`. For three effective axes `doReduceRank`
    builds a trial of growing rank: each round fits a random rank-one
    residual to the difference between the reference and the trial by ALS,
    stops once that residual is small, and otherwise adds it to the trial and
    refits the trial. For two effective axes `reduceRank` truncates the SVD of
    the reconstructed matrix instead. The functions here are the reference
    the methods of `SepReps.SepRep` are proved against. */
module RankReduction {
  import opened Wrappers
  import opened Numerics
  import opened Tensors
  import opened Configs
  import opened Norms
  import opened Als
  import opened Reconstruction
  import opened SvdTruncation
  import opened Optimization
  import opened Sweeping

  /** The trial rank the scratch matrices of the rank reduction are sized for. */
  const MaxTrialRank: nat := 218

  /** The number of rank-one residuals the rank reduction tries at most. */
  const MaxReduceLoop: nat := 218

  /** ALS sweeps for each new residual, and for the trial after it grew. */
  const ResidualSweeps: nat := 50
  const TrialSweeps: nat := 10

  /** What `fillWithRandom(1)` makes of a configuration: one term of weight 1
      whose factor vectors are draws `draw * axes + a` of the random source;
      the view is the unstructured one. */
  function RandomConf(c: SRConf, draw: nat, lib: Lib): (r: SRConf)
    requires Valid(c) && LibSpec(lib)
    ensures Valid(r) && r.tt == c.tt && r.k == c.k && r.dim == c.dim
    ensures Rank(r) == 1 && r.weights == [1.0] && !r.structured
  {
    var v := seq(Axes(c), a requires 0 <= a < Axes(c) => [lib.random(draw * Axes(c) + a, KVec(c))]);
    assert forall a :: 0 <= a < Axes(c) ==> IsMatrix(v[a], 1, KVec(c));
    SRConf(c.tt, c.dim, c.k, [1.0], v, false)
  }

  /** The random draw depends only on the type, order and dimension. */
  lemma RandomConfCompatible(a: SRConf, b: SRConf, draw: nat, lib: Lib)
    requires Valid(a) && Valid(b) && Compatible(a, b) && LibSpec(lib)
    ensures RandomConf(a, draw, lib) == RandomConf(b, draw, lib)
  {
    var ra, rb := RandomConf(a, draw, lib), RandomConf(b, draw, lib);
    assert Axes(a) == Axes(b) && KVec(a) == KVec(b);
    assert forall i :: 0 <= i < Axes(a) ==> ra.vectors[i] == rb.vectors[i];
    assert ra.vectors == rb.vectors;
  }

  /** The zero scratch matrices `doReduceRank` allocates, one per axis. */
  function Scratch(axes: nat, cols: nat): (b: seq<Matrix>)
    ensures |b| == axes
  {
    seq(axes, a => Fill(MaxTrialRank, cols, 0.0))
  }

  /** The configuration reshaped to kVec x kVec, as `reduceRank` hands the
      reconstruction of a two-axis representation to `computeSVD`. */
  function AsMatrix(c: SRConf, t: Dense): (m: Dense)
    requires Valid(c) && Axes(c) == 2 && |t.data| == Pow(c.k, c.dim)
    ensures WellFormed(m) && m.shape == [KVec(c), KVec(c)] && m.data == t.data
  {
    LayoutSize(c);
    assert Product([KVec(c)]) == KVec(c) * Product([]);
    Dense([KVec(c), KVec(c)], t.data)
  }

  /** The full tensor of a two-axis configuration as the kVec x kVec
      matrix `reduceRank` passes to `computeSVD`. */
  function ReconstructedMatrix(c: SRConf): (m: Dense)
    requires Valid(c) && Axes(c) == 2
    ensures Reconstruct(c).Ok? && m.data == Reconstruct(c).value.data
    ensures WellFormed(m) && m.shape == [KVec(c), KVec(c)]
  {
    ReconstructSize(c);
    LayoutSize(c);
    AsMatrix(c, Reconstruct(c).value)
  }

  /** A valid configuration has dim divisible by its number of axes, so the
      empty configuration of its type, order and dimension exists. */
  lemma DimDivisible(c: SRConf)
    requires Valid(c)
    ensures 0 < DimEff(c.tt) ==> c.dim % DimEff(c.tt) == 0
  {
  }

  /** Switching between the structured and the unstructured view keeps the
      terms, and so validity, rank and normalisation. */
  lemma ViewKeeps(c: SRConf, structured: bool)
    requires Valid(c)
    ensures Valid(c.(structured := structured)) && Compatible(c.(structured := structured), c)
    ensures Rank(c.(structured := structured)) == Rank(c) && Axes(c.(structured := structured)) == Axes(c)
    ensures Normalised(c, Axes(c)) ==> Normalised(c.(structured := structured), Axes(c))
  {
    var v := c.(structured := structured);
    assert v.vectors == c.vectors && v.weights == c.weights && KVec(v) == KVec(c);
  }

  /** How the rounds ended: the trial, the number of rounds that added a
      term, and the norm of the last residual. */
  datatype Reduction = Reduction(trial: SRConf, loops: nat, norm: real)

  /** What every round works against: the reference and its factor, the
      values and their factor, the threshold, the scratch matrices and the
      number of rounds allowed. */
  datatype Setup = Setup(ref: SRConf, facSR: real, values: Option<Dense>, facVal: real,
                         threshold: real, b1: seq<Matrix>, b2: seq<Matrix>, maxloop: nat)

  /** A well-formed reference with one scratch matrix per axis. */
  ghost predicate SetupValid(s: Setup, lib: Lib)
  {
    LibSpec(lib) && Valid(s.ref) && Axes(s.ref) <= |s.b1| && Axes(s.ref) <= |s.b2|
  }

  /** A trial or residual of the reference's type, order and dimension. */
  predicate Matches(s: Setup, t: SRConf)
  {
    Valid(t) && Compatible(t, s.ref)
  }

  /** Rounds iloop, iloop+1, ... of `doReduceRank`, at most maxloop in all. */
  function ReduceFrom(s: Setup, trial: SRConf, iloop: nat, norm: real, lib: Lib): (r: Result<Reduction>)
    requires SetupValid(s, lib) && Matches(s, trial)
    ensures r.Ok? ==> Matches(s, r.value.trial)
    ensures r.Ok? ==> iloop <= r.value.loops && (iloop <= s.maxloop ==> r.value.loops <= s.maxloop)
    ensures r.Ok? ==> Rank(r.value.trial) == Rank(trial) + (r.value.loops - iloop)
    ensures r.Ok? && r.value.loops < s.maxloop ==> r.value.norm < s.threshold
    ensures r.Ok? && r.value.loops == iloop ==> r.value.trial == trial
    ensures r.Ok? && iloop < r.value.loops ==> !r.value.trial.structured && Normalised(r.value.trial, Axes(r.value.trial))
    ensures r.Err? && r.failure.RuntimeError? ==> r.failure.what == "rank reduction failed"
    decreases s.maxloop - iloop, 2
  {
    if s.maxloop <= iloop then Ok(Reduction(trial, iloop, norm))
    else ResidualRound(s, trial, iloop, lib)
  }

  /** The first half of round iloop: a random rank-one residual is
      optimised (50 sweeps) towards facSR * ref - trial + facVal * values;
      if its norm is below the threshold the rounds stop here. */
  function ResidualRound(s: Setup, trial: SRConf, iloop: nat, lib: Lib): (r: Result<Reduction>)
    requires SetupValid(s, lib) && Matches(s, trial) && iloop < s.maxloop
    ensures r.Ok? ==> Matches(s, r.value.trial)
    ensures r.Ok? ==> iloop <= r.value.loops <= s.maxloop
    ensures r.Ok? ==> Rank(r.value.trial) == Rank(trial) + (r.value.loops - iloop)
    ensures r.Ok? && r.value.loops < s.maxloop ==> r.value.norm < s.threshold
    ensures r.Ok? && r.value.loops == iloop ==> r.value.trial == trial
    ensures r.Ok? && iloop < r.value.loops ==> !r.value.trial.structured && Normalised(r.value.trial, Axes(r.value.trial))
    ensures r.Err? && r.failure.RuntimeError? ==> r.failure.what == "rank reduction failed"
    decreases s.maxloop - iloop, 1
  {
    match Optimization.Optimize(RandomConf(s.ref, iloop, lib), s.ref, s.facSR, trial, -1.0, s.values, s.facVal,
                                ResidualSweeps, s.b1, s.b2, lib)
    case Err(f) => Err(f)
    case Ok(residual) =>
      var n := FrobeniusNorm(residual.conf, lib.sqrt);
      if n < s.threshold then Ok(Reduction(trial, iloop, n))
      else TrialRound(s, trial, residual.conf, iloop, n, lib)
  }

  /** The second half of round iloop: the residual, whose norm n was not
      small, is added to the trial (both in the structured view), and the
      trial is optimised (10 sweeps) towards facSR * ref + facVal * values. */
  function TrialRound(s: Setup, trial: SRConf, residual: SRConf, iloop: nat, n: real, lib: Lib): (r: Result<Reduction>)
    requires SetupValid(s, lib) && Matches(s, trial) && Matches(s, residual) && iloop < s.maxloop
    ensures r.Ok? ==> Matches(s, r.value.trial)
    ensures r.Ok? ==> iloop < r.value.loops <= s.maxloop
    ensures r.Ok? ==> Rank(r.value.trial) == Rank(trial) + Rank(residual) + (r.value.loops - iloop - 1)
    ensures r.Ok? && r.value.loops < s.maxloop ==> r.value.norm < s.threshold
    ensures r.Ok? ==> !r.value.trial.structured && Normalised(r.value.trial, Axes(r.value.trial))
    ensures r.Err? && r.failure.RuntimeError? ==> r.failure.what == "rank reduction failed"
    decreases s.maxloop - iloop, 0
  {
    var sum := Append(trial.(structured := true), residual.(structured := true)).(structured := false);
    match Optimization.Optimize(sum, s.ref, s.facSR, residual, 0.0, s.values, s.facVal, TrialSweeps, s.b1, s.b2, lib)
    case Err(f) => Err(f)
    case Ok(grown) => ReduceFrom(s, grown.conf, iloop + 1, n, lib)
  }

  /** The set-up of `doReduceRank`: the reference is the configuration
      itself in the unstructured view, facSR is 1 when it has terms and
      facVal is 1 when values are given, the threshold is eps * 1e-4, and the
      scratch is rF x rG1 and rF x 1 per axis. */
  function SetupOf(c: SRConf, eps: real, values: Option<Dense>): Setup
  {
    Setup(c.(structured := false), if 0 < Rank(c) then 1.0 else 0.0, values, if values.Some? then 1.0 else 0.0,
          eps * FacReduce, Scratch(Axes(c), Rank(c)), Scratch(Axes(c), 1), MaxReduceLoop)
  }

  /** The trial `doReduceRank` starts from: empty, unstructured, of the
      type, order and dimension of c. */
  function EmptyTrial(c: SRConf): (t: SRConf)
    requires Valid(c)
    ensures Valid(t) && Compatible(t, c) && Rank(t) == 0 && !t.structured
  {
    DimDivisible(c);
    EmptyConf(c.tt, c.k, c.dim).(structured := false)
  }

  /** r is how `doReduceRank` concludes its rounds from the empty trial:
      their failure; the "no convergence" assertion when the last residual
      norm is above eps * 1e-4; or else the trial in the structured view. */
  ghost predicate Concluded(c: SRConf, eps: real, values: Option<Dense>, lib: Lib, r: Result<SRConf>)
    requires Valid(c) && LibSpec(lib)
  {
    var s := SetupOf(c, eps, values);
    SetupValid(s, lib) &&
    var rounds := ReduceFrom(s, EmptyTrial(s.ref), 0, 1.0, lib);
    (rounds.Err? ==> r == Err(rounds.failure)) &&
    (rounds.Ok? && rounds.value.norm > eps * FacReduce ==>
       r == Err(AssertionFailed("no convergence in SepRep::reduceRank()"))) &&
    (rounds.Ok? && !(rounds.value.norm > eps * FacReduce) ==> r == Ok(rounds.value.trial.(structured := true)))
  }

  /** `doReduceRank(eps, values)`: nothing to do without terms and without
      values; otherwise the rounds run from the empty trial, a last residual
      norm above the threshold is a failed assertion, and the trial, in the
      structured view, replaces the configuration. */
  function DoReduceRank(c: SRConf, eps: real, values: Option<Dense>, lib: Lib): (r: Result<SRConf>)
    requires Valid(c) && LibSpec(lib)
    ensures Rank(c) == 0 && values.None? ==> r == Ok(c)
    ensures r.Ok? ==> Valid(r.value) && Compatible(r.value, c)
    ensures r.Ok? && (0 < Rank(c) || values.Some?) ==>
              r.value.structured && Rank(r.value) <= MaxReduceLoop && Normalised(r.value, Axes(r.value))
    ensures r.Err? && r.failure.RuntimeError? ==> r.failure.what == "rank reduction failed"
    ensures (0 < Rank(c) || values.Some?) ==> Concluded(c, eps, values, lib, r)
  {
    if Rank(c) == 0 && values.None? then Ok(c)
    else
      var s := SetupOf(c, eps, values);
      assert SetupValid(s, lib) && Matches(s, EmptyTrial(s.ref));
      match ReduceFrom(s, EmptyTrial(s.ref), 0, 1.0, lib)
      case Err(f) => Err(f)
      case Ok(red) =>
        if red.norm > s.threshold then Err(AssertionFailed("no convergence in SepRep::reduceRank()"))
        else ViewKeeps(red.trial, true); Ok(red.trial.(structured := true))
  }

  /** A successful reduction of a non-empty input is the trial of the
      rounds: one term per round, the last residual norm within eps * 1e-4,
      and below it unless all 218 rounds ran. */
  lemma DoReduceRankConverged(c: SRConf, eps: real, values: Option<Dense>, lib: Lib)
    requires Valid(c) && LibSpec(lib) && (0 < Rank(c) || values.Some?)
    requires DoReduceRank(c, eps, values, lib).Ok?
    ensures var s := SetupOf(c, eps, values);
            SetupValid(s, lib) && ReduceFrom(s, EmptyTrial(s.ref), 0, 1.0, lib).Ok?
    ensures var s := SetupOf(c, eps, values);
            var red := ReduceFrom(s, EmptyTrial(s.ref), 0, 1.0, lib).value;
            var r := DoReduceRank(c, eps, values, lib).value;
            r == red.trial.(structured := true) && Rank(r) == red.loops &&
            red.norm <= eps * FacReduce && (Rank(r) < MaxReduceLoop ==> red.norm < eps * FacReduce)
  {
  }

  /** `reduceRank(eps, values)`: three axes go through `doReduceRank` and
      end structured; two axes, where values must not be given, reconstruct
      the matrix and hand it to `computeSVD`; any other type is a failed
      assertion. At the end the representation must be structured or have
      no terms. */
  function ReduceRank(c: SRConf, eps: real, values: Option<Dense>, lib: Lib): (r: Result<SRConf>)
    requires Valid(c) && LibSpec(lib)
    ensures r.Ok? ==> Valid(r.value) && Compatible(r.value, c) && (r.value.structured || Rank(r.value) == 0)
    ensures c.tt == TT_NONE || (c.tt == TT_2D && values.Some?) ==> r.Err? && r.failure.AssertionFailed?
    ensures r.Err? && r.failure.RuntimeError? ==> r.failure.what == "rank reduction failed"
    ensures c.tt == TT_3D ==>
              var d := DoReduceRank(c, eps, values, lib);
              r == if d.Err? then Err(d.failure) else Ok(d.value.(structured := true))
    ensures c.tt == TT_2D && values.None? ==>
              var d := ComputeSvd(c, eps, ReconstructedMatrix(c), lib);
              (d.Err? ==> r == d) &&
              (d.Ok? ==> r == if d.value.structured || Rank(d.value) == 0 then d
                              else Err(AssertionFailed("reduceRank: result is not structured")))
  {
    var s :=
      if c.tt == TT_3D then
        match DoReduceRank(c, eps, values, lib)
        case Err(f) => Err(f)
        case Ok(d) => Ok(d.(structured := true))
      else if c.tt == TT_2D then
        if values.Some? then Err(AssertionFailed("reduceRank: values given for TT_2D"))
        else
          ComputeSvd(c, eps, ReconstructedMatrix(c), lib)
      else Err(AssertionFailed("reduceRank: unknown tensor type"));
    match s
    case Err(f) => Err(f)
    case Ok(d) =>
      if d.structured || Rank(d) == 0 then Ok(d)
      else Err(AssertionFailed("reduceRank: result is not structured"))
  }
}
