/** The control loop of `SepRep::optimize`: ALS sweeps until the Frobenius
    norm of the trial stops changing, or until the sweep budget is spent.
    The functions here are the reference the imperative loop in `SepReps` is
    proved against. */
module Optimization {
  import opened Wrappers
  import opened Numerics
  import opened Tensors
  import opened Configs
  import opened Norms
  import opened Als
  import opened Sweeping

  /** The scratch vector with its first `axes` matrices replaced by zero
      matrices of rF x rG, as `optimize` resets `B1` and `B2`. */
  function ResetScratch(b: seq<Matrix>, axes: nat, rF: nat, rG: nat): (r: seq<Matrix>)
    requires axes <= |b|
    ensures |r| == |b|
    ensures forall i :: 0 <= i < axes ==> r[i] == Fill(rF, rG, 0.0)
    ensures forall i :: axes <= i < |b| ==> r[i] == b[i]
  {
    seq(|b|, i requires 0 <= i < |b| => if i < axes then Fill(rF, rG, 0.0) else b[i])
  }

  /** What every sweep of one `optimize` call is given beside the trial:
      the references with their factors and the scratch. */
  datatype Refs = Refs(r1: SRConf, fac1: real, r2: SRConf, fac2: real,
                       r3: Option<Dense>, fac3: real, b1: seq<Matrix>, b2: seq<Matrix>)

  predicate RefsValid(g: Refs)
  {
    Valid(g.r1) && Valid(g.r2)
  }

  /** The sweep of `optimize` as a step of the generic loop: `generalizedALS`
      on a valid trial. The loop only ever holds valid trials
      (`LoopKeeps`), so the other branch is never taken. */
  function Step(g: Refs, lib: Lib): SRConf -> Result<SRConf>
    requires LibSpec(lib) && RefsValid(g)
  {
    t => if Valid(t) then AlsSweep(t, g.r1, g.fac1, g.r2, g.fac2, g.r3, g.fac3, g.b1, g.b2, lib)
         else Err(AssertionFailed("optimize: the trial is not a valid configuration"))
  }

  /** The norm `optimize` takes after each sweep: the Frobenius norm. */
  function Norm(lib: Lib): SRConf -> real
    requires IsSqrt(lib.sqrt)
  {
    c => if Valid(c) then FrobeniusNorm(c, lib.sqrt) else 0.0
  }

  /** The sweeps of `optimize` from sweep iloop: the generic loop with the
      ALS sweep and the Frobenius norm. A runtime error of a sweep becomes
      "rank reduction failed"; any other failure passes through. From the
      third sweep on the loop stops as soon as the norm has converged. */
  function Sweeps(t: SRConf, r1: SRConf, fac1: real, r2: SRConf, fac2: real,
                  r3: Option<Dense>, fac3: real, b1: seq<Matrix>, b2: seq<Matrix>,
                  iloop: nat, oldnorm: real, maxloop: nat, lib: Lib): (r: Result<Run<SRConf>>)
    requires LibSpec(lib) && Valid(t) && Valid(r1) && Valid(r2)
    ensures r.Ok? ==> Valid(r.value.conf) && SameFrame(t, r.value.conf)
    ensures r.Ok? ==> iloop <= r.value.sweeps && (iloop <= maxloop ==> r.value.sweeps <= maxloop)
    ensures r.Ok? && r.value.sweeps == iloop ==> r.value.conf == t
    ensures r.Ok? && r.value.sweeps < maxloop ==>
              2 < r.value.sweeps && Converged(r.value.oldnorm, FrobeniusNorm(r.value.conf, lib.sqrt))
    ensures r.Ok? && iloop < r.value.sweeps ==> 0 < Rank(r.value.conf) && Normalised(r.value.conf, Axes(r.value.conf))
    ensures r.Err? && r.failure.RuntimeError? ==> r.failure.what == "rank reduction failed"
  {
    var g := Refs(r1, fac1, r2, fac2, r3, fac3, b1, b2);
    LoopKeeps(t, g, iloop, oldnorm, maxloop, lib);
    Loop(Step(g, lib), Norm(lib), t, iloop, oldnorm, maxloop)
  }

  /** A successful loop of ALS sweeps ends on a valid trial of the same
      frame, normalised with terms once a sweep was made, and a stop before
      maxloop is on converged Frobenius norms. */
  lemma LoopKeeps(t: SRConf, g: Refs, iloop: nat, oldnorm: real, maxloop: nat, lib: Lib)
    requires LibSpec(lib) && Valid(t) && RefsValid(g)
    ensures var r := Loop(Step(g, lib), Norm(lib), t, iloop, oldnorm, maxloop);
            r.Ok? ==> Valid(r.value.conf) && SameFrame(t, r.value.conf) &&
                      (iloop < r.value.sweeps ==> 0 < Rank(r.value.conf) && Normalised(r.value.conf, Axes(r.value.conf))) &&
                      (r.value.sweeps < maxloop ==> Converged(r.value.oldnorm, FrobeniusNorm(r.value.conf, lib.sqrt)))
  {
    var step := Step(g, lib);
    var inv := (x: SRConf) => Valid(x) && SameFrame(t, x);
    var post := (x: SRConf) => Valid(x) && 0 < Rank(x) && Normalised(x, Axes(x));
    forall x | inv(x) && step(x).Ok?
      ensures inv(step(x).value) && post(step(x).value)
    {
      assert step(x) == AlsSweep(x, g.r1, g.fac1, g.r2, g.fac2, g.r3, g.fac3, g.b1, g.b2, lib);
      SweepNormalises(x, g.r1, g.fac1, g.r2, g.fac2, g.r3, g.fac3, g.b1, g.b2, lib);
    }
    LoopKept(step, Norm(lib), inv, post, t, iloop, oldnorm, maxloop);
    var r := Loop(step, Norm(lib), t, iloop, oldnorm, maxloop);
    if r.Ok? {
      assert inv(r.value.conf);
      assert Norm(lib)(r.value.conf) == FrobeniusNorm(r.value.conf, lib.sqrt);
    }
  }

  /** One turn of the loop in `optimize`: no sweep at maxloop, the renamed
      failure of a failed sweep, a stop on convergence from loop index 2
      on, and otherwise the sweeps from the next index with the new norm. */
  lemma SweepsStep(t: SRConf, r1: SRConf, fac1: real, r2: SRConf, fac2: real,
                   r3: Option<Dense>, fac3: real, b1: seq<Matrix>, b2: seq<Matrix>,
                   iloop: nat, oldnorm: real, maxloop: nat, lib: Lib)
    requires LibSpec(lib) && Valid(t) && Valid(r1) && Valid(r2)
    ensures var r := Sweeps(t, r1, fac1, r2, fac2, r3, fac3, b1, b2, iloop, oldnorm, maxloop, lib);
            var s := AlsSweep(t, r1, fac1, r2, fac2, r3, fac3, b1, b2, lib);
            (maxloop <= iloop ==> r == Ok(Run(t, iloop, oldnorm))) &&
            (iloop < maxloop && s.Err? ==> r == Err(SweepFailure(s.failure))) &&
            (iloop < maxloop && s.Ok? ==>
               var norm := FrobeniusNorm(s.value, lib.sqrt);
               r == if 1 < iloop && Converged(oldnorm, norm) then Ok(Run(s.value, iloop + 1, oldnorm))
                    else Sweeps(s.value, r1, fac1, r2, fac2, r3, fac3, b1, b2, iloop + 1, norm, maxloop, lib))
  {
  }

  /** The compatibility checks `optimize` makes before it sweeps. */
  function OptimizeChecks(t: SRConf, r1: SRConf, fac1: real, r2: SRConf, fac2: real): (o: Outcome)
    ensures o.Failed? <==> (fac1 != 0.0 && !Compatible(t, r1)) || (fac2 != 0.0 && !Compatible(r1, r2))
    ensures o.Failed? ==> o.failure.AssertionFailed?
  {
    if fac1 != 0.0 && !Compatible(t, r1) then Failed(AssertionFailed("optimize: trial and ref1 are incompatible"))
    else if fac2 != 0.0 && !Compatible(r1, r2) then Failed(AssertionFailed("optimize: ref1 and ref2 are incompatible"))
    else Done
  }

  /** `optimize(ref1, fac1, ref2, fac2, ref3, fac3, eps, maxloop, B1, B2)`:
      the checks, the reset of the scratch to rF x rG1 and rF x rG2, and
      the sweeps from a recorded norm of 1. */
  function Optimize(t: SRConf, r1: SRConf, fac1: real, r2: SRConf, fac2: real,
                    r3: Option<Dense>, fac3: real, maxloop: nat, b1: seq<Matrix>, b2: seq<Matrix>, lib: Lib): (r: Result<Run<SRConf>>)
    requires LibSpec(lib) && Valid(t) && Valid(r1) && Valid(r2)
    requires Axes(t) <= |b1| && Axes(t) <= |b2|
    ensures OptimizeChecks(t, r1, fac1, r2, fac2).Failed? ==> r.Err? && r.failure.AssertionFailed?
    ensures r.Ok? ==> Valid(r.value.conf) && SameFrame(t, r.value.conf)
    ensures r.Ok? ==> r.value.sweeps <= maxloop && Min(3, maxloop) <= r.value.sweeps
    ensures r.Ok? && r.value.sweeps < maxloop ==> Converged(r.value.oldnorm, FrobeniusNorm(r.value.conf, lib.sqrt))
    ensures r.Ok? && 0 < maxloop ==> 0 < Rank(r.value.conf) && Normalised(r.value.conf, Axes(r.value.conf))
    ensures r.Ok? && maxloop == 0 ==> r.value.conf == t
    ensures r.Err? && r.failure.RuntimeError? ==> r.failure.what == "rank reduction failed"
  {
    match OptimizeChecks(t, r1, fac1, r2, fac2)
    case Failed(f) => Err(f)
    case Done =>
      var s1 := ResetScratch(b1, Axes(t), Rank(t), Rank(r1));
      var s2 := ResetScratch(b2, Axes(t), Rank(t), Rank(r2));
      Sweeps(t, r1, fac1, r2, fac2, r3, fac3, s1, s2, 0, 1.0, maxloop, lib)
  }

  /** Past the checks, `optimize` is traced by its sweeps from the reset
      scratch: a success after s sweeps holds the trial of exactly s ALS
      sweeps, none of sweeps 3 .. s-1 passed the stopping test, and a
      failure is the renamed failure of the first sweep that fails. */
  lemma OptimizeTraced(t: SRConf, r1: SRConf, fac1: real, r2: SRConf, fac2: real,
                       r3: Option<Dense>, fac3: real, maxloop: nat, b1: seq<Matrix>, b2: seq<Matrix>, lib: Lib)
    requires LibSpec(lib) && Valid(t) && Valid(r1) && Valid(r2)
    requires Axes(t) <= |b1| && Axes(t) <= |b2|
    requires OptimizeChecks(t, r1, fac1, r2, fac2).Done?
    ensures var g := Refs(r1, fac1, r2, fac2, r3, fac3, ResetScratch(b1, Axes(t), Rank(t), Rank(r1)),
                          ResetScratch(b2, Axes(t), Rank(t), Rank(r2)));
            Traced(Step(g, lib), Norm(lib), t, 1.0, maxloop, Optimize(t, r1, fac1, r2, fac2, r3, fac3, maxloop, b1, b2, lib))
  {
    var g := Refs(r1, fac1, r2, fac2, r3, fac3, ResetScratch(b1, Axes(t), Rank(t), Rank(r1)),
                  ResetScratch(b2, Axes(t), Rank(t), Rank(r2)));
    assert Optimize(t, r1, fac1, r2, fac2, r3, fac3, maxloop, b1, b2, lib) == Loop(Step(g, lib), Norm(lib), t, 0, 1.0, maxloop);
    LoopTraced(Step(g, lib), Norm(lib), t, 1.0, maxloop);
  }
}
