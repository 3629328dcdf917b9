/** The stopping rule of `SepRep::optimize`, written for any trial type S:
    sweep, take the norm of the new trial, and from the third sweep on stop
    as soon as the norm has converged, or after maxloop sweeps. The sweep
    and the norm are parameters, so the loop's properties are proved here
    once, without the cost of the ALS sweep behind them. */
module Sweeping {
  import opened Wrappers
  import opened Numerics

  /** Relative change of the norm below which the sweeps stop. */
  const Tolerance: real := 0.003

  /** The stopping test |oldnorm / norm - 1| < 0.003. A zero norm makes the
      quotient infinite or NaN in IEEE arithmetic, and the test false. */
  predicate Converged(oldnorm: real, norm: real)
  {
    norm != 0.0 && Abs(oldnorm / norm - 1.0) < Tolerance
  }

  /** `optimize` rethrows a runtime error of a sweep as "rank reduction
      failed"; a failed assertion ends the program as it is. */
  function SweepFailure(f: Failure): Failure
  {
    if f.RuntimeError? then RuntimeError("rank reduction failed") else f
  }

  /** How the sweeps ended: the trial, the number of sweeps made, and the
      norm recorded before the last one. */
  datatype Run<S> = Run(conf: S, sweeps: nat, oldnorm: real)

  /** The trial after n uninterrupted sweeps from t, or the failure of the
      first sweep that fails. */
  function Iterated<S>(step: S -> Result<S>, t: S, n: nat): (r: Result<S>)
    ensures n == 0 ==> r == Ok(t)
  {
    if n == 0 then Ok(t)
    else
      match step(t)
      case Err(f) => Err(f)
      case Ok(t') => Iterated(step, t', n - 1)
  }

  /** The norm the loop holds in `oldnorm` after d more sweeps from t: the
      given oldnorm before any, and then the norm of the trial after d
      sweeps (0 when a sweep failed, which the loop never reads). */
  function Recorded<S>(step: S -> Result<S>, norm: S -> real, t: S, d: nat, oldnorm: real): real
  {
    if d == 0 then oldnorm
    else
      match Iterated(step, t, d)
      case Err(_) => 0.0
      case Ok(c) => norm(c)
  }

  /** Sweep d from t did not pass the stopping test: the norm recorded
      after it has not converged against the one recorded before it. */
  predicate Unconverged<S>(step: S -> Result<S>, norm: S -> real, t: S, d: nat, oldnorm: real)
    requires 1 <= d
  {
    !Converged(Recorded(step, norm, t, d - 1, oldnorm), Recorded(step, norm, t, d, oldnorm))
  }

  /** Sweeps iloop, iloop+1, ... up to maxloop from the trial t, with the
      norm of the last sweep recorded in oldnorm. */
  function Loop<S>(step: S -> Result<S>, norm: S -> real, t: S, iloop: nat, oldnorm: real, maxloop: nat): (r: Result<Run<S>>)
    ensures r.Ok? ==> iloop <= r.value.sweeps && (iloop <= maxloop ==> r.value.sweeps <= maxloop)
    ensures r.Ok? && r.value.sweeps == iloop ==> r.value.conf == t
    ensures r.Ok? && r.value.sweeps < maxloop ==> 2 < r.value.sweeps && Converged(r.value.oldnorm, norm(r.value.conf))
    ensures r.Err? && r.failure.RuntimeError? ==> r.failure.what == "rank reduction failed"
    decreases maxloop - iloop
  {
    if maxloop <= iloop then Ok(Run(t, iloop, oldnorm))
    else
      match step(t)
      case Err(f) => Err(SweepFailure(f))
      case Ok(t') =>
        if 1 < iloop && Converged(oldnorm, norm(t')) then Ok(Run(t', iloop + 1, oldnorm))
        else Loop(step, norm, t', iloop + 1, norm(t'), maxloop)
  }

  /** After one successful sweep to t', the trials and norms recorded from
      t are the ones recorded from t', shifted by one, with the norm of t'
      first. */
  lemma RecordedStep<S>(step: S -> Result<S>, norm: S -> real, t: S, d: nat, oldnorm: real, t': S)
    requires step(t) == Ok(t')
    ensures Iterated(step, t, d + 1) == Iterated(step, t', d)
    ensures Recorded(step, norm, t, d + 1, oldnorm) == Recorded(step, norm, t', d, norm(t'))
  {
  }

  /** A successful run from sweep iloop that ends after sweep s holds
      exactly the trial of s - iloop uninterrupted sweeps from t; a run that
      ends before maxloop made at least one sweep. */
  lemma {:induction false} LoopIterated<S>(step: S -> Result<S>, norm: S -> real, t: S, iloop: nat, oldnorm: real, maxloop: nat)
    ensures var r := Loop(step, norm, t, iloop, oldnorm, maxloop);
            r.Ok? ==> Iterated(step, t, r.value.sweeps - iloop) == Ok(r.value.conf) &&
                      (r.value.sweeps < maxloop ==> iloop < r.value.sweeps)
    decreases maxloop - iloop
  {
    if iloop < maxloop && step(t).Ok? {
      var t' := step(t).value;
      if 1 < iloop && Converged(oldnorm, norm(t')) {
        RecordedStep(step, norm, t, 0, oldnorm, t');
      } else {
        LoopIterated(step, norm, t', iloop + 1, norm(t'), maxloop);
        var r := Loop(step, norm, t', iloop + 1, norm(t'), maxloop);
        if r.Ok? {
          RecordedStep(step, norm, t, r.value.sweeps - iloop - 1, oldnorm, t');
        }
      }
    }
  }

  /** A property that every successful sweep keeps holds of every trial
      the sweeps reach, and one that every successful sweep establishes
      holds once a sweep was made. */
  lemma {:induction false} IteratedKept<S>(step: S -> Result<S>, inv: S -> bool, post: S -> bool, t: S, n: nat, c: S)
    requires inv(t)
    requires forall x :: inv(x) && step(x).Ok? ==> inv(step(x).value) && post(step(x).value)
    requires Iterated(step, t, n) == Ok(c)
    ensures inv(c) && (0 < n ==> post(c))
    decreases n
  {
    if 0 < n {
      var t' := step(t).value;
      assert Iterated(step, t', n - 1) == Ok(c);
      IteratedKept(step, inv, post, t', n - 1, c);
    }
  }

  /** The trial a successful run ends on keeps every property the sweeps
      keep, and has every property they establish once a sweep was made. */
  lemma LoopKept<S>(step: S -> Result<S>, norm: S -> real, inv: S -> bool, post: S -> bool,
                    t: S, iloop: nat, oldnorm: real, maxloop: nat)
    requires inv(t)
    requires forall x :: inv(x) && step(x).Ok? ==> inv(step(x).value) && post(step(x).value)
    ensures var r := Loop(step, norm, t, iloop, oldnorm, maxloop);
            r.Ok? ==> inv(r.value.conf) && (iloop < r.value.sweeps ==> post(r.value.conf))
  {
    var r := Loop(step, norm, t, iloop, oldnorm, maxloop);
    if r.Ok? {
      LoopIterated(step, norm, t, iloop, oldnorm, maxloop);
      IteratedKept(step, inv, post, t, r.value.sweeps - iloop, r.value.conf);
    }
  }

  /** No sweep of a successful run before its last, from loop index 2 on,
      passed the stopping test on the norms it recorded. */
  lemma {:induction false} LoopNotEarlier<S>(step: S -> Result<S>, norm: S -> real, t: S, iloop: nat, oldnorm: real, maxloop: nat)
    ensures var r := Loop(step, norm, t, iloop, oldnorm, maxloop);
            r.Ok? ==> forall d: nat :: 1 <= d && iloop + d < r.value.sweeps && 2 < iloop + d ==>
                                         Unconverged(step, norm, t, d, oldnorm)
    decreases maxloop - iloop
  {
    if iloop < maxloop && step(t).Ok? {
      var t' := step(t).value;
      if !(1 < iloop && Converged(oldnorm, norm(t'))) {
        LoopNotEarlier(step, norm, t', iloop + 1, norm(t'), maxloop);
        var r := Loop(step, norm, t', iloop + 1, norm(t'), maxloop);
        assert Loop(step, norm, t, iloop, oldnorm, maxloop) == r;
        if r.Ok? {
          forall d: nat | 1 <= d && iloop + d < r.value.sweeps && 2 < iloop + d
            ensures Unconverged(step, norm, t, d, oldnorm)
          {
            RecordedStep(step, norm, t, d - 1, oldnorm, t');
            if d == 1 {
              assert Recorded(step, norm, t, 1, oldnorm) == norm(t');
            } else {
              RecordedStep(step, norm, t, d - 2, oldnorm, t');
              assert Unconverged(step, norm, t', d - 1, norm(t'));
            }
          }
        }
      }
    }
  }

  /** A run stopped by the test before maxloop kept the norm recorded
      after the sweep before its last. */
  lemma {:induction false} LoopOldnorm<S>(step: S -> Result<S>, norm: S -> real, t: S, iloop: nat, oldnorm: real, maxloop: nat)
    ensures var r := Loop(step, norm, t, iloop, oldnorm, maxloop);
            r.Ok? && r.value.sweeps < maxloop ==>
              iloop < r.value.sweeps && r.value.oldnorm == Recorded(step, norm, t, r.value.sweeps - iloop - 1, oldnorm)
    decreases maxloop - iloop
  {
    LoopIterated(step, norm, t, iloop, oldnorm, maxloop);
    if iloop < maxloop && step(t).Ok? {
      var t' := step(t).value;
      if !(1 < iloop && Converged(oldnorm, norm(t'))) {
        LoopOldnorm(step, norm, t', iloop + 1, norm(t'), maxloop);
        LoopIterated(step, norm, t', iloop + 1, norm(t'), maxloop);
        var r := Loop(step, norm, t', iloop + 1, norm(t'), maxloop);
        if r.Ok? && r.value.sweeps < maxloop {
          RecordedStep(step, norm, t, r.value.sweeps - iloop - 2, oldnorm, t');
        }
      }
    }
  }

  /** The run of the loop from sweep 0, in terms of the sweeps themselves:
      a success after s sweeps holds the trial of s uninterrupted sweeps,
      no sweep from the third to the one before the last passed the
      stopping test, a stop before maxloop kept the norm of sweep s - 1, and
      a failure is the renamed failure of the first sweep that fails. */
  ghost predicate Traced<S>(step: S -> Result<S>, norm: S -> real, t: S, oldnorm: real, maxloop: nat, r: Result<Run<S>>)
  {
    (r.Ok? ==>
       Iterated(step, t, r.value.sweeps) == Ok(r.value.conf) &&
       (forall j: nat :: 3 <= j < r.value.sweeps ==> Unconverged(step, norm, t, j, oldnorm)) &&
       (0 < r.value.sweeps < maxloop ==> r.value.oldnorm == Recorded(step, norm, t, r.value.sweeps - 1, oldnorm))) &&
    (r.Err? ==> Iterated(step, t, maxloop).Err? && r.failure == SweepFailure(Iterated(step, t, maxloop).failure))
  }

  /** A failed run is the renamed failure of the first sweep that fails
      within the maxloop - iloop sweeps. */
  lemma {:induction false} LoopFailure<S>(step: S -> Result<S>, norm: S -> real, t: S, iloop: nat, oldnorm: real, maxloop: nat)
    ensures var r := Loop(step, norm, t, iloop, oldnorm, maxloop);
            r.Err? ==> iloop < maxloop && Iterated(step, t, maxloop - iloop).Err? &&
                       r.failure == SweepFailure(Iterated(step, t, maxloop - iloop).failure)
    decreases maxloop - iloop
  {
    if iloop < maxloop && step(t).Ok? {
      var t' := step(t).value;
      if !(1 < iloop && Converged(oldnorm, norm(t'))) {
        LoopFailure(step, norm, t', iloop + 1, norm(t'), maxloop);
        RecordedStep(step, norm, t, maxloop - iloop - 1, oldnorm, t');
      }
    }
  }

  /** The loop from sweep 0 is traced by its sweeps. */
  lemma LoopTraced<S>(step: S -> Result<S>, norm: S -> real, t: S, oldnorm: real, maxloop: nat)
    ensures Traced(step, norm, t, oldnorm, maxloop, Loop(step, norm, t, 0, oldnorm, maxloop))
  {
    LoopIterated(step, norm, t, 0, oldnorm, maxloop);
    LoopNotEarlier(step, norm, t, 0, oldnorm, maxloop);
    LoopOldnorm(step, norm, t, 0, oldnorm, maxloop);
    LoopFailure(step, norm, t, 0, oldnorm, maxloop);
  }
}
