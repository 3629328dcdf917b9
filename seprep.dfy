/** `SepRep`, the separated representation of a tensor (Beylkin & Mohlenkamp,
    SIAM J. Sci. Comput. 26(6), 2005): an object holding one `SRConf` that its
    methods update in place. Each method is proved against the functions of
    the modules it imports: the sum and difference against `Append` and
    `Negate`, the reconstruction against `Reconstruct`, `computeSVD` against
    `ComputeSvd`, one ALS sweep against `AlsSweep`, `optimize` against
    `Optimize`, and the rank reduction against `DoReduceRank` and
    `ReduceRank`. */
module SepReps {
  import opened Wrappers
  import opened Numerics
  import opened Tensors
  import opened Configs
  import opened Norms
  import opened Als
  import opened Reconstruction
  import opened SvdTruncation
  import opened Optimization
  import opened Sweeping
  import opened RankReduction

  /** The buffer a after `a += fac * b`, entry by entry (entries of a beyond
      the end of b are kept). */
  function Accumulated(a: seq<real>, fac: real, b: seq<real>): (r: seq<real>)
    ensures |r| == |a|
    ensures forall i :: 0 <= i < |a| && i < |b| ==> r[i] == a[i] + fac * b[i]
    ensures forall i :: |b| <= i < |a| ==> r[i] == a[i]
  {
    seq(|a|, i requires 0 <= i < |a| => if i < |b| then a[i] + fac * b[i] else a[i])
  }

  /** `t += fac * s` on a buffer, entry by entry. */
  method AddScaled(t: array<real>, fac: real, s: seq<real>)
    requires |s| == t.Length
    modifies t
    ensures t[..] == Accumulated(old(t[..]), fac, s)
  {
    for p := 0 to t.Length
      invariant forall q :: 0 <= q < p ==> t[q] == old(t[q]) + fac * s[q]
      invariant forall q :: p <= q < t.Length ==> t[q] == old(t[q])
    {
      t[p] := t[p] + fac * s[p];
    }
    assert t[..] == Accumulated(old(t[..]), fac, s);
  }

  /** The sweeps of `optimize` are the ones `Sweeps` gives from the trial t
      at sweep iloop. */
  ghost predicate SweepsFrom(t: SRConf, r1: SRConf, fac1: real, r2: SRConf, fac2: real,
                             r3: Option<Dense>, fac3: real, b1: seq<Matrix>, b2: seq<Matrix>,
                             iloop: nat, oldnorm: real, maxloop: nat, lib: Lib, run: Result<Run<SRConf>>)
  {
    LibSpec(lib) && Configs.Valid(t) && Configs.Valid(r1) && Configs.Valid(r2) &&
    run == Sweeps(t, r1, fac1, r2, fac2, r3, fac3, b1, b2, iloop, oldnorm, maxloop, lib)
  }

  /** Updating the terms l, l+1, ... of t on axis idim from the rows of x
      gives r. */
  ghost predicate RowsFrom(t: SRConf, idim: nat, x: seq<seq<Value>>, l: nat, sqrt: real -> real,
                           r: Result<SRConf>)
  {
    Configs.Valid(t) && idim < Axes(t) && l <= Rank(t) && ValueShape(x, Rank(t), KVec(t)) && IsSqrt(sqrt) &&
    r == UpdateRows(t, idim, x, l, sqrt)
  }

  /** The rounds of `doReduceRank` are the ones `ReduceFrom` gives from the
      trial t at round iloop. */
  ghost predicate RoundsFrom(s: Setup, t: SRConf, iloop: nat, norm: real, lib: Lib, rounds: Result<Reduction>)
  {
    SetupValid(s, lib) && Matches(s, t) && rounds == ReduceFrom(s, t, iloop, norm, lib)
  }

  /** The rounds of `doReduceRank` are the ones `TrialRound` gives when the
      residual of round iloop, of norm n, joins the trial t. */
  ghost predicate TrialFrom(s: Setup, t: SRConf, residual: SRConf, iloop: nat, n: real, lib: Lib,
                            rounds: Result<Reduction>)
  {
    SetupValid(s, lib) && Matches(s, t) && Matches(s, residual) && iloop < s.maxloop &&
    rounds == TrialRound(s, t, residual, iloop, n, lib)
  }

  /** The first half of round iloop of `doReduceRank` on the trial and
      residual objects: the residual is refilled at random and optimised
      against reference minus trial, and the rounds stop when its norm is
      below the threshold. This is the step `ResidualRound` takes. */
  method ResidualStep(s: Setup, trial: SepRep, residual: SepRep, iloop: nat,
                      ghost rounds: Result<Reduction>, lib: Lib) returns (o: Outcome, stop: bool, norm: real)
    requires SetupValid(s, lib) && trial != residual && trial.Valid() && residual.Valid()
    requires Matches(s, trial.configs) && Matches(s, residual.configs) && iloop < s.maxloop
    requires rounds == ResidualRound(s, trial.configs, iloop, lib)
    modifies residual
    ensures o.Failed? ==> rounds == Err(o.failure)
    ensures o.Done? && stop ==> rounds == Ok(Reduction(trial.configs, iloop, norm))
    ensures o.Done? && !stop ==>
              residual.Valid() && !residual.configs.structured &&
              TrialFrom(s, trial.configs, residual.configs, iloop, norm, lib, rounds)
  {
    norm := 0.0;
    stop := false;
    RandomConfCompatible(residual.configs, s.ref, iloop, lib);
    residual.configs := RandomConf(residual.configs, iloop, lib);
    o := residual.Optimize(s.ref, s.facSR, trial.configs, -1.0, s.values, s.facVal, ResidualSweeps, s.b1, s.b2, lib);
    if o.Failed? {
      return;
    }
    norm := FrobeniusNorm(residual.configs, lib.sqrt);
    stop := norm < s.threshold;
  }

  /** `trial += residual` between `make_structure` and `undo_structure` on
      both: the trial gains the residual's terms, the residual is unchanged. */
  method JoinResidual(trial: SepRep, residual: SepRep)
    requires trial != residual && trial.Valid() && residual.Valid() && !residual.configs.structured
    requires Compatible(trial.configs, residual.configs)
    modifies trial, residual
    ensures trial.Valid() && residual.Valid()
    ensures trial.configs == Append(old(trial.configs).(structured := true), old(residual.configs).(structured := true)).(structured := false)
    ensures residual.configs == old(residual.configs)
  {
    trial.configs := trial.configs.(structured := true);
    residual.configs := residual.configs.(structured := true);
    var o := trial.AddAssign(residual);
    trial.configs := trial.configs.(structured := false);
    residual.configs := residual.configs.(structured := false);
  }

  /** The second half of round iloop: the residual is added to the trial in
      the structured view, and the trial is optimised towards the reference.
      This is the step `TrialRound` takes. */
  method TrialStep(s: Setup, trial: SepRep, residual: SepRep, iloop: nat, norm: real,
                   ghost rounds: Result<Reduction>, lib: Lib) returns (o: Outcome)
    requires trial != residual && trial.Valid() && residual.Valid() && !residual.configs.structured
    requires TrialFrom(s, trial.configs, residual.configs, iloop, norm, lib, rounds)
    modifies trial, residual
    ensures o.Failed? ==> rounds == Err(o.failure)
    ensures o.Done? ==>
              trial.Valid() && residual.Valid() && Matches(s, trial.configs) && Matches(s, residual.configs) &&
              RoundsFrom(s, trial.configs, iloop + 1, norm, lib, rounds)
  {
    JoinResidual(trial, residual);
    o := trial.Optimize(s.ref, s.facSR, residual.configs, 0.0, s.values, s.facVal, TrialSweeps, s.b1, s.b2, lib);
  }

  /** Round iloop of `doReduceRank`: the residual step and, unless the
      residual norm is already below the threshold, the trial step. */
  method Round(s: Setup, trial: SepRep, residual: SepRep, iloop: nat, ghost lastNorm: real,
               ghost rounds: Result<Reduction>, lib: Lib) returns (o: Outcome, stop: bool, norm: real)
    requires trial != residual && Matches(s, residual.configs) && iloop < s.maxloop
    requires RoundsFrom(s, trial.configs, iloop, lastNorm, lib, rounds)
    modifies trial, residual
    ensures o.Failed? ==> rounds == Err(o.failure)
    ensures o.Done? && stop ==> rounds == Ok(Reduction(trial.configs, iloop, norm))
    ensures o.Done? && !stop ==>
              Matches(s, residual.configs) && RoundsFrom(s, trial.configs, iloop + 1, norm, lib, rounds)
  {
    o, stop, norm := ResidualStep(s, trial, residual, iloop, rounds, lib);
    if o.Failed? || stop {
      return;
    }
    o := TrialStep(s, trial, residual, iloop, norm, rounds, lib);
  }

  /** The two objects of `doReduceRank`: an empty, unstructured trial and an
      empty residual of the reference's type, order and dimension. */
  method NewPair(ref: SRConf) returns (trial: SepRep, residual: SepRep)
    requires Configs.Valid(ref)
    ensures fresh(trial) && fresh(residual) && trial != residual
    ensures trial.Valid() && residual.Valid() && Compatible(trial.configs, ref) && Compatible(residual.configs, ref)
    ensures trial.configs == EmptyTrial(ref)
  {
    DimDivisible(ref);
    trial := new SepRep(ref.tt, ref.k, ref.dim);
    trial.configs := trial.configs.(structured := false);
    residual := new SepRep(ref.tt, ref.k, ref.dim);
  }

  /** The rounds of `doReduceRank` on a new trial, empty and unstructured,
      and a new residual. The outcome, the final trial, the number of rounds
      that grew it and the last residual norm are the ones `ReduceFrom`
      gives from the empty trial. */
  method ReduceRounds(s: Setup, ghost rounds: Result<Reduction>, lib: Lib)
    returns (o: Outcome, t: SRConf, loops: nat, norm: real)
    requires SetupValid(s, lib) && RoundsFrom(s, EmptyTrial(s.ref), 0, 1.0, lib, rounds)
    ensures o.Failed? ==> rounds == Err(o.failure)
    ensures o.Done? ==> rounds == Ok(Reduction(t, loops, norm))
  {
    var trial, residual := NewPair(s.ref);
    t := trial.configs;
    norm := 1.0;
    loops := 0;
    while loops < s.maxloop
      invariant trial != residual && Matches(s, residual.configs)
      invariant RoundsFrom(s, trial.configs, loops, norm, lib, rounds)
      decreases s.maxloop - loops
    {
      var stop;
      o, stop, norm := Round(s, trial, residual, loops, norm, rounds, lib);
      if o.Failed? {
        return;
      }
      if stop {
        t := trial.configs;
        return;
      }
      loops := loops + 1;
    }
    t := trial.configs;
    o := Done;
  }

  class SepRep {
    var configs: SRConf

    predicate Valid()
      reads this
    {
      Configs.Valid(configs)
    }

    /** `SepRep(tt, k, dim)`: the empty representation. */
    constructor (tt: TensorType, k: nat, dim: nat)
      requires 0 < DimEff(tt) ==> dim % DimEff(tt) == 0
      ensures Valid() && configs == EmptyConf(tt, k, dim)
    {
      configs := EmptyConf(tt, k, dim);
    }

    /** `operator+=`: type, order and dimension must agree and rhs must be
        another object; then the terms of rhs are appended. */
    method AddAssign(rhs: SepRep) returns (o: Outcome)
      requires Valid() && rhs.Valid()
      modifies this
      ensures Valid()
      ensures o.Failed? <==> !Compatible(old(configs), old(rhs.configs)) || rhs == this
      ensures o.Failed? ==> o.failure.AssertionFailed? && configs == old(configs)
      ensures o.Done? ==> configs == Append(old(configs), old(rhs.configs))
    {
      if configs.tt != rhs.configs.tt || configs.k != rhs.configs.k || configs.dim != rhs.configs.dim || rhs == this {
        return Failed(AssertionFailed("operator+=: incompatible or the same SepRep"));
      }
      configs := Append(configs, rhs.configs);
      return Done;
    }

    /** `operator-=`: type and order must agree and rhs must be another
        object; the dimension is not checked here. The terms of rhs are
        appended with negated weights. */
    method SubAssign(rhs: SepRep) returns (o: Outcome)
      requires Valid() && rhs.Valid()
      modifies this
      ensures Valid()
      ensures (o.Failed? && o.failure.AssertionFailed?) <==>
                old(configs).tt != old(rhs.configs).tt || old(configs).k != old(rhs.configs).k || rhs == this
      ensures o.Failed? && !o.failure.AssertionFailed? ==>
                o.failure.TensorError? && old(configs).dim != old(rhs.configs).dim
      ensures o.Failed? ==> configs == old(configs)
      ensures o.Done? ==> Compatible(old(configs), old(rhs.configs)) && configs == Append(old(configs), Negate(old(rhs.configs)))
    {
      if configs.tt != rhs.configs.tt || configs.k != rhs.configs.k || rhs == this {
        return Failed(AssertionFailed("operator-=: incompatible or the same SepRep"));
      }
      if configs.dim != rhs.configs.dim {
        return Failed(TensorError("SRConf::operator-=: dimensions differ"));
      }
      configs := Append(configs, Negate(rhs.configs));
      return Done;
    }

    /** One entry of the represented tensor, summed term by term: the copy of
        the weights multiplied entry-wise by the factor column of every axis,
        then summed. */
    method EntryAt(idx: seq<nat>) returns (v: real)
      requires Valid() && IsIndex(configs, idx)
      ensures v == Entry(configs, idx)
    {
      v := 0.0;
      for r := 0 to Rank(configs)
        invariant v == EntryUpTo(configs, idx, r)
      {
        v := v + Term(configs, r, idx);
      }
    }

    /** The loops of `reconstructTensor` for two effective axes: every
        entry (i0, i1) in row-major order. */
    method FillEntries2() returns (s: seq<real>)
      requires Valid() && 0 < Rank(configs) && Axes(configs) == 2
      ensures Reconstruct(configs).Ok? && s == Reconstruct(configs).value.data
      ensures |s| == KVec(configs) * KVec(configs)
    {
      var n := KVec(configs);
      var a := new real[n * n];
      var pos := 0;
      for i0 := 0 to n
        invariant pos == Flat2(n, i0, 0) && pos <= n * n
        invariant forall p :: 0 <= p < pos ==> a[p] == Entry(configs, Unflat2(n, p))
      {
        for i1 := 0 to n
          invariant pos == Flat2(n, i0, i1) && pos <= n * n
          invariant forall p :: 0 <= p < pos ==> a[p] == Entry(configs, Unflat2(n, p))
        {
          Unflat2Flat2(n, i0, i1);
          var v := EntryAt([i0, i1]);
          a[pos] := v;
          pos := pos + 1;
        }
        Flat2Carry(n, i0);
      }
      Flat2Carry(n, n);
      s := a[..];
      ReconstructSize(configs);
      forall p | 0 <= p < n * n
        ensures s[p] == Reconstruct(configs).value.data[p]
      {
        ReconstructAt2(configs, p);
      }
    }

    /** The loops of `reconstructTensor` for three effective axes: every
        entry (i0, i1, i2) in row-major order. */
    method FillEntries3() returns (s: seq<real>)
      requires Valid() && 0 < Rank(configs) && Axes(configs) == 3
      ensures Reconstruct(configs).Ok? && s == Reconstruct(configs).value.data
    {
      var n := KVec(configs);
      var a := new real[n * n * n];
      var pos := 0;
      for i0 := 0 to n
        invariant pos == Flat3(n, i0, 0, 0) && pos <= n * n * n
        invariant forall p :: 0 <= p < pos ==> a[p] == Entry(configs, Unflat3(n, p))
      {
        for i1 := 0 to n
          invariant pos == Flat3(n, i0, i1, 0) && pos <= n * n * n
          invariant forall p :: 0 <= p < pos ==> a[p] == Entry(configs, Unflat3(n, p))
        {
          for i2 := 0 to n
            invariant pos == Flat3(n, i0, i1, i2) && pos <= n * n * n
            invariant forall p :: 0 <= p < pos ==> a[p] == Entry(configs, Unflat3(n, p))
          {
            Unflat3Flat3(n, i0, i1, i2);
            var v := EntryAt([i0, i1, i2]);
            a[pos] := v;
            pos := pos + 1;
          }
          Flat3Carry(n, i0, i1);
        }
        Flat3Carry(n, i0, n);
      }
      Flat3Carry(n, n, 0);
      s := a[..];
      ReconstructSize(configs);
      forall p | 0 <= p < n * n * n
        ensures s[p] == Reconstruct(configs).value.data[p]
      {
        ReconstructAt3(configs, p);
      }
    }

    /** `reconstructTensor`: the full tensor, zero without terms; for two and
        three effective axes every entry is filled in, in row-major order. */
    method ReconstructTensor() returns (r: Result<Dense>)
      requires Valid()
      ensures r == Reconstruct(configs)
    {
      if Rank(configs) == 0 {
        return Ok(Zeros(configs.k, configs.dim));
      }
      if Axes(configs) == 2 {
        var s := FillEntries2();
        return Ok(Dense(Repeat(configs.k, configs.dim), s));
      }
      if Axes(configs) == 3 {
        var s := FillEntries3();
        return Ok(Dense(Repeat(configs.k, configs.dim), s));
      }
      return Err(AssertionFailed("only config_dim=1,2,3 in SepRep::reconstructTensor"));
    }

    /** `accumulate_into(t, fac)`: nothing to do without terms; the buffer
        must hold kVec^axes entries, and only two effective axes are
        supported; then fac times the reconstruction is added to it. */
    method AccumulateInto(t: array<real>, fac: real) returns (o: Outcome)
      requires Valid()
      modifies t
      ensures Rank(configs) == 0 ==> o.Done?
      ensures 0 < Rank(configs) ==> (o.Failed? <==> t.Length != Pow(KVec(configs), Axes(configs)) || Axes(configs) != 2)
      ensures o.Failed? && t.Length != Pow(KVec(configs), Axes(configs)) ==> o.failure.TensorError?
      ensures o.Failed? || Rank(configs) == 0 ==> t[..] == old(t[..])
      ensures o.Done? && 0 < Rank(configs) ==>
                Reconstruct(configs).Ok? && |Reconstruct(configs).value.data| == t.Length &&
                t[..] == Accumulated(old(t[..]), fac, Reconstruct(configs).value.data)
    {
      if Rank(configs) == 0 {
        return Done;
      }
      var n := KVec(configs);
      var size := Pow(n, Axes(configs));
      if t.Length != size {
        return Failed(TensorError("reshape: the buffer has the wrong size"));
      }
      if Axes(configs) != 2 {
        return Failed(AssertionFailed("only config_dim=2 in SepRep::accumulate_into"));
      }
      PowSmall(n);
      var s := FillEntries2();
      AddScaled(t, fac, s);
      return Done;
    }

    /** `computeSVD(eps, values_eff)`: the new configuration is the one
        `ComputeSvd` describes. A failed matrix or type assertion leaves it as
        it was; a failed kVec assertion after the cut leaves the overwritten
        weights and factors, which `ComputeSvdLeaves` describes and which are
        then not a valid configuration. */
    method ComputeSVD(eps: real, values: Dense, lib: Lib) returns (o: Outcome)
      requires Valid() && WellFormed(values) && LibSpec(lib)
      modifies this
      ensures o.Done? ==> Valid()
      ensures var r := ComputeSvd(old(configs), eps, values, lib);
              (r.Ok? ==> o.Done? && configs == r.value) &&
              (r.Err? ==> o == Failed(r.failure) && configs == ComputeSvdLeaves(old(configs), eps, values, lib))
    {
      if |values.shape| != 2 {
        return Failed(AssertionFailed("computeSVD needs a matrix"));
      }
      if configs.tt != TT_2D {
        return Failed(AssertionFailed("computeSVD needs TT_2D"));
      }
      if lib.sqrt(SumSq(values.data)) < eps * FacReduce {
        return Done;
      }
      var d := lib.svd(values);
      var i := TruncationIndex(d.s, eps * eps * FacReduce);
      if 0 <= i {
        if values.shape != [KVec(configs), KVec(configs)] {
          configs := Overwritten(configs, d, i + 1);
          return Failed(AssertionFailed("kVec must match the vectors"));
        }
        TruncatedValid(configs, d, i + 1);
        configs := Truncated(configs, d, i + 1);
      }
      configs := configs.(structured := true);
      return Done;
    }

    /** The term loop of `generalizedALS` on axis idim: every trial term l in
        turn gets its weight and factor vector from row l of the solution x;
        the first row with a NaN stops the loop with a runtime error. */
    method UpdateTerms(idim: nat, x: seq<seq<Value>>, sqrt: real -> real) returns (o: Outcome)
      requires Valid() && idim < Axes(configs) && ValueShape(x, Rank(configs), KVec(configs)) && IsSqrt(sqrt)
      modifies this
      ensures var r := UpdateRows(old(configs), idim, x, 0, sqrt);
              (r.Ok? ==> o.Done? && configs == r.value) && (r.Err? ==> o == Failed(r.failure))
    {
      ghost var r := UpdateRows(configs, idim, x, 0, sqrt);
      var c := configs;
      var l := 0;
      while l < Rank(c)
        invariant RowsFrom(c, idim, x, l, sqrt, r)
        decreases Rank(c) - l
      {
        var wf := TermUpdate(x[l], sqrt);
        if wf.Err? {
          configs := c;
          return Failed(wf.failure);
        }
        c := Reassign(c, idim, l, wf.value.0, wf.value.1);
        l := l + 1;
      }
      configs := c;
      return Done;
    }

    /** The work of `generalizedALS` on axis idim: the right-hand side b
        and the matrix B are built, B x = b is solved and the trial's terms
        are updated from x. The new trial is the one `AxisStep` gives. */
    method SweepAxis(r1: SRConf, fac1: real, r2: SRConf, fac2: real, r3: Option<Dense>, fac3: real,
                     idim: nat, lib: Lib) returns (o: Outcome)
      requires Valid() && Configs.Valid(r1) && Configs.Valid(r2) && LibSpec(lib)
      requires idim < Axes(configs) && 0 < Rank(configs)
      requires r1.tt == configs.tt && (Takes(fac2, r2) ==> r2.tt == configs.tt)
      modifies this
      ensures var r := AxisStep(old(configs), r1, fac1, r2, fac2, r3, fac3, idim, lib);
              (r.Ok? ==> o.Done? && configs == r.value) && (r.Err? ==> o == Failed(r.failure))
    {
      var rhs := Rhs(configs, r1, fac1, r2, fac2, r3, fac3, idim);
      if rhs.Err? {
        return Failed(rhs.failure);
      }
      var m := SystemMatrix(configs, idim, Axes(configs));
      var x := lib.gesv(m, rhs.value);
      if x.None? {
        return Failed(AssertionFailed("gesv failed"));
      }
      assert Solves(m, rhs.value, x.value, |rhs.value|, |rhs.value[0]|);
      o := UpdateTerms(idim, x.value, lib.sqrt);
    }

    /** `generalizedALS(ref1, fac1, ref2, fac2, ref3, fac3, B1, B2)`: after
        the checks, every axis in turn is updated by `SweepAxis`. The new
        trial is the one `AlsSweep` gives. */
    method GeneralizedAls(r1: SRConf, fac1: real, r2: SRConf, fac2: real, r3: Option<Dense>, fac3: real,
                          b1: seq<Matrix>, b2: seq<Matrix>, lib: Lib) returns (o: Outcome)
      requires Valid() && Configs.Valid(r1) && Configs.Valid(r2) && LibSpec(lib)
      modifies this
      ensures var r := AlsSweep(old(configs), r1, fac1, r2, fac2, r3, fac3, b1, b2, lib);
              (r.Ok? ==> o.Done? && configs == r.value) && (r.Err? ==> o == Failed(r.failure))
    {
      var checks := SweepChecks(configs, r1, fac1, r2, fac2, b1, b2);
      if checks.Failed? {
        return checks;
      }
      ghost var start := configs;
      var idim := 0;
      while idim < Axes(configs)
        invariant Valid() && SameFrame(start, configs) && idim <= Axes(configs) && 0 < Rank(configs)
        invariant r1.tt == configs.tt && (Takes(fac2, r2) ==> r2.tt == configs.tt)
        invariant SweepFrom(configs, r1, fac1, r2, fac2, r3, fac3, idim, lib) ==
                  SweepFrom(start, r1, fac1, r2, fac2, r3, fac3, 0, lib)
        decreases Axes(configs) - idim
      {
        o := SweepAxis(r1, fac1, r2, fac2, r3, fac3, idim, lib);
        if o.Failed? {
          return o;
        }
        idim := idim + 1;
      }
      return Done;
    }

    /** `optimize(ref1, fac1, ref2, fac2, ref3, fac3, eps, maxloop, B1, B2)`:
        after the checks and the reset of the scratch, ALS sweeps run until
        the norm converges (from the third sweep on) or maxloop sweeps are
        made. A runtime error of a sweep becomes "rank reduction failed".
        The trial is the one `Optimization.Optimize` gives. */
    method Optimize(r1: SRConf, fac1: real, r2: SRConf, fac2: real, r3: Option<Dense>, fac3: real,
                    maxloop: nat, b1: seq<Matrix>, b2: seq<Matrix>, lib: Lib) returns (o: Outcome)
      requires Valid() && Configs.Valid(r1) && Configs.Valid(r2) && LibSpec(lib)
      requires Axes(configs) <= |b1| && Axes(configs) <= |b2|
      modifies this
      ensures var r := Optimization.Optimize(old(configs), r1, fac1, r2, fac2, r3, fac3, maxloop, b1, b2, lib);
              (r.Ok? ==> o.Done? && configs == r.value.conf) && (r.Err? ==> o == Failed(r.failure))
    {
      var checks := OptimizeChecks(configs, r1, fac1, r2, fac2);
      if checks.Failed? {
        return checks;
      }
      var s1 := ResetScratch(b1, Axes(configs), Rank(configs), Rank(r1));
      var s2 := ResetScratch(b2, Axes(configs), Rank(configs), Rank(r2));
      ghost var run := Sweeps(configs, r1, fac1, r2, fac2, r3, fac3, s1, s2, 0, 1.0, maxloop, lib);
      var oldnorm := 1.0;
      var iloop := 0;
      while iloop < maxloop
        invariant SweepsFrom(configs, r1, fac1, r2, fac2, r3, fac3, s1, s2, iloop, oldnorm, maxloop, lib, run)
        decreases maxloop - iloop
      {
        SweepsStep(configs, r1, fac1, r2, fac2, r3, fac3, s1, s2, iloop, oldnorm, maxloop, lib);
        o := GeneralizedAls(r1, fac1, r2, fac2, r3, fac3, s1, s2, lib);
        if o.Failed? {
          if o.failure.RuntimeError? {
            return Failed(RuntimeError("rank reduction failed"));
          }
          return o;
        }
        var norm := FrobeniusNorm(configs, lib.sqrt);
        if 1 < iloop && Converged(oldnorm, norm) {
          return Done;
        }
        oldnorm := norm;
        iloop := iloop + 1;
      }
      return Done;
    }

    /** `doReduceRank(eps, values)`. The reference is this object in the
        unstructured view; the rounds run on a new trial and a new residual;
        then a last residual norm above eps * 1e-4 is a failed assertion, and
        otherwise the trial, structured, replaces the configuration. The
        outcome is the one `RankReduction.DoReduceRank` gives. */
    method DoReduceRank(eps: real, values: Option<Dense>, lib: Lib) returns (o: Outcome)
      requires Valid() && LibSpec(lib)
      modifies this
      ensures var r := RankReduction.DoReduceRank(old(configs), eps, values, lib);
              (r.Ok? ==> o.Done? && configs == r.value) && (r.Err? ==> o == Failed(r.failure))
    {
      if Rank(configs) == 0 && values.None? {
        return Done;
      }
      ghost var r := RankReduction.DoReduceRank(configs, eps, values, lib);
      assert Concluded(configs, eps, values, lib, r);
      var s := SetupOf(configs, eps, values);
      ghost var rounds := ReduceFrom(s, EmptyTrial(s.ref), 0, 1.0, lib);
      var trial, loops, norm;
      o, trial, loops, norm := ReduceRounds(s, rounds, lib);
      if o.Failed? {
        return o;
      }
      if norm > s.threshold {
        return Failed(AssertionFailed("no convergence in SepRep::reduceRank()"));
      }
      configs := trial.(structured := true);
      return Done;
    }

    /** `reduceRank(eps, values)`: `doReduceRank` and the structured view for
        three axes; the SVD of the reconstructed matrix for two axes, where
        values must not be given; a failed assertion for any other type, and
        when the result is neither structured nor empty. The outcome is the
        one `RankReduction.ReduceRank` gives. */
    method ReduceRank(eps: real, values: Option<Dense>, lib: Lib) returns (o: Outcome)
      requires Valid() && LibSpec(lib)
      modifies this
      ensures var r := RankReduction.ReduceRank(old(configs), eps, values, lib);
              (r.Ok? ==> o.Done? && configs == r.value) && (r.Err? ==> o == Failed(r.failure))
    {
      if configs.tt == TT_3D {
        o := DoReduceRank(eps, values, lib);
        if o.Failed? {
          return o;
        }
        configs := configs.(structured := true);
      } else if configs.tt == TT_2D {
        if values.Some? {
          return Failed(AssertionFailed("reduceRank: values given for TT_2D"));
        }
        var t := ReconstructTensor();
        ReconstructSize(configs);
        LayoutSize(configs);
        o := ComputeSVD(eps, AsMatrix(configs, t.value), lib);
        if o.Failed? {
          return o;
        }
      } else {
        return Failed(AssertionFailed("reduceRank: unknown tensor type"));
      }
      if !(configs.structured || Rank(configs) == 0) {
        return Failed(AssertionFailed("reduceRank: result is not structured"));
      }
      return Done;
    }
  }
}
