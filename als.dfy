/** One sweep of the alternating least squares of `SepRep::generalizedALS`,
    after eq. (3.3)-(3.4) of Beylkin & Mohlenkamp, SIAM J. Sci. Comput. 26(6),
    2005. For each effective axis in turn the trial's factor matrix on that
    axis is re-solved from the normal equations B x = b: B is the entry-wise
    product over the other axes of the trial's Gram matrices (plus 1e-14 on
    the diagonal), and b collects the overlap with up to two separated
    references and with a dense array of values. Every solved row then gives
    a term its weight (the row's norm) and its unit factor vector. */
module Als {
  import opened Wrappers
  import opened Numerics
  import opened Tensors
  import opened Configs

  /** The machine precision added to the diagonal of every Gram matrix to
      bound the condition number (section 3.2 of Beylkin and Mohlenkamp,
      SIAM J. Sci. Comput. 26(6), 2005, pp. 2133-2159). */
  const Alpha: real := 0.00000000000001

  /** The entry of the factor vector of a term whose solved row is zero. */
  const FallbackEntry: real := 0.01

  // ------------------------------------------------------ per-term update

  predicate AllNum(row: seq<Value>)
  {
    forall j :: 0 <= j < |row| ==> row[j].Num?
  }

  function RowReals(row: seq<Value>): (s: seq<real>)
    requires AllNum(row)
    ensures |s| == |row| && forall j :: 0 <= j < |row| ==> s[j] == row[j].r
  {
    seq(|row|, j requires 0 <= j < |row| => row[j].r)
  }

  /** The factor vector given to a term whose solved row vanished: all 0.01
      (the random fill made first is overwritten straight away). */
  function FallbackVector(n: nat): seq<real>
  {
    Constant(n, FallbackEntry)
  }

  /** A factor vector as the update leaves it: of unit length, or the fallback. */
  predicate UnitOrFallback(f: seq<real>)
  {
    SumSq(f) == 1.0 || f == FallbackVector(|f|)
  }

  /** Weight and factor vector of one term from its solved row: NaN anywhere
      is a runtime error; a zero row gives weight 0 and the fallback vector;
      otherwise the weight is the row's Euclidean norm and the factor the row
      divided by it. */
  function TermUpdate(row: seq<Value>, sqrt: real -> real): (r: Result<(real, seq<real>)>)
    requires IsSqrt(sqrt)
    ensures r.Err? <==> !AllNum(row)
    ensures r.Err? ==> r.failure == RuntimeError("NaNs in ALS")
    ensures r.Ok? ==> |r.value.1| == |row| && 0.0 <= r.value.0 && UnitOrFallback(r.value.1)
    ensures r.Ok? ==> r.value.0 * r.value.0 == SumSq(RowReals(row))
    ensures r.Ok? ==> ScaledRow(r.value.0, r.value.1) == RowReals(row)
    ensures r.Ok? && r.value.0 == 0.0 ==> r.value.1 == FallbackVector(|row|)
    ensures r.Ok? && r.value.0 != 0.0 ==> SumSq(r.value.1) == 1.0
  {
    if !AllNum(row) then Err(RuntimeError("NaNs in ALS"))
    else
      var s := RowReals(row);
      if SumSq(s) == 0.0 then
        SumSqZero(s);
        assert ScaledRow(0.0, FallbackVector(|row|)) == s;
        Ok((0.0, FallbackVector(|row|)))
      else
        var w := sqrt(SumSq(s));
        SqrtPositive(sqrt, SumSq(s));
        DivideByNorm(s, w);
        assert forall j :: 0 <= j < |s| ==> ScaledRow(w, DivideBy(s, w))[j] == s[j];
        Ok((w, DivideBy(s, w)))
  }

  // ------------------------------------------------------- normal equations

  /** Every matrix of ms is r x c. */
  predicate AllShaped(ms: seq<Matrix>, r: nat, c: nat)
  {
    forall a :: 0 <= a < |ms| ==> IsMatrix(ms[a], r, c)
  }

  /** Entry-wise product (`emul`) of the per-axis matrices ms[a] over the
      axes a below n other than idim, starting from all ones. */
  function HadamardExcept(ms: seq<Matrix>, r: nat, c: nat, idim: nat, n: nat): (m: Matrix)
    requires n <= |ms| && AllShaped(ms, r, c)
    ensures IsMatrix(m, r, c)
  {
    if n == 0 then Fill(r, c, 1.0)
    else if n - 1 == idim then HadamardExcept(ms, r, c, idim, n - 1)
    else Hadamard(HadamardExcept(ms, r, c, idim, n - 1), ms[n - 1], r, c)
  }

  /** The product of the entries (p, q) of the same matrices. */
  function EntryExcept(ms: seq<Matrix>, r: nat, c: nat, idim: nat, n: nat, p: nat, q: nat): real
    requires n <= |ms| && AllShaped(ms, r, c) && p < r && q < c
  {
    if n == 0 then 1.0
    else if n - 1 == idim then EntryExcept(ms, r, c, idim, n - 1, p, q)
    else EntryExcept(ms, r, c, idim, n - 1, p, q) * ms[n - 1][p][q]
  }

  lemma {:induction false} HadamardExceptEntry(ms: seq<Matrix>, r: nat, c: nat, idim: nat, n: nat, p: nat, q: nat)
    requires n <= |ms| && AllShaped(ms, r, c) && p < r && q < c
    ensures HadamardExcept(ms, r, c, idim, n)[p][q] == EntryExcept(ms, r, c, idim, n, p, q)
  {
    if n > 0 { HadamardExceptEntry(ms, r, c, idim, n - 1, p, q); }
  }

  /** On every axis a, row p of fs[a] and row q of gs[a] exist and have one
      length. */
  predicate RowsPair(fs: seq<Matrix>, gs: seq<Matrix>, p: nat, q: nat)
  {
    |fs| == |gs| && forall a :: 0 <= a < |fs| ==> p < |fs[a]| && q < |gs[a]| && |fs[a][p]| == |gs[a][q]|
  }

  /** d, with `shift` added when `diagonal` holds. */
  function Shifted(d: real, diagonal: bool, shift: real): real
  {
    if diagonal then d + shift else d
  }

  /** Product over the axes a below n other than idim of the inner product
      of row p of fs[a] with row q of gs[a], with `shift` added to each
      factor when p == q. */
  function OtherAxesDots(fs: seq<Matrix>, gs: seq<Matrix>, idim: nat, p: nat, q: nat, n: nat, shift: real): real
    requires n <= |fs| && RowsPair(fs, gs, p, q)
  {
    if n == 0 then 1.0
    else if n - 1 == idim then OtherAxesDots(fs, gs, idim, p, q, n - 1, shift)
    else OtherAxesDots(fs, gs, idim, p, q, n - 1, shift) * Shifted(Dot(fs[n - 1][p], gs[n - 1][q]), p == q, shift)
  }

  /** Entry (p, q) of every ms[a] is the shifted inner product of row p of
      fs[a] with row q of gs[a]. */
  predicate EntriesAre(ms: seq<Matrix>, r: nat, c: nat, fs: seq<Matrix>, gs: seq<Matrix>, p: nat, q: nat, shift: real)
    requires AllShaped(ms, r, c) && p < r && q < c && |ms| == |fs| && RowsPair(fs, gs, p, q)
  {
    forall a :: 0 <= a < |ms| ==> ms[a][p][q] == Shifted(Dot(fs[a][p], gs[a][q]), p == q, shift)
  }

  lemma SameProduct(a: real, a1: real, m: real, b: real, b1: real, s: real)
    requires a == a1 * m && b == b1 * s && a1 == b1 && m == s
    ensures a == b
  {
  }

  lemma EntryExceptStep(ms: seq<Matrix>, r: nat, c: nat, fs: seq<Matrix>, gs: seq<Matrix>,
                        idim: nat, n: nat, p: nat, q: nat, shift: real)
    requires AllShaped(ms, r, c) && p < r && q < c && |ms| == |fs| && RowsPair(fs, gs, p, q)
    requires 0 < n <= |ms| && n - 1 != idim && EntriesAre(ms, r, c, fs, gs, p, q, shift)
    requires EntryExcept(ms, r, c, idim, n - 1, p, q) == OtherAxesDots(fs, gs, idim, p, q, n - 1, shift)
    ensures EntryExcept(ms, r, c, idim, n, p, q) == OtherAxesDots(fs, gs, idim, p, q, n, shift)
  {
    SameProduct(EntryExcept(ms, r, c, idim, n, p, q), EntryExcept(ms, r, c, idim, n - 1, p, q), ms[n - 1][p][q],
                OtherAxesDots(fs, gs, idim, p, q, n, shift), OtherAxesDots(fs, gs, idim, p, q, n - 1, shift),
                Shifted(Dot(fs[n - 1][p], gs[n - 1][q]), p == q, shift));
  }

  /** When every factor entry is a shifted inner product, so is their product. */
  lemma {:induction false} EntryExceptIsDots(ms: seq<Matrix>, r: nat, c: nat, fs: seq<Matrix>, gs: seq<Matrix>,
                                             idim: nat, n: nat, p: nat, q: nat, shift: real)
    requires AllShaped(ms, r, c) && p < r && q < c && |ms| == |fs| && RowsPair(fs, gs, p, q)
    requires n <= |ms| && EntriesAre(ms, r, c, fs, gs, p, q, shift)
    ensures EntryExcept(ms, r, c, idim, n, p, q) == OtherAxesDots(fs, gs, idim, p, q, n, shift)
  {
    if n > 0 {
      EntryExceptIsDots(ms, r, c, fs, gs, idim, n - 1, p, q, shift);
      if n - 1 != idim {
        EntryExceptStep(ms, r, c, fs, gs, idim, n, p, q, shift);
      }
    }
  }

  /** The factors `B[jdim]` of B, one per axis: the Gram matrix of the
      trial's factor rows on that axis (`makeB`) plus Alpha on its diagonal
      (`unity`). */
  function SystemFactors(t: SRConf): (ms: seq<Matrix>)
    requires Valid(t)
    ensures |ms| == Axes(t) && AllShaped(ms, Rank(t), Rank(t))
  {
    seq(Axes(t), a requires 0 <= a < Axes(t) =>
      AddDiagonal(Gram(t.vectors[a], t.vectors[a], KVec(t)), Rank(t), Alpha))
  }

  /** The factors of a cross matrix, one per axis: the overlaps of the
      trial's factor rows with those of the reference g. */
  function CrossFactors(t: SRConf, g: SRConf): (ms: seq<Matrix>)
    requires Conformal(t, g)
    ensures |ms| == Axes(t) && AllShaped(ms, Rank(t), Rank(g))
  {
    seq(Axes(t), a requires 0 <= a < Axes(t) => Gram(t.vectors[a], g.vectors[a], KVec(t)))
  }

  /** B on axis idim: the entry-wise product of the factors of the axes
      below n other than idim. */
  function SystemMatrix(t: SRConf, idim: nat, n: nat): (m: Matrix)
    requires Valid(t) && n <= Axes(t)
    ensures IsMatrix(m, Rank(t), Rank(t))
  {
    HadamardExcept(SystemFactors(t), Rank(t), Rank(t), idim, n)
  }

  /** The cross matrix of a reference g on axis idim: the entry-wise product
      of the trial-reference overlaps of the axes below n other than idim. */
  function CrossMatrix(t: SRConf, g: SRConf, idim: nat, n: nat): (m: Matrix)
    requires Conformal(t, g) && n <= Axes(t)
    ensures IsMatrix(m, Rank(t), Rank(g))
  {
    HadamardExcept(CrossFactors(t, g), Rank(t), Rank(g), idim, n)
  }

  lemma FactorRows(t: SRConf, g: SRConf, p: nat, q: nat)
    requires Conformal(t, g) && p < Rank(t) && q < Rank(g)
    ensures RowsPair(t.vectors, g.vectors, p, q)
  {
  }

  /** Entry (p, q) of B is the product over the other axes of the inner
      products of the trial's factor rows p and q, each with Alpha added when
      p == q. */
  lemma SystemMatrixEntry(t: SRConf, idim: nat, n: nat, p: nat, q: nat)
    requires Valid(t) && n <= Axes(t) && p < Rank(t) && q < Rank(t)
    ensures RowsPair(t.vectors, t.vectors, p, q)
    ensures SystemMatrix(t, idim, n)[p][q] == OtherAxesDots(t.vectors, t.vectors, idim, p, q, n, Alpha)
  {
    var ms := SystemFactors(t);
    FactorRows(t, t, p, q);
    assert EntriesAre(ms, Rank(t), Rank(t), t.vectors, t.vectors, p, q, Alpha);
    HadamardExceptEntry(ms, Rank(t), Rank(t), idim, n, p, q);
    EntryExceptIsDots(ms, Rank(t), Rank(t), t.vectors, t.vectors, idim, n, p, q, Alpha);
  }

  /** Entry (p, q) of the cross matrix is the product over the other axes of
      the inner products of trial row p with reference row q. */
  lemma CrossMatrixEntry(t: SRConf, g: SRConf, idim: nat, n: nat, p: nat, q: nat)
    requires Conformal(t, g) && n <= Axes(t) && p < Rank(t) && q < Rank(g)
    ensures RowsPair(t.vectors, g.vectors, p, q)
    ensures CrossMatrix(t, g, idim, n)[p][q] == OtherAxesDots(t.vectors, g.vectors, idim, p, q, n, 0.0)
  {
    var ms := CrossFactors(t, g);
    FactorRows(t, g, p, q);
    assert EntriesAre(ms, Rank(t), Rank(g), t.vectors, g.vectors, p, q, 0.0);
    HadamardExceptEntry(ms, Rank(t), Rank(g), idim, n, p, q);
    EntryExceptIsDots(ms, Rank(t), Rank(g), t.vectors, g.vectors, idim, n, p, q, 0.0);
  }

  /** B is symmetric, as the Gram matrices it is built from are. */
  lemma {:induction false} SystemSymmetric(fs: seq<Matrix>, idim: nat, p: nat, q: nat, n: nat, shift: real)
    requires n <= |fs| && RowsPair(fs, fs, p, q) && RowsPair(fs, fs, q, p)
    ensures OtherAxesDots(fs, fs, idim, p, q, n, shift) == OtherAxesDots(fs, fs, idim, q, p, n, shift)
  {
    if n > 0 {
      SystemSymmetric(fs, idim, p, q, n - 1, shift);
      DotSymmetric(fs[n - 1][p], fs[n - 1][q]);
    }
  }

  /** With no axis left out the cross products are the factor overlaps that
      `overlap` multiplies with the weights. */
  lemma {:induction false} CrossAllAxes(t: SRConf, g: SRConf, idim: nat, p: nat, q: nat, n: nat)
    requires Conformal(t, g) && p < Rank(t) && q < Rank(g) && n <= Axes(t) <= idim
    ensures RowsPair(t.vectors, g.vectors, p, q)
    ensures OtherAxesDots(t.vectors, g.vectors, idim, p, q, n, 0.0) == AxisDots(t, g, p, q, n)
  {
    FactorRows(t, g, p, q);
    if n > 0 { CrossAllAxes(t, g, idim, p, q, n - 1); }
  }

  /** Column l of m scaled by w[l] * fac. */
  function ScaleColumns(m: Matrix, p: nat, q: nat, w: seq<real>, fac: real): (c: Matrix)
    requires IsMatrix(m, p, q) && |w| == q
    ensures IsMatrix(c, p, q)
    ensures forall i, l :: 0 <= i < p && 0 <= l < q ==> c[i][l] == m[i][l] * (w[l] * fac)
  {
    seq(p, i requires 0 <= i < p => seq(q, l requires 0 <= l < q => m[i][l] * (w[l] * fac)))
  }

  /** The part of the right-hand side that a separated reference g, scaled
      by fac, contributes on axis idim. */
  function ReferenceRhs(t: SRConf, g: SRConf, fac: real, idim: nat): (m: Matrix)
    requires Conformal(t, g) && idim < Axes(t)
    ensures IsMatrix(m, Rank(t), KVec(t))
  {
    var cross := ScaleColumns(CrossMatrix(t, g, idim, Axes(t)), Rank(t), Rank(g), g.weights, fac);
    MatMul(cross, g.vectors[idim], Rank(t), Rank(g), KVec(t))
  }

  /** Row p of the scaled cross matrix, term by term of the reference g:
      the cross product of trial term p with term l times the weight of l
      and fac. */
  function CrossRow(t: SRConf, g: SRConf, fac: real, idim: nat, p: nat): (row: seq<real>)
    requires Conformal(t, g) && idim < Axes(t) && p < Rank(t)
    ensures |row| == Rank(g)
  {
    seq(Rank(g), l requires 0 <= l < Rank(g) =>
      FactorRows(t, g, p, l);
      OtherAxesDots(t.vectors, g.vectors, idim, p, l, Axes(t), 0.0) * (g.weights[l] * fac))
  }

  /** Entry (p, j) of a reference's part of b is the inner product of
      `CrossRow` with entry j of the reference's factor rows on axis idim. */
  lemma ReferenceRhsEntry(t: SRConf, g: SRConf, fac: real, idim: nat, p: nat, j: nat)
    requires Conformal(t, g) && idim < Axes(t) && p < Rank(t) && j < KVec(t)
    ensures ReferenceRhs(t, g, fac, idim)[p][j] == Dot(CrossRow(t, g, fac, idim, p), Column(g.vectors[idim], j))
  {
    var cross := ScaleColumns(CrossMatrix(t, g, idim, Axes(t)), Rank(t), Rank(g), g.weights, fac);
    var row := CrossRow(t, g, fac, idim, p);
    forall l | 0 <= l < Rank(g)
      ensures cross[p][l] == row[l]
    {
      CrossMatrixEntry(t, g, idim, Axes(t), p, l);
    }
    assert cross[p] == row;
  }

  /** Position, in a row-major n x n x n array, of the entry whose axis idim
      has index jk and whose next two axes (cyclically) have i0 and i1: the
      reordering `cycledim(3 - idim, 0, 2)` brings it to (jk, i0, i1). */
  function Position3(n: nat, idim: nat, jk: nat, i0: nat, i1: nat): nat
  {
    if idim == 0 then Flat3(n, jk, i0, i1)
    else if idim == 1 then Flat3(n, i1, jk, i0)
    else Flat3(n, i0, i1, jk)
  }

  /** The same for an n x n array and `cycledim(2 - idim, 0, 1)`. */
  function Position2(n: nat, idim: nat, jk: nat, i0: nat): nat
  {
    if idim == 0 then Flat2(n, jk, i0) else Flat2(n, i0, jk)
  }

  lemma Position3Bound(n: nat, idim: nat, jk: nat, i0: nat, i1: nat)
    requires jk < n && i0 < n && i1 < n
    ensures Position3(n, idim, jk, i0, i1) < n * n * n
  {
    Flat3Facts(n, jk, i0, i1, jk, i0, i1);
    Flat3Facts(n, i1, jk, i0, i1, jk, i0);
    Flat3Facts(n, i0, i1, jk, i0, i1, jk);
  }

  lemma Position2Bound(n: nat, idim: nat, jk: nat, i0: nat)
    requires jk < n && i0 < n
    ensures Position2(n, idim, jk, i0) < n * n
  {
    Flat2Facts(n, jk, i0, jk, i0);
    Flat2Facts(n, i0, jk, i0, jk);
  }

  /** Sum over i1 < m of F_(idim+1)[r, i0] * F_(idim+2)[r, i1] * D(...). */
  function DenseRow3(t: SRConf, d: seq<real>, idim: nat, r: nat, jk: nat, i0: nat, m: nat): real
    requires Valid(t) && Axes(t) == 3 && idim < 3 && r < Rank(t)
    requires |d| == KVec(t) * KVec(t) * KVec(t) && jk < KVec(t) && i0 < KVec(t) && m <= KVec(t)
  {
    if m == 0 then 0.0
    else
      var n := KVec(t);
      Position3Bound(n, idim, jk, i0, m - 1);
      DenseRow3(t, d, idim, r, jk, i0, m - 1)
        + (t.vectors[(idim + 1) % 3][r][i0] * t.vectors[(idim + 2) % 3][r][m - 1]) * d[Position3(n, idim, jk, i0, m - 1)]
  }

  function DenseSum3(t: SRConf, d: seq<real>, idim: nat, r: nat, jk: nat, m: nat): real
    requires Valid(t) && Axes(t) == 3 && idim < 3 && r < Rank(t)
    requires |d| == KVec(t) * KVec(t) * KVec(t) && jk < KVec(t) && m <= KVec(t)
  {
    if m == 0 then 0.0
    else DenseSum3(t, d, idim, r, jk, m - 1) + DenseRow3(t, d, idim, r, jk, m - 1, KVec(t))
  }

  /** Sum over i0 < m of F_(idim+1)[r, i0] * D(...). */
  function DenseSum2(t: SRConf, d: seq<real>, idim: nat, r: nat, jk: nat, m: nat): real
    requires Valid(t) && Axes(t) == 2 && idim < 2 && r < Rank(t)
    requires |d| == KVec(t) * KVec(t) && jk < KVec(t) && m <= KVec(t)
  {
    if m == 0 then 0.0
    else
      var n := KVec(t);
      Position2Bound(n, idim, jk, m - 1);
      DenseSum2(t, d, idim, r, jk, m - 1) + t.vectors[(idim + 1) % 2][r][m - 1] * d[Position2(n, idim, jk, m - 1)]
  }

  lemma PowSmall(n: nat)
    ensures Pow(n, 2) == n * n && Pow(n, 3) == n * n * n
  {
    assert Pow(n, 1) == n;
    assert Pow(n, 2) == n * Pow(n, 1);
    assert Pow(n, 3) == n * Pow(n, 2);
  }

  /** The part of the right-hand side that the dense values d (kVec entries
      per effective axis, row-major) contribute on axis idim: entry (r, jk)
      is the sum over the other axes' indices of the trial's factors of term
      r on those axes times the value with index jk on axis idim. */
  function DenseRhs(t: SRConf, d: seq<real>, idim: nat): (m: Matrix)
    requires Valid(t) && idim < Axes(t) && |d| == Pow(KVec(t), Axes(t))
    ensures IsMatrix(m, Rank(t), KVec(t))
  {
    var n := KVec(t);
    PowSmall(n);
    seq(Rank(t), r requires 0 <= r < Rank(t) =>
      seq(n, jk requires 0 <= jk < n =>
        if Axes(t) == 2 then DenseSum2(t, d, idim, r, jk, n) else DenseSum3(t, d, idim, r, jk, n)))
  }

  /** Whether a reference takes part: a nonzero factor and at least one term. */
  predicate Takes(fac: real, g: SRConf)
  {
    fac != 0.0 && 0 < Rank(g)
  }

  /** The right-hand side b of the normal equations on axis idim. */
  function Rhs(t: SRConf, r1: SRConf, fac1: real, r2: SRConf, fac2: real,
               r3: Option<Dense>, fac3: real, idim: nat): (res: Result<Matrix>)
    requires Valid(t) && Valid(r1) && Valid(r2) && idim < Axes(t)
    requires r1.tt == t.tt && (Takes(fac2, r2) ==> r2.tt == t.tt)
    ensures res.Ok? ==> IsMatrix(res.value, Rank(t), KVec(t))
    ensures res.Err? ==> res.failure.TensorError?
    ensures res.Err? <==> (Takes(fac1, r1) && KVec(r1) != KVec(t)) || (Takes(fac2, r2) && KVec(r2) != KVec(t)) ||
                          (fac3 != 0.0 && (r3.None? || |r3.value.data| != Pow(KVec(t), Axes(t))))
  {
    var n := KVec(t);
    var zero := Fill(Rank(t), n, 0.0);
    var b1 :-
      if !Takes(fac1, r1) then Ok(zero)
      else if KVec(r1) != n then Err(TensorError("inner: factor lengths differ"))
      else Ok(MatAdd(zero, ReferenceRhs(t, r1, fac1, idim), Rank(t), n));
    var b2 :-
      if !Takes(fac2, r2) then Ok(b1)
      else if KVec(r2) != n then Err(TensorError("inner: factor lengths differ"))
      else Ok(MatAdd(b1, ReferenceRhs(t, r2, fac2, idim), Rank(t), n));
    if fac3 == 0.0 then Ok(b2)
    else
      match r3
      case None => Err(TensorError("cycledim: no values"))
      case Some(values) =>
        if |values.data| != Pow(n, Axes(t)) then Err(TensorError("reshape: wrong number of values"))
        else Ok(MatAdd(b2, DenseRhs(t, values.data, idim), Rank(t), n))
  }

  // ------------------------------------------------------------ one sweep

  /** A factor row multiplied by its weight. */
  function ScaledRow(w: real, f: seq<real>): (s: seq<real>)
    ensures |s| == |f| && forall j :: 0 <= j < |f| ==> s[j] == w * f[j]
  {
    seq(|f|, j requires 0 <= j < |f| => w * f[j])
  }

  /** The trial's rows, each multiplied by its term's weight. */
  function ScaledFactors(c: SRConf, idim: nat): (m: Matrix)
    requires Valid(c) && idim < Axes(c)
    ensures IsMatrix(m, Rank(c), KVec(c))
  {
    seq(Rank(c), l requires 0 <= l < Rank(c) => ScaledRow(c.weights[l], c.vectors[idim][l]))
  }

  /** The fields a sweep never changes. */
  predicate SameFrame(a: SRConf, b: SRConf)
  {
    a.tt == b.tt && a.k == b.k && a.dim == b.dim && a.structured == b.structured && Rank(a) == Rank(b)
  }

  /** Terms l, l+1, ... updated, in order, from the solved rows x. */
  function UpdateRows(t: SRConf, idim: nat, x: seq<seq<Value>>, l: nat, sqrt: real -> real): (r: Result<SRConf>)
    requires Valid(t) && idim < Axes(t) && l <= Rank(t) && ValueShape(x, Rank(t), KVec(t)) && IsSqrt(sqrt)
    ensures r.Err? <==> exists i :: l <= i < Rank(t) && !AllNum(x[i])
    ensures r.Err? ==> r.failure == RuntimeError("NaNs in ALS")
    ensures r.Ok? ==> Valid(r.value) && SameFrame(t, r.value)
    ensures r.Ok? ==> forall a :: 0 <= a < Axes(t) && a != idim ==> r.value.vectors[a] == t.vectors[a]
    ensures r.Ok? ==> forall i :: 0 <= i < l ==>
              r.value.weights[i] == t.weights[i] && r.value.vectors[idim][i] == t.vectors[idim][i]
    decreases Rank(t) - l
  {
    if l == Rank(t) then Ok(t)
    else
      match TermUpdate(x[l], sqrt)
      case Err(f) => Err(f)
      case Ok(wf) => UpdateRows(Reassign(t, idim, l, wf.0, wf.1), idim, x, l + 1, sqrt)
  }

  /** Terms l, l+1, ... after the update come from their rows of x: the
      weighted factor row is the row, the factor row is a unit vector or the
      fallback, and the weight is not negative. */
  lemma {:induction false} UpdateRowsFrom(t: SRConf, idim: nat, x: seq<seq<Value>>, l: nat, sqrt: real -> real)
    requires Valid(t) && idim < Axes(t) && l <= Rank(t) && ValueShape(x, Rank(t), KVec(t)) && IsSqrt(sqrt)
    requires UpdateRows(t, idim, x, l, sqrt).Ok?
    ensures var r := UpdateRows(t, idim, x, l, sqrt).value;
            forall i :: l <= i < Rank(t) ==>
              AllNum(x[i]) && UnitOrFallback(r.vectors[idim][i]) && 0.0 <= r.weights[i] &&
              ScaledRow(r.weights[i], r.vectors[idim][i]) == RowReals(x[i])
    decreases Rank(t) - l
  {
    if l < Rank(t) {
      var wf := TermUpdate(x[l], sqrt).value;
      var t1 := Reassign(t, idim, l, wf.0, wf.1);
      UpdateRowsFrom(t1, idim, x, l + 1, sqrt);
      var r := UpdateRows(t1, idim, x, l + 1, sqrt).value;
      assert UpdateRows(t, idim, x, l, sqrt).value == r;
      assert r.weights[l] == wf.0 && r.vectors[idim][l] == wf.1;
      forall i | l <= i < Rank(t)
        ensures AllNum(x[i]) && UnitOrFallback(r.vectors[idim][i]) && 0.0 <= r.weights[i] &&
                ScaledRow(r.weights[i], r.vectors[idim][i]) == RowReals(x[i])
      {
      }
    }
  }

  /** One axis of the sweep: build b and B, solve, and update every term. */
  function AxisStep(t: SRConf, r1: SRConf, fac1: real, r2: SRConf, fac2: real,
                    r3: Option<Dense>, fac3: real, idim: nat, lib: Lib): (res: Result<SRConf>)
    requires LibSpec(lib) && Valid(t) && Valid(r1) && Valid(r2) && idim < Axes(t) && 0 < Rank(t)
    requires r1.tt == t.tt && (Takes(fac2, r2) ==> r2.tt == t.tt)
    ensures res.Ok? ==> Valid(res.value) && SameFrame(t, res.value)
    ensures res.Ok? ==> forall a :: 0 <= a < Axes(t) && a != idim ==> res.value.vectors[a] == t.vectors[a]
    ensures res.Err? && res.failure.RuntimeError? ==> res.failure.what == "NaNs in ALS"
  {
    var b :- Rhs(t, r1, fac1, r2, fac2, r3, fac3, idim);
    var m := SystemMatrix(t, idim, Axes(t));
    match lib.gesv(m, b)
    case None => Err(AssertionFailed("gesv failed"))
    case Some(x) =>
      assert Solves(m, b, x, |b|, |b[0]|);
      UpdateRows(t, idim, x, 0, lib.sqrt)
  }

  /** The axes a, a+1, ... of the sweep, in order. */
  function SweepFrom(t: SRConf, r1: SRConf, fac1: real, r2: SRConf, fac2: real,
                     r3: Option<Dense>, fac3: real, a: nat, lib: Lib): (res: Result<SRConf>)
    requires LibSpec(lib) && Valid(t) && Valid(r1) && Valid(r2) && a <= Axes(t) && 0 < Rank(t)
    requires r1.tt == t.tt && (Takes(fac2, r2) ==> r2.tt == t.tt)
    ensures res.Ok? ==> Valid(res.value) && SameFrame(t, res.value)
    ensures res.Err? && res.failure.RuntimeError? ==> res.failure.what == "NaNs in ALS"
    decreases Axes(t) - a
  {
    if a == Axes(t) then Ok(t)
    else
      var t' :- AxisStep(t, r1, fac1, r2, fac2, r3, fac3, a, lib);
      SweepFrom(t', r1, fac1, r2, fac2, r3, fac3, a + 1, lib)
  }

  /** The checks `generalizedALS` makes before it sweeps. */
  function SweepChecks(t: SRConf, r1: SRConf, fac1: real, r2: SRConf, fac2: real,
                       b1: seq<Matrix>, b2: seq<Matrix>): (o: Outcome)
    ensures o.Failed? ==> o.failure.AssertionFailed?
    ensures o.Done? <==>
              r1.tt == t.tt && (Takes(fac2, r2) ==> r2.tt == t.tt && r1.k == r2.k && r1.dim == r2.dim) &&
              Axes(t) == |b1| == |b2| && 0 < Rank(t) && 0 < |b1| &&
              IsMatrix(b1[0], Rank(t), Rank(r1)) && IsMatrix(b2[0], Rank(t), Rank(r2))
  {
    if r1.tt != t.tt then Failed(AssertionFailed("ref1 has another tensor type"))
    else if Takes(fac2, r2) && r2.tt != t.tt then Failed(AssertionFailed("ref2 has another tensor type"))
    else if Takes(fac2, r2) && !(r1.tt == r2.tt && r1.k == r2.k && r1.dim == r2.dim)
    then Failed(AssertionFailed("ref1 and ref2 are not compatible"))
    else if Axes(t) != |b1| || Axes(t) != |b2| then Failed(AssertionFailed("scratch count differs from dim_eff"))
    else if Rank(t) == 0 then Failed(AssertionFailed("trial has rank 0"))
    else if |b1| == 0 || !IsMatrix(b1[0], Rank(t), Rank(r1)) then Failed(AssertionFailed("B1 is not rF x rG1"))
    else if !IsMatrix(b2[0], Rank(t), Rank(r2)) then Failed(AssertionFailed("B2 is not rF x rG2"))
    else Done
  }

  /** A whole sweep of `generalizedALS` on the trial t; b1 and b2 stand for
      the scratch the caller passes, of which only the shapes are read. */
  function AlsSweep(t: SRConf, r1: SRConf, fac1: real, r2: SRConf, fac2: real,
                    r3: Option<Dense>, fac3: real, b1: seq<Matrix>, b2: seq<Matrix>, lib: Lib): (res: Result<SRConf>)
    requires LibSpec(lib) && Valid(t) && Valid(r1) && Valid(r2)
    ensures res.Ok? ==> Valid(res.value) && SameFrame(t, res.value)
    ensures SweepChecks(t, r1, fac1, r2, fac2, b1, b2).Failed? ==> res.Err? && res.failure.AssertionFailed?
    ensures res.Err? && res.failure.RuntimeError? ==> res.failure.what == "NaNs in ALS"
  {
    match SweepChecks(t, r1, fac1, r2, fac2, b1, b2)
    case Failed(f) => Err(f)
    case Done => SweepFrom(t, r1, fac1, r2, fac2, r3, fac3, 0, lib)
  }

  // -------------------------------------------------------------- results

  /** Factor rows on the axes below a are unit vectors or the fallback, and,
      once an axis has been solved, no weight is negative. */
  predicate Normalised(c: SRConf, a: nat)
    requires Valid(c) && a <= Axes(c)
  {
    (forall x, l :: 0 <= x < a && 0 <= l < Rank(c) ==> UnitOrFallback(c.vectors[x][l])) &&
    (0 < a ==> forall l :: 0 <= l < Rank(c) ==> 0.0 <= c.weights[l])
  }

  /** Updating every term from a solved x takes every term from its row of
      x: the rows are NaN-free, the weighted factor rows form the matrix of
      x, and the factor rows are unit vectors or the fallback. */
  lemma UpdateRowsTerms(t: SRConf, idim: nat, x: seq<seq<Value>>, sqrt: real -> real, t': SRConf)
    requires Valid(t) && idim < Axes(t) && ValueShape(x, Rank(t), KVec(t)) && IsSqrt(sqrt)
    requires UpdateRows(t, idim, x, 0, sqrt) == Ok(t')
    ensures Valid(t') && SameFrame(t, t') && NoNaN(x)
    ensures ScaledFactors(t', idim) == Reals(x)
    ensures forall l :: 0 <= l < Rank(t) ==> UnitOrFallback(t'.vectors[idim][l]) && 0.0 <= t'.weights[l]
  {
    UpdateRowsFrom(t, idim, x, 0, sqrt);
    forall i, j | 0 <= i < |x| && 0 <= j < |x[i]|
      ensures x[i][j].Num?
    {
      assert AllNum(x[i]);
    }
    var sf, rx := ScaledFactors(t', idim), Reals(x);
    forall l | 0 <= l < Rank(t')
      ensures sf[l] == rx[l]
    {
      assert rx[l] == RowReals(x[l]);
    }
  }

  /** After the update on axis idim every weighted factor row is the solved
      row: the new factors and weights solve the normal equations B x = b of
      that axis, and the rows are unit vectors or the fallback. */
  lemma {:induction false} AxisStepSolves(t: SRConf, r1: SRConf, fac1: real, r2: SRConf, fac2: real,
                                          r3: Option<Dense>, fac3: real, idim: nat, lib: Lib)
    requires LibSpec(lib) && Valid(t) && Valid(r1) && Valid(r2) && idim < Axes(t) && 0 < Rank(t)
    requires r1.tt == t.tt && (Takes(fac2, r2) ==> r2.tt == t.tt)
    requires AxisStep(t, r1, fac1, r2, fac2, r3, fac3, idim, lib).Ok?
    ensures var t' := AxisStep(t, r1, fac1, r2, fac2, r3, fac3, idim, lib).value;
            var b := Rhs(t, r1, fac1, r2, fac2, r3, fac3, idim);
            b.Ok? &&
            MatMul(SystemMatrix(t, idim, Axes(t)), ScaledFactors(t', idim), Rank(t), Rank(t), KVec(t)) == b.value
    ensures var t' := AxisStep(t, r1, fac1, r2, fac2, r3, fac3, idim, lib).value;
            forall l :: 0 <= l < Rank(t) ==> UnitOrFallback(t'.vectors[idim][l]) && 0.0 <= t'.weights[l]
  {
    var b := Rhs(t, r1, fac1, r2, fac2, r3, fac3, idim).value;
    var m := SystemMatrix(t, idim, Axes(t));
    var x := lib.gesv(m, b).value;
    assert Solves(m, b, x, |b|, |b[0]|);
    var t' := UpdateRows(t, idim, x, 0, lib.sqrt).value;
    UpdateRowsTerms(t, idim, x, lib.sqrt, t');
  }

  /** Solving axis idim normalises its factor rows and weights and keeps
      the axes below it. */
  lemma AxisStepNormalises(t: SRConf, r1: SRConf, fac1: real, r2: SRConf, fac2: real,
                           r3: Option<Dense>, fac3: real, idim: nat, lib: Lib)
    requires LibSpec(lib) && Valid(t) && Valid(r1) && Valid(r2) && idim < Axes(t) && 0 < Rank(t)
    requires r1.tt == t.tt && (Takes(fac2, r2) ==> r2.tt == t.tt)
    requires Normalised(t, idim)
    requires AxisStep(t, r1, fac1, r2, fac2, r3, fac3, idim, lib).Ok?
    ensures Normalised(AxisStep(t, r1, fac1, r2, fac2, r3, fac3, idim, lib).value, idim + 1)
  {
    var b := Rhs(t, r1, fac1, r2, fac2, r3, fac3, idim).value;
    var m := SystemMatrix(t, idim, Axes(t));
    var x := lib.gesv(m, b).value;
    assert Solves(m, b, x, |b|, |b[0]|);
    UpdateRowsFrom(t, idim, x, 0, lib.sqrt);
  }

  /** A whole-sweep induction step: solving the axes a, a+1, ... in turn
      leaves every axis normalised, given the axes below a already are. */
  lemma {:induction false} SweepFromNormalises(t: SRConf, r1: SRConf, fac1: real, r2: SRConf, fac2: real,
                                               r3: Option<Dense>, fac3: real, a: nat, lib: Lib)
    requires LibSpec(lib) && Valid(t) && Valid(r1) && Valid(r2) && a <= Axes(t) && 0 < Rank(t)
    requires r1.tt == t.tt && (Takes(fac2, r2) ==> r2.tt == t.tt)
    requires Normalised(t, a)
    requires SweepFrom(t, r1, fac1, r2, fac2, r3, fac3, a, lib).Ok?
    ensures var t' := SweepFrom(t, r1, fac1, r2, fac2, r3, fac3, a, lib).value;
            Normalised(t', Axes(t))
    decreases Axes(t) - a
  {
    if a < Axes(t) {
      var t1 := AxisStep(t, r1, fac1, r2, fac2, r3, fac3, a, lib).value;
      AxisStepNormalises(t, r1, fac1, r2, fac2, r3, fac3, a, lib);
      SweepFromNormalises(t1, r1, fac1, r2, fac2, r3, fac3, a + 1, lib);
    }
  }

  /** After a successful sweep every weight is the norm of a solved row, so
      none is negative, and every factor row of every axis is a unit vector
      or the fallback; type, order, dimension and rank are kept. */
  lemma SweepNormalises(t: SRConf, r1: SRConf, fac1: real, r2: SRConf, fac2: real,
                        r3: Option<Dense>, fac3: real, b1: seq<Matrix>, b2: seq<Matrix>, lib: Lib)
    requires LibSpec(lib) && Valid(t) && Valid(r1) && Valid(r2)
    requires AlsSweep(t, r1, fac1, r2, fac2, r3, fac3, b1, b2, lib).Ok?
    ensures var t' := AlsSweep(t, r1, fac1, r2, fac2, r3, fac3, b1, b2, lib).value;
            SameFrame(t, t') && 0 < Rank(t') && Normalised(t', Axes(t'))
  {
    assert 0 < |b1|;
    SweepFromNormalises(t, r1, fac1, r2, fac2, r3, fac3, 0, lib);
  }
}
