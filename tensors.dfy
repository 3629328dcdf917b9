/** The dense-tensor library as the separated representation uses it: slices,
    row-major dense arrays, small matrices, and the library routines (square
    root, SVD, linear solve, random fill) as an oracle record whose behaviour
    is fixed by ghost predicates rather than by an implementation. */
module Tensors {
  import opened Wrappers
  import opened Numerics

  // ---------------------------------------------------------------- slices

  /** A MADNESS `Slice(start, end, step)`: both ends inclusive, and a
      negative end (or start) counts from the end of the axis. */
  datatype Slice = Slice(start: int, end: int, step: int)

  /** An index of an axis of extent n, with negative values counted from the end. */
  function Canonical(x: int, n: nat): int
  {
    if x < 0 then x + n else x
  }

  /** The slice selects a non-empty, forward range inside an axis of extent n. */
  predicate Fits(s: Slice, n: nat)
  {
    1 <= s.step && 0 <= Canonical(s.start, n) <= Canonical(s.end, n) < n
  }

  /** Number of indices a fitting slice selects. */
  function Extent(s: Slice, n: nat): (e: nat)
    requires Fits(s, n)
    ensures 1 <= e <= n
  {
    ExtentBound(s, n);
    (Canonical(s.end, n) - Canonical(s.start, n)) / s.step + 1
  }

  lemma MulMonotone(a: nat, b: nat, c: nat)
    requires a <= b
    ensures a * c <= b * c
  {
  }

  lemma ExtentBound(s: Slice, n: nat)
    requires Fits(s, n)
    ensures (Canonical(s.end, n) - Canonical(s.start, n)) / s.step + 1 <= n
  {
    var d := Canonical(s.end, n) - Canonical(s.start, n);
    assert d / s.step <= d;
  }

  /** The j-th index a fitting slice selects. */
  function Pick(s: Slice, n: nat, j: nat): (i: nat)
    requires Fits(s, n) && j < Extent(s, n)
    ensures Canonical(s.start, n) <= i <= Canonical(s.end, n) < n
  {
    var d := Canonical(s.end, n) - Canonical(s.start, n);
    MulMonotone(j, d / s.step, s.step);
    Canonical(s.start, n) + j * s.step
  }

  /** For a unit-step slice the extent is end - start + 1 after both ends
      are made non-negative: MADNESS slices include their end. */
  lemma {:induction false} UnitSliceExtent(s: Slice, n: nat)
    requires Fits(s, n) && s.step == 1
    ensures Extent(s, n) == Canonical(s.end, n) - Canonical(s.start, n) + 1
    ensures forall j :: 0 <= j < Extent(s, n) ==> Pick(s, n, j) == Canonical(s.start, n) + j
  {
  }

  /** The inclusive-slice example of the tensor tests, for any axis of at
      least three entries: Slice(1,-2) drops exactly the first and the last
      entry, so on an axis of extent 5 it selects the three entries 1, 2, 3. */
  lemma SliceOneToMinusTwo(n: nat)
    requires 3 <= n
    ensures Fits(Slice(1, -2, 1), n)
    ensures Extent(Slice(1, -2, 1), n) == n - 2
    ensures forall j :: 0 <= j < n - 2 ==> Pick(Slice(1, -2, 1), n, j) == j + 1
  {
    UnitSliceExtent(Slice(1, -2, 1), n);
  }

  predicate AllFit(sl: seq<Slice>, n: nat)
  {
    forall i :: 0 <= i < |sl| ==> Fits(sl[i], n)
  }

  /** Product of the extents of a list of fitting slices. */
  function Extents(sl: seq<Slice>, n: nat): nat
    requires AllFit(sl, n)
  {
    if sl == [] then 1 else Extent(sl[0], n) * Extents(sl[1..], n)
  }

  /** If every slice selects e indices, m slices select e^m. */
  lemma {:induction false} ExtentsUniform(sl: seq<Slice>, n: nat, e: nat)
    requires AllFit(sl, n)
    requires forall i :: 0 <= i < |sl| ==> Extent(sl[i], n) == e
    ensures Extents(sl, n) == Pow(e, |sl|)
  {
    if sl != [] { ExtentsUniform(sl[1..], n, e); }
  }

  lemma BlockFits(i: nat, k: nat, p: nat)
    requires i < k
    ensures i * p + p <= k * p
  {
    MulMonotone(i + 1, k, p);
  }

  /** Slice a row that stores m = |sl| merged axes of extent k each, in
      row-major order, by one slice per merged axis (a deep copy). */
  function SliceRow(row: seq<real>, k: nat, sl: seq<Slice>): (r: seq<real>)
    requires |row| == Pow(k, |sl|) && AllFit(sl, k)
    ensures |r| == Extents(sl, k)
    decreases |sl|, 1, 0
  {
    if sl == [] then row else SliceBlocks(row, k, sl, 0)
  }

  /** The blocks j, j+1, ... selected by the first slice, each sliced by the rest. */
  function SliceBlocks(row: seq<real>, k: nat, sl: seq<Slice>, j: nat): (r: seq<real>)
    requires sl != [] && |row| == Pow(k, |sl|) && AllFit(sl, k)
    requires j <= Extent(sl[0], k)
    ensures |r| == (Extent(sl[0], k) - j) * Extents(sl[1..], k)
    decreases |sl|, 0, Extent(sl[0], k) - j
  {
    if j == Extent(sl[0], k) then []
    else
      var i := Pick(sl[0], k, j);
      var p := Pow(k, |sl| - 1);
      BlockFits(i, k, p);
      var block := SliceRow(row[i * p .. i * p + p], k, sl[1..]);
      var rest := SliceBlocks(row, k, sl, j + 1);
      MulSucc(Extent(sl[0], k) - (j + 1), Extents(sl[1..], k));
      block + rest
  }

  lemma MulSucc(a: nat, b: nat)
    ensures (a + 1) * b == b + a * b
  {
  }

  lemma {:induction false} ExtentsPositive(sl: seq<Slice>, n: nat)
    requires AllFit(sl, n)
    ensures 1 <= Extents(sl, n)
  {
    if sl != [] {
      ExtentsPositive(sl[1..], n);
      MulMonotone(1, Extent(sl[0], n), Extents(sl[1..], n));
    }
  }

  /** Where entry j of a sliced row comes from: j is read in mixed radix by
      the extents of the slices, each digit is mapped by its slice to an
      original index, and those indices are put back in row-major order
      over the merged axes of extent k. */
  function PickRow(sl: seq<Slice>, k: nat, j: nat): (p: nat)
    requires AllFit(sl, k) && j < Extents(sl, k)
    ensures p < Pow(k, |sl|)
    decreases |sl|, 1
  {
    if sl == [] then 0 else BlockPick(sl, k, 0, j)
  }

  /** Where entry t of the sliced blocks from j0 on comes from: block
      j0 + t / q of the first slice, at the position `PickRow` gives for
      t % q within it (q the size of one sliced block). */
  function BlockPick(sl: seq<Slice>, k: nat, j0: nat, t: nat): (p: nat)
    requires sl != [] && AllFit(sl, k) && j0 <= Extent(sl[0], k)
    requires t < (Extent(sl[0], k) - j0) * Extents(sl[1..], k)
    ensures p < Pow(k, |sl|)
    decreases |sl|, 0
  {
    var q := Extents(sl[1..], k);
    DivBelow(t, q, Extent(sl[0], k) - j0);
    var i := Pick(sl[0], k, j0 + t / q);
    var p := Pow(k, |sl| - 1);
    BlockFits(i, k, p);
    i * p + PickRow(sl[1..], k, t % q)
  }

  /** Entry j of a sliced row is the entry of the row at `PickRow`. */
  lemma SliceRowPick(row: seq<real>, k: nat, sl: seq<Slice>, j: nat)
    requires |row| == Pow(k, |sl|) && AllFit(sl, k) && j < Extents(sl, k)
    ensures |SliceRow(row, k, sl)| == Extents(sl, k)
    ensures SliceRow(row, k, sl)[j] == row[PickRow(sl, k, j)]
    decreases |sl|, 1, 0
  {
    if sl != [] {
      SliceBlocksAt(row, k, sl, 0, j);
    }
  }

  /** The unique quotient and remainder: t = a * q + r with 0 <= r < q. */
  lemma DivUnique(t: nat, q: nat, a: nat, r: nat)
    requires 0 < q && t == a * q + r && r < q
    ensures t / q == a && t % q == r
  {
    var a', r' := t / q, t % q;
    assert t == a' * q + r';
    if a' < a {
      MulMonotone(a' + 1, a, q);
    } else if a < a' {
      MulMonotone(a + 1, a', q);
    }
  }

  /** Inside the first block, `BlockPick` is the block's offset plus
      `PickRow` of the rest. */
  lemma BlockPickFirst(sl: seq<Slice>, k: nat, j0: nat, t: nat)
    requires sl != [] && AllFit(sl, k) && j0 < Extent(sl[0], k) && t < Extents(sl[1..], k)
    ensures t < (Extent(sl[0], k) - j0) * Extents(sl[1..], k)
    ensures BlockPick(sl, k, j0, t) == Pick(sl[0], k, j0) * Pow(k, |sl| - 1) + PickRow(sl[1..], k, t)
  {
    var q := Extents(sl[1..], k);
    MulMonotone(1, Extent(sl[0], k) - j0, q);
    DivUnique(t, q, 0, t);
  }

  /** Dropping one block of size q lowers the quotient by one and keeps the
      remainder. */
  lemma DivNext(t: nat, q: nat, e: nat)
    requires 0 < q && q <= t < e * q
    ensures 1 <= e && t - q < (e - 1) * q
    ensures t / q == (t - q) / q + 1 && t % q == (t - q) % q
  {
    MulSucc(e - 1, q);
    var a, r := (t - q) / q, (t - q) % q;
    MulSucc(a, q);
    DivUnique(t, q, a + 1, r);
  }

  /** Past the first block, `BlockPick` is that of the blocks from j0 + 1 on. */
  lemma BlockPickNext(sl: seq<Slice>, k: nat, j0: nat, t: nat)
    requires sl != [] && AllFit(sl, k) && j0 < Extent(sl[0], k)
    requires Extents(sl[1..], k) <= t < (Extent(sl[0], k) - j0) * Extents(sl[1..], k)
    ensures t - Extents(sl[1..], k) < (Extent(sl[0], k) - (j0 + 1)) * Extents(sl[1..], k)
    ensures BlockPick(sl, k, j0, t) == BlockPick(sl, k, j0 + 1, t - Extents(sl[1..], k))
  {
    DivNext(t, Extents(sl[1..], k), Extent(sl[0], k) - j0);
  }

  /** The blocks from j0 on are the sliced block j0 followed by the blocks
      from j0 + 1 on. */
  lemma SliceBlocksSplit(row: seq<real>, k: nat, sl: seq<Slice>, j0: nat)
    requires sl != [] && |row| == Pow(k, |sl|) && AllFit(sl, k) && j0 < Extent(sl[0], k)
    ensures Pick(sl[0], k, j0) * Pow(k, |sl| - 1) + Pow(k, |sl| - 1) <= |row|
    ensures var i := Pick(sl[0], k, j0);
            var p := Pow(k, |sl| - 1);
            SliceBlocks(row, k, sl, j0) == SliceRow(row[i * p .. i * p + p], k, sl[1..]) + SliceBlocks(row, k, sl, j0 + 1)
  {
    BlockFits(Pick(sl[0], k, j0), k, Pow(k, |sl| - 1));
  }

  /** Entry t of the first block is the entry of the row at `BlockPick`. */
  lemma SliceBlocksFirst(row: seq<real>, k: nat, sl: seq<Slice>, j0: nat, t: nat)
    requires sl != [] && |row| == Pow(k, |sl|) && AllFit(sl, k)
    requires j0 < Extent(sl[0], k) && t < Extents(sl[1..], k)
    ensures t < |SliceBlocks(row, k, sl, j0)| && t < (Extent(sl[0], k) - j0) * Extents(sl[1..], k)
    ensures SliceBlocks(row, k, sl, j0)[t] == row[BlockPick(sl, k, j0, t)]
    decreases |sl|, 0, 0
  {
    var i := Pick(sl[0], k, j0);
    var p := Pow(k, |sl| - 1);
    SliceBlocksSplit(row, k, sl, j0);
    BlockPickFirst(sl, k, j0, t);
    var sub := row[i * p .. i * p + p];
    SliceRowPick(sub, k, sl[1..], t);
  }

  /** Past the first block, entry t of the blocks from j0 on is entry t - q
      of the blocks from j0 + 1 on. */
  lemma SliceBlocksRest(row: seq<real>, k: nat, sl: seq<Slice>, j0: nat, t: nat)
    requires sl != [] && |row| == Pow(k, |sl|) && AllFit(sl, k) && j0 < Extent(sl[0], k)
    requires Extents(sl[1..], k) <= t < |SliceBlocks(row, k, sl, j0)|
    ensures t - Extents(sl[1..], k) < |SliceBlocks(row, k, sl, j0 + 1)|
    ensures SliceBlocks(row, k, sl, j0)[t] == SliceBlocks(row, k, sl, j0 + 1)[t - Extents(sl[1..], k)]
  {
    SliceBlocksSplit(row, k, sl, j0);
  }

  /** Entry t of the sliced blocks from j0 on is the entry of the row at
      `BlockPick`. */
  lemma {:induction false} SliceBlocksAt(row: seq<real>, k: nat, sl: seq<Slice>, j0: nat, t: nat)
    requires sl != [] && |row| == Pow(k, |sl|) && AllFit(sl, k) && j0 < Extent(sl[0], k)
    requires t < (Extent(sl[0], k) - j0) * Extents(sl[1..], k)
    ensures t < |SliceBlocks(row, k, sl, j0)|
    ensures SliceBlocks(row, k, sl, j0)[t] == row[BlockPick(sl, k, j0, t)]
    decreases |sl|, 0, t + 1
  {
    var q := Extents(sl[1..], k);
    if t < q {
      SliceBlocksFirst(row, k, sl, j0, t);
    } else {
      BlockPickNext(sl, k, j0, t);
      SliceBlocksRest(row, k, sl, j0, t);
      SliceBlocksAt(row, k, sl, j0 + 1, t - q);
    }
  }

  /** With two merged axes, entry j of a sliced row is read as the digit
      pair (j / e1, j % e1), e1 the extent of the second slice, and comes
      from original position i0 * k + i1 of the two picked indices. */
  lemma PickRowTwo(s0: Slice, s1: Slice, k: nat, j: nat)
    requires Fits(s0, k) && Fits(s1, k) && j < Extent(s0, k) * Extent(s1, k)
    ensures AllFit([s0, s1], k) && Extents([s0, s1], k) == Extent(s0, k) * Extent(s1, k)
    ensures j / Extent(s1, k) < Extent(s0, k)
    ensures PickRow([s0, s1], k, j) == Pick(s0, k, j / Extent(s1, k)) * k + Pick(s1, k, j % Extent(s1, k))
  {
    var sl := [s0, s1];
    assert sl[1..] == [s1] && sl[1..][1..] == [];
    var e1 := Extent(s1, k);
    DivBelow(j, e1, Extent(s0, k));
    var t := j % e1;
    DivUnique(t, 1, t, 0);
    assert Pow(k, 1) == k * Pow(k, 0);
    assert PickRow([s1], k, t) == Pick(s1, k, t);
  }

  /** With one merged axis, slicing a row picks the selected entries. */
  lemma SliceRowSingle(row: seq<real>, k: nat, s: Slice)
    requires |row| == k && Fits(s, k)
    ensures |row| == Pow(k, |[s]|) && AllFit([s], k)
    ensures |SliceRow(row, k, [s])| == Extent(s, k)
    ensures forall j :: 0 <= j < Extent(s, k) ==> SliceRow(row, k, [s])[j] == row[Pick(s, k, j)]
  {
    assert Pow(k, 1) == k * Pow(k, 0);
    var sl := [s];
    assert sl[1..] == [];
    forall j | 0 <= j < Extent(s, k)
      ensures SliceRow(row, k, sl)[j] == row[Pick(s, k, j)]
    {
      SliceRowPick(row, k, sl, j);
      assert PickRow(sl, k, j) == Pick(s, k, j);
    }
  }

  // ---------------------------------------------------------- dense arrays

  function Product(shape: seq<nat>): nat
  {
    if shape == [] then 1 else shape[0] * Product(shape[1..])
  }

  /** The shape (n, n, ..., n) with d axes. */
  function Repeat(n: nat, d: nat): (shape: seq<nat>)
    ensures |shape| == d && Product(shape) == Pow(n, d)
  {
    if d == 0 then [] else
      var rest := Repeat(n, d - 1);
      assert ([n] + rest)[1..] == rest;
      [n] + rest
  }

  /** A contiguous dense tensor in row-major order. */
  datatype Dense = Dense(shape: seq<nat>, data: seq<real>)

  predicate WellFormed(t: Dense)
  {
    |t.data| == Product(t.shape)
  }

  /** Row-major position of (i0, i1) in an n x n array. */
  function Flat2(n: nat, i0: nat, i1: nat): nat { i0 * n + i1 }

  /** Row-major position of (i0, i1, i2) in an n x n x n array. */
  function Flat3(n: nat, i0: nat, i1: nat, i2: nat): nat { (i0 * n + i1) * n + i2 }

  lemma MulStrict(a: nat, b: nat, n: nat)
    requires a < b && 0 < n
    ensures a * n + n <= b * n
  {
    MulMonotone(a + 1, b, n);
  }

  /** Row-major positions of an n x n array are in range and distinct. */
  lemma Flat2Facts(n: nat, i0: nat, i1: nat, j0: nat, j1: nat)
    requires i0 < n && i1 < n && j0 < n && j1 < n
    ensures Flat2(n, i0, i1) < n * n
    ensures Flat2(n, i0, i1) == Flat2(n, j0, j1) ==> i0 == j0 && i1 == j1
  {
    MulStrict(i0, n, n);
    if i0 < j0 { MulStrict(i0, j0, n); }
    if j0 < i0 { MulStrict(j0, i0, n); }
  }

  /** Row-major positions of an n x n x n array are in range and distinct. */
  lemma Flat3Facts(n: nat, i0: nat, i1: nat, i2: nat, j0: nat, j1: nat, j2: nat)
    requires i0 < n && i1 < n && i2 < n && j0 < n && j1 < n && j2 < n
    ensures Flat3(n, i0, i1, i2) < n * n * n
    ensures Flat3(n, i0, i1, i2) == Flat3(n, j0, j1, j2) ==> i0 == j0 && i1 == j1 && i2 == j2
  {
    Flat2Facts(n, i0, i1, j0, j1);
    var a, b := Flat2(n, i0, i1), Flat2(n, j0, j1);
    MulStrict(a, n * n, n);
    if a < b { MulStrict(a, b, n); }
    if b < a { MulStrict(b, a, n); }
  }

  /** Stepping past the last column of a row-major n x n array lands on the
      first column of the next row. */
  lemma Flat2Carry(n: nat, i0: nat)
    ensures Flat2(n, i0, n) == Flat2(n, i0 + 1, 0)
    ensures Flat2(n, n, 0) == n * n
  {
    assert (i0 + 1) * n == i0 * n + n;
  }

  /** The same carries for a row-major n x n x n array. */
  lemma Flat3Carry(n: nat, i0: nat, i1: nat)
    ensures Flat3(n, i0, i1, n) == Flat3(n, i0, i1 + 1, 0)
    ensures Flat3(n, i0, n, 0) == Flat3(n, i0 + 1, 0, 0)
    ensures Flat3(n, n, 0, 0) == n * n * n
  {
    assert (i0 * n + i1 + 1) * n == (i0 * n + i1) * n + n;
    assert i0 * n + n == (i0 + 1) * n;
  }

  lemma DivBelow(p: nat, n: nat, m: nat)
    requires p < m * n
    ensures 0 < n && p / n < m && (p / n) * n + p % n == p
  {
    if p / n >= m { MulMonotone(m, p / n, n); }
  }

  /** The (row, column) of position p of a row-major n x n array. */
  function Unflat2(n: nat, p: nat): (idx: seq<nat>)
    requires p < n * n
    ensures |idx| == 2 && idx[0] < n && idx[1] < n && Flat2(n, idx[0], idx[1]) == p
  {
    DivBelow(p, n, n);
    [p / n, p % n]
  }

  /** The index triple of position p of a row-major n x n x n array. */
  function Unflat3(n: nat, p: nat): (idx: seq<nat>)
    requires p < n * n * n
    ensures |idx| == 3 && idx[0] < n && idx[1] < n && idx[2] < n
    ensures Flat3(n, idx[0], idx[1], idx[2]) == p
  {
    assert n * n * n == (n * n) * n;
    DivBelow(p, n, n * n);
    var hi := Unflat2(n, p / n);
    [hi[0], hi[1], p % n]
  }

  // -------------------------------------------------------------- matrices

  type Matrix = seq<seq<real>>

  predicate IsMatrix(m: Matrix, rows: nat, cols: nat)
  {
    |m| == rows && forall i :: 0 <= i < rows ==> |m[i]| == cols
  }

  function Fill(rows: nat, cols: nat, v: real): (m: Matrix)
    ensures IsMatrix(m, rows, cols)
    ensures forall i, j :: 0 <= i < rows && 0 <= j < cols ==> m[i][j] == v
  {
    seq(rows, i => seq(cols, j => v))
  }

  /** Column j of a matrix whose rows all have an entry j. */
  function Column(m: Matrix, j: nat): (c: seq<real>)
    requires forall i :: 0 <= i < |m| ==> j < |m[i]|
    ensures |c| == |m| && forall i :: 0 <= i < |m| ==> c[i] == m[i][j]
  {
    seq(|m|, i requires 0 <= i < |m| => m[i][j])
  }

  /** The first q columns of m, as the rows of a q x |m| matrix. */
  function LeadingColumns(m: Matrix, q: nat): (t: Matrix)
    requires forall i :: 0 <= i < |m| ==> q <= |m[i]|
    ensures IsMatrix(t, q, |m|)
    ensures forall r, j :: 0 <= r < q && 0 <= j < |m| ==> t[r][j] == m[j][r]
  {
    seq(q, r requires 0 <= r < q => Column(m, r))
  }

  /** The matrix product `inner(a, b)` of a p x n and an n x q matrix. */
  function MatMul(a: Matrix, b: Matrix, p: nat, n: nat, q: nat): (c: Matrix)
    requires IsMatrix(a, p, n) && IsMatrix(b, n, q)
    ensures IsMatrix(c, p, q)
    ensures forall i, j :: 0 <= i < p && 0 <= j < q ==> c[i][j] == Dot(a[i], Column(b, j))
  {
    seq(p, i requires 0 <= i < p => seq(q, j requires 0 <= j < q => Dot(a[i], Column(b, j))))
  }

  /** Entry-wise sum of two p x q matrices. */
  function MatAdd(a: Matrix, b: Matrix, p: nat, q: nat): (c: Matrix)
    requires IsMatrix(a, p, q) && IsMatrix(b, p, q)
    ensures IsMatrix(c, p, q)
    ensures forall i, j :: 0 <= i < p && 0 <= j < q ==> c[i][j] == a[i][j] + b[i][j]
  {
    seq(p, i requires 0 <= i < p => seq(q, j requires 0 <= j < q => a[i][j] + b[i][j]))
  }

  /** Entry-wise product `emul` of two p x q matrices. */
  function Hadamard(a: Matrix, b: Matrix, p: nat, q: nat): (c: Matrix)
    requires IsMatrix(a, p, q) && IsMatrix(b, p, q)
    ensures IsMatrix(c, p, q)
    ensures forall i, j :: 0 <= i < p && 0 <= j < q ==> c[i][j] == a[i][j] * b[i][j]
  {
    seq(p, i requires 0 <= i < p => seq(q, j requires 0 <= j < q => a[i][j] * b[i][j]))
  }

  /** A square matrix with `alpha` added on its diagonal. */
  function AddDiagonal(a: Matrix, n: nat, alpha: real): (c: Matrix)
    requires IsMatrix(a, n, n)
    ensures IsMatrix(c, n, n)
    ensures forall i, j :: 0 <= i < n && 0 <= j < n ==> c[i][j] == if i == j then a[i][j] + alpha else a[i][j]
  {
    seq(n, i requires 0 <= i < n => seq(n, j requires 0 <= j < n => if i == j then a[i][j] + alpha else a[i][j]))
  }

  /** The Gram matrix of the rows of f against the rows of g: entry (i, j) is
      the inner product of row i of f and row j of g. */
  function Gram(f: Matrix, g: Matrix, n: nat): (c: Matrix)
    requires IsMatrix(f, |f|, n) && IsMatrix(g, |g|, n)
    ensures IsMatrix(c, |f|, |g|)
    ensures forall i, j :: 0 <= i < |f| && 0 <= j < |g| ==> c[i][j] == Dot(f[i], g[j])
  {
    seq(|f|, i requires 0 <= i < |f| => seq(|g|, j requires 0 <= j < |g| => Dot(f[i], g[j])))
  }

  /** A result of a linear solve holds no NaN. */
  predicate NoNaN(x: seq<seq<Value>>)
  {
    forall i, j :: 0 <= i < |x| && 0 <= j < |x[i]| ==> x[i][j].Num?
  }

  /** The real entries of a NaN-free solve result. */
  function Reals(x: seq<seq<Value>>): (m: Matrix)
    requires NoNaN(x)
    ensures |m| == |x| && forall i :: 0 <= i < |x| ==> |m[i]| == |x[i]|
    ensures forall i, j :: 0 <= i < |x| && 0 <= j < |x[i]| ==> m[i][j] == x[i][j].r
  {
    seq(|x|, i requires 0 <= i < |x| => seq(|x[i]|, j requires 0 <= j < |x[i]| => x[i][j].r))
  }

  // ------------------------------------------------------ library routines

  /** A singular value decomposition U * diag(s) * VT. */
  datatype Svd = Svd(u: Matrix, s: seq<real>, vt: Matrix)

  function Min(a: nat, b: nat): nat { if a < b then a else b }

  /** Entry (i, j) of the first q terms of an SVD, summed in term order. */
  function SvdPartial(d: Svd, i: nat, j: nat, q: nat): real
    requires q <= |d.s| && q <= |d.vt| && i < |d.u|
    requires forall p :: 0 <= p < |d.u| ==> q <= |d.u[p]|
    requires forall p :: 0 <= p < |d.vt| ==> j < |d.vt[p]|
  {
    if q == 0 then 0.0
    else SvdPartial(d, i, j, q - 1) + (d.s[q - 1] * d.u[i][q - 1]) * d.vt[q - 1][j]
  }

  /** The shapes of an SVD of an m x n matrix: U is m x p, s has p entries
      and VT is p x n, for p = min(m, n). */
  predicate SvdShape(d: Svd, m: nat, n: nat)
  {
    var p := Min(m, n);
    IsMatrix(d.u, m, p) && |d.s| == p && IsMatrix(d.vt, p, n)
  }

  /** `d` is a singular value decomposition of the m x n matrix `a`, stored
      row-major: its shapes fit, the singular values are non-negative and in
      descending order, and the full sum of its terms gives back `a`. */
  ghost predicate IsSvdOf(a: Dense, d: Svd)
  {
    |a.shape| == 2 && WellFormed(a) &&
    var m, n := a.shape[0], a.shape[1];
    SvdShape(d, m, n) &&
    var p := Min(m, n);
    (forall q :: 0 <= q < p ==> 0.0 <= d.s[q]) &&
    (forall q, q' :: 0 <= q < q' < p ==> d.s[q'] <= d.s[q]) &&
    (forall i, j :: 0 <= i < m && 0 <= j < n ==>
       Flat2(n, i, j) < |a.data| && a.data[Flat2(n, i, j)] == SvdPartial(d, i, j, p))
  }

  predicate ValueShape(x: seq<seq<Value>>, rows: nat, cols: nat)
  {
    |x| == rows && forall i :: 0 <= i < rows ==> |x[i]| == cols
  }

  /** `x` is what `gesv(b, v, x)` gives back for an n x n matrix b and an
      n x q right-hand side v: an n x q result which, unless NaN crept in,
      solves b * x == v. */
  ghost predicate Solves(b: Matrix, v: Matrix, x: seq<seq<Value>>, n: nat, q: nat)
  {
    ValueShape(x, n, q) &&
    (NoNaN(x) && IsMatrix(b, n, n) && IsMatrix(v, n, q) ==> MatMul(b, Reals(x), n, n, q) == v)
  }

  /** The library routines the core calls: `sqrt`, the SVD, the linear solver
      `gesv` (None when it throws), and the random numbers behind
      `fillWithRandom` (draw i of a vector of length n). */
  datatype Lib = Lib(
    sqrt: real -> real,
    svd: Dense -> Svd,
    gesv: (Matrix, Matrix) -> Option<seq<seq<Value>>>,
    random: (nat, nat) -> seq<real>)

  /** What the model relies on from the library. */
  ghost predicate LibSpec(lib: Lib)
  {
    IsSqrt(lib.sqrt) &&
    (forall a: Dense {:trigger lib.svd(a)} :: |a.shape| == 2 && WellFormed(a) ==> IsSvdOf(a, lib.svd(a))) &&
    (forall b: Matrix, v: Matrix {:trigger lib.gesv(b, v)} :: lib.gesv(b, v).Some? && 0 < |v| ==>
       Solves(b, v, lib.gesv(b, v).value, |v|, |v[0]|)) &&
    (forall i: nat, n: nat {:trigger lib.random(i, n)} :: |lib.random(i, n)| == n)
  }
}
