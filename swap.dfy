/** `swap(rho, sys, dim, row_only)` of toqito.perms: resolves the defaults of
    `sys` and `dim`, validates them, builds the subsystem permutation and hands
    everything to `permute_systems`. The operand itself only matters through its
    shape; `permute_systems` is a parameter of the model. Everything here models
    the code as written, including where it departs from its docstring. */
module Swap {
  import opened Results
  import opened Rounding
  import opened Perms

  /** The shape of `rho`: a 1-D array of `n` entries or a `rows x cols` matrix. */
  datatype Shape = Vector(n: nat) | Matrix(rows: nat, cols: nat)

  /** `dim` once it is a numpy array: a flat list of subsystem dimensions, or a
      table whose first row holds the row dimensions and whose second row holds
      the column dimensions. */
  datatype DimArray = Flat(entries: seq<int>) | Table(rowDims: seq<int>, colDims: seq<int>)
  {
    /** numpy's `len`: the extent of the first axis. */
    function Len(): nat
    {
      if Flat? then |entries| else 2
    }
  }

  /** The `dim` argument as a caller passes it. */
  datatype DimArg = Unset | Scalar(d: int) | Array(a: DimArray)

  /** The exceptions `swap` raises: the `ValueError` of the divisibility test
      (InvalidDim), Python's `ZeroDivisionError` for `dim = 0`, and the two
      `ValueError`s about `sys`. */
  datatype SwapError = InvalidDim | DivisionByZero | InvalidSysRange | InvalidSysLength

  /** The arguments `swap` passes to `permute_systems`, with the `num_sys` it derived. */
  datatype PermuteCall = PermuteCall(dim: DimArray, numSys: nat, perm: seq<int>, rowOnly: bool)

  /** `sys` when the caller leaves it out. */
  const DefaultSys: seq<int> := [1, 2]

  /** `1 / np.finfo(float).eps`. */
  const TwoPow52: int := 0x10_0000_0000_0000

  /** `rho_dims`: a 1-D operand is treated as a single row holding all its
      entries, so the view keeps the operand's number of entries. */
  function RowsCols(shape: Shape): (rc: (nat, nat))
    ensures shape.Vector? ==> rc.0 == 1
    ensures rc.0 * rc.1 == if shape.Vector? then shape.n else shape.rows * shape.cols
  {
    match shape
    case Vector(n) => (1, n)
    case Matrix(rows, cols) => (rows, cols)
  }

  /** `np.prod(rho_dims)`. */
  function Size(shape: Shape): nat
  {
    RowsCols(shape).0 * RowsCols(shape).1
  }

  /** The test of an integer `dim = d` over exact reals: with `q0 = rows / d`
      and `q1 = cols / d`, the sum `|q0 - round(q0)| + |q1 - round(q1)|` is below
      `2 * rows * cols * eps`. Both sides are multiplied by `|d| / eps`. */
  function WithinTolerance(rows: nat, cols: nat, d: int): (ok: bool)
    requires d != 0
    ensures rows % d == 0 && cols % d == 0 ==> (ok <==> rows * cols > 0)
    ensures ok && !(rows % d == 0 && cols % d == 0) ==> rows * cols * Abs(d) >= TwoPow52 / 2
  {
    (Deviation(rows, d) + Deviation(cols, d)) * TwoPow52 < 2 * (rows * cols * Abs(d))
  }

  /** Resolves `dim` into the array handed on, together with `num_sys`. */
  function ResolveDim(rows: nat, cols: nat, dim: DimArg): (r: Result<(DimArray, nat), SwapError>)
    ensures r.Ok? ==> r.value.1 == r.value.0.Len()
    ensures r.Err? ==> dim.Scalar?
  {
    match dim
    case Unset =>
      var table := Table([RoundSqrt(rows), RoundSqrt(rows)], [RoundSqrt(cols), RoundSqrt(cols)]);
      Ok((table, table.Len()))
    case Scalar(d) =>
      if d == 0 then Err(DivisionByZero)
      else if !WithinTolerance(rows, cols, d) then Err(InvalidDim)
      else Ok((Table([d, RoundedQuotient(rows, d)], [d, RoundedQuotient(cols, d)]), 2))
    case Array(a) =>
      Ok((a, a.Len()))
  }

  /** Python's `any(sys)`: some entry of `sys` is truthy, that is non-zero. */
  function AnyTruthy(s: seq<int>): (b: bool)
    ensures b <==> exists i :: 0 <= i < |s| && s[i] != 0
  {
    if s == [] then false
    else s[0] != 0 || AnyTruthy(s[1..])
  }

  /** The range test as written: `any(sys) < 1 or any(sys) > num_sys`, which
      compares the boolean `any(sys)` (0 or 1), not the entries, with the bounds. */
  function SysRangeFails(s: seq<int>, numSys: nat): (fails: bool)
    ensures fails <==> (forall i :: 0 <= i < |s| ==> s[i] == 0) || numSys == 0
  {
    var anyAsInt := if AnyTruthy(s) then 1 else 0;
    anyAsInt < 1 || anyAsInt > numSys
  }

  /** What the two `sys` checks together admit, in closed form. */
  predicate SysAccepted(s: seq<int>, numSys: nat)
  {
    |s| == 2 && numSys >= 1 && (s[0] != 0 || s[1] != 0)
  }

  /** Everything `swap` does before calling `permute_systems`. */
  function ResolveSwap(shape: Shape, sys: Option<seq<int>>, dim: DimArg, rowOnly: bool): (r: Result<PermuteCall, SwapError>)
    ensures r.Ok? ==> r.value.rowOnly == rowOnly
    ensures r.Ok? ==> r.value.numSys == r.value.dim.Len()
    ensures r.Ok? ==> IsPermutation(r.value.perm, r.value.numSys) && IsInvolution(r.value.perm, r.value.numSys)
  {
    var (rows, cols) := RowsCols(shape);
    var s := if sys.Some? then sys.value else DefaultSys;
    match ResolveDim(rows, cols, dim)
    case Err(e) => Err(e)
    case Ok((table, numSys)) =>
      if SysRangeFails(s, numSys) then Err(InvalidSysRange)
      else if |s| != 2 then Err(InvalidSysLength)
      else
        DescendingIsPermutation(numSys);
        Ok(PermuteCall(table, numSys, Reverse(Range(1, numSys + 1)), rowOnly))
  }

  /** `swap` itself: `permute_systems` is reached only once every check has
      passed, and then receives exactly the resolved arguments; otherwise the
      exception is raised and nothing else is produced. */
  function Swap<T>(rho: T, shape: Shape, sys: Option<seq<int>>, dim: DimArg, rowOnly: bool,
                   permuteSystems: (T, seq<int>, DimArray, bool) -> T): (r: Result<T, SwapError>)
    ensures var c := ResolveSwap(shape, sys, dim, rowOnly);
      && (r.Ok? <==> c.Ok?)
      && (r.Err? ==> r.error == c.error)
      && (r.Ok? ==> r.value == permuteSystems(rho, c.value.perm, c.value.dim, rowOnly))
  {
    match ResolveSwap(shape, sys, dim, rowOnly)
    case Err(e) => Err(e)
    case Ok(call) => Ok(permuteSystems(rho, call.perm, call.dim, call.rowOnly))
  }

  // ---------------------------------------------------------------------------
  // Properties of the resolution

  /** Leaving `sys` out is the same as passing `[1, 2]`. */
  lemma OmittedSysIsOneTwo(shape: Shape, dim: DimArg, rowOnly: bool)
    ensures ResolveSwap(shape, None, dim, rowOnly) == ResolveSwap(shape, Some([1, 2]), dim, rowOnly)
  {
  }

  /** The two `sys` checks reject exactly the selectors outside `SysAccepted`:
      the range check fires only when `sys` is empty or all zeros, or when there
      are no subsystems at all, and the length check fires on the rest. */
  lemma SysChecksAsWritten(s: seq<int>, numSys: nat)
    ensures SysRangeFails(s, numSys) <==> (forall i :: 0 <= i < |s| ==> s[i] == 0) || numSys == 0
    ensures !SysRangeFails(s, numSys) && |s| == 2 <==> SysAccepted(s, numSys)
  {
  }

  /** `swap` succeeds exactly when `dim` resolves and `sys` passes both checks;
      a `dim` error wins over a `sys` error, and a range error over a length error. */
  lemma AcceptedExactly(shape: Shape, sys: Option<seq<int>>, dim: DimArg, rowOnly: bool)
    ensures var r := ResolveSwap(shape, sys, dim, rowOnly);
      var s := if sys.Some? then sys.value else [1, 2];
      var d := ResolveDim(RowsCols(shape).0, RowsCols(shape).1, dim);
      && (r.Ok? <==> d.Ok? && SysAccepted(s, d.value.1))
      && (d.Err? ==> r == Err(d.error))
      && (d.Ok? && SysRangeFails(s, d.value.1) ==> r == Err(InvalidSysRange))
      && (d.Ok? && !SysRangeFails(s, d.value.1) && |s| != 2 ==> r == Err(InvalidSysLength))
  {
  }

  /** Without `dim`, the table is `[[r0, r0], [r1, r1]]` with `r0` and `r1` the
      rounded square roots of the row and column counts; it never raises on
      account of `dim`, and for a 1-D operand the row dimensions are `[1, 1]`. */
  lemma OmittedDimIsRoundedSquareRoots(shape: Shape, sys: Option<seq<int>>, rowOnly: bool)
    ensures var r := ResolveSwap(shape, sys, Unset, rowOnly);
      var s := if sys.Some? then sys.value else [1, 2];
      var (rows, cols) := RowsCols(shape);
      && (r.Ok? <==> SysAccepted(s, 2))
      && (r.Ok? ==>
            && r.value.numSys == 2
            && r.value.dim.Table?
            && |r.value.dim.rowDims| == 2 && r.value.dim.rowDims[0] == r.value.dim.rowDims[1]
            && |r.value.dim.colDims| == 2 && r.value.dim.colDims[0] == r.value.dim.colDims[1]
            && IsRoundedSqrt(rows, r.value.dim.rowDims[0])
            && IsRoundedSqrt(cols, r.value.dim.colDims[0]))
      && (r.Ok? && shape.Vector? ==> r.value.dim.rowDims == [1, 1])
  {
    if shape.Vector? {
      assert RoundSqrt(1) == 1 by { RoundSqrtOfSquare(1); }
    }
  }

  /** For an operand whose row and column counts are perfect squares `k * k`
      and `m * m`, the default table is `[[k, k], [m, m]]`. */
  lemma OmittedDimOfSquareSizes(k: nat, m: nat, sys: Option<seq<int>>, rowOnly: bool)
    ensures var r := ResolveSwap(Matrix(k * k, m * m), sys, Unset, rowOnly);
      r.Ok? ==> r.value.dim == Table([k, k], [m, m])
  {
    RoundSqrtOfSquare(k);
    RoundSqrtOfSquare(m);
  }

  /** With an integer `dim = d`: `d == 0` raises `ZeroDivisionError`; otherwise
      the tolerance test decides, and an accepted `d` gives the table
      `[[d, round(rows / d)], [d, round(cols / d)]]` with `num_sys = 2`. */
  lemma ScalarDimResolution(shape: Shape, sys: Option<seq<int>>, d: int, rowOnly: bool)
    ensures var r := ResolveSwap(shape, sys, Scalar(d), rowOnly);
      var s := if sys.Some? then sys.value else [1, 2];
      var (rows, cols) := RowsCols(shape);
      && (d == 0 ==> r == Err(DivisionByZero))
      && (d != 0 && !WithinTolerance(rows, cols, d) ==> r == Err(InvalidDim))
      && (d != 0 && WithinTolerance(rows, cols, d) ==> (r.Ok? <==> SysAccepted(s, 2)))
      && (r.Ok? ==>
            && r.value.numSys == 2
            && r.value.dim.Table?
            && |r.value.dim.rowDims| == 2 && |r.value.dim.colDims| == 2
            && r.value.dim.rowDims[0] == d && r.value.dim.colDims[0] == d
            && IsRoundedQuotient(rows, d, r.value.dim.rowDims[1])
            && IsRoundedQuotient(cols, d, r.value.dim.colDims[1]))
  {
  }

  /** Below `2^51` for `size * |d|`, the tolerance test is exact divisibility:
      it passes exactly when `d` divides both counts and the operand is not
      empty (an empty operand makes the tolerance zero). */
  lemma ToleranceIsDivisibility(rows: nat, cols: nat, d: int)
    requires d != 0
    requires rows * cols * Abs(d) < TwoPow52 / 2
    ensures WithinTolerance(rows, cols, d) <==> rows * cols > 0 && rows % d == 0 && cols % d == 0
  {
    var dev := Deviation(rows, d) + Deviation(cols, d);
    if rows % d == 0 && cols % d == 0 {
      assert dev == 0;
      if rows * cols > 0 {
        assert rows * cols * Abs(d) >= rows * cols;
      }
    } else {
      assert dev >= 1;
      assert dev * TwoPow52 >= TwoPow52;
    }
  }

  /** For realistic sizes an integer `dim = d` is rejected with `ValueError`
      exactly when it fails to divide the row or the column count (or the
      operand is empty), and an accepted one splits both counts exactly. */
  lemma ScalarDimMustDivide(shape: Shape, sys: Option<seq<int>>, d: int, rowOnly: bool)
    requires d != 0
    requires Size(shape) * Abs(d) < TwoPow52 / 2
    ensures var r := ResolveSwap(shape, sys, Scalar(d), rowOnly);
      var (rows, cols) := RowsCols(shape);
      && (r == Err(InvalidDim) <==> !(rows * cols > 0 && rows % d == 0 && cols % d == 0))
      && (r.Ok? ==> r.value.dim == Table([d, rows / d], [d, cols / d])
                    && d * (rows / d) == rows && d * (cols / d) == cols)
  {
    var (rows, cols) := RowsCols(shape);
    ToleranceIsDivisibility(rows, cols, d);
  }

  /** A 3 x 3 operand with `dim = 2` is rejected. */
  lemma ThreeByThreeWithDimTwoRejected(sys: Option<seq<int>>, rowOnly: bool)
    ensures ResolveSwap(Matrix(3, 3), sys, Scalar(2), rowOnly) == Err(InvalidDim)
  {
    ScalarDimMustDivide(Matrix(3, 3), sys, 2, rowOnly);
  }

  /** A 1-D operand has a single row, so any integer `dim` other than `1` and
      `-1` (and `0`, which raises `ZeroDivisionError`) is rejected, for
      realistic sizes. */
  lemma VectorWithScalarDimRejected(n: nat, sys: Option<seq<int>>, d: int, rowOnly: bool)
    requires Abs(d) >= 2
    requires n * Abs(d) < TwoPow52 / 2
    ensures ResolveSwap(Vector(n), sys, Scalar(d), rowOnly) == Err(InvalidDim)
  {
    assert 1 % d != 0 by {
      assert 1 == d * 0 + 1;
    }
    ScalarDimMustDivide(Vector(n), sys, d, rowOnly);
  }

  /** With an explicit `dim` array, it is handed on unchanged and `num_sys` is
      its `len`: the number of entries of a flat list, but always 2 for a
      row/column table, however many subsystems its rows list. */
  lemma ArrayDimNumSys(shape: Shape, sys: Option<seq<int>>, a: DimArray, rowOnly: bool)
    ensures var r := ResolveSwap(shape, sys, Array(a), rowOnly);
      var s := if sys.Some? then sys.value else [1, 2];
      && (r.Ok? <==> SysAccepted(s, a.Len()))
      && (r.Ok? ==> r.value.dim == a)
      && (r.Ok? && a.Flat? ==> r.value.numSys == |a.entries|)
      && (r.Ok? && a.Table? ==> r.value.numSys == 2)
  {
  }

  /** An empty flat `dim` leaves no subsystems, and the range check then
      rejects every `sys`. */
  lemma EmptyFlatDimRejected(shape: Shape, sys: Option<seq<int>>, rowOnly: bool)
    ensures ResolveSwap(shape, sys, Array(Flat([])), rowOnly) == Err(InvalidSysRange)
  {
  }

  /** A one-entry `sys` passes the range check when it is non-zero and is then
      refused by the length check. */
  lemma SingleEntrySysRejected(shape: Shape, x: int, dim: DimArg, rowOnly: bool)
    ensures var r := ResolveSwap(shape, Some([x]), dim, rowOnly);
      var d := ResolveDim(RowsCols(shape).0, RowsCols(shape).1, dim);
      && r.Err?
      && (d.Ok? && d.value.1 >= 1 && x != 0 ==> r == Err(InvalidSysLength))
  {
  }

  /** The range check ignores the upper bound: once there is a subsystem, any
      pair with a non-zero entry passes, such as `[5, 1]` with two subsystems. */
  lemma RangeCheckIgnoresEntries(s: seq<int>, numSys: nat)
    requires numSys >= 1 && |s| == 2 && s[0] != 0
    ensures !SysRangeFails(s, numSys)
  {
  }

  /** The permutation handed on is `[num_sys, ..., 2, 1]`, whatever `sys` says. */
  lemma PermIsDescending(shape: Shape, sys: Option<seq<int>>, dim: DimArg, rowOnly: bool)
    ensures var r := ResolveSwap(shape, sys, dim, rowOnly);
      r.Ok? ==>
        && |r.value.perm| == r.value.numSys
        && (forall i :: 0 <= i < r.value.numSys ==> r.value.perm[i] == r.value.numSys - i)
        && IsOnto(r.value.perm, r.value.numSys)
        && (r.value.numSys == 2 ==> r.value.perm == [2, 1])
  {
    var r := ResolveSwap(shape, sys, dim, rowOnly);
    if r.Ok? {
      DescendingIsPermutation(r.value.numSys);
      DescendingOfTwo();
    }
  }

  /** Two accepted calls with the same operand and `dim` hand on the same
      table, `num_sys` and permutation, whatever their `sys`. */
  lemma PermIgnoresSys(shape: Shape, sys1: Option<seq<int>>, sys2: Option<seq<int>>, dim: DimArg,
                       rowOnly1: bool, rowOnly2: bool)
    ensures var r1 := ResolveSwap(shape, sys1, dim, rowOnly1);
      var r2 := ResolveSwap(shape, sys2, dim, rowOnly2);
      r1.Ok? && r2.Ok? ==>
        && r1.value.dim == r2.value.dim
        && r1.value.numSys == r2.value.numSys
        && r1.value.perm == r2.value.perm
  {
  }
}
