/** The resolution `swap`'s docstring describes, beside the code as written.
    It corrects four things: every entry of `sys` is checked against
    `1..num_sys`; the permutation exchanges exactly the two selected
    subsystems; an integer `dim` must divide the row and column counts
    exactly; and a row/column table lists as many subsystems as its rows have
    entries. It keeps the rounded default `dim`. The lemmas at the end exhibit,
    on concrete inputs, where the code as written departs from it. */
module SwapIntended {
  import opened Results
  import opened Rounding
  import opened Perms
  import opened Swap

  /** Every entry of `sys` names one of the subsystems `1..numSys`. */
  predicate SysInRange(s: seq<int>, numSys: nat)
  {
    forall i :: 0 <= i < |s| ==> 1 <= s[i] <= numSys
  }

  /** The number of subsystems a `dim` array describes: one per entry of a
      flat list, one per entry of each row of a row/column table. */
  function SubsystemCount(a: DimArray): nat
  {
    if a.Flat? then |a.entries| else |a.rowDims|
  }

  /** `dim` resolution with exact divisibility in place of the epsilon test,
      and with a row/column table counted by its rows' entries. */
  function ResolveDimExact(rows: nat, cols: nat, dim: DimArg): (r: Result<(DimArray, nat), SwapError>)
    ensures r.Ok? ==> r.value.1 == SubsystemCount(r.value.0)
    ensures dim.Unset? ==> r.Ok? && r.value.0 == Table([RoundSqrt(rows), RoundSqrt(rows)], [RoundSqrt(cols), RoundSqrt(cols)])
    ensures dim.Array? ==>
      (r.Ok? <==> dim.a.Flat? || |dim.a.rowDims| == |dim.a.colDims|)
      && (r.Ok? ==> r.value.0 == dim.a)
      && (r.Err? ==> r.error == InvalidDim)
    ensures dim.Scalar? && dim.d != 0 ==>
      (r.Ok? <==> rows % dim.d == 0 && cols % dim.d == 0)
    ensures dim.Scalar? && dim.d == 0 ==> r == Err(DivisionByZero)
    ensures dim.Scalar? && dim.d != 0 && r.Ok? ==>
      r.value.0 == Table([dim.d, rows / dim.d], [dim.d, cols / dim.d])
      && dim.d * (rows / dim.d) == rows && dim.d * (cols / dim.d) == cols
  {
    match dim
    case Unset =>
      var table := Table([RoundSqrt(rows), RoundSqrt(rows)], [RoundSqrt(cols), RoundSqrt(cols)]);
      Ok((table, SubsystemCount(table)))
    case Scalar(d) =>
      if d == 0 then Err(DivisionByZero)
      else if rows % d != 0 || cols % d != 0 then Err(InvalidDim)
      else Ok((Table([d, rows / d], [d, cols / d]), 2))
    case Array(a) =>
      if a.Table? && |a.rowDims| != |a.colDims| then Err(InvalidDim)
      else Ok((a, SubsystemCount(a)))
  }

  /** The intended resolution: on success `sys` holds two subsystems in range
      and the permutation handed on exchanges exactly those two. */
  function ResolveSwapIntended(shape: Shape, sys: Option<seq<int>>, dim: DimArg, rowOnly: bool): (r: Result<PermuteCall, SwapError>)
    ensures var s := if sys.Some? then sys.value else [1, 2];
      var d := ResolveDimExact(RowsCols(shape).0, RowsCols(shape).1, dim);
      && (r.Ok? <==> d.Ok? && |s| == 2 && SysInRange(s, d.value.1))
      && (r.Ok? ==>
            && r.value.rowOnly == rowOnly
            && r.value.dim == d.value.0
            && r.value.numSys == d.value.1
            && IsPermutation(r.value.perm, r.value.numSys)
            && IsInvolution(r.value.perm, r.value.numSys)
            && r.value.perm[s[0] - 1] == s[1] && r.value.perm[s[1] - 1] == s[0]
            && (forall i :: 0 <= i < r.value.numSys && i + 1 != s[0] && i + 1 != s[1] ==>
                  r.value.perm[i] == i + 1))
  {
    var (rows, cols) := RowsCols(shape);
    var s := if sys.Some? then sys.value else DefaultSys;
    match ResolveDimExact(rows, cols, dim)
    case Err(e) => Err(e)
    case Ok((table, numSys)) =>
      if !SysInRange(s, numSys) then Err(InvalidSysRange)
      else if |s| != 2 then Err(InvalidSysLength)
      else
        TranspositionIsPermutation(numSys, s[0], s[1]);
        Ok(PermuteCall(table, numSys, Transposition(numSys, s[0], s[1]), rowOnly))
  }

  /** Where both apply, the code as written agrees with the intended
      resolution for two subsystems: with `num_sys = 2` and two different
      subsystems selected, reversing the order is exchanging them. */
  lemma AsWrittenAgreesForTwoSubsystems(shape: Shape, sys: Option<seq<int>>, dim: DimArg, rowOnly: bool)
    requires dim.Scalar? && dim.d != 0 ==> 0 < Size(shape) && Size(shape) * Abs(dim.d) < TwoPow52 / 2
    ensures var r := ResolveSwapIntended(shape, sys, dim, rowOnly);
      var s := if sys.Some? then sys.value else [1, 2];
      r.Ok? && r.value.numSys == 2 && s[0] != s[1] ==> ResolveSwap(shape, sys, dim, rowOnly) == r
  {
    var r := ResolveSwapIntended(shape, sys, dim, rowOnly);
    var s := if sys.Some? then sys.value else [1, 2];
    if r.Ok? && r.value.numSys == 2 && s[0] != s[1] {
      if dim.Scalar? {
        ScalarDimMustDivide(shape, sys, dim.d, rowOnly);
      }
      DescendingOfTwo();
      assert r.value.perm == [2, 1];
    }
  }

  // ---------------------------------------------------------------------------
  // Inputs on which the code as written departs from the intended behaviour

  /** The range check lets `sys = [5, 1]` through on a two-subsystem operand,
      and the call goes ahead; the intended check refuses it. */
  lemma OutOfRangeSysAccepted()
    ensures ResolveSwap(Matrix(4, 4), Some([5, 1]), Unset, false).Ok?
    ensures ResolveSwapIntended(Matrix(4, 4), Some([5, 1]), Unset, false) == Err(InvalidSysRange)
  {
    RoundSqrtOfSquare(2);
  }

  /** With three subsystems of dimension 2 and `sys = [1, 2]`, the code hands
      on the full reversal `[3, 2, 1]`, which also moves subsystem 3, instead
      of the exchange `[2, 1, 3]` of subsystems 1 and 2. */
  lemma ReversalIgnoresSys()
    ensures ResolveSwap(Vector(8), Some([1, 2]), Array(Flat([2, 2, 2])), false)
            == Ok(PermuteCall(Flat([2, 2, 2]), 3, [3, 2, 1], false))
    ensures ResolveSwapIntended(Vector(8), Some([1, 2]), Array(Flat([2, 2, 2])), false)
            == Ok(PermuteCall(Flat([2, 2, 2]), 3, [2, 1, 3], false))
  {
    DescendingIsPermutation(3);
    assert Reverse(Range(1, 4)) == [3, 2, 1];
    assert Transposition(3, 1, 2) == [2, 1, 3];
  }

  /** The tolerance grows with the operand's size, not with `1 / dim`: a
      vector of `2^26` entries with `dim = 2^26` passes although `2^26` does
      not divide its single row (`1 / 2^26` is within `2 * 2^26 * eps` of 0),
      and the row dimensions handed on are `[2^26, 0]`. */
  lemma ToleranceAdmitsNonDivisor()
    ensures ResolveSwap(Vector(0x400_0000), None, Scalar(0x400_0000), false)
            == Ok(PermuteCall(Table([0x400_0000, 0], [0x400_0000, 1]), 2, [2, 1], false))
    ensures ResolveSwapIntended(Vector(0x400_0000), None, Scalar(0x400_0000), false) == Err(InvalidDim)
  {
    var d := 0x400_0000;
    assert Deviation(1, d) == 1 by {
      RoundedQuotientIsUnique(1, d, RoundedQuotient(1, d), 0);
    }
    assert RoundedQuotient(d, d) == 1;
    assert WithinTolerance(1, d, d);
    DescendingOfTwo();
  }

  /** Selecting the same subsystem twice, `sys = [1, 1]`, should leave the
      operand as it is; with two subsystems the code still hands on the
      exchange `[2, 1]`. */
  lemma RepeatedSysStillSwaps()
    ensures ResolveSwap(Matrix(4, 4), Some([1, 1]), Unset, false)
            == Ok(PermuteCall(Table([2, 2], [2, 2]), 2, [2, 1], false))
    ensures ResolveSwapIntended(Matrix(4, 4), Some([1, 1]), Unset, false)
            == Ok(PermuteCall(Table([2, 2], [2, 2]), 2, [1, 2], false))
  {
    RoundSqrtOfSquare(2);
    DescendingOfTwo();
    assert Transposition(2, 1, 1) == [1, 2];
  }

  /** On an empty operand the tolerance is zero, so every integer `dim` is
      rejected, although `2` divides both counts of a 0 x 0 matrix. */
  lemma EmptyOperandRejectsScalarDim()
    ensures ResolveSwap(Matrix(0, 0), None, Scalar(2), false) == Err(InvalidDim)
    ensures ResolveSwapIntended(Matrix(0, 0), None, Scalar(2), false)
            == Ok(PermuteCall(Table([2, 0], [2, 0]), 2, [2, 1], false))
  {
    DescendingOfTwo();
    assert Transposition(2, 1, 2) == [2, 1];
  }

  /** A row/column table of three subsystems per row still gives `num_sys = 2`
      as written, so any selection hands on the two-slot `[2, 1]`, for
      `sys = [1, 3]` as for `[1, 2]`. Counted by its rows, the table has three
      subsystems: `[1, 2]` gives `[2, 1, 3]` and `[1, 3]` gives `[3, 2, 1]`. */
  lemma TableCountsTwoSubsystems()
    ensures ResolveSwap(Matrix(8, 8), Some([1, 3]), Array(Table([2, 2, 2], [2, 2, 2])), false)
            == Ok(PermuteCall(Table([2, 2, 2], [2, 2, 2]), 2, [2, 1], false))
    ensures ResolveSwap(Matrix(8, 8), Some([1, 2]), Array(Table([2, 2, 2], [2, 2, 2])), false)
            == Ok(PermuteCall(Table([2, 2, 2], [2, 2, 2]), 2, [2, 1], false))
    ensures ResolveSwapIntended(Matrix(8, 8), Some([1, 2]), Array(Table([2, 2, 2], [2, 2, 2])), false)
            == Ok(PermuteCall(Table([2, 2, 2], [2, 2, 2]), 3, [2, 1, 3], false))
    ensures ResolveSwapIntended(Matrix(8, 8), Some([1, 3]), Array(Table([2, 2, 2], [2, 2, 2])), false)
            == Ok(PermuteCall(Table([2, 2, 2], [2, 2, 2]), 3, [3, 2, 1], false))
  {
    DescendingOfTwo();
    assert Transposition(3, 1, 2) == [2, 1, 3];
    assert Transposition(3, 1, 3) == [3, 2, 1];
  }
}
