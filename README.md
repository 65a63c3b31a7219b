# toqito `swap`: argument resolution and permutation construction

This project models `swap(rho, sys, dim, row_only)` from `toqito/perms/swap.py`,
the routine of the toqito quantum-information library that exchanges two tensor
subsystems of a state vector or operator. The model covers everything `swap`
decides on its own:

- the operand's shape, with a 1-D array counted as one row (`Swap.Shape`, `Swap.RowsCols`);
- the default `sys = [1, 2]`;
- the `dim` argument as a tagged value: absent, an integer, a flat list, or a
  two-row row/column table (`Swap.DimArg`, `Swap.DimArray`);
- the default table of rounded square roots;
- the integer-`dim` table and its divisibility test;
- the derivation of `num_sys`;
- the two checks on `sys`;
- the permutation it builds.

`Swap.ResolveSwap` returns either one of the exceptions `swap` raises
(`Swap.SwapError`) or the exact arguments it passes on (`Swap.PermuteCall`).
`Swap.Swap` adds the final hand-off. `permute_systems` is a function parameter
there: its body is not part of this model.

Floating point is replaced by exact statements about the real values the floats
approximate:

- `np.round(np.sqrt(n))` becomes `Rounding.IsRoundedSqrt`. It means
  `|r - sqrt(n)| <= 1/2` for the exact square root. The exact square root of an
  integer is never half-way between two integers, so no tie rule enters (the
  float square root can be; see "## Left out").
- `np.round(a / d)` becomes `Rounding.IsRoundedQuotient`: the nearest integer,
  with ties going to the even one.
- The epsilon test becomes `Swap.WithinTolerance`. It is the source's inequality
  `dev < 2 * size * eps`, with `eps = 2^-52`, multiplied through by `|d| * 2^52`.

The model follows the code where it departs from its docstring:

- The docstring says `sys` selects the two subsystems to exchange. The code
  always hands on the full reversal `[num_sys, ..., 1]`.
- The docstring implies the entries of `sys` are range-checked. The code only
  compares the boolean `any(sys)` against `1` and `num_sys`.
- The default `dim` is described as the square root of the size. The code rounds
  it, so a size that is not a perfect square raises no error.
- The docstring gives a row/column `dim` one entry per subsystem in each row.
  The code sets `num_sys = len(dim)`, which is 2 for every such table.
- All rejections are `ValueError`, except that `dim = 0` raises Python's
  `ZeroDivisionError` inside `rho_dims[0] / dim`.

Module `SwapIntended` models what the docstring and the error messages describe,
beside the code. It corrects four things:

- every entry of `sys` is checked against `1..num_sys`;
- the permutation exchanges exactly the two selected subsystems;
- an integer `dim` must divide the row and column counts exactly;
- a row/column table counts one subsystem per entry of its rows.

It keeps the rounded default `dim` and the `ZeroDivisionError` for `dim = 0`.
It is connected to the code by the lemmas under "## Findings".

Files: `results.dfy` holds the Option and Result types. `rounding.dfy` holds the
rounding stand-ins. `perms.dfy` holds ranges, reversal and permutations.
`swap.dfy` models the code as written. `swap_intended.dfy` holds the corrected
resolution and the counterexamples.

## Model

| member | source | states |
|---|---|---|
| `Rounding.RoundSqrt` | toqito/perms/swap.py:39 | the default dimension is an integer within 1/2 of `sqrt(n)` |
| `Rounding.RoundSqrtFrom` | toqito/perms/swap.py:39 | the upward search from any candidate not above `sqrt(n) + 1/2` ends on the rounded square root |
| `Rounding.RoundedSqrtIsUnique` | toqito/perms/swap.py:39 | at most one integer lies within 1/2 of `sqrt(n)`, so `round(sqrt(n))` is determined without a tie rule |
| `Rounding.RoundSqrtOfSquare` | toqito/perms/swap.py:39 | `round(sqrt(k*k)) == k` |
| `Rounding.RoundedQuotient` | toqito/perms/swap.py:51-52 | `round(a / d)` is a nearest integer to `a / d`, even on a tie; it is exact, and equals `a / d`, exactly when `d` divides `a` |
| `Rounding.RoundedQuotientIsUnique` | toqito/perms/swap.py:62-63 | the nearest-integer-ties-to-even rounding of `a / d` is unique |
| `Rounding.Deviation` | toqito/perms/swap.py:53-54 | `\|a/d - round(a/d)\|` (times `\|d\|`) is at most half of `\|d\|` and is zero exactly when `d` divides `a` |
| `Perms.Range` | toqito/perms/swap.py:82 | `list(range(lo, hi))` has `hi - lo` elements and element `i` is `lo + i` |
| `Perms.Reverse` | toqito/perms/swap.py:83 | `s[::-1]` has the length of `s` and element `i` is `s[\|s\| - 1 - i]` |
| `Perms.ReverseReverse` | toqito/perms/swap.py:83 | reversing twice restores the list |
| `Perms.DescendingIsPermutation` | toqito/perms/swap.py:82-83 | `list(range(1, n+1))[::-1]` is `[n, ..., 1]`, a bijection onto `1..n` that is its own inverse |
| `Perms.DescendingOfTwo` | toqito/perms/swap.py:82-83 | for two subsystems the permutation is `[2, 1]` |
| `Perms.TranspositionIsPermutation` | toqito/perms/swap.py:12-17 | the exchange of two subsystems in range, which the docstring describes, is a bijection that moves only those two and is its own inverse |
| `Swap.RowsCols` | toqito/perms/swap.py:34-37 | a 1-D operand is viewed as one row holding all its entries, so the view keeps the entry count; `OmittedDimIsRoundedSquareRoots` shows it then gets default row dimensions `[1, 1]` |
| `Swap.WithinTolerance` | toqito/perms/swap.py:53-54 | when `d` divides both counts the epsilon test passes iff the operand is non-empty; a non-divisor passes only when `size * \|d\| >= 2^51` (so `ToleranceIsDivisibility`: below that bound it is exact divisibility) |
| `Swap.ResolveDim` | toqito/perms/swap.py:44-66 | in every branch `num_sys` is `len` of the array handed on, including the integer branch that sets it to 2; only an integer `dim` can raise |
| `Swap.AnyTruthy` | toqito/perms/swap.py:69 | `any(sys)` holds exactly when some entry is non-zero |
| `Swap.SysRangeFails` | toqito/perms/swap.py:69-74 | the range test as written fires exactly when `sys` is empty or all zeros, or `num_sys == 0`; the entries' values are never compared with the bounds (`SysChecksAsWritten`) |
| `Swap.ResolveSwap` | toqito/perms/swap.py:33-83 | on success `row_only` is passed through, `num_sys == len(dim)`, and the permutation is a bijection on `1..num_sys` that is its own inverse |
| `Swap.Swap` | toqito/perms/swap.py:84 | `permute_systems` is reached exactly when resolution succeeds, and receives the resolved permutation, `dim` and `row_only`; otherwise the resolution's exception is the result |
| `Swap.OmittedSysIsOneTwo` | toqito/perms/swap.py:41-42 | leaving `sys` out behaves as `sys = [1, 2]` |
| `Swap.SysChecksAsWritten` | toqito/perms/swap.py:69-79 | the range check fires exactly when `sys` is empty or all zeros or `num_sys == 0`; together with the length check it admits exactly the pairs with a non-zero entry when `num_sys >= 1` |
| `Swap.AcceptedExactly` | toqito/perms/swap.py:50-79 | `swap` succeeds iff `dim` resolves and `sys` is accepted; a `dim` error comes before any `sys` error, a failing range check raises the range error whatever the length, and the length error is raised only after the range check passed |
| `Swap.OmittedDimIsRoundedSquareRoots` | toqito/perms/swap.py:34-48 | without `dim` the table is `[[r0, r0], [r1, r1]]` with `r0`, `r1` the rounded square roots of the row and column counts, `num_sys = 2`, no `dim` error; a 1-D operand gets row dimensions `[1, 1]` |
| `Swap.OmittedDimOfSquareSizes` | toqito/perms/swap.py:39-48 | a `k*k` by `m*m` operand gets the default table `[[k, k], [m, m]]` |
| `Swap.ScalarDimResolution` | toqito/perms/swap.py:50-64 | `dim = 0` raises ZeroDivisionError; a `d` failing the tolerance raises ValueError; an accepted `d` gives `[[d, round(rows/d)], [d, round(cols/d)]]` and `num_sys = 2` |
| `Swap.ToleranceIsDivisibility` | toqito/perms/swap.py:53-54 | when `size * \|d\| < 2^51` the epsilon test passes exactly when `d` divides both counts and the operand is not empty |
| `Swap.ScalarDimMustDivide` | toqito/perms/swap.py:50-64 | for realistic sizes an integer `dim` is rejected exactly when it fails to divide the rows or columns (or the operand is empty); when accepted, `d * (rows/d) == rows` and `d * (cols/d) == cols` |
| `Swap.ThreeByThreeWithDimTwoRejected` | toqito/perms/swap.py:50-60 | a 3x3 operand with `dim = 2` raises ValueError |
| `Swap.VectorWithScalarDimRejected` | toqito/perms/swap.py:34-60 | when `n * \|d\| < 2^51`, a 1-D operand of `n` entries with an integer `dim` of magnitude at least 2 raises ValueError, since its single row is not divisible |
| `Swap.ArrayDimNumSys` | toqito/perms/swap.py:44-45 | an explicit `dim` array is handed on unchanged; `num_sys` is the number of entries of a flat list but always 2 for a row/column table |
| `Swap.EmptyFlatDimRejected` | toqito/perms/swap.py:65-74 | an empty flat `dim` gives `num_sys = 0`, and the range check then rejects every `sys` |
| `Swap.SingleEntrySysRejected` | toqito/perms/swap.py:69-79 | `sys = [x]` is always rejected; once `dim` resolves to at least one subsystem and `x != 0`, the length check rejects it |
| `Swap.RangeCheckIgnoresEntries` | toqito/perms/swap.py:69-74 | with at least one subsystem, any pair whose first entry is non-zero passes the range check, whatever its values |
| `Swap.PermIsDescending` | toqito/perms/swap.py:82-83 | the permutation handed on is `[num_sys, ..., 1]`, onto `1..num_sys`, and `[2, 1]` for two subsystems |
| `Swap.PermIgnoresSys` | toqito/perms/swap.py:82-84 | two accepted calls on the same operand and `dim` hand on the same table, `num_sys` and permutation, whatever their `sys` |
| `SwapIntended.ResolveDimExact` | toqito/perms/swap.py:44-66 | the intended `dim` resolution: an integer `d` is accepted exactly when it divides both counts, with table `[[d, rows/d], [d, cols/d]]`; a row/column table is accepted exactly when its rows have equal length, and counts one subsystem per entry; the default stays the rounded square roots |
| `SwapIntended.ResolveSwapIntended` | toqito/perms/swap.py:12-21 | the docstring's behaviour: accepted iff `dim` resolves and `sys` is two subsystems in range; the permutation exchanges exactly those two and fixes the rest |
| `SwapIntended.AsWrittenAgreesForTwoSubsystems` | toqito/perms/swap.py:69-84 | with two subsystems and two distinct selected ones the code gives the intended result, for an integer `dim` on a non-empty operand of realistic size and for any omitted or array `dim` |
| `SwapIntended.OutOfRangeSysAccepted` | toqito/perms/swap.py:69 | `sys = [5, 1]` on a 4x4 operand is accepted as written and refused as intended |
| `SwapIntended.ReversalIgnoresSys` | toqito/perms/swap.py:82-83 | with three subsystems and `sys = [1, 2]` the code hands on `[3, 2, 1]`, where the intended exchange is `[2, 1, 3]` |
| `SwapIntended.RepeatedSysStillSwaps` | toqito/perms/swap.py:75-83 | `sys = [1, 1]` on a 4x4 operand hands on `[2, 1]` as written, where the intended permutation is the identity `[1, 2]` |
| `SwapIntended.EmptyOperandRejectsScalarDim` | toqito/perms/swap.py:53-60 | a 0x0 operand with `dim = 2` raises ValueError as written (the tolerance is 0), while exact divisibility accepts it with table `[[2, 0], [2, 0]]` |
| `SwapIntended.TableCountsTwoSubsystems` | toqito/perms/swap.py:14-21 | a 2x3 row/column table gives `num_sys = 2` as written, so `sys = [1, 2]` and `[1, 3]` both hand on `[2, 1]`; counted by its rows the table has three subsystems and they give `[2, 1, 3]` and `[3, 2, 1]` |
| `SwapIntended.ToleranceAdmitsNonDivisor` | toqito/perms/swap.py:53-54 | a vector of `2^26` entries with `dim = 2^26` is accepted as written, with row dimensions `[2^26, 0]`, and refused as intended |

## Left out

- `permute_systems` (toqito/perms/permute_systems.py) is not part of this model. It is a parameter of `Swap.Swap`, so nothing is claimed about the re-indexed operand: not that swapping twice restores it, and not that its shape is preserved.
- The operand's entries are not modelled, only its shape, because `swap` reads nothing else of them.
- Operands with more than two axes, and 0-dimensional arrays, are not modelled. `Swap.Shape` is a 1-D or a 2-D shape.
- Rounding.RoundSqrt: rounds the exact square root. From about `n = 2^50` the float `np.sqrt(n)` can land exactly on `k + 1/2` (for `k = 2^25 + 1`, `n = k * k + k`), and `np.round` then gives the even neighbour `k + 1`, while the model gives `k`.
- The float rounding of `rho_dims[0] / dim` itself is not modelled, because the model uses the exact quotient. The float quotient is exact when `dim` divides the count. When `size * |dim|` is well below `2^51`, the rounded entries and the accept/reject decision match the exact ones (the regime of `Swap.ToleranceIsDivisibility`).
- The model's table entries are integers. In the source the default and integer-`dim` tables are float arrays, but their values are integral.
- A `dim` list of lists with other than two rows is not modelled. `Swap.DimArray.Table` has exactly two rows of any lengths.
- Swap.ResolveSwap: a row/column table whose rows differ in length is accepted with `num_sys = 2`. That is what numpy did before version 1.24, where `np.array(dim)` built an object array; from 1.24 `np.array(dim)` at line 45 raises `ValueError`, which the model does not capture.
- Python-level type quirks are not modelled: a numpy integer or a `bool` passed as `dim`, `sys` as a tuple or array, non-integer entries. The model's argument types rule them out.
- The texts of the error messages are not modelled. The model distinguishes only which check raised.
- toqito/matrix/properties/is_psd.py is not part of this model. It is an eigenvalue computation with a floating-point tolerance over `is_square`, which is not shown.
- toqito/states/pusey_barret_rudolph.py is not part of this model. It is floating-point trigonometry combined through `tensor` and `standard_basis`, which are not shown.

## Findings

| source | as written | input that shows it | evidently intended | confidence | as-written member | corrected member |
|---|---|---|---|---|---|---|
| toqito/perms/swap.py:69 | `any(sys) < 1 or any(sys) > num_sys` compares the boolean `any(sys)`, not each entry, with the bounds | 4x4 operand, no `dim`, `sys = [5, 1]`: accepted | every entry of `sys` must lie in `1..num_sys` | high; not executed | `SwapIntended.OutOfRangeSysAccepted` | `SwapIntended.ResolveSwapIntended` |
| toqito/perms/swap.py:82-83 | the permutation is the full reversal `[num_sys, ..., 1]` and `sys` is never used | 8-entry vector, `dim = [2, 2, 2]`, `sys = [1, 2]`: permutation `[3, 2, 1]` | exchange subsystems 1 and 2 only: `[2, 1, 3]` | high; not executed | `SwapIntended.ReversalIgnoresSys` | `SwapIntended.ResolveSwapIntended` |
| toqito/perms/swap.py:65-66 | `num_sys = len(dim)` is 2 for every row/column table, however many subsystems its rows list, although the docstring has the row dimensions in the first row of `dim` | 8x8 operand, `dim = [[2, 2, 2], [2, 2, 2]]`, `sys = [1, 3]`: accepted with permutation `[2, 1]` | one subsystem per entry of a row: three subsystems, permutation `[3, 2, 1]` | medium; not executed | `SwapIntended.TableCountsTwoSubsystems` | `SwapIntended.ResolveDimExact` |
| toqito/perms/swap.py:53-54 | the tolerance `2 * size * eps` grows with the operand's size, so a large enough `dim` passes without dividing | vector of `2^26` entries, `dim = 2^26`: accepted with row dimensions `[2^26, 0]` | `dim` must divide the row and column counts | medium; not executed | `SwapIntended.ToleranceAdmitsNonDivisor` | `SwapIntended.ResolveDimExact` |

Two further departures, outside the scope of `SwapIntended.AsWrittenAgreesForTwoSubsystems`, are proved but not listed as defects above, since the docstring does not settle them:

- `SwapIntended.RepeatedSysStillSwaps`: with `sys = [1, 1]` the code hands on `[2, 1]`, where exchanging a subsystem with itself is the identity `[1, 2]`.
- `SwapIntended.EmptyOperandRejectsScalarDim`: an empty operand rejects every integer `dim`, because the tolerance `2 * size * eps` is 0.
