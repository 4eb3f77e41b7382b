# Fermat near-miss search, modelled in Dafny

The program looks for "near misses" of Fermat's Last Theorem. For an exponent n
(3 <= n <= 11) and a bound k (k > 10) it visits every pair (x, y) with
10 <= x, y <= k, x ascending and then y ascending. For each pair it:

- computes S = x^n + y^n exactly;
- walks an integer z up and then down until z^n <= S < (z + 1)^n;
- takes whichever of z^n and (z + 1)^n is closer to S (the code prefers the lower one on a
  tie, but a tie cannot occur: z^n and (z + 1)^n have opposite parity, so they are never
  equally far from S);
- computes the absolute miss and the relative miss miss / S.

It keeps the pair with the smallest relative miss. A candidate replaces the best
only when its relative miss is strictly smaller, and each replacement is reported
as a "new best".

The model has two modules:

- `Powers` (powers.dfy): `Pow`, Python's `**` on a non-negative exponent, and the
  monotonicity facts about it that the proofs use.
- `NearMisses` (near_misses.dfy) follows `find_near_misses` and the two input checks:
  - `Bracket` holds the two correction loops, with the start value passed in.
  - `Evaluate` is the per-pair step.
  - `FindNearMisses` is the nested scan, written as two `while` loops.
  - Every printed "new best" is appended to a ghost out-parameter `trace`.

The results are specified by reference definitions that do not depend on the loops:

- `Root` is the integer n-th root floor.
- `CandidateFor` is the candidate of a pair, computed from `Root`.
- `Record` says that a pair is strictly better than every pair scanned before it.
- `IsBest` says a candidate has the least relative miss and comes first in scan order among equals.
- `Records` lists the candidates of the record-setting pairs, in scan order.

`FindNearMisses` is proved to return the `IsBest` candidate, and its trace is proved
to be exactly `Records`.

The code and its docstring differ in one place. The docstring of `find_near_misses`
(near_misses.py:92-93) says z and z + 1 bracket S with `S <= (z+1)^n`. The upward
loop only stops once `(z+1)^n > S`, so the bracket is strict. The model follows the
code: `Brackets(z, n, s)` is `z^n <= s < (z+1)^n`.

## Model

| member | source | states |
|---|---|---|
| `NearMisses.ExponentBoundaries` | near_misses.py:56 | the exponent check accepts 3 and 11 and rejects 2 and 12 |
| `NearMisses.LimitBoundaries` | near_misses.py:80 | the limit check accepts 11 and rejects 10 |
| `NearMisses.RootFrom` | near_misses.py:133-134 | the reference count-up that defines `Root` (started from 1 there): counting up from a z with z^n <= s stops at a z' >= z with z'^n <= s < (z'+1)^n. The source loop also accepts overshooting starts; `Bracket` models that loop from every start >= 1 |
| `NearMisses.Root` | near_misses.py:130-138 | the integer n-th root floor brackets s: 1 <= r and r^n <= s < (r+1)^n |
| `NearMisses.BracketUnique` | near_misses.py:130-138 | at most one z >= 1 brackets s, so the loops' result cannot depend on the start |
| `NearMisses.Bracket` | near_misses.py:130-138 | for any start >= 1 both correction loops terminate; the final z brackets s and equals the root floor, whatever the start |
| `NearMisses.SumOfPowers` | near_misses.py:123 | x^n + y^n is at least 2 for x, y >= 1, so the division at line 159 is defined |
| `NearMisses.Evaluate` | near_misses.py:123-159 | the per-pair step, from any estimate clamped to >= 1, yields exactly the candidate `CandidateFor(x, y, n)` |
| `NearMisses.ClosestOfBracket` | near_misses.py:141-156 | the chosen z is the root floor r or r + 1; closest_power == z^n; miss == abs(S - closest_power) == min(S - r^n, (r+1)^n - S) |
| `NearMisses.NoTie` | near_misses.py:149-156 | S - r^n != (r+1)^n - S for every pair, since r^n and (r+1)^n have opposite parity; so the lower side is chosen exactly when it is strictly nearer, and the equal case of the `<=` never arises |
| `NearMisses.NearestPower` | near_misses.py:140-156 | the chosen power is no farther from S than any w^n with w >= 0, and the chosen z is the only w >= 0 whose w^n is that near |
| `NearMisses.MissBounds` | near_misses.py:145-159 | 0 <= miss < S, relative_miss == miss / S exactly, and 0 <= relative_miss < 1 |
| `NearMisses.TenAndTenCubed` | near_misses.py:123-159 | for n = 3, x = y = 10: S = 2000, 13^3 = 2197 is nearer than 12^3 = 1728, miss 197, relative miss 197/2000 |
| `NearMisses.DoneAtEnd` | near_misses.py:119-121 | once the cursor is past the last row, the pairs scanned so far are exactly the pairs with 10 <= x, y <= k, so `IsBest` ranges over the whole scan |
| `NearMisses.RecordsBeforeAt` | near_misses.py:162-173 | every listed candidate is `CandidateFor` of a record-setting pair scanned before the cursor |
| `NearMisses.RecordsBeforeOrdered` | near_misses.py:162-173 | listed candidates come in scan order with strictly decreasing relative miss |
| `NearMisses.RecordsBeforeComplete` | near_misses.py:162-173 | every record-setting pair before the cursor is listed |
| `NearMisses.ReportsAreRecords` | near_misses.py:162-182 | a pair's candidate is reported if and only if it beats every earlier pair strictly |
| `NearMisses.ReportsDecrease` | near_misses.py:162-182 | reported bests come in scan order with strictly decreasing relative miss |
| `NearMisses.BetterIsRecord` | near_misses.py:162 | a candidate that beats the running best beats every pair scanned so far |
| `NearMisses.ScanReplace` | near_misses.py:162-173 | a strictly better candidate becomes the best and is appended to the report trace, keeping the scan invariant |
| `NearMisses.ScanKeep` | near_misses.py:162 | a candidate that is not strictly better (ties included) changes neither the best nor the trace, keeping the scan invariant |
| `NearMisses.NextRow` | near_misses.py:119-121 | after the last y of row x the scan continues at (x + 1, 10) |
| `NearMisses.ScanComplete` | near_misses.py:184 | at the end of the scan the best is `IsBest`, is present iff k >= 10, and is the last reported candidate |
| `NearMisses.BestIsUnique` | near_misses.py:115-163 | least relative miss plus first in scan order determines the result uniquely |
| `NearMisses.FindNearMisses` | near_misses.py:86-184 | returns a result iff k >= 10, in particular for every valid k; it lies in range, carries n and is `CandidateFor` of its pair; it is minimal over all pairs and strictly better than every earlier one; the trace equals `Records` and ends with the result |

## Left out

- Console I/O: prompts, retry loops, echoing the inputs, printing of the blocks, the banner and the final pause (near_misses.py:47-59, 71-83, 176-182, 187-236). The "new best" printing is modelled as appending to the ghost `trace`.
- Parsing the typed text with Python's `int(...)` and its `ValueError` path (lines 50-54, 74-78). Only the range checks of lines 56 and 80 are modelled, as `ValidExponent` and `ValidLimit`.
- The floating-point root estimate `int(sum_powers ** (1.0 / n))` (line 126). It is a caller-supplied total function `estimate`, and its result is clamped to at least 1 as on lines 127-128. This leaves out the `OverflowError` Python raises when S is too large to convert to a float.
- Evaluate: the relative miss is the exact rational miss / S as a `real`, compared exactly. Python's float division could round two different ratios to the same float, and that rounding is not modelled.
- Output formatting: percentages and the `.8f` / `.6f` formats.
- FindNearMisses: the source keeps `best_relative_miss` as a separate variable next to `best_result`. The model compares against the relative miss stored in the best candidate, which always holds the same value.
