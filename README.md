# SudokuSpeed in Dafny

SudokuSpeed solves a Sudoku variant. Every row of the grid must be a 9-digit
numeral that:

- uses nine distinct digits out of ten;
- contains the digits 0, 2 and 5;
- obeys that row's clues.

All nine rows must be multiples of one common divisor, and the program looks
for the largest such divisor. The program works in four stages:

1. **Candidate pool.** For every digit that may be left out, it enumerates
   the orderings of the other nine digits. It keeps those that contain the
   required digits. The check uses a 10-bit mask of the digits present.
2. **Row lists.** It narrows the pool for each grid row with two filters.
   One keeps rows with a fixed digit at a position. The other drops rows
   with a forbidden digit at a position.
3. **Divisor search.** It counts down from 12345678 to 337 and keeps the
   divisors that end in 1, 3, 7 or 9. For each divisor, largest first, it
   narrows each row list to the multiples of the divisor. It computes the
   remainder digit by digit, so that it stays inside a 32-bit `int`. A
   divisor that empties a row is skipped. Otherwise the assigner runs, and
   the search stops at the first divisor that yields a grid.
4. **Assigner.** It places one candidate per row, visiting the rows in a
   fixed order. Per column and per 3x3 box it keeps a bit mask of the digits
   placed so far. It commits a candidate only when none of its digits is
   already marked in its column or box. It recurses, then restores the
   masks from saved copies. At depth 9 it records the grid if some cell of
   the first three columns holds 0.

The Dafny modules follow these stages:

- `Digits` holds digits, bit masks and decimal values.
- `CandidatePool` holds the pool generator.
- `RowFilters` holds the three filters and the per-row clue configuration.
- `Assigner` holds the backtracking search. The class `Solver` has the
  `colMask`/`boxMask` arrays, the grid being filled in and the list of
  grids found. Its recursive `SolveFixed` is proved against the reference
  enumeration `Search`.
- `SearchCorrect` characterises `Search` without masks or row order.
- `DivisorSearch` holds the divisor list and the outer loop.

Rows are sequences of the digits 0..9, most significant first. The source's
`int` bit masks are 32-bit bit-vectors.

## Model

| member | source | states |
|---|---|---|
| Digits.HasBit | SudokuSpeed.cpp:38 | the digit test `Has(m, d)` is exactly the source's bit test `m & (1 << d) != 0` |
| Digits.HasOr | SudokuSpeed.cpp:34 | or-ing in `1 << d` marks digit `d` and leaves every other digit's mark as it was |
| Digits.RemainderStep | SudokuSpeed.cpp:59 | taking the remainder after every digit gives the same remainder as the whole numeral |
| CandidatePool.ContainsRequiredDigits | SudokuSpeed.cpp:30-43 | the mask check returns true exactly when every required digit occurs in the number |
| CandidatePool.BuildAlphabet | SudokuSpeed.cpp:130-138 | the alphabet has nine strictly ascending digits, exactly the digits other than the skipped one |
| CandidatePool.PermutationsComplete | SudokuSpeed.cpp:147-152 | every rearrangement of the alphabet is among the orderings enumerated |
| CandidatePool.CollectPermutations | SudokuSpeed.cpp:141-153 | the thread's list holds exactly the orderings of the alphabet that contain every required digit |
| CandidatePool.PermutationIsPoolRow | SudokuSpeed.cpp:129-152 | the orderings kept for a skipped digit are exactly the pool rows that leave that digit out |
| CandidatePool.RequiredCheckRedundant | SudokuSpeed.cpp:148 | once the skipped digit is not required, every ordering passes the required-digit check |
| CandidatePool.SkipRequiredStep | SudokuSpeed.cpp:123-127 | skipping a required digit loses no pool row, because no pool row leaves out a required digit |
| CandidatePool.PoolRowOmitsExactlyOne | SudokuSpeed.cpp:104-106 | a pool row leaves out exactly one digit, and that digit is not required |
| CandidatePool.GeneratePool | SudokuSpeed.cpp:121-179 | the pool holds exactly the 9-digit rows with distinct digits that contain every required digit |
| RowFilters.FilterDivisibleByCandidate | SudokuSpeed.cpp:46-67 | keeps exactly the rows whose numeral is a multiple of the divisor, in input order |
| RowFilters.RunningRemainder | SudokuSpeed.cpp:57-60 | the running remainder stays in `0..d-1`, its 32-bit intermediate does not overflow, and it ends as the numeral mod `d` |
| RowFilters.FilterByColumn | SudokuSpeed.cpp:70-79 | keeps exactly the rows holding `value` at `column`, in input order |
| RowFilters.FilterDisallowedValues | SudokuSpeed.cpp:82-98 | keeps exactly the rows whose digit at `column` is not disallowed, in input order |
| RowFilters.FilterMembership | SudokuSpeed.cpp:73-77 | a row is in a filter's output exactly when it is in the input and passes the test |
| RowFilters.FilterCount | SudokuSpeed.cpp:73-77 | a filter keeps every passing row as often as it occurs in the input and no failing row |
| RowFilters.FilterIsSubsequence | SudokuSpeed.cpp:73-77 | a filter's output is a subsequence of its input |
| RowFilters.FilterAppend | SudokuSpeed.cpp:73-77 | filtering a concatenation filters each part, so earlier rows stay earlier |
| RowFilters.FilterCommute | SudokuSpeed.cpp:82-98 | two filters applied in either order give the same list |
| RowFilters.DisallowNothing | SudokuSpeed.cpp:82-98 | with no disallowed digits the filter returns its input unchanged |
| RowFilters.ApplyRowSpec | SudokuSpeed.cpp:188-287 | a row's chain of column and disallowed-value filters keeps exactly the pool rows that satisfy all of that row's clues |
| RowFilters.ApplyRowSpecMembership | SudokuSpeed.cpp:188-287 | a row list holds exactly the pool rows that obey the clues, in pool order |
| Assigner.GetBoxIndex | SudokuSpeed.cpp:383-385 | the box index of a cell is in `0..8` |
| Assigner.BoxIndexBands | SudokuSpeed.cpp:383-385 | the box of a cell is fixed by its band of rows and its stack of columns |
| Assigner.BoxIndexTable | SudokuSpeed.cpp:387-393 | the precomputed table holds the box of every cell |
| Assigner.FixedRowOrderIsRowOrder | SudokuSpeed.cpp:339 | the hard-coded row order visits each of the nine rows exactly once |
| Assigner.HasZeroInFirstColumns | SudokuSpeed.cpp:370-380 | the zero-in-first-columns test is true exactly when some cell of columns 0 to 2 holds 0 |
| Assigner.FreeIffFits | SudokuSpeed.cpp:413-444 | when the masks encode the placed rows, a candidate passes the bit test exactly when none of its digits is already in its column or box |
| Assigner.SearchFrame | SudokuSpeed.cpp:396-464 | what the search finds depends only on the rows already placed, not on what the other rows hold |
| Assigner.Solver.constructor | SudokuSpeed.cpp:341-345 | the masks start empty, which encodes no row placed, and the grid starts at zero with no solutions |
| Assigner.Solver.Clashes | SudokuSpeed.cpp:417-421 | a cell clashes exactly when its digit is marked in its column's mask or its box's mask |
| Assigner.Solver.HasConflict | SudokuSpeed.cpp:413-444 | the conflict test is false exactly when every cell of the candidate is free in both masks |
| Assigner.Solver.MarkCell | SudokuSpeed.cpp:452-455 | one commit step marks the digit in exactly one column mask and one box mask and writes the cell |
| Assigner.Solver.Place | SudokuSpeed.cpp:450-456 | after a commit the row holds the candidate and the masks encode one more placed row |
| Assigner.Solver.RestoreMasks | SudokuSpeed.cpp:460-462 | both mask arrays are set back to the saved copies |
| Assigner.Solver.SolveFixed | SudokuSpeed.cpp:396-464 | appends exactly the grids the reference enumeration lists; the masks are as before the call, and the placed rows are untouched |
| Assigner.Solver.TryCandidate | SudokuSpeed.cpp:409-463 | one candidate adds what it leads to when it fits and nothing otherwise; the masks are restored after the recursive call |
| Assigner.SolveAll | SudokuSpeed.cpp:341-466 | a search from empty masks and a zero grid lists exactly the reference enumeration from depth 0 |
| SearchCorrect.FitsIffCompatible | SudokuSpeed.cpp:413-444 | a candidate fits exactly when it shares no column digit and no box digit with any row placed before it |
| SearchCorrect.SearchFindsSolutions | SudokuSpeed.cpp:396-464 | a grid is found exactly when each row is one of its candidates, no two rows clash in a column or box, and columns 0 to 2 hold a 0, for any row order |
| SearchCorrect.EmptyRowNoSolutions | SudokuSpeed.cpp:319-321 | a row with no candidates leaves the search with nothing to find |
| SearchCorrect.SolutionIsSudoku | SudokuSpeed.cpp:399-403 | when candidate rows repeat no digit, the grids found are exactly the Sudoku grids of candidates with a 0 in columns 0 to 2 |
| DivisorSearch.DivisorsFromExact | SudokuSpeed.cpp:303-309 | the divisor list descends strictly and holds exactly the numbers in range that end in 1, 3, 7 or 9 |
| DivisorSearch.CandidateGCDs | SudokuSpeed.cpp:303-309 | the list descends strictly, lies in [337, 12345678], holds every number there ending in 1, 3, 7 or 9, and every entry keeps the remainder within 32 bits |
| DivisorSearch.FilteredWellFormed | SudokuSpeed.cpp:317-318 | narrowing to multiples keeps every row list a list of 9-digit candidates |
| DivisorSearch.FilterPuzzle | SudokuSpeed.cpp:315-324 | the divisor is accepted exactly when no narrowed row is empty, and an accepted divisor yields every row narrowed to its multiples |
| DivisorSearch.SolutionsForMember | SudokuSpeed.cpp:313-466 | the grids found for a divisor are exactly the base puzzle's solutions whose nine rows are all multiples of it |
| DivisorSearch.SkippedHasNoSolutions | SudokuSpeed.cpp:319-324 | a skipped divisor has no solutions, so skipping it loses nothing |
| DivisorSearch.SearchDivisors | SudokuSpeed.cpp:313-508 | stops at the first divisor with solutions and reports them, every earlier divisor has none, and no report means no divisor has any |
| DivisorSearch.EarlierIsLarger | SudokuSpeed.cpp:500-501 | in a descending list, every divisor larger than the one the search stopped at has no solutions |
| DivisorSearch.FindLargestDivisor | SudokuSpeed.cpp:303-508 | the divisor reported is the largest in range ending in 1, 3, 7 or 9 that has a solution, and with no report no such divisor has one |

## Left out

- Threads, the mutex, `hardware_concurrency` and joining in the pool generator: the generator is modelled as a sequential union over the skipped digits.
- The progress thread, `solverRunning`, `candidateTries` and all `chrono` timing: they do not affect the results.
- All `cout` output, including the printing of solutions and of the middle-row answer.
- CandidatePool.CollectPermutations: states which orderings are kept, not their order. `std::next_permutation` is replaced by the set of all orderings, so the lexicographic order of the pool, and of each row list taken from it, is not modelled. `GeneratePool` is likewise stated by membership only.
- The literal clue values of rows 1 to 9: each row's clues are a `RowSpec` parameter of `ApplyRowSpec`. The base puzzle is a parameter of `SearchDivisors` and `FindLargestDivisor`.
- The conversion of candidate strings to digit vectors: rows are digit sequences throughout. The required digits `{'0','2','5'}` are a parameter.
