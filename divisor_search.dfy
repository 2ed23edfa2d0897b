/** The outer search over divisors.
  *
  * The divisors tried are the numbers from 12345678 down to 337 that end in
  * 1, 3, 7 or 9.  For each one, largest first, every row's candidate list is
  * narrowed to the multiples of the divisor; a divisor that empties some row
  * is skipped, otherwise the backtracking assigner lists the grids, and the
  * search stops at the first divisor for which it finds any.
  */
module DivisorSearch {
  import opened Digits
  import opened RowFilters
  import opened Assigner
  import opened SearchCorrect

  const MaxCandidateGCD: int := 12345678
  const MinCandidateGCD: int := 337

  // ---------------------------------------------------------------------------
  // The divisor list
  // ---------------------------------------------------------------------------

  /** The last decimal digit is 1, 3, 7 or 9. */
  predicate EndsCoprimeToTen(n: int) {
    var lastDigit := n % 10;
    lastDigit == 1 || lastDigit == 3 || lastDigit == 7 || lastDigit == 9
  }

  predicate StrictlyDescending(s: seq<int>) {
    forall i, j :: 0 <= i < j < |s| ==> s[i] > s[j]
  }

  /** The divisors from `n` up to the largest, listed largest first. */
  function DivisorsFrom(n: int): seq<int>
    decreases MaxCandidateGCD + 1 - n
  {
    if n > MaxCandidateGCD then []
    else DivisorsFrom(n + 1) + (if EndsCoprimeToTen(n) then [n] else [])
  }

  /** `DivisorsFrom(n)` descends strictly and holds exactly the numbers in
    * `[n, MaxCandidateGCD]` that end in 1, 3, 7 or 9. */
  lemma {:induction false} DivisorsFromExact(n: int)
    ensures StrictlyDescending(DivisorsFrom(n))
    ensures forall i :: 0 <= i < |DivisorsFrom(n)| ==>
      n <= DivisorsFrom(n)[i] <= MaxCandidateGCD && EndsCoprimeToTen(DivisorsFrom(n)[i])
    ensures forall d :: n <= d <= MaxCandidateGCD && EndsCoprimeToTen(d) ==> d in DivisorsFrom(n)
    decreases MaxCandidateGCD + 1 - n
  {
    if n <= MaxCandidateGCD {
      DivisorsFromExact(n + 1);
      var s := DivisorsFrom(n + 1);
      assert forall d :: n < d <= MaxCandidateGCD && EndsCoprimeToTen(d) ==> d in s;
    }
  }

  /** Counts down from the largest divisor to the smallest and keeps the
    * numbers that end in 1, 3, 7 or 9. */
  method CandidateGCDs() returns (candidateGCDs: seq<int>)
    ensures candidateGCDs == DivisorsFrom(MinCandidateGCD)
    ensures StrictlyDescending(candidateGCDs)
    ensures forall i :: 0 <= i < |candidateGCDs| ==>
      && MinCandidateGCD <= candidateGCDs[i] <= MaxCandidateGCD
      && EndsCoprimeToTen(candidateGCDs[i])
      && NoOverflow(candidateGCDs[i])
    ensures forall d :: MinCandidateGCD <= d <= MaxCandidateGCD && EndsCoprimeToTen(d) ==> d in candidateGCDs
  {
    candidateGCDs := [];
    var candidateGCD := MaxCandidateGCD;
    while candidateGCD >= MinCandidateGCD
      invariant MinCandidateGCD - 1 <= candidateGCD <= MaxCandidateGCD
      invariant candidateGCDs == DivisorsFrom(candidateGCD + 1)
    {
      var lastDigit := candidateGCD % 10;
      if lastDigit == 1 || lastDigit == 3 || lastDigit == 7 || lastDigit == 9 {
        candidateGCDs := candidateGCDs + [candidateGCD];
      }
      candidateGCD := candidateGCD - 1;
    }
    DivisorsFromExact(MinCandidateGCD);
  }

  // ---------------------------------------------------------------------------
  // Narrowing the puzzle to one divisor
  // ---------------------------------------------------------------------------

  /** Every row's candidates narrowed to the multiples of `candidateGCD`. */
  function FilteredPuzzle(basePuzzle: seq<seq<Row>>, candidateGCD: int): seq<seq<Row>>
    requires candidateGCD > 0
  {
    seq(|basePuzzle|, r requires 0 <= r < |basePuzzle| => Filter(basePuzzle[r], DivisibleBy(candidateGCD)))
  }

  /** Narrowing keeps candidates candidates. */
  lemma FilteredWellFormed(basePuzzle: seq<seq<Row>>, candidateGCD: int)
    requires WellFormedCandidates(basePuzzle) && candidateGCD > 0
    ensures WellFormedCandidates(FilteredPuzzle(basePuzzle, candidateGCD))
  {
    var p := FilteredPuzzle(basePuzzle, candidateGCD);
    forall r, i | 0 <= r < 9 && 0 <= i < |p[r]| ensures IsCandidate(p[r][i]) {
      FilterMembership(basePuzzle[r], DivisibleBy(candidateGCD), p[r][i]);
    }
  }

  /** Narrows the nine rows in turn and gives up at the first row left empty;
    * when no row is left empty the narrowed puzzle is returned. */
  method FilterPuzzle(basePuzzle: seq<seq<Row>>, candidateGCD: int)
    returns (candidatePuzzle: seq<seq<Row>>, validCandidate: bool)
    requires WellFormedCandidates(basePuzzle)
    requires candidateGCD > 0 && NoOverflow(candidateGCD)
    ensures validCandidate <==> forall r :: 0 <= r < 9 ==> FilteredPuzzle(basePuzzle, candidateGCD)[r] != []
    ensures validCandidate ==> candidatePuzzle == FilteredPuzzle(basePuzzle, candidateGCD)
  {
    var narrowed := FilteredPuzzle(basePuzzle, candidateGCD);
    candidatePuzzle := basePuzzle;
    validCandidate := true;
    for r := 0 to 9
      invariant validCandidate && |candidatePuzzle| == 9
      invariant forall k :: 0 <= k < r ==> candidatePuzzle[k] == narrowed[k] != []
      invariant forall k :: r <= k < 9 ==> candidatePuzzle[k] == basePuzzle[k]
    {
      assert forall i :: 0 <= i < |candidatePuzzle[r]| ==> IsCandidate(candidatePuzzle[r][i]);
      var filtered := FilterDivisibleByCandidate(candidatePuzzle[r], candidateGCD);
      assert filtered == narrowed[r];
      candidatePuzzle := candidatePuzzle[r := filtered];
      if candidatePuzzle[r] == [] {
        validCandidate := false;
        break;
      }
    }
    if validCandidate {
      assert candidatePuzzle == narrowed;
    }
  }

  // ---------------------------------------------------------------------------
  // The search
  // ---------------------------------------------------------------------------

  /** The grids the assigner lists for one divisor. */
  ghost function SolutionsFor(basePuzzle: seq<seq<Row>>, candidateGCD: int): seq<Grid>
    requires WellFormedCandidates(basePuzzle) && candidateGCD > 0
  {
    FilteredWellFormed(basePuzzle, candidateGCD);
    FixedRowOrderIsRowOrder();
    Search(FilteredPuzzle(basePuzzle, candidateGCD), FixedRowOrder, 0, ZeroGrid())
  }

  /** Every row of `h` is a multiple of `candidateGCD`. */
  predicate RowsDivisible(h: Grid, candidateGCD: int)
    requires IsGrid(h) && candidateGCD > 0
  {
    forall r :: 0 <= r < 9 ==> Value(h[r]) % candidateGCD == 0
  }

  /** The grids listed for a divisor are the solutions of the base puzzle
    * whose nine rows are all multiples of that divisor. */
  lemma SolutionsForMember(basePuzzle: seq<seq<Row>>, candidateGCD: int, h: Grid)
    requires WellFormedCandidates(basePuzzle) && candidateGCD > 0
    ensures h in SolutionsFor(basePuzzle, candidateGCD)
        <==> IsSolution(basePuzzle, h) && RowsDivisible(h, candidateGCD)
  {
    var p := FilteredPuzzle(basePuzzle, candidateGCD);
    FilteredWellFormed(basePuzzle, candidateGCD);
    FixedRowOrderIsRowOrder();
    SearchFindsSolutions(p, FixedRowOrder, h);
    if IsGrid(h) {
      forall r | 0 <= r < 9
        ensures h[r] in p[r] <==> h[r] in basePuzzle[r] && Value(h[r]) % candidateGCD == 0
      {
        FilterMembership(basePuzzle[r], DivisibleBy(candidateGCD), h[r]);
      }
    }
  }

  /** A divisor that leaves some row without candidates has no solutions, so
    * skipping it changes nothing. */
  lemma SkippedHasNoSolutions(basePuzzle: seq<seq<Row>>, candidateGCD: int)
    requires WellFormedCandidates(basePuzzle) && candidateGCD > 0
    requires exists r :: 0 <= r < 9 && FilteredPuzzle(basePuzzle, candidateGCD)[r] == []
    ensures SolutionsFor(basePuzzle, candidateGCD) == []
  {
    var r :| 0 <= r < 9 && FilteredPuzzle(basePuzzle, candidateGCD)[r] == [];
    FilteredWellFormed(basePuzzle, candidateGCD);
    FixedRowOrderIsRowOrder();
    EmptyRowNoSolutions(FilteredPuzzle(basePuzzle, candidateGCD), FixedRowOrder, r);
  }

  /** No divisor among the first `n` has solutions. */
  ghost predicate NoneSolvedBefore(basePuzzle: seq<seq<Row>>, candidateGCDs: seq<int>, n: int)
    requires WellFormedCandidates(basePuzzle)
    requires forall i :: 0 <= i < |candidateGCDs| ==> candidateGCDs[i] > 0
    requires 0 <= n <= |candidateGCDs|
  {
    forall j :: 0 <= j < n ==> SolutionsFor(basePuzzle, candidateGCDs[j]) == []
  }

  /** What the search reports: the divisor it stopped at with the grids found
    * for it, or that no divisor had any. */
  datatype Outcome = Found(candidateGCD: int, solutions: seq<Grid>) | NotFound

  /** Tries the divisors in list order and stops at the first one for which
    * the assigner finds a grid. */
  method SearchDivisors(basePuzzle: seq<seq<Row>>, candidateGCDs: seq<int>) returns (outcome: Outcome)
    requires WellFormedCandidates(basePuzzle)
    requires forall i :: 0 <= i < |candidateGCDs| ==> candidateGCDs[i] > 0 && NoOverflow(candidateGCDs[i])
    ensures outcome.NotFound? ==> NoneSolvedBefore(basePuzzle, candidateGCDs, |candidateGCDs|)
    ensures outcome.Found? ==>
      exists i :: && 0 <= i < |candidateGCDs|
                  && candidateGCDs[i] == outcome.candidateGCD
                  && NoneSolvedBefore(basePuzzle, candidateGCDs, i)
                  && outcome.solutions == SolutionsFor(basePuzzle, candidateGCDs[i])
                  && outcome.solutions != []
  {
    outcome := NotFound;
    for i := 0 to |candidateGCDs|
      invariant outcome.NotFound?
      invariant NoneSolvedBefore(basePuzzle, candidateGCDs, i)
    {
      var candidateGCD := candidateGCDs[i];
      var candidatePuzzle, validCandidate := FilterPuzzle(basePuzzle, candidateGCD);
      if !validCandidate {
        SkippedHasNoSolutions(basePuzzle, candidateGCD);
        continue;
      }
      FilteredWellFormed(basePuzzle, candidateGCD);
      FixedRowOrderIsRowOrder();
      var allSolutions := SolveAll(candidatePuzzle, FixedRowOrder);
      if allSolutions != [] {
        outcome := Found(candidateGCD, allSolutions);
        assert 0 <= i < |candidateGCDs| && candidateGCDs[i] == outcome.candidateGCD;
        break;
      }
    }
  }

  /** In a descending list, the divisors before position `i` are exactly the
    * listed divisors larger than the one there. */
  lemma EarlierIsLarger(basePuzzle: seq<seq<Row>>, candidateGCDs: seq<int>, i: int)
    requires WellFormedCandidates(basePuzzle)
    requires forall k :: 0 <= k < |candidateGCDs| ==> candidateGCDs[k] > 0
    requires StrictlyDescending(candidateGCDs) && 0 <= i <= |candidateGCDs|
    requires NoneSolvedBefore(basePuzzle, candidateGCDs, i)
    ensures forall d :: d in candidateGCDs && (i == |candidateGCDs| || d > candidateGCDs[i]) ==>
                          SolutionsFor(basePuzzle, d) == []
  {
    forall d | d in candidateGCDs && (i == |candidateGCDs| || d > candidateGCDs[i])
      ensures SolutionsFor(basePuzzle, d) == []
    {
      var j :| 0 <= j < |candidateGCDs| && candidateGCDs[j] == d;
      assert j < i;
    }
  }

  /** The whole outer search: the divisor found is the largest one in range
    * ending in 1, 3, 7 or 9 for which the base puzzle has a solution whose
    * rows are all its multiples; when none is found, no such divisor exists. */
  method FindLargestDivisor(basePuzzle: seq<seq<Row>>) returns (outcome: Outcome)
    requires WellFormedCandidates(basePuzzle)
    ensures outcome.Found? ==>
      && MinCandidateGCD <= outcome.candidateGCD <= MaxCandidateGCD
      && EndsCoprimeToTen(outcome.candidateGCD)
      && outcome.solutions == SolutionsFor(basePuzzle, outcome.candidateGCD)
      && outcome.solutions != []
    ensures forall d ::
              && MinCandidateGCD <= d <= MaxCandidateGCD && EndsCoprimeToTen(d)
              && (outcome.Found? ==> d > outcome.candidateGCD)
              ==> SolutionsFor(basePuzzle, d) == []
  {
    var candidateGCDs := CandidateGCDs();
    outcome := SearchDivisors(basePuzzle, candidateGCDs);
    if outcome.Found? {
      ghost var i :| 0 <= i < |candidateGCDs| && candidateGCDs[i] == outcome.candidateGCD
        && NoneSolvedBefore(basePuzzle, candidateGCDs, i);
      EarlierIsLarger(basePuzzle, candidateGCDs, i);
    } else {
      EarlierIsLarger(basePuzzle, candidateGCDs, |candidateGCDs|);
    }
  }
}
