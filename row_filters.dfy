/** The three list filters that narrow the pool of candidate rows, and the
  * per-row clue configuration they are driven by.
  *
  * Each filter is a loop that walks its input once and pushes the elements it
  * keeps onto a fresh list.  All three are specified by one stable filter,
  * `Filter`, applied to a predicate on rows; the lemmas about `Filter` give the
  * properties every filter has: it keeps exactly the matching elements, with
  * their multiplicities, in input order, and filters commute.
  */
module RowFilters {
  import opened Digits

  // ---------------------------------------------------------------------------
  // Stable filter
  // ---------------------------------------------------------------------------

  /** The elements of `xs` that satisfy `p`, in the order of `xs`. */
  function Filter<T>(xs: seq<T>, p: T -> bool): (r: seq<T>)
    ensures |r| <= |xs|
  {
    if xs == [] then []
    else
      var init, last := xs[..|xs| - 1], xs[|xs| - 1];
      Filter(init, p) + (if p(last) then [last] else [])
  }

  /** `a` is `b` with some elements left out, the rest kept in order. */
  predicate IsSubsequence<T(==)>(a: seq<T>, b: seq<T>)
    decreases |b|
  {
    if a == [] then true
    else if b == [] then false
    else if a[|a| - 1] == b[|b| - 1] then IsSubsequence(a[..|a| - 1], b[..|b| - 1])
    else IsSubsequence(a, b[..|b| - 1])
  }

  lemma {:induction false} FilterMembership<T>(xs: seq<T>, p: T -> bool, x: T)
    ensures x in Filter(xs, p) <==> x in xs && p(x)
  {
    if xs != [] {
      var init, last := xs[..|xs| - 1], xs[|xs| - 1];
      assert xs == init + [last];
      FilterMembership(init, p, x);
    }
  }

  /** Every matching element is kept as often as it occurs; no other is kept. */
  lemma {:induction false} FilterCount<T>(xs: seq<T>, p: T -> bool, x: T)
    ensures multiset(Filter(xs, p))[x] == if p(x) then multiset(xs)[x] else 0
  {
    if xs != [] {
      var init, last := xs[..|xs| - 1], xs[|xs| - 1];
      assert xs == init + [last];
      FilterCount(init, p, x);
    }
  }

  /** Filtering preserves the input order. */
  lemma {:induction false} FilterIsSubsequence<T>(xs: seq<T>, p: T -> bool)
    ensures IsSubsequence(Filter(xs, p), xs)
  {
    if xs != [] {
      var init, last := xs[..|xs| - 1], xs[|xs| - 1];
      FilterIsSubsequence(init, p);
      var f := Filter(init, p);
      if p(last) {
        assert Filter(xs, p) == f + [last];
        assert (f + [last])[..|f|] == f;
      } else {
        assert Filter(xs, p) == f;
        if f != [] {
          FilterMembership(init, p, f[|f| - 1]);
        }
      }
    }
  }

  /** Filtering distributes over concatenation, so earlier elements stay earlier. */
  lemma {:induction false} FilterAppend<T>(xs: seq<T>, ys: seq<T>, p: T -> bool)
    ensures Filter(xs + ys, p) == Filter(xs, p) + Filter(ys, p)
    decreases |ys|
  {
    if ys == [] {
      assert xs + ys == xs;
    } else {
      var init, last := ys[..|ys| - 1], ys[|ys| - 1];
      assert (xs + ys)[..|xs + ys| - 1] == xs + init;
      FilterAppend(xs, init, p);
    }
  }

  /** A filter that every element passes returns its input unchanged. */
  lemma {:induction false} FilterKeepsAll<T>(xs: seq<T>, p: T -> bool)
    requires forall i :: 0 <= i < |xs| ==> p(xs[i])
    ensures Filter(xs, p) == xs
  {
    if xs != [] {
      var init := xs[..|xs| - 1];
      FilterKeepsAll(init, p);
      assert xs == init + [xs[|xs| - 1]];
    }
  }

  /** Two filters applied in either order give the same list. */
  lemma {:induction false} FilterCommute<T>(xs: seq<T>, p: T -> bool, q: T -> bool)
    ensures Filter(Filter(xs, p), q) == Filter(Filter(xs, q), p)
  {
    if xs != [] {
      var init, last := xs[..|xs| - 1], xs[|xs| - 1];
      FilterCommute(init, p, q);
      FilterAppend(Filter(init, p), if p(last) then [last] else [], q);
      FilterAppend(Filter(init, q), if q(last) then [last] else [], p);
    }
  }

  /** Filters by predicates that agree on the input give the same list. */
  lemma {:induction false} FilterSamePredicate<T>(xs: seq<T>, p: T -> bool, q: T -> bool)
    requires forall i :: 0 <= i < |xs| ==> p(xs[i]) == q(xs[i])
    ensures Filter(xs, p) == Filter(xs, q)
  {
    if xs != [] {
      FilterSamePredicate(xs[..|xs| - 1], p, q);
    }
  }

  /** Filtering by `p` and then by `q` is filtering once by any predicate that
    * agrees with "`p` and `q`" on the input. */
  lemma {:induction false} FilterThenFilter<T>(xs: seq<T>, p: T -> bool, q: T -> bool, pq: T -> bool)
    requires forall i :: 0 <= i < |xs| ==> pq(xs[i]) == (p(xs[i]) && q(xs[i]))
    ensures Filter(Filter(xs, p), q) == Filter(xs, pq)
  {
    if xs != [] {
      var init, last := xs[..|xs| - 1], xs[|xs| - 1];
      FilterThenFilter(init, p, q, pq);
      FilterAppend(Filter(init, p), if p(last) then [last] else [], q);
    }
  }

  // ---------------------------------------------------------------------------
  // The row predicates behind the three filters
  // ---------------------------------------------------------------------------

  /** The row holds `value` at position `column`. */
  function AtColumn(column: int, value: int): Row -> bool {
    (x: Row) => 0 <= column < |x| && x[column] == value
  }

  /** The row's digit at position `column` is none of `disallowed`. */
  function NotAtColumn(column: int, disallowed: seq<int>): Row -> bool {
    (x: Row) => 0 <= column < |x| && x[column] !in disallowed
  }

  /** The numeral the row denotes is a multiple of `divisor`. */
  function DivisibleBy(divisor: int): Row -> bool
    requires divisor > 0
  {
    (x: Row) => AllDigits(x) && Value(x) % divisor == 0
  }

  /** Every row of `xs` has a position `column`. */
  predicate HasColumn(xs: seq<Row>, column: int) {
    0 <= column && forall i :: 0 <= i < |xs| ==> column < |xs[i]|
  }

  predicate AllDigitRows(xs: seq<Row>) {
    forall i :: 0 <= i < |xs| ==> AllDigits(xs[i])
  }

  /** The running remainder `(remainder * 10 + digit) % divisor` cannot leave
    * the 32-bit signed range for any remainder below `divisor`. */
  predicate NoOverflow(divisor: int) {
    (divisor - 1) * 10 + 9 <= IntMax
  }

  // ---------------------------------------------------------------------------
  // The three filters
  // ---------------------------------------------------------------------------

  /** Keeps the rows whose digit at `column` is `value`. */
  method FilterByColumn(numbers: seq<Row>, column: int, value: int) returns (filtered: seq<Row>)
    requires HasColumn(numbers, column)
    ensures filtered == Filter(numbers, AtColumn(column, value))
  {
    filtered := [];
    for i := 0 to |numbers|
      invariant filtered == Filter(numbers[..i], AtColumn(column, value))
    {
      assert numbers[..i + 1][..i] == numbers[..i];
      if numbers[i][column] == value {
        filtered := filtered + [numbers[i]];
      }
    }
    assert numbers[..|numbers|] == numbers;
  }

  /** Drops the rows whose digit at `column` is one of `disallowedValues`. */
  method FilterDisallowedValues(numbers: seq<Row>, column: int, disallowedValues: seq<int>)
    returns (filtered: seq<Row>)
    requires HasColumn(numbers, column)
    ensures filtered == Filter(numbers, NotAtColumn(column, disallowedValues))
  {
    var disallowedSet := set v | v in disallowedValues;
    filtered := [];
    for i := 0 to |numbers|
      invariant filtered == Filter(numbers[..i], NotAtColumn(column, disallowedValues))
    {
      assert numbers[..i + 1][..i] == numbers[..i];
      if numbers[i][column] !in disallowedSet {
        filtered := filtered + [numbers[i]];
      }
    }
    assert numbers[..|numbers|] == numbers;
  }

  /** Keeps the rows whose numeral is a multiple of `candidateGCD`, computing
    * the remainder digit by digit so that no intermediate leaves 32 bits. */
  method FilterDivisibleByCandidate(options: seq<Row>, candidateGCD: int) returns (filtered: seq<Row>)
    requires AllDigitRows(options)
    requires candidateGCD > 0 && NoOverflow(candidateGCD)
    ensures filtered == Filter(options, DivisibleBy(candidateGCD))
  {
    filtered := [];
    for i := 0 to |options|
      invariant filtered == Filter(options[..i], DivisibleBy(candidateGCD))
    {
      assert options[..i + 1][..i] == options[..i];
      var opt := options[i];
      var remainder := RunningRemainder(opt, candidateGCD);
      if remainder == 0 {
        filtered := filtered + [opt];
      }
    }
    assert options[..|options|] == options;
  }

  /** The inner loop of `FilterDivisibleByCandidate`: the remainder of the
    * row's numeral, accumulated most significant digit first. */
  method RunningRemainder(opt: Row, candidateGCD: int) returns (remainder: int)
    requires AllDigits(opt)
    requires candidateGCD > 0 && NoOverflow(candidateGCD)
    ensures 0 <= remainder < candidateGCD
    ensures remainder == Value(opt) % candidateGCD
  {
    remainder := 0;
    for k := 0 to |opt|
      invariant 0 <= remainder < candidateGCD
      invariant remainder == Value(opt[..k]) % candidateGCD
    {
      assert opt[..k + 1][..k] == opt[..k];
      // the 32-bit intermediate of the source stays in range
      assert remainder * 10 + opt[k] <= IntMax;
      RemainderStep(Value(opt[..k]), opt[k], candidateGCD);
      remainder := (remainder * 10 + opt[k]) % candidateGCD;
    }
    assert opt[..|opt|] == opt;
  }

  /** Dropping nothing leaves the list unchanged. */
  lemma DisallowNothing(numbers: seq<Row>, column: int)
    requires HasColumn(numbers, column)
    ensures Filter(numbers, NotAtColumn(column, [])) == numbers
  {
    FilterKeepsAll(numbers, NotAtColumn(column, []));
  }

  // ---------------------------------------------------------------------------
  // Per-row configuration
  // ---------------------------------------------------------------------------

  /** The clues of one grid row: fixed digits at positions, and digits that
    * may not stand at given positions. */
  datatype RowSpec = RowSpec(clues: seq<(int, int)>, disallowed: seq<(int, seq<int>)>)

  /** Every position a row spec names lies in `0..8`. */
  predicate WellFormedSpec(spec: RowSpec) {
    && (forall k :: 0 <= k < |spec.clues| ==> 0 <= spec.clues[k].0 < 9)
    && (forall k :: 0 <= k < |spec.disallowed| ==> 0 <= spec.disallowed[k].0 < 9)
  }

  /** The row obeys every clue of `spec`. */
  predicate Satisfies(x: Row, spec: RowSpec) {
    && (forall k :: 0 <= k < |spec.clues| ==> AtColumn(spec.clues[k].0, spec.clues[k].1)(x))
    && (forall k :: 0 <= k < |spec.disallowed| ==>
          NotAtColumn(spec.disallowed[k].0, spec.disallowed[k].1)(x))
  }

  function SatisfiesSpec(spec: RowSpec): Row -> bool {
    (x: Row) => Satisfies(x, spec)
  }

  /** Obeys the first `n` fixed-digit clues. */
  function CluesUpTo(spec: RowSpec, n: int): Row -> bool
    requires 0 <= n <= |spec.clues|
  {
    (x: Row) => forall k :: 0 <= k < n ==> AtColumn(spec.clues[k].0, spec.clues[k].1)(x)
  }

  /** Obeys every fixed-digit clue and the first `n` disallowed-digit clues. */
  function DisallowedUpTo(spec: RowSpec, n: int): Row -> bool
    requires 0 <= n <= |spec.disallowed|
  {
    (x: Row) =>
      && CluesUpTo(spec, |spec.clues|)(x)
      && forall k :: 0 <= k < n ==> NotAtColumn(spec.disallowed[k].0, spec.disallowed[k].1)(x)
  }

  lemma ClueStep(pool: seq<Row>, spec: RowSpec, k: int)
    requires 0 <= k < |spec.clues|
    ensures Filter(Filter(pool, CluesUpTo(spec, k)), AtColumn(spec.clues[k].0, spec.clues[k].1))
         == Filter(pool, CluesUpTo(spec, k + 1))
  {
    FilterThenFilter(pool, CluesUpTo(spec, k), AtColumn(spec.clues[k].0, spec.clues[k].1),
                     CluesUpTo(spec, k + 1));
  }

  lemma DisallowedStep(pool: seq<Row>, spec: RowSpec, k: int)
    requires 0 <= k < |spec.disallowed|
    ensures Filter(Filter(pool, DisallowedUpTo(spec, k)), NotAtColumn(spec.disallowed[k].0, spec.disallowed[k].1))
         == Filter(pool, DisallowedUpTo(spec, k + 1))
  {
    FilterThenFilter(pool, DisallowedUpTo(spec, k), NotAtColumn(spec.disallowed[k].0, spec.disallowed[k].1),
                     DisallowedUpTo(spec, k + 1));
  }

  lemma NoCluesKeepAll(pool: seq<Row>, spec: RowSpec)
    ensures Filter(pool, CluesUpTo(spec, 0)) == pool
  {
    FilterKeepsAll(pool, CluesUpTo(spec, 0));
  }

  lemma CluesThenNoDisallowed(pool: seq<Row>, spec: RowSpec)
    ensures Filter(pool, CluesUpTo(spec, |spec.clues|)) == Filter(pool, DisallowedUpTo(spec, 0))
  {
    FilterSamePredicate(pool, CluesUpTo(spec, |spec.clues|), DisallowedUpTo(spec, 0));
  }

  lemma AllDisallowedIsSpec(pool: seq<Row>, spec: RowSpec)
    ensures Filter(pool, DisallowedUpTo(spec, |spec.disallowed|)) == Filter(pool, SatisfiesSpec(spec))
  {
    forall i | 0 <= i < |pool|
      ensures DisallowedUpTo(spec, |spec.disallowed|)(pool[i]) == SatisfiesSpec(spec)(pool[i])
    {
      var x := pool[i];
      assert CluesUpTo(spec, |spec.clues|)(x) == forall k :: 0 <= k < |spec.clues| ==> AtColumn(spec.clues[k].0, spec.clues[k].1)(x);
    }
    FilterSamePredicate(pool, DisallowedUpTo(spec, |spec.disallowed|), SatisfiesSpec(spec));
  }

  /** Rows that all have nine positions keep them through any filter. */
  lemma FilterHasColumn(xs: seq<Row>, p: Row -> bool, column: int)
    requires HasColumn(xs, 8) && 0 <= column < 9
    ensures HasColumn(Filter(xs, p), column)
  {
    var r := Filter(xs, p);
    forall i | 0 <= i < |r| ensures column < |r[i]| {
      assert r[i] in r;
    }
  }

  /** Builds one row's candidate list from the pool: first one column filter
    * per fixed-digit clue, then one disallowed-values filter per entry. */
  method ApplyRowSpec(pool: seq<Row>, spec: RowSpec) returns (options: seq<Row>)
    requires WellFormedSpec(spec) && HasColumn(pool, 8)
    ensures options == Filter(pool, SatisfiesSpec(spec))
  {
    options := pool;
    NoCluesKeepAll(pool, spec);
    for k := 0 to |spec.clues|
      invariant options == Filter(pool, CluesUpTo(spec, k))
    {
      var column, value := spec.clues[k].0, spec.clues[k].1;
      FilterHasColumn(pool, CluesUpTo(spec, k), column);
      options := FilterByColumn(options, column, value);
      ClueStep(pool, spec, k);
    }
    CluesThenNoDisallowed(pool, spec);
    for k := 0 to |spec.disallowed|
      invariant options == Filter(pool, DisallowedUpTo(spec, k))
    {
      var column, disallowedValues := spec.disallowed[k].0, spec.disallowed[k].1;
      FilterHasColumn(pool, DisallowedUpTo(spec, k), column);
      options := FilterDisallowedValues(options, column, disallowedValues);
      DisallowedStep(pool, spec, k);
    }
    AllDisallowedIsSpec(pool, spec);
  }

  /** A row's candidate list holds exactly the pool rows that obey the row's
    * clues, in pool order. */
  lemma ApplyRowSpecMembership(pool: seq<Row>, spec: RowSpec, x: Row)
    ensures x in Filter(pool, SatisfiesSpec(spec)) <==> x in pool && Satisfies(x, spec)
    ensures IsSubsequence(Filter(pool, SatisfiesSpec(spec)), pool)
  {
    FilterMembership(pool, SatisfiesSpec(spec), x);
    FilterIsSubsequence(pool, SatisfiesSpec(spec));
  }
}
