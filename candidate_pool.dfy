/** The pool of candidate rows: every 9-digit string that uses nine distinct
  * digits out of ten and contains each required digit.
  *
  * For each digit that may be left out (one that is not required) the pool
  * generator writes the other nine digits in ascending order, walks through
  * all orderings of them and keeps those that pass the required-digit check.
  * The library routine that steps from one ordering to the next is replaced
  * by the set of all orderings, `Permutations`, which is proved to be exactly
  * the rearrangements of its argument.
  */
module CandidatePool {
  import opened Digits

  // ---------------------------------------------------------------------------
  // Required-digit check
  // ---------------------------------------------------------------------------

  /** The digits of `number` are collected into a bit mask, which is then
    * probed for each required digit. */
  method ContainsRequiredDigits(number: Row, requiredDigits: seq<int>) returns (ok: bool)
    requires AllDigits(number) && AllDigits(requiredDigits)
    ensures ok <==> ContainsAll(number, requiredDigits)
  {
    var digitMask: Mask := 0;
    MaskHoldsEmpty();
    for i := 0 to |number|
      invariant MaskHolds(digitMask, number[..i])
    {
      MaskHoldsAdd(digitMask, number[..i], number[i]);
      assert number[..i + 1] == number[..i] + [number[i]];
      digitMask := digitMask | Bit(number[i]);
    }
    assert number[..|number|] == number;
    for k := 0 to |requiredDigits|
      invariant ContainsAll(number, requiredDigits[..k])
    {
      if !Has(digitMask, requiredDigits[k]) {
        return false;
      }
      assert requiredDigits[..k + 1] == requiredDigits[..k] + [requiredDigits[k]];
    }
    assert requiredDigits[..|requiredDigits|] == requiredDigits;
    return true;
  }

  // ---------------------------------------------------------------------------
  // The nine-digit alphabet
  // ---------------------------------------------------------------------------

  predicate StrictlyAscending(s: seq<int>) {
    forall i, j :: 0 <= i < j < |s| ==> s[i] < s[j]
  }

  /** `alphabet` lists, in ascending order, every digit except `skipDigit`. */
  ghost predicate IsAlphabetWithout(alphabet: Row, skipDigit: int) {
    && |alphabet| == 9
    && StrictlyAscending(alphabet)
    && forall d :: d in alphabet <==> IsDigit(d) && d != skipDigit
  }

  /** Writes out the digits `0..9` except `skipDigit`. */
  method BuildAlphabet(skipDigit: int) returns (digits: Row)
    requires IsDigit(skipDigit)
    ensures IsAlphabetWithout(digits, skipDigit)
  {
    digits := [];
    for d := 0 to 10
      invariant StrictlyAscending(digits)
      invariant forall i :: 0 <= i < |digits| ==> digits[i] < d
      invariant forall x :: x in digits <==> 0 <= x < d && x != skipDigit
      invariant |digits| == if skipDigit < d then d - 1 else d
    {
      if d != skipDigit {
        digits := digits + [d];
      }
    }
  }

  // ---------------------------------------------------------------------------
  // Orderings
  // ---------------------------------------------------------------------------

  function RemoveAt(s: Row, i: int): (r: Row)
    requires 0 <= i < |s|
    ensures multiset(r) + multiset{s[i]} == multiset(s)
  {
    assert s == s[..i] + [s[i]] + s[i + 1..];
    s[..i] + s[i + 1..]
  }

  /** All orderings of `s`: each element of `s` in turn, followed by an
    * ordering of the rest. */
  function Permutations(s: Row): (ps: set<Row>)
    ensures forall p :: p in ps ==> multiset(p) == multiset(s)
    decreases |s|
  {
    if s == [] then {[]}
    else set i, p | 0 <= i < |s| && p in Permutations(RemoveAt(s, i)) :: [s[i]] + p
  }

  /** Every rearrangement of `s` is one of its orderings. */
  lemma {:induction false} PermutationsComplete(s: Row, p: Row)
    requires multiset(p) == multiset(s)
    ensures p in Permutations(s)
    decreases |s|
  {
    assert |p| == |multiset(p)| == |multiset(s)| == |s|;
    if s != [] {
      assert p[0] in multiset(p);
      var i :| 0 <= i < |s| && s[i] == p[0];
      TailRearranged(s, p, i);
      PermutationsComplete(RemoveAt(s, i), p[1..]);
      PermutationsCons(s, i, p[1..]);
      HeadTail(p);
    }
  }

  lemma HeadTail(p: Row)
    requires p != []
    ensures [p[0]] + p[1..] == p
  {
  }

  /** An element followed by an ordering of the others is an ordering. */
  lemma PermutationsCons(s: Row, i: int, q: Row)
    requires 0 <= i < |s| && q in Permutations(RemoveAt(s, i))
    ensures [s[i]] + q in Permutations(s)
  {
  }

  /** Taking the same element off the front of a rearrangement leaves a
    * rearrangement of the rest. */
  lemma TailRearranged(s: Row, p: Row, i: int)
    requires multiset(p) == multiset(s) && 0 <= i < |s| && p != [] && s[i] == p[0]
    ensures multiset(p[1..]) == multiset(RemoveAt(s, i))
  {
    var rest := RemoveAt(s, i);
    assert multiset(rest) + multiset{s[i]} == multiset(s);
    assert p == [p[0]] + p[1..];
    assert multiset(p[1..]) + multiset{p[0]} == multiset(p);
    assert multiset(p[1..]) == multiset(p) - multiset{p[0]};
  }

  /** The thread body of the pool generator: every ordering of `digits` that
    * contains all required digits. */
  method CollectPermutations(digits: Row, requiredDigits: seq<int>) returns (localValidNumbers: seq<Row>)
    requires AllDigits(digits) && AllDigits(requiredDigits)
    ensures forall s :: s in localValidNumbers <==> s in Permutations(digits) && ContainsAll(s, requiredDigits)
  {
    localValidNumbers := [];
    var remaining := Permutations(digits);
    while remaining != {}
      invariant remaining <= Permutations(digits)
      invariant forall s :: s in localValidNumbers <==>
        s in Permutations(digits) && s !in remaining && ContainsAll(s, requiredDigits)
      decreases remaining
    {
      var localDigits :| localDigits in remaining;
      SameDigits(digits, localDigits);
      var ok := ContainsRequiredDigits(localDigits, requiredDigits);
      if ok {
        localValidNumbers := localValidNumbers + [localDigits];
      }
      remaining := remaining - {localDigits};
    }
  }

  // ---------------------------------------------------------------------------
  // Rearrangements and digit sets
  // ---------------------------------------------------------------------------

  /** A rearrangement has the same elements. */
  lemma SameElements(a: Row, b: Row, x: int)
    requires multiset(a) == multiset(b)
    ensures x in a <==> x in b
  {
    assert x in a <==> x in multiset(a);
    assert x in b <==> x in multiset(b);
  }

  lemma SameDigits(a: Row, b: Row)
    requires multiset(a) == multiset(b) && AllDigits(a)
    ensures AllDigits(b)
  {
    forall i | 0 <= i < |b| ensures IsDigit(b[i]) {
      SameElements(a, b, b[i]);
    }
  }

  /** In a sequence of distinct elements every element occurs once. */
  lemma {:induction false} DistinctCount(s: Row, x: int)
    requires Distinct(s)
    ensures multiset(s)[x] == if x in s then 1 else 0
  {
    if s != [] {
      var init, last := s[..|s| - 1], s[|s| - 1];
      assert s == init + [last];
      DistinctCount(init, x);
    }
  }

  /** A sequence in which nothing occurs twice has distinct elements. */
  lemma CountsOneDistinct(s: Row)
    requires forall x :: multiset(s)[x] <= 1
    ensures Distinct(s)
  {
    forall i, j | 0 <= i < j < |s| ensures s[i] != s[j] {
      assert s == s[..i] + [s[i]] + s[i + 1..j] + [s[j]] + s[j + 1..];
      var m := multiset(s);
      assert m == multiset(s[..i]) + multiset{s[i]} + multiset(s[i + 1..j]) + multiset{s[j]} + multiset(s[j + 1..]);
      assert m[s[i]] >= 1 + multiset{s[j]}[s[i]];
    }
  }

  /** Distinct sequences with the same elements are rearrangements of each other. */
  lemma DistinctSameElements(a: Row, b: Row)
    requires Distinct(a) && Distinct(b)
    requires forall x :: x in a <==> x in b
    ensures multiset(a) == multiset(b)
  {
    forall x ensures multiset(a)[x] == multiset(b)[x] {
      DistinctCount(a, x);
      DistinctCount(b, x);
    }
  }

  function Elements(s: Row): (e: set<int>)
    ensures forall x :: x in e <==> x in s
  {
    set x | x in s
  }

  lemma {:induction false} DistinctElements(s: Row)
    requires Distinct(s)
    ensures |Elements(s)| == |s|
  {
    if s != [] {
      var init, last := s[..|s| - 1], s[|s| - 1];
      assert Elements(s) == Elements(init) + {last};
      assert last !in Elements(init);
      DistinctElements(init);
    }
  }

  lemma SubsetSize(a: set<int>, b: set<int>)
    requires a <= b
    ensures |a| <= |b|
    ensures a != b ==> |a| < |b|
  {
    var c := b - a;
    assert b == a + c;
    assert a * c == {};
    if a != b {
      assert c != {};
    }
  }

  /** The set `{0, ..., n - 1}`. */
  function DigitsBelow(n: nat): set<int> {
    if n == 0 then {} else DigitsBelow(n - 1) + {n - 1}
  }

  lemma {:induction false} DigitsBelowSize(n: nat)
    ensures |DigitsBelow(n)| == n
    ensures forall d :: d in DigitsBelow(n) <==> 0 <= d < n
  {
    if n > 0 {
      DigitsBelowSize(n - 1);
    }
  }

  // ---------------------------------------------------------------------------
  // Pool rows
  // ---------------------------------------------------------------------------

  /** The pool's membership predicate. */
  predicate IsPoolRow(s: Row, requiredDigits: seq<int>) {
    && |s| == 9
    && AllDigits(s)
    && Distinct(s)
    && ContainsAll(s, requiredDigits)
  }

  /** Nine distinct digits leave out exactly one of the ten. */
  lemma OmitsOneDigit(s: Row)
    requires |s| == 9 && AllDigits(s) && Distinct(s)
    ensures exists k :: IsDigit(k) && k !in s
  {
    DistinctElements(s);
    var k := MissingDigit(Elements(s));
    assert IsDigit(k) && k !in s;
  }

  /** A set of fewer than ten numbers misses some digit: the first one found
    * counting up from 0. */
  lemma MissingDigit(present: set<int>) returns (k: int)
    requires |present| < 10
    ensures IsDigit(k) && k !in present
  {
    k := 0;
    while k < 10 && k in present
      invariant 0 <= k <= |present|
      invariant DigitsBelow(k) <= present
    {
      k := k + 1;
      DigitsBelowSize(k);
      SubsetSize(DigitsBelow(k), present);
    }
  }

  /** Nine distinct digits without `k` are all the digits but `k`. */
  lemma AllButOmitted(s: Row, k: int)
    requires |s| == 9 && AllDigits(s) && Distinct(s)
    requires IsDigit(k) && k !in s
    ensures forall d :: d in s <==> IsDigit(d) && d != k
  {
    var others := DigitsBelow(10) - {k};
    DistinctElements(s);
    OthersSize(k);
    ElementsWithin(s, k);
    SubsetSize(Elements(s), others);
    assert Elements(s) == others;
  }

  /** The digits other than `k`: nine of them. */
  lemma OthersSize(k: int)
    requires IsDigit(k)
    ensures |DigitsBelow(10) - {k}| == 9
    ensures forall d :: d in DigitsBelow(10) - {k} <==> IsDigit(d) && d != k
  {
    DigitsBelowSize(10);
    assert DigitsBelow(10) == (DigitsBelow(10) - {k}) + {k};
  }

  lemma ElementsWithin(s: Row, k: int)
    requires AllDigits(s) && IsDigit(k) && k !in s
    ensures Elements(s) <= DigitsBelow(10) - {k}
  {
    DigitsBelowSize(10);
    forall x | x in Elements(s) ensures IsDigit(x) && x != k {
      assert x in s;
      var i :| 0 <= i < |s| && s[i] == x;
      assert IsDigit(s[i]);
    }
  }

  /** A pool row leaves out exactly one digit, and that digit is not required. */
  lemma PoolRowOmitsExactlyOne(s: Row, requiredDigits: seq<int>)
    requires IsPoolRow(s, requiredDigits)
    ensures exists k :: IsDigit(k) && k !in requiredDigits && forall d :: d in s <==> IsDigit(d) && d != k
  {
    OmitsOneDigit(s);
    var k :| IsDigit(k) && k !in s;
    AllButOmitted(s, k);
  }

  /** The orderings of the alphabet without a non-required digit, once
    * checked for the required digits, are exactly the pool rows that leave
    * that digit out. */
  lemma PermutationIsPoolRow(alphabet: Row, skipDigit: int, requiredDigits: seq<int>, s: Row)
    requires IsDigit(skipDigit) && IsAlphabetWithout(alphabet, skipDigit)
    ensures (s in Permutations(alphabet) && ContainsAll(s, requiredDigits))
        <==> (IsPoolRow(s, requiredDigits) && skipDigit !in s)
  {
    assert Distinct(alphabet);
    if s in Permutations(alphabet) {
      assert multiset(s) == multiset(alphabet);
      assert |s| == |multiset(s)| == |multiset(alphabet)| == 9;
      forall x ensures multiset(s)[x] <= 1 {
        DistinctCount(alphabet, x);
      }
      CountsOneDistinct(s);
      SameElements(alphabet, s, skipDigit);
      forall i | 0 <= i < |s| ensures IsDigit(s[i]) {
        SameElements(alphabet, s, s[i]);
      }
    }
    if IsPoolRow(s, requiredDigits) && skipDigit !in s {
      AllButOmitted(s, skipDigit);
      DistinctSameElements(s, alphabet);
      PermutationsComplete(alphabet, s);
    }
  }

  /** No pool row leaves out a required digit. */
  lemma RequiredNeverOmitted(s: Row, requiredDigits: seq<int>, k: int)
    requires IsPoolRow(s, requiredDigits) && k in requiredDigits
    ensures k in s
  {
    var j :| 0 <= j < |requiredDigits| && requiredDigits[j] == k;
  }

  /** The orderings of an alphabet that leaves out a non-required digit all
    * pass the required-digit check: the check in the generator never rejects. */
  lemma RequiredCheckRedundant(alphabet: Row, skipDigit: int, requiredDigits: seq<int>, s: Row)
    requires IsDigit(skipDigit) && IsAlphabetWithout(alphabet, skipDigit)
    requires AllDigits(requiredDigits) && skipDigit !in requiredDigits
    requires s in Permutations(alphabet)
    ensures ContainsAll(s, requiredDigits)
  {
    forall k | 0 <= k < |requiredDigits| ensures requiredDigits[k] in s {
      SameElements(alphabet, s, requiredDigits[k]);
    }
  }

  // ---------------------------------------------------------------------------
  // The generator
  // ---------------------------------------------------------------------------

  /** Some digit below `n` is missing from `s`. */
  predicate OmitsBelow(s: Row, n: int) {
    exists k :: 0 <= k < n && k !in s
  }

  /** `validNumbers` holds exactly the pool rows that leave out a digit below `n`. */
  ghost predicate PoolBelow(validNumbers: seq<Row>, requiredDigits: seq<int>, n: int) {
    forall s :: s in validNumbers <==> IsPoolRow(s, requiredDigits) && OmitsBelow(s, n)
  }

  /** A required digit contributes no rows: no pool row leaves it out. */
  lemma SkipRequiredStep(validNumbers: seq<Row>, requiredDigits: seq<int>, skipDigit: int)
    requires PoolBelow(validNumbers, requiredDigits, skipDigit) && 0 <= skipDigit && skipDigit in requiredDigits
    ensures PoolBelow(validNumbers, requiredDigits, skipDigit + 1)
  {
    forall s | IsPoolRow(s, requiredDigits) && OmitsBelow(s, skipDigit + 1)
      ensures OmitsBelow(s, skipDigit)
    {
      RequiredNeverOmitted(s, requiredDigits, skipDigit);
    }
  }

  /** Appending the rows that leave out `skipDigit` extends the pool by that digit. */
  lemma AppendSkipStep(validNumbers: seq<Row>, localValidNumbers: seq<Row>, requiredDigits: seq<int>, skipDigit: int)
    requires PoolBelow(validNumbers, requiredDigits, skipDigit) && 0 <= skipDigit
    requires forall s :: s in localValidNumbers <==> IsPoolRow(s, requiredDigits) && skipDigit !in s
    ensures PoolBelow(validNumbers + localValidNumbers, requiredDigits, skipDigit + 1)
  {
    forall s ensures s in validNumbers + localValidNumbers <==> IsPoolRow(s, requiredDigits) && OmitsBelow(s, skipDigit + 1) {
      OmitsBelowStep(s, skipDigit);
    }
  }

  lemma OmitsBelowStep(s: Row, n: int)
    ensures OmitsBelow(s, n + 1) <==> OmitsBelow(s, n) || (0 <= n && n !in s)
  {
    if OmitsBelow(s, n + 1) {
      var k :| 0 <= k < n + 1 && k !in s;
      if k < n {
        assert OmitsBelow(s, n);
      }
    }
  }

  /** Builds the pool: for each digit that is not required, the orderings of
    * the other nine digits that contain every required digit.  The result
    * holds exactly the pool rows. */
  method GeneratePool(requiredDigits: seq<int>) returns (validNumbers: seq<Row>)
    requires AllDigits(requiredDigits)
    ensures forall s :: s in validNumbers <==> IsPoolRow(s, requiredDigits)
  {
    validNumbers := [];
    for skipDigit := 0 to 10
      invariant PoolBelow(validNumbers, requiredDigits, skipDigit)
    {
      if skipDigit in requiredDigits {
        SkipRequiredStep(validNumbers, requiredDigits, skipDigit);
        continue;
      }
      var digits := BuildAlphabet(skipDigit);
      var localValidNumbers := CollectPermutations(digits, requiredDigits);
      forall s ensures s in localValidNumbers <==> IsPoolRow(s, requiredDigits) && skipDigit !in s {
        PermutationIsPoolRow(digits, skipDigit, requiredDigits, s);
      }
      AppendSkipStep(validNumbers, localValidNumbers, requiredDigits, skipDigit);
      validNumbers := validNumbers + localValidNumbers;
    }
    forall s | IsPoolRow(s, requiredDigits) ensures OmitsBelow(s, 10) {
      OmitsOneDigit(s);
    }
  }
}
