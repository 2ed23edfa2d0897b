/** Digits, digit bit masks and the decimal value of a row.
  *
  * A candidate row of the puzzle is a 9-digit numeral; it is modelled as the
  * sequence of its digits (each 0..9), most significant first.  The solver keeps
  * sets of digits as bit masks in a machine `int`, bit `d` standing for digit `d`;
  * `Mask` is that word as a 32-bit bit-vector.
  */
module Digits {

  /** One candidate row: the digits of a numeral, most significant first. */
  type Row = seq<int>

  /** The source's `int` used as a set of digits, bit `d` for digit `d`. */
  type Mask = bv32

  /** The largest value of the source's 32-bit signed `int`. */
  const IntMax: int := 0x7fff_ffff

  predicate IsDigit(d: int) {
    0 <= d <= 9
  }

  predicate AllDigits(s: seq<int>) {
    forall i :: 0 <= i < |s| ==> IsDigit(s[i])
  }

  predicate Distinct(s: seq<int>) {
    forall i, j :: 0 <= i < j < |s| ==> s[i] != s[j]
  }

  /** `required` is a sub-collection of the digits of `s`. */
  predicate ContainsAll(s: seq<int>, required: seq<int>) {
    forall k :: 0 <= k < |required| ==> required[k] in s
  }

  // ---------------------------------------------------------------------------
  // Bit masks.  The shift amount goes through a 5-bit vector so that the
  // bit-level facts stay inside the solver's bit-vector theory.
  // ---------------------------------------------------------------------------

  /** Digit `d` as a shift amount (only ever applied to digits). */
  function Shift(d: int): (x: bv5)
    ensures x < 10
  {
    if d == 0 then 0 else if d == 1 then 1 else if d == 2 then 2
    else if d == 3 then 3 else if d == 4 then 4 else if d == 5 then 5
    else if d == 6 then 6 else if d == 7 then 7 else if d == 8 then 8
    else 9
  }

  lemma ShiftInjective(d: int, e: int)
    requires IsDigit(d) && IsDigit(e)
    ensures Shift(d) == Shift(e) <==> d == e
  {
  }

  function BitAt(x: bv5): Mask {
    1 << x
  }

  predicate HasAt(m: Mask, x: bv5) {
    m & BitAt(x) != 0
  }

  lemma HasAtOr(m: Mask, x: bv5, y: bv5)
    requires x < 10 && y < 10
    ensures HasAt(m | BitAt(x), y) <==> HasAt(m, y) || x == y
  {
  }

  /** `1 << d` */
  function Bit(d: int): Mask {
    BitAt(Shift(d))
  }

  /** Bit `d` of `m` is set: digit `d` is marked in mask `m`. */
  predicate Has(m: Mask, d: int)
    decreases d
  {
    if d <= 0 then m & 1 == 1 else Has(m >> 1, d - 1)
  }

  /** `Has` is the source's test `(m & (1 << d)) != 0`. */
  lemma {:induction false} HasBit(m: Mask, d: int)
    requires IsDigit(d)
    ensures Has(m, d) <==> HasAt(m, Shift(d))
    decreases d
  {
    if d > 0 {
      HasBit(m >> 1, d - 1);
      HasAtShift(m, Shift(d));
    } else {
      assert BitAt(0) == 1;
    }
  }

  lemma HasAtShift(m: Mask, x: bv5)
    requires 1 <= x < 10
    ensures HasAt(m >> 1, x - 1) <==> HasAt(m, x)
  {
  }

  /** Or-ing in the bit of `d` marks `d` and nothing else. */
  lemma HasOr(m: Mask, d: int, e: int)
    requires IsDigit(d) && IsDigit(e)
    ensures Has(m | Bit(d), e) <==> Has(m, e) || d == e
  {
    HasOrAt(m, Shift(d), e);
    ShiftInjective(d, e);
  }

  lemma HasOrAt(m: Mask, x: bv5, e: int)
    requires x < 10 && IsDigit(e)
    ensures Has(m | BitAt(x), e) <==> Has(m, e) || x == Shift(e)
  {
    HasBit(m, e);
    HasBit(m | BitAt(x), e);
    HasAtOr(m, x, Shift(e));
  }

  /** `HasOr` for every digit at once. */
  lemma HasOrAll(m: Mask, d: int)
    requires IsDigit(d)
    ensures forall e :: IsDigit(e) ==> (Has(m | Bit(d), e) <==> Has(m, e) || d == e)
  {
    forall e | IsDigit(e) ensures Has(m | Bit(d), e) <==> Has(m, e) || d == e {
      HasOr(m, d, e);
    }
  }

  /** The empty mask marks no digit. */
  lemma HasNone(e: int)
    requires IsDigit(e)
    ensures !Has(0, e)
  {
    HasBit(0, e);
  }

  /** `m` marks exactly the digits that occur in `s`. */
  ghost predicate MaskHolds(m: Mask, s: seq<int>) {
    forall d :: IsDigit(d) ==> (Has(m, d) <==> d in s)
  }

  /** The empty mask is the mask of the empty sequence. */
  lemma MaskHoldsEmpty()
    ensures MaskHolds(0, [])
  {
    forall d | IsDigit(d) ensures !Has(0, d) {
      HasNone(d);
    }
  }

  /** Or-ing in the bit of `x` extends the encoded digits by `x`. */
  lemma MaskHoldsAdd(m: Mask, s: seq<int>, x: int)
    requires MaskHolds(m, s) && IsDigit(x)
    ensures MaskHolds(m | Bit(x), s + [x])
  {
    forall d | IsDigit(d) ensures Has(m | Bit(x), d) <==> d in s + [x] {
      HasOr(m, x, d);
      assert d in s + [x] <==> d in s || d == x;
    }
  }

  /** `m` marks exactly the digits in the set `s`. */
  ghost predicate MarksSet(m: Mask, s: set<int>) {
    forall d :: IsDigit(d) ==> (Has(m, d) <==> d in s)
  }

  /** The empty mask marks no digit. */
  lemma MarksSetNone()
    ensures MarksSet(0, {})
  {
    forall d | IsDigit(d) ensures !Has(0, d) {
      HasNone(d);
    }
  }

  /** `m` is `m0` with exactly the digits of `s` marked in addition. */
  ghost predicate Marked(m: Mask, m0: Mask, s: set<int>) {
    forall d :: IsDigit(d) ==> (Has(m, d) <==> Has(m0, d) || d in s)
  }

  /** Or-ing in the bit of `x` adds `x` to the digits marked. */
  lemma MarkedAdd(m: Mask, m0: Mask, s: set<int>, x: int)
    requires Marked(m, m0, s) && IsDigit(x)
    ensures Marked(m | Bit(x), m0, s + {x})
  {
    HasOrAll(m, x);
  }

  /** Marking the digits of `s` in a mask of `s0` gives a mask of `s0 + s`. */
  lemma MarksSetMarked(m: Mask, m0: Mask, s0: set<int>, s: set<int>)
    requires MarksSet(m0, s0) && Marked(m, m0, s)
    ensures MarksSet(m, s0 + s)
  {
  }

  /** A mask of `s` has the bit of `x` set exactly when `x` is in `s`. */
  lemma MarksSetHas(m: Mask, s: set<int>, x: int)
    requires MarksSet(m, s) && IsDigit(x)
    ensures Has(m, x) <==> x in s
  {
  }

  // ---------------------------------------------------------------------------
  // Decimal value
  // ---------------------------------------------------------------------------

  /** The number a row of digits denotes in decimal. */
  function Value(s: seq<int>): nat
    requires AllDigits(s)
  {
    if s == [] then 0 else Value(s[..|s| - 1]) * 10 + s[|s| - 1]
  }

  /** Taking the remainder early does not change the remainder of the next
    * decimal step: the running-remainder recurrence is sound. */
  lemma RemainderStep(a: nat, c: nat, d: int)
    requires d > 0
    ensures ((a % d) * 10 + c) % d == (a * 10 + c) % d
  {
    var q, r := a / d, a % d;
    assert a * 10 + c == (r * 10 + c) + (q * 10) * d;
    AddMultipleMod(r * 10 + c, q * 10, d);
  }

  lemma AddMultipleMod(x: nat, k: nat, d: int)
    requires d > 0
    ensures (x + k * d) % d == x % d
  {
    var q, r := x / d, x % d;
    assert x + k * d == (q + k) * d + r;
    ModUnique(x + k * d, d, q + k, r);
  }

  /** The remainder is the unique `r` in `0..d-1` with `a == q * d + r`. */
  lemma ModUnique(a: int, d: int, q: int, r: int)
    requires d > 0 && 0 <= r < d && a == q * d + r
    ensures a % d == r
  {
    var q', r' := a / d, a % d;
    assert (q - q') * d == r' - r;
    if q > q' {
      MulAtLeast(q - q', d);
    } else if q < q' {
      MulAtLeast(q' - q, d);
    }
  }

  lemma MulAtLeast(n: int, d: int)
    requires n >= 1 && d > 0
    ensures n * d >= d
  {
  }
}
