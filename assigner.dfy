/** The backtracking assigner: picks one candidate per grid row, visiting the
  * rows in a fixed order, and records every complete grid whose columns and
  * 3x3 boxes repeat no digit and which has a 0 in its first three columns.
  *
  * The search state is a class, `Solver`: a bit mask per column and per box
  * of the digits already placed there, the grid being filled in, and the list
  * of grids found.  Its recursive method `SolveFixed` is proved to append
  * exactly the grids that the reference enumeration `Search` lists, and to
  * leave the masks as it found them.  The lemmas at the end characterise
  * `Search`: it lists exactly the valid grids.
  */
module Assigner {
  import opened Digits

  /** A 9x9 grid, one row of digits per grid row. */
  type Grid = seq<Row>

  // ---------------------------------------------------------------------------
  // Grids, candidates and the row order
  // ---------------------------------------------------------------------------

  /** The 3x3 box that holds cell `(r, c)`, numbered row-major. */
  function GetBoxIndex(r: int, c: int): (b: int)
    requires 0 <= r < 9 && 0 <= c < 9
    ensures 0 <= b < 9
  {
    (r / 3) * 3 + (c / 3)
  }

  /** Box `b` lies in the band (third of the rows) of row `r` and in the stack
    * (third of the columns) of column `c`, so two cells share a box exactly
    * when they share both. */
  lemma BoxIndexBands(r: int, c: int)
    requires 0 <= r < 9 && 0 <= c < 9
    ensures GetBoxIndex(r, c) / 3 == r / 3 && GetBoxIndex(r, c) % 3 == c / 3
  {
  }

  /** A candidate row: nine digits. */
  predicate IsCandidate(x: Row) {
    |x| == 9 && AllDigits(x)
  }

  predicate IsGrid(g: Grid) {
    |g| == 9 && forall r :: 0 <= r < 9 ==> IsCandidate(g[r])
  }

  /** One candidate list per grid row. */
  predicate WellFormedCandidates(candidates: seq<seq<Row>>) {
    && |candidates| == 9
    && forall r, i :: 0 <= r < 9 && 0 <= i < |candidates[r]| ==> IsCandidate(candidates[r][i])
  }

  /** A visiting order: every row index `0..8` exactly once. */
  predicate IsRowOrder(order: seq<int>) {
    && |order| == 9
    && (forall k :: 0 <= k < 9 ==> 0 <= order[k] < 9)
    && Distinct(order)
    && forall r :: 0 <= r < 9 ==> r in order
  }

  /** The order the source visits rows in, most constrained first. */
  const FixedRowOrder: seq<int> := [1, 8, 5, 3, 6, 7, 2, 0, 4]

  lemma FixedRowOrderIsRowOrder()
    ensures IsRowOrder(FixedRowOrder)
  {
    assert FixedRowOrder[7] == 0 && FixedRowOrder[0] == 1 && FixedRowOrder[6] == 2;
    assert FixedRowOrder[3] == 3 && FixedRowOrder[8] == 4 && FixedRowOrder[2] == 5;
    assert FixedRowOrder[4] == 6 && FixedRowOrder[5] == 7 && FixedRowOrder[1] == 8;
  }

  /** The grid before any row is placed: all zeros. */
  function ZeroGrid(): (g: Grid)
    ensures IsGrid(g)
  {
    seq(9, _ => seq(9, _ => 0))
  }

  // ---------------------------------------------------------------------------
  // The zero-in-first-columns test
  // ---------------------------------------------------------------------------

  /** Some cell of the first three columns holds 0. */
  predicate ZeroInFirstColumns(g: Grid)
    requires IsGrid(g)
  {
    exists r, c :: 0 <= r < 9 && 0 <= c < 3 && g[r][c] == 0
  }

  /** Scans the first three columns, column by column, for a 0. */
  method HasZeroInFirstColumns(solution: Grid) returns (found: bool)
    requires IsGrid(solution)
    ensures found <==> ZeroInFirstColumns(solution)
  {
    for c := 0 to 3
      invariant forall c', r :: 0 <= c' < c && 0 <= r < 9 ==> solution[r][c'] != 0
    {
      for r := 0 to 9
        invariant forall c', r' :: 0 <= c' < c && 0 <= r' < 9 ==> solution[r'][c'] != 0
        invariant forall r' :: 0 <= r' < r ==> solution[r'][c] != 0
      {
        if solution[r][c] == 0 {
          return true;
        }
      }
    }
    return false;
  }

  // ---------------------------------------------------------------------------
  // Digits placed so far.  `order[..n]` are the rows placed, in placing order.
  // ---------------------------------------------------------------------------

  /** The digits that the placed rows hold in column `c`. */
  ghost function ColumnDigits(g: Grid, order: seq<int>, n: int, c: int): set<int>
    requires IsGrid(g) && IsRowOrder(order) && 0 <= n <= 9 && 0 <= c < 9
  {
    set k | 0 <= k < n :: g[order[k]][c]
  }

  /** The digits that the placed rows hold in box `b`. */
  ghost function BoxDigits(g: Grid, order: seq<int>, n: int, b: int): set<int>
    requires IsGrid(g) && IsRowOrder(order) && 0 <= n <= 9
  {
    set k, c | 0 <= k < n && 0 <= c < 9 && GetBoxIndex(order[k], c) == b :: g[order[k]][c]
  }

  /** The digits that the first `n` cells of `cand`, placed in row `r`, put in box `b`. */
  ghost function RowBoxDigits(cand: Row, r: int, n: int, b: int): set<int>
    requires IsCandidate(cand) && 0 <= r < 9 && 0 <= n <= 9
    decreases n
  {
    if n == 0 then {}
    else RowBoxDigits(cand, r, n - 1, b) + (if GetBoxIndex(r, n - 1) == b then {cand[n - 1]} else {})
  }

  /** A digit is in `RowBoxDigits` exactly when one of the first `n` cells of
    * `cand` that fall in box `b` holds it. */
  lemma {:induction false} RowBoxDigitsMember(cand: Row, r: int, n: int, b: int, x: int)
    requires IsCandidate(cand) && 0 <= r < 9 && 0 <= n <= 9
    ensures x in RowBoxDigits(cand, r, n, b) <==> exists c :: 0 <= c < n && GetBoxIndex(r, c) == b && cand[c] == x
  {
    if n > 0 {
      RowBoxDigitsMember(cand, r, n - 1, b, x);
      if x in RowBoxDigits(cand, r, n - 1, b) {
        var c :| 0 <= c < n - 1 && GetBoxIndex(r, c) == b && cand[c] == x;
        assert 0 <= c < n;
      }
    }
  }

  /** `cand` can go in the next row to place, `order[n]`, without repeating a
    * digit of a placed row in any column or box. */
  ghost predicate Fits(g: Grid, order: seq<int>, n: int, cand: Row)
    requires IsGrid(g) && IsRowOrder(order) && 0 <= n < 9 && IsCandidate(cand)
  {
    forall c :: 0 <= c < 9 ==>
      && cand[c] !in ColumnDigits(g, order, n, c)
      && cand[c] !in BoxDigits(g, order, n, GetBoxIndex(order[n], c))
  }

  /** `g` and `h` hold the same placed rows. */
  ghost predicate Agree(g: Grid, h: Grid, order: seq<int>, n: int)
    requires IsGrid(g) && IsGrid(h) && IsRowOrder(order) && 0 <= n <= 9
  {
    forall k :: 0 <= k < n ==> g[order[k]] == h[order[k]]
  }

  lemma DigitsFrame(g: Grid, h: Grid, order: seq<int>, n: int)
    requires IsGrid(g) && IsGrid(h) && IsRowOrder(order) && 0 <= n <= 9
    requires Agree(g, h, order, n)
    ensures forall c :: 0 <= c < 9 ==> ColumnDigits(g, order, n, c) == ColumnDigits(h, order, n, c)
    ensures forall b :: BoxDigits(g, order, n, b) == BoxDigits(h, order, n, b)
  {
  }

  /** Whether a candidate fits depends only on the rows already placed. */
  lemma FitsFrame(g: Grid, h: Grid, order: seq<int>, n: int, cand: Row)
    requires IsGrid(g) && IsGrid(h) && IsRowOrder(order) && 0 <= n < 9 && IsCandidate(cand)
    requires Agree(g, h, order, n)
    ensures Fits(g, order, n, cand) <==> Fits(h, order, n, cand)
  {
    DigitsFrame(g, h, order, n);
  }

  /** Placing `cand` in row `order[n]` adds its digit to each column. */
  lemma ColumnDigitsPlace(g: Grid, order: seq<int>, n: int, cand: Row, c: int)
    requires IsGrid(g) && IsRowOrder(order) && 0 <= n < 9 && IsCandidate(cand) && 0 <= c < 9
    ensures ColumnDigits(g[order[n] := cand], order, n + 1, c) == ColumnDigits(g, order, n, c) + {cand[c]}
  {
    var g' := g[order[n] := cand];
    forall k | 0 <= k < n ensures g'[order[k]] == g[order[k]] {
      assert order[k] != order[n];
    }
    DigitsFrame(g', g, order, n);
    assert g'[order[n]][c] == cand[c];
  }

  /** Placing `cand` in row `order[n]` adds to each box the digits it puts there. */
  lemma BoxDigitsPlace(g: Grid, order: seq<int>, n: int, cand: Row, b: int)
    requires IsGrid(g) && IsRowOrder(order) && 0 <= n < 9 && IsCandidate(cand)
    ensures BoxDigits(g[order[n] := cand], order, n + 1, b)
         == BoxDigits(g, order, n, b) + RowBoxDigits(cand, order[n], 9, b)
  {
    var g' := g[order[n] := cand];
    forall k | 0 <= k < n ensures g'[order[k]] == g[order[k]] {
      assert order[k] != order[n];
    }
    DigitsFrame(g', g, order, n);
    var lhs, rhs := BoxDigits(g', order, n + 1, b), BoxDigits(g, order, n, b) + RowBoxDigits(cand, order[n], 9, b);
    forall x | x in lhs ensures x in rhs {
      var k, c :| 0 <= k < n + 1 && 0 <= c < 9 && GetBoxIndex(order[k], c) == b && g'[order[k]][c] == x;
      if k < n {
        assert x in BoxDigits(g', order, n, b);
      } else {
        RowBoxDigitsMember(cand, order[n], 9, b, x);
      }
    }
    forall x | x in rhs ensures x in lhs {
      if x in BoxDigits(g, order, n, b) {
        assert x in BoxDigits(g', order, n, b);
        var k, c :| 0 <= k < n && 0 <= c < 9 && GetBoxIndex(order[k], c) == b && g'[order[k]][c] == x;
        assert x == g'[order[k]][c];
      } else {
        RowBoxDigitsMember(cand, order[n], 9, b, x);
        var c :| 0 <= c < 9 && GetBoxIndex(order[n], c) == b && cand[c] == x;
        assert x == g'[order[n]][c];
      }
    }
  }

  // ---------------------------------------------------------------------------
  // The reference enumeration
  // ---------------------------------------------------------------------------

  /** The grids the search lists from the state where `order[..pos]` are
    * placed in `g`: at depth 9 the grid itself if it has a 0 in its first
    * three columns; otherwise what each fitting candidate of the next row leads to,
    * candidates taken in list order. */
  ghost function Search(candidates: seq<seq<Row>>, order: seq<int>, pos: int, g: Grid): seq<Grid>
    requires WellFormedCandidates(candidates) && IsRowOrder(order) && 0 <= pos <= 9 && IsGrid(g)
    decreases 9 - pos, 1, 0
  {
    if pos == 9 then
      (if ZeroInFirstColumns(g) then [g] else [])
    else
      Branch(candidates, order, pos, g, candidates[order[pos]])
  }

  /** What the candidates `cs` for row `order[pos]` lead to, in order. */
  ghost function Branch(candidates: seq<seq<Row>>, order: seq<int>, pos: int, g: Grid, cs: seq<Row>): seq<Grid>
    requires WellFormedCandidates(candidates) && IsRowOrder(order) && 0 <= pos < 9 && IsGrid(g)
    requires forall i :: 0 <= i < |cs| ==> IsCandidate(cs[i])
    decreases 9 - pos, 0, |cs|
  {
    if cs == [] then []
    else
      var cand := cs[|cs| - 1];
      Branch(candidates, order, pos, g, cs[..|cs| - 1])
        + (if Fits(g, order, pos, cand) then Search(candidates, order, pos + 1, g[order[pos] := cand]) else [])
  }

  /** What the search lists depends only on the rows already placed. */
  lemma {:induction false} SearchFrame(candidates: seq<seq<Row>>, order: seq<int>, pos: int, g: Grid, h: Grid)
    requires WellFormedCandidates(candidates) && IsRowOrder(order) && 0 <= pos <= 9 && IsGrid(g) && IsGrid(h)
    requires Agree(g, h, order, pos)
    ensures Search(candidates, order, pos, g) == Search(candidates, order, pos, h)
    decreases 9 - pos, 1, 0
  {
    if pos == 9 {
      forall r | 0 <= r < 9 ensures g[r] == h[r] {
        assert r in order;
        var k :| 0 <= k < 9 && order[k] == r;
      }
      assert g == h;
    } else {
      BranchFrame(candidates, order, pos, g, h, candidates[order[pos]]);
    }
  }

  lemma {:induction false} BranchFrame(candidates: seq<seq<Row>>, order: seq<int>, pos: int, g: Grid, h: Grid, cs: seq<Row>)
    requires WellFormedCandidates(candidates) && IsRowOrder(order) && 0 <= pos < 9 && IsGrid(g) && IsGrid(h)
    requires forall i :: 0 <= i < |cs| ==> IsCandidate(cs[i])
    requires Agree(g, h, order, pos)
    ensures Branch(candidates, order, pos, g, cs) == Branch(candidates, order, pos, h, cs)
    decreases 9 - pos, 0, |cs|
  {
    if cs != [] {
      var cand := cs[|cs| - 1];
      BranchFrame(candidates, order, pos, g, h, cs[..|cs| - 1]);
      DigitsFrame(g, h, order, pos);
      PlaceAgree(g, h, order, pos, cand);
      SearchFrame(candidates, order, pos + 1, g[order[pos] := cand], h[order[pos] := cand]);
    }
  }

  /** Placing the same row in two grids that agree keeps them agreeing. */
  lemma PlaceAgree(g: Grid, h: Grid, order: seq<int>, pos: int, cand: Row)
    requires IsGrid(g) && IsGrid(h) && IsRowOrder(order) && 0 <= pos < 9 && IsCandidate(cand)
    requires Agree(g, h, order, pos)
    ensures Agree(g[order[pos] := cand], h[order[pos] := cand], order, pos + 1)
  {
    var r := order[pos];
    forall k | 0 <= k < pos + 1 ensures g[r := cand][order[k]] == h[r := cand][order[k]] {
      if k < pos {
        assert order[k] != r;
      }
    }
  }

  /** One more candidate of the list: what it leads to is appended. */
  lemma BranchStep(candidates: seq<seq<Row>>, order: seq<int>, pos: int, g: Grid, cs: seq<Row>, i: int)
    requires WellFormedCandidates(candidates) && IsRowOrder(order) && 0 <= pos < 9 && IsGrid(g)
    requires forall j :: 0 <= j < |cs| ==> IsCandidate(cs[j])
    requires 0 <= i < |cs|
    ensures Branch(candidates, order, pos, g, cs[..i + 1])
         == Branch(candidates, order, pos, g, cs[..i])
            + (if Fits(g, order, pos, cs[i]) then Search(candidates, order, pos + 1, g[order[pos] := cs[i]]) else [])
  {
    assert cs[..i + 1][..i] == cs[..i];
  }

  // ---------------------------------------------------------------------------
  // The box-index table
  // ---------------------------------------------------------------------------

  predicate IsBoxTable(t: seq<seq<int>>) {
    && |t| == 9
    && (forall r :: 0 <= r < 9 ==> |t[r]| == 9)
    && forall r, c :: 0 <= r < 9 && 0 <= c < 9 ==> t[r][c] == GetBoxIndex(r, c)
  }

  /** The box of every cell, computed once before the search. */
  method BoxIndexTable() returns (boxIndices: seq<seq<int>>)
    ensures IsBoxTable(boxIndices)
  {
    boxIndices := [];
    for r := 0 to 9
      invariant |boxIndices| == r
      invariant forall r' :: 0 <= r' < r ==> |boxIndices[r']| == 9
      invariant forall r', c :: 0 <= r' < r && 0 <= c < 9 ==> boxIndices[r'][c] == GetBoxIndex(r', c)
    {
      var line := [];
      for c := 0 to 9
        invariant |line| == c
        invariant forall c' :: 0 <= c' < c ==> line[c'] == GetBoxIndex(r, c')
      {
        line := line + [GetBoxIndex(r, c)];
      }
      boxIndices := boxIndices + [line];
    }
  }

  // ---------------------------------------------------------------------------
  // Masks as values
  // ---------------------------------------------------------------------------

  /** The masks encode exactly the digits of the first `n` rows placed in `g`. */
  ghost predicate Encodes(cols: seq<Mask>, boxes: seq<Mask>, g: Grid, order: seq<int>, n: int)
    requires |cols| == 9 && |boxes| == 9 && IsGrid(g) && IsRowOrder(order) && 0 <= n <= 9
  {
    && (forall c :: 0 <= c < 9 ==> MarksSet(cols[c], ColumnDigits(g, order, n, c)))
    && (forall b :: 0 <= b < 9 ==> MarksSet(boxes[b], BoxDigits(g, order, n, b)))
  }

  /** Empty masks encode a grid with no row placed. */
  lemma EncodesNone(cols: seq<Mask>, boxes: seq<Mask>, g: Grid, order: seq<int>)
    requires |cols| == 9 && |boxes| == 9 && IsGrid(g) && IsRowOrder(order)
    requires forall i :: 0 <= i < 9 ==> cols[i] == 0 && boxes[i] == 0
    ensures Encodes(cols, boxes, g, order, 0)
  {
    MarksSetNone();
    forall c | 0 <= c < 9 ensures ColumnDigits(g, order, 0, c) == {} {
    }
    forall b | 0 <= b < 9 ensures BoxDigits(g, order, 0, b) == {} {
    }
  }

  /** `cols` is `cols0` with the digits of the first `n` cells of `cand` marked,
    * each in its own column. */
  ghost predicate ColumnsMarked(cols: seq<Mask>, cols0: seq<Mask>, cand: Row, n: int)
    requires |cols| == 9 && |cols0| == 9 && IsCandidate(cand) && 0 <= n <= 9
  {
    forall c :: 0 <= c < 9 ==> Marked(cols[c], cols0[c], if c < n then {cand[c]} else {})
  }

  /** `boxes` is `boxes0` with the digits of the first `n` cells of `cand`,
    * placed in row `r`, marked in their boxes. */
  ghost predicate BoxesMarked(boxes: seq<Mask>, boxes0: seq<Mask>, r: int, cand: Row, n: int)
    requires |boxes| == 9 && |boxes0| == 9 && 0 <= r < 9 && IsCandidate(cand) && 0 <= n <= 9
  {
    forall b :: 0 <= b < 9 ==> Marked(boxes[b], boxes0[b], RowBoxDigits(cand, r, n, b))
  }

  lemma ColumnsMarkStep(cols: seq<Mask>, marked: seq<Mask>, cols0: seq<Mask>, cand: Row, n: int)
    requires |cols| == 9 && |cols0| == 9 && IsCandidate(cand) && 0 <= n < 9
    requires ColumnsMarked(cols, cols0, cand, n)
    requires marked == cols[n := cols[n] | Bit(cand[n])]
    ensures ColumnsMarked(marked, cols0, cand, n + 1)
  {
    forall c | 0 <= c < 9 ensures Marked(marked[c], cols0[c], if c < n + 1 then {cand[c]} else {}) {
      if c == n {
        MarkedAdd(cols[n], cols0[n], {}, cand[n]);
        assert {} + {cand[n]} == {cand[n]};
      } else {
        assert marked[c] == cols[c];
        assert Marked(cols[c], cols0[c], if c < n then {cand[c]} else {});
      }
    }
  }

  lemma BoxesMarkStep(boxes: seq<Mask>, marked: seq<Mask>, boxes0: seq<Mask>, r: int, cand: Row, n: int)
    requires |boxes| == 9 && |boxes0| == 9 && 0 <= r < 9 && IsCandidate(cand) && 0 <= n < 9
    requires BoxesMarked(boxes, boxes0, r, cand, n)
    requires marked == boxes[GetBoxIndex(r, n) := boxes[GetBoxIndex(r, n)] | Bit(cand[n])]
    ensures BoxesMarked(marked, boxes0, r, cand, n + 1)
  {
    var b0 := GetBoxIndex(r, n);
    MarkedAdd(boxes[b0], boxes0[b0], RowBoxDigits(cand, r, n, b0), cand[n]);
  }

  /** Marking all cells of `cand` turns an encoding of the first `n` rows into
    * one of the first `n + 1`, `cand` placed in row `order[n]`. */
  lemma PlaceEncodes(cols: seq<Mask>, boxes: seq<Mask>, cols0: seq<Mask>, boxes0: seq<Mask>,
                     g: Grid, order: seq<int>, n: int, cand: Row)
    requires |cols| == 9 && |boxes| == 9 && |cols0| == 9 && |boxes0| == 9
    requires IsGrid(g) && IsRowOrder(order) && 0 <= n < 9 && IsCandidate(cand)
    requires Encodes(cols0, boxes0, g, order, n)
    requires ColumnsMarked(cols, cols0, cand, 9) && BoxesMarked(boxes, boxes0, order[n], cand, 9)
    ensures Encodes(cols, boxes, g[order[n] := cand], order, n + 1)
  {
    var g' := g[order[n] := cand];
    forall c | 0 <= c < 9 ensures MarksSet(cols[c], ColumnDigits(g', order, n + 1, c)) {
      ColumnDigitsPlace(g, order, n, cand, c);
      MarksSetMarked(cols[c], cols0[c], ColumnDigits(g, order, n, c), {cand[c]});
    }
    forall b | 0 <= b < 9 ensures MarksSet(boxes[b], BoxDigits(g', order, n + 1, b)) {
      BoxDigitsPlace(g, order, n, cand, b);
      MarksSetMarked(boxes[b], boxes0[b], BoxDigits(g, order, n, b), RowBoxDigits(cand, order[n], 9, b));
    }
  }

  lemma UpdateTwice(g: Grid, r: int, x: Row, y: Row)
    requires 0 <= r < |g|
    ensures g[r := x][r := y] == g[r := y]
  {
  }

  /** Overwriting cell `n` of a partly overwritten row. */
  lemma RowStep(old_row: Row, cand: Row, n: int)
    requires |old_row| == 9 && |cand| == 9 && 0 <= n < 9
    ensures cand[..n + 1] + old_row[n + 1..] == (cand[..n] + old_row[n..])[n := cand[n]]
  {
  }

  /** `ms'` is `ms` with digit `d` marked in entry `i`. */
  ghost predicate MarkedAt(ms: seq<Mask>, ms': seq<Mask>, i: int, d: int)
    requires 0 <= i < |ms|
  {
    ms' == ms[i := ms[i] | Bit(d)]
  }

  /** The state of a commit after its first `c` cells: row `r` of `g` holds
    * `cand` up to cell `c` and the masks have those cells' digits marked. */
  ghost predicate Placing(cols: seq<Mask>, boxes: seq<Mask>, g: Grid,
                          cols0: seq<Mask>, boxes0: seq<Mask>, g0: Grid, r: int, cand: Row, c: int)
    requires |cols| == 9 && |boxes| == 9 && |cols0| == 9 && |boxes0| == 9
    requires IsGrid(g0) && 0 <= r < 9 && IsCandidate(cand) && 0 <= c <= 9
  {
    && g == g0[r := cand[..c] + g0[r][c..]]
    && ColumnsMarked(cols, cols0, cand, c)
    && BoxesMarked(boxes, boxes0, r, cand, c)
  }

  lemma PlacingStart(cols0: seq<Mask>, boxes0: seq<Mask>, g0: Grid, r: int, cand: Row)
    requires |cols0| == 9 && |boxes0| == 9 && IsGrid(g0) && 0 <= r < 9 && IsCandidate(cand)
    ensures Placing(cols0, boxes0, g0, cols0, boxes0, g0, r, cand, 0)
  {
    assert cand[..0] + g0[r][0..] == g0[r];
    assert g0[r := g0[r]] == g0;
  }

  lemma PlacingStep(cols: seq<Mask>, boxes: seq<Mask>, g: Grid, cols': seq<Mask>, boxes': seq<Mask>, g': Grid,
                    cols0: seq<Mask>, boxes0: seq<Mask>, g0: Grid, r: int, cand: Row, c: int)
    requires |cols| == 9 && |boxes| == 9 && |cols0| == 9 && |boxes0| == 9
    requires IsGrid(g0) && 0 <= r < 9 && IsCandidate(cand) && 0 <= c < 9
    requires Placing(cols, boxes, g, cols0, boxes0, g0, r, cand, c)
    requires MarkedAt(cols, cols', c, cand[c]) && MarkedAt(boxes, boxes', GetBoxIndex(r, c), cand[c])
    requires g' == g[r := g[r][c := cand[c]]]
    ensures Placing(cols', boxes', g', cols0, boxes0, g0, r, cand, c + 1)
  {
    ColumnsMarkStep(cols, cols', cols0, cand, c);
    BoxesMarkStep(boxes, boxes', boxes0, r, cand, c);
    RowStep(g0[r], cand, c);
    UpdateTwice(g0, r, cand[..c] + g0[r][c..], cand[..c + 1] + g0[r][c + 1..]);
  }

  lemma PlacingDone(cols: seq<Mask>, boxes: seq<Mask>, g: Grid, cols0: seq<Mask>, boxes0: seq<Mask>, g0: Grid,
                    order: seq<int>, n: int, cand: Row)
    requires |cols| == 9 && |boxes| == 9 && |cols0| == 9 && |boxes0| == 9
    requires IsGrid(g0) && IsRowOrder(order) && 0 <= n < 9 && IsCandidate(cand)
    requires Encodes(cols0, boxes0, g0, order, n)
    requires Placing(cols, boxes, g, cols0, boxes0, g0, order[n], cand, 9)
    ensures g == g0[order[n] := cand]
    ensures Encodes(cols, boxes, g, order, n + 1)
  {
    assert cand[..9] + g0[order[n]][9..] == cand;
    PlaceEncodes(cols, boxes, cols0, boxes0, g0, order, n, cand);
  }

  /** Neither column `c` nor the box of cell `(r, c)` has digit `cand[c]` marked. */
  ghost predicate CellFree(cols: seq<Mask>, boxes: seq<Mask>, r: int, cand: Row, c: int)
    requires |cols| == 9 && |boxes| == 9 && 0 <= r < 9 && IsCandidate(cand) && 0 <= c < 9
  {
    !Has(cols[c], cand[c]) && !Has(boxes[GetBoxIndex(r, c)], cand[c])
  }

  /** Every cell of `cand`, placed in row `r`, is free. */
  ghost predicate Free(cols: seq<Mask>, boxes: seq<Mask>, r: int, cand: Row)
    requires |cols| == 9 && |boxes| == 9 && 0 <= r < 9 && IsCandidate(cand)
  {
    forall c :: 0 <= c < 9 ==> CellFree(cols, boxes, r, cand, c)
  }

  /** With masks that encode the placed rows, the bit test passes exactly for
    * the candidates that fit. */
  lemma FreeIffFits(cols: seq<Mask>, boxes: seq<Mask>, g: Grid, order: seq<int>, n: int, cand: Row)
    requires |cols| == 9 && |boxes| == 9 && IsGrid(g) && IsRowOrder(order) && 0 <= n < 9 && IsCandidate(cand)
    requires Encodes(cols, boxes, g, order, n)
    ensures Free(cols, boxes, order[n], cand) <==> Fits(g, order, n, cand)
  {
    forall c | 0 <= c < 9
      ensures CellFree(cols, boxes, order[n], cand, c)
          <==> cand[c] !in ColumnDigits(g, order, n, c) && cand[c] !in BoxDigits(g, order, n, GetBoxIndex(order[n], c))
    {
      MarksSetHas(cols[c], ColumnDigits(g, order, n, c), cand[c]);
      var b := GetBoxIndex(order[n], c);
      MarksSetHas(boxes[b], BoxDigits(g, order, n, b), cand[c]);
    }
  }

  /** Masks that encode the placed rows of `g` encode those of any grid that
    * agrees with `g` on them. */
  lemma EncodesFrame(cols: seq<Mask>, boxes: seq<Mask>, g: Grid, h: Grid, order: seq<int>, n: int)
    requires |cols| == 9 && |boxes| == 9 && IsGrid(g) && IsGrid(h) && IsRowOrder(order) && 0 <= n <= 9
    requires Encodes(cols, boxes, g, order, n) && Agree(g, h, order, n)
    ensures Encodes(cols, boxes, h, order, n)
  {
    DigitsFrame(g, h, order, n);
  }

  /** What one candidate for row `order[pos]` adds to the listing from `g`. */
  ghost function Next(candidates: seq<seq<Row>>, order: seq<int>, pos: int, g: Grid, cand: Row): seq<Grid>
    requires WellFormedCandidates(candidates) && IsRowOrder(order) && 0 <= pos < 9 && IsGrid(g) && IsCandidate(cand)
  {
    if Fits(g, order, pos, cand) then Search(candidates, order, pos + 1, g[order[pos] := cand]) else []
  }

  /** Taking the next candidate in a grid that agrees with `g0` on the placed
    * rows extends the listing from `g0` by what it adds. */
  lemma BranchNext(candidates: seq<seq<Row>>, order: seq<int>, pos: int, g0: Grid, g: Grid, cs: seq<Row>, i: int)
    requires WellFormedCandidates(candidates) && IsRowOrder(order) && 0 <= pos < 9 && IsGrid(g0) && IsGrid(g)
    requires forall j :: 0 <= j < |cs| ==> IsCandidate(cs[j])
    requires 0 <= i < |cs| && Agree(g, g0, order, pos)
    ensures Branch(candidates, order, pos, g0, cs[..i + 1])
         == Branch(candidates, order, pos, g0, cs[..i]) + Next(candidates, order, pos, g, cs[i])
  {
    BranchStep(candidates, order, pos, g0, cs, i);
    FitsFrame(g, g0, order, pos, cs[i]);
    PlaceAgree(g, g0, order, pos, cs[i]);
    SearchFrame(candidates, order, pos + 1, g[order[pos] := cs[i]], g0[order[pos] := cs[i]]);
  }

  lemma AppendAssoc(a: seq<Grid>, b: seq<Grid>, c: seq<Grid>)
    ensures a + b + c == a + (b + c)
  {
  }

  lemma AgreeTrans(g: Grid, h: Grid, k: Grid, order: seq<int>, n: int)
    requires IsGrid(g) && IsGrid(h) && IsGrid(k) && IsRowOrder(order) && 0 <= n <= 9
    requires Agree(g, h, order, n) && Agree(h, k, order, n)
    ensures Agree(g, k, order, n)
  {
  }

  /** Two grids agreeing on the first `n + 1` rows placed agree on the first `n`,
    * and agreement is transitive. */
  lemma AgreeChain(g: Grid, h: Grid, k: Grid, order: seq<int>, n: int, cand: Row)
    requires IsGrid(g) && IsGrid(h) && IsGrid(k) && IsRowOrder(order) && 0 <= n < 9 && IsCandidate(cand)
    requires Agree(g, h[order[n] := cand], order, n + 1) && Agree(h, k, order, n)
    ensures Agree(g, k, order, n)
  {
    forall j | 0 <= j < n ensures g[order[j]] == k[order[j]] {
      assert order[j] != order[n];
      assert g[order[j]] == h[order[n] := cand][order[j]];
    }
  }

  // ---------------------------------------------------------------------------
  // The solver state
  // ---------------------------------------------------------------------------

  class Solver {
    /** The candidate rows of each grid row, fixed for one search. */
    const candidates: seq<seq<Row>>
    /** The order the rows are placed in. */
    const rowOrder: seq<int>
    const boxIndices: seq<seq<int>>
    /** Bit `d` of `colMask[c]`: digit `d` is placed in column `c`. */
    const colMask: array<Mask>
    /** Bit `d` of `boxMask[b]`: digit `d` is placed in box `b`. */
    const boxMask: array<Mask>
    /** The grid being filled in; rows not yet placed hold leftovers. */
    var solution: Grid
    /** The accepted grids, in the order found. */
    var allSolutions: seq<Grid>

    ghost predicate Valid()
      reads this
    {
      && WellFormedCandidates(candidates)
      && IsRowOrder(rowOrder)
      && IsBoxTable(boxIndices)
      && colMask.Length == 9 && boxMask.Length == 9 && colMask != boxMask
      && IsGrid(solution)
    }

    /** The masks encode exactly the digits of the first `pos` rows placed. */
    ghost predicate MasksMatch(pos: int)
      requires Valid() && 0 <= pos <= 9
      reads this, colMask, boxMask
    {
      Encodes(colMask[..], boxMask[..], solution, rowOrder, pos)
    }

    constructor (candidates: seq<seq<Row>>, rowOrder: seq<int>)
      requires WellFormedCandidates(candidates) && IsRowOrder(rowOrder)
      ensures Valid() && MasksMatch(0)
      ensures this.candidates == candidates && this.rowOrder == rowOrder
      ensures solution == ZeroGrid() && allSolutions == []
      ensures fresh(colMask) && fresh(boxMask)
    {
      this.candidates := candidates;
      this.rowOrder := rowOrder;
      var table := BoxIndexTable();
      boxIndices := table;
      colMask := new Mask[9](_ => 0);
      boxMask := new Mask[9](_ => 0);
      solution := ZeroGrid();
      allSolutions := [];
      new;
      EncodesNone(colMask[..], boxMask[..], solution, rowOrder);
    }

    /** The test of one cell: is `cand[c]` already in column `c` or in the
      * box of cell `(r, c)`? */
    method Clashes(r: int, cand: Row, c: int) returns (clash: bool)
      requires Valid() && 0 <= r < 9 && IsCandidate(cand) && 0 <= c < 9
      ensures clash <==> !CellFree(colMask[..], boxMask[..], r, cand, c)
    {
      var d := cand[c];
      var b := boxIndices[r][c];
      clash := colMask[c] & Bit(d) != 0 || boxMask[b] & Bit(d) != 0;
      HasBit(colMask[c], d);
      HasBit(boxMask[b], d);
    }

    /** The conflict test: the first two columns checked one by one, then the
      * rest in a loop that stops at the first clash. */
    method HasConflict(r: int, cand: Row) returns (conflict: bool)
      requires Valid() && 0 <= r < 9 && IsCandidate(cand)
      ensures !conflict <==> Free(colMask[..], boxMask[..], r, cand)
    {
      conflict := Clashes(r, cand, 0);
      if !conflict {
        conflict := Clashes(r, cand, 1);
      }
      if !conflict {
        for c := 2 to 9
          invariant !conflict
          invariant forall c' :: 0 <= c' < c ==> CellFree(colMask[..], boxMask[..], r, cand, c')
        {
          conflict := Clashes(r, cand, c);
          if conflict {
            break;
          }
        }
      }
    }

    /** One cell of a commit: digit `d` goes into cell `(r, c)` and is marked
      * in column `c` and in the box of the cell. */
    method MarkCell(r: int, c: int, d: int)
      requires Valid() && 0 <= r < 9 && 0 <= c < 9 && IsDigit(d)
      modifies this, colMask, boxMask
      ensures Valid() && allSolutions == old(allSolutions)
      ensures MarkedAt(old(colMask[..]), colMask[..], c, d)
      ensures MarkedAt(old(boxMask[..]), boxMask[..], GetBoxIndex(r, c), d)
      ensures solution == old(solution)[r := old(solution)[r][c := d]]
    {
      var b := boxIndices[r][c];
      colMask[c] := colMask[c] | Bit(d);
      boxMask[b] := boxMask[b] | Bit(d);
      solution := solution[r := solution[r][c := d]];
    }

    /** Writes `cand` into row `rowOrder[pos]` cell by cell, marking each digit
      * in its column and box. */
    method Place(pos: int, cand: Row)
      requires Valid() && 0 <= pos < 9 && IsCandidate(cand) && MasksMatch(pos)
      modifies this, colMask, boxMask
      ensures Valid() && MasksMatch(pos + 1)
      ensures solution == old(solution)[rowOrder[pos] := cand]
      ensures allSolutions == old(allSolutions)
    {
      var r := rowOrder[pos];
      ghost var g0, cols0, boxes0 := solution, colMask[..], boxMask[..];
      PlacingStart(cols0, boxes0, g0, r, cand);
      for c := 0 to 9
        invariant Valid() && allSolutions == old(allSolutions)
        invariant Placing(colMask[..], boxMask[..], solution, cols0, boxes0, g0, r, cand, c)
      {
        ghost var cols, boxes, g := colMask[..], boxMask[..], solution;
        MarkCell(r, c, cand[c]);
        PlacingStep(cols, boxes, g, colMask[..], boxMask[..], solution, cols0, boxes0, g0, r, cand, c);
      }
      PlacingDone(colMask[..], boxMask[..], solution, cols0, boxes0, g0, rowOrder, pos, cand);
    }

    /** `colMask = oldColMask; boxMask = oldBoxMask;` */
    method RestoreMasks(cols: seq<Mask>, boxes: seq<Mask>)
      requires Valid() && |cols| == 9 && |boxes| == 9
      modifies colMask, boxMask
      ensures colMask[..] == cols && boxMask[..] == boxes
    {
      forall i | 0 <= i < 9 {
        colMask[i] := cols[i];
      }
      forall i | 0 <= i < 9 {
        boxMask[i] := boxes[i];
      }
    }

    /** The backtracking search from depth `pos`: appends to `allSolutions`
      * exactly what the reference enumeration lists from the current grid,
      * and leaves the masks as it found them and the placed rows untouched. */
    method SolveFixed(pos: int)
      requires Valid() && 0 <= pos <= 9 && MasksMatch(pos)
      modifies this, colMask, boxMask
      ensures Valid()
      ensures colMask[..] == old(colMask[..]) && boxMask[..] == old(boxMask[..])
      ensures Agree(solution, old(solution), rowOrder, pos)
      ensures allSolutions == old(allSolutions) + Search(candidates, rowOrder, pos, old(solution))
      decreases 9 - pos, 1
    {
      if pos == 9 {
        var accept := HasZeroInFirstColumns(solution);
        if accept {
          allSolutions := allSolutions + [solution];
        }
        return;
      }
      var cands := candidates[rowOrder[pos]];
      ghost var g0, found0 := solution, allSolutions;
      ghost var cols0, boxes0 := colMask[..], boxMask[..];
      for i := 0 to |cands|
        invariant Valid() && MasksMatch(pos)
        invariant colMask[..] == cols0 && boxMask[..] == boxes0
        invariant Agree(solution, g0, rowOrder, pos)
        invariant allSolutions == found0 + Branch(candidates, rowOrder, pos, g0, cands[..i])
      {
        ghost var g, found := solution, allSolutions;
        TryCandidate(pos, cands[i]);
        BranchNext(candidates, rowOrder, pos, g0, g, cands, i);
        AppendAssoc(found0, Branch(candidates, rowOrder, pos, g0, cands[..i]), Next(candidates, rowOrder, pos, g, cands[i]));
        AgreeTrans(solution, g, g0, rowOrder, pos);
      }
      assert cands[..|cands|] == cands;
    }

    /** One turn of the candidate loop: the conflict test, and for a candidate
      * that passes it the commit, the deeper search and the restore. */
    method TryCandidate(pos: int, cand: Row)
      requires Valid() && 0 <= pos < 9 && IsCandidate(cand) && MasksMatch(pos)
      modifies this, colMask, boxMask
      ensures Valid() && MasksMatch(pos)
      ensures colMask[..] == old(colMask[..]) && boxMask[..] == old(boxMask[..])
      ensures Agree(solution, old(solution), rowOrder, pos)
      ensures allSolutions == old(allSolutions) + Next(candidates, rowOrder, pos, old(solution), cand)
      decreases 9 - pos, 0
    {
      var r := rowOrder[pos];
      var conflict := HasConflict(r, cand);
      FreeIffFits(colMask[..], boxMask[..], solution, rowOrder, pos, cand);
      if conflict {
        return;
      }
      var oldColMask, oldBoxMask := colMask[..], boxMask[..];
      ghost var g := solution;
      Place(pos, cand);
      SolveFixed(pos + 1);
      RestoreMasks(oldColMask, oldBoxMask);
      AgreeChain(solution, g, g, rowOrder, pos, cand);
      EncodesFrame(colMask[..], boxMask[..], g, solution, rowOrder, pos);
    }
  }

  /** One search over the filtered candidate lists: a fresh solver with empty
    * masks and an all-zero grid, searched from depth 0. */
  method SolveAll(candidates: seq<seq<Row>>, rowOrder: seq<int>) returns (solutions: seq<Grid>)
    requires WellFormedCandidates(candidates) && IsRowOrder(rowOrder)
    ensures solutions == Search(candidates, rowOrder, 0, ZeroGrid())
  {
    var solver := new Solver(candidates, rowOrder);
    solver.SolveFixed(0);
    solutions := solver.allSolutions;
  }
}
