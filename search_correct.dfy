/** What the backtracking search finds, stated without masks or orders.
  *
  * `Assigner.SolveAll` lists exactly `Assigner.Search`; this module proves
  * that a grid is in that listing exactly when each of its rows is one of the
  * candidates for that row, no two rows put the same digit in a column or in
  * a 3x3 box, and some cell of the first three columns holds 0.  The order in
  * which the rows are placed does not change which grids are found.
  */
module SearchCorrect {
  import opened Digits
  import opened Assigner

  /** Row `x`, placed as row `rx`, and row `y`, placed as row `ry`, share no
    * digit in a column or in a box. */
  predicate Compatible(x: Row, rx: int, y: Row, ry: int)
    requires IsCandidate(x) && IsCandidate(y) && 0 <= rx < 9 && 0 <= ry < 9
  {
    forall c1, c2 :: 0 <= c1 < 9 && 0 <= c2 < 9 && (c1 == c2 || GetBoxIndex(rx, c1) == GetBoxIndex(ry, c2))
      ==> x[c1] != y[c2]
  }

  /** A grid the search accepts. */
  ghost predicate IsSolution(candidates: seq<seq<Row>>, h: Grid)
    requires WellFormedCandidates(candidates)
  {
    && IsGrid(h)
    && (forall r :: 0 <= r < 9 ==> h[r] in candidates[r])
    && (forall r1, r2 :: 0 <= r1 < 9 && 0 <= r2 < 9 && r1 != r2 ==> Compatible(h[r1], r1, h[r2], r2))
    && ZeroInFirstColumns(h)
  }

  /** `h` completes the partial grid `g`, whose rows `order[..pos]` are placed:
    * it keeps those rows, takes every later row from its candidates, and
    * every later row is compatible with all rows placed before it. */
  ghost predicate Completes(candidates: seq<seq<Row>>, order: seq<int>, pos: int, g: Grid, h: Grid)
    requires WellFormedCandidates(candidates) && IsRowOrder(order) && 0 <= pos <= 9 && IsGrid(g)
  {
    && IsGrid(h)
    && Agree(h, g, order, pos)
    && (forall k :: pos <= k < 9 ==> h[order[k]] in candidates[order[k]])
    && (forall j, k :: 0 <= j < k < 9 && pos <= k ==> Compatible(h[order[j]], order[j], h[order[k]], order[k]))
    && ZeroInFirstColumns(h)
  }

  lemma CompatibleSymmetric(x: Row, rx: int, y: Row, ry: int)
    requires IsCandidate(x) && IsCandidate(y) && 0 <= rx < 9 && 0 <= ry < 9
    ensures Compatible(x, rx, y, ry) <==> Compatible(y, ry, x, rx)
  {
    if Compatible(x, rx, y, ry) {
      forall c1, c2 | 0 <= c1 < 9 && 0 <= c2 < 9 && (c1 == c2 || GetBoxIndex(ry, c1) == GetBoxIndex(rx, c2))
        ensures y[c1] != x[c2]
      {
        assert x[c2] != y[c1];
      }
    }
    if Compatible(y, ry, x, rx) {
      forall c1, c2 | 0 <= c1 < 9 && 0 <= c2 < 9 && (c1 == c2 || GetBoxIndex(rx, c1) == GetBoxIndex(ry, c2))
        ensures x[c1] != y[c2]
      {
        assert y[c2] != x[c1];
      }
    }
  }

  /** The search's fit test is compatibility with every row placed so far. */
  lemma FitsIffCompatible(g: Grid, order: seq<int>, n: int, cand: Row)
    requires IsGrid(g) && IsRowOrder(order) && 0 <= n < 9 && IsCandidate(cand)
    ensures Fits(g, order, n, cand) <==> forall j :: 0 <= j < n ==> Compatible(g[order[j]], order[j], cand, order[n])
  {
    var r := order[n];
    if Fits(g, order, n, cand) {
      forall j, c1, c2 | 0 <= j < n && 0 <= c1 < 9 && 0 <= c2 < 9
          && (c1 == c2 || GetBoxIndex(order[j], c1) == GetBoxIndex(r, c2))
        ensures g[order[j]][c1] != cand[c2]
      {
        if c1 == c2 {
          assert g[order[j]][c1] in ColumnDigits(g, order, n, c2);
        } else {
          assert g[order[j]][c1] in BoxDigits(g, order, n, GetBoxIndex(r, c2));
        }
      }
    }
    if forall j :: 0 <= j < n ==> Compatible(g[order[j]], order[j], cand, r) {
      forall c | 0 <= c < 9
        ensures cand[c] !in ColumnDigits(g, order, n, c)
        ensures cand[c] !in BoxDigits(g, order, n, GetBoxIndex(r, c))
      {
        forall k | 0 <= k < n ensures g[order[k]][c] != cand[c] {
          assert Compatible(g[order[k]], order[k], cand, r);
        }
        forall k, c' | 0 <= k < n && 0 <= c' < 9 && GetBoxIndex(order[k], c') == GetBoxIndex(r, c)
          ensures g[order[k]][c'] != cand[c]
        {
          assert Compatible(g[order[k]], order[k], cand, r);
        }
      }
    }
  }

  /** Agreeing on all nine rows is equality. */
  lemma AgreeAll(g: Grid, h: Grid, order: seq<int>)
    requires IsGrid(g) && IsGrid(h) && IsRowOrder(order)
    ensures Agree(g, h, order, 9) <==> g == h
  {
    if Agree(g, h, order, 9) {
      forall r | 0 <= r < 9 ensures g[r] == h[r] {
        assert r in order;
        var k :| 0 <= k < 9 && order[k] == r;
      }
    }
  }

  /** Agreeing on the first `pos + 1` rows placed, the last being `h[order[pos]]`. */
  lemma AgreePlace(h: Grid, g: Grid, order: seq<int>, pos: int)
    requires IsGrid(h) && IsGrid(g) && IsRowOrder(order) && 0 <= pos < 9
    ensures Agree(h, g[order[pos] := h[order[pos]]], order, pos + 1) <==> Agree(h, g, order, pos)
  {
    var g' := g[order[pos] := h[order[pos]]];
    forall j | 0 <= j < pos ensures g'[order[j]] == g[order[j]] {
      assert order[j] != order[pos];
    }
  }

  /** One level of the search, stated as `Completes`. */
  lemma CompletesStep(candidates: seq<seq<Row>>, order: seq<int>, pos: int, g: Grid, h: Grid)
    requires WellFormedCandidates(candidates) && IsRowOrder(order) && 0 <= pos < 9 && IsGrid(g) && IsGrid(h)
    ensures (&& h[order[pos]] in candidates[order[pos]]
             && Fits(g, order, pos, h[order[pos]])
             && Completes(candidates, order, pos + 1, g[order[pos] := h[order[pos]]], h))
        <==> Completes(candidates, order, pos, g, h)
  {
    var x := h[order[pos]];
    var g' := g[order[pos] := x];
    AgreePlace(h, g, order, pos);
    FitsIffCompatible(g, order, pos, x);
    if Agree(h, g, order, pos) {
      assert forall j :: 0 <= j < pos ==> g[order[j]] == h[order[j]];
    }
    if Completes(candidates, order, pos, g, h) {
      forall j | 0 <= j < pos ensures Compatible(g[order[j]], order[j], x, order[pos]) {
        assert Compatible(h[order[j]], order[j], h[order[pos]], order[pos]);
      }
    }
  }

  /** Membership in the listing from depth `pos`. */
  lemma {:induction false} SearchMember(candidates: seq<seq<Row>>, order: seq<int>, pos: int, g: Grid, h: Grid)
    requires WellFormedCandidates(candidates) && IsRowOrder(order) && 0 <= pos <= 9 && IsGrid(g)
    ensures h in Search(candidates, order, pos, g) <==> Completes(candidates, order, pos, g, h)
    decreases 9 - pos, 1, 0
  {
    if pos == 9 {
      if IsGrid(h) {
        AgreeAll(h, g, order);
      }
    } else {
      var r := order[pos];
      BranchMember(candidates, order, pos, g, candidates[r], h);
      if IsGrid(h) {
        SearchMember(candidates, order, pos + 1, g[r := h[r]], h);
        CompletesStep(candidates, order, pos, g, h);
      }
    }
  }

  /** Membership in the listing of the candidates `cs` for row `order[pos]`. */
  lemma {:induction false} BranchMember(candidates: seq<seq<Row>>, order: seq<int>, pos: int, g: Grid, cs: seq<Row>, h: Grid)
    requires WellFormedCandidates(candidates) && IsRowOrder(order) && 0 <= pos < 9 && IsGrid(g)
    requires forall i :: 0 <= i < |cs| ==> IsCandidate(cs[i])
    ensures h in Branch(candidates, order, pos, g, cs)
        <==> && IsGrid(h) && h[order[pos]] in cs && Fits(g, order, pos, h[order[pos]])
             && h in Search(candidates, order, pos + 1, g[order[pos] := h[order[pos]]])
    decreases 9 - pos, 0, |cs|
  {
    if cs != [] {
      var r := order[pos];
      var init, cand := cs[..|cs| - 1], cs[|cs| - 1];
      assert cs == init + [cand];
      BranchMember(candidates, order, pos, g, init, h);
      SearchMember(candidates, order, pos + 1, g[r := cand], h);
      if IsGrid(h) && h[r] != cand {
        AgreePlaceOther(h, g, order, pos, cand);
      }
    }
  }

  /** A grid whose row `order[pos]` is not `cand` does not complete a partial
    * grid with `cand` placed there. */
  lemma AgreePlaceOther(h: Grid, g: Grid, order: seq<int>, pos: int, cand: Row)
    requires IsGrid(h) && IsGrid(g) && IsRowOrder(order) && 0 <= pos < 9 && IsCandidate(cand)
    requires h[order[pos]] != cand
    ensures !Agree(h, g[order[pos] := cand], order, pos + 1)
  {
  }

  /** From the empty grid, `Completes` is `IsSolution`. */
  lemma CompletesFromStart(candidates: seq<seq<Row>>, order: seq<int>, h: Grid)
    requires WellFormedCandidates(candidates) && IsRowOrder(order)
    ensures Completes(candidates, order, 0, ZeroGrid(), h) <==> IsSolution(candidates, h)
  {
    if IsGrid(h) {
      if Completes(candidates, order, 0, ZeroGrid(), h) {
        forall r | 0 <= r < 9 ensures h[r] in candidates[r] {
          assert r in order;
          var k :| 0 <= k < 9 && order[k] == r;
        }
        forall r1, r2 | 0 <= r1 < 9 && 0 <= r2 < 9 && r1 != r2 ensures Compatible(h[r1], r1, h[r2], r2) {
          assert r1 in order && r2 in order;
          var j :| 0 <= j < 9 && order[j] == r1;
          var k :| 0 <= k < 9 && order[k] == r2;
          if k < j {
            CompatibleSymmetric(h[r2], r2, h[r1], r1);
          }
        }
      }
      if IsSolution(candidates, h) {
        forall j, k | 0 <= j < k < 9 ensures Compatible(h[order[j]], order[j], h[order[k]], order[k]) {
          assert order[j] != order[k];
        }
      }
    }
  }

  /** The search from the empty grid lists exactly the solutions, whatever
    * the row order. */
  lemma SearchFindsSolutions(candidates: seq<seq<Row>>, order: seq<int>, h: Grid)
    requires WellFormedCandidates(candidates) && IsRowOrder(order)
    ensures h in Search(candidates, order, 0, ZeroGrid()) <==> IsSolution(candidates, h)
  {
    SearchMember(candidates, order, 0, ZeroGrid(), h);
    CompletesFromStart(candidates, order, h);
  }

  /** A row with no candidate leaves nothing to find. */
  lemma EmptyRowNoSolutions(candidates: seq<seq<Row>>, order: seq<int>, r: int)
    requires WellFormedCandidates(candidates) && IsRowOrder(order) && 0 <= r < 9 && candidates[r] == []
    ensures Search(candidates, order, 0, ZeroGrid()) == []
  {
    if Search(candidates, order, 0, ZeroGrid()) != [] {
      var h := Search(candidates, order, 0, ZeroGrid())[0];
      SearchFindsSolutions(candidates, order, h);
      assert false;
    }
  }

  /** Every row, column and 3x3 box of `h` holds distinct digits. */
  predicate IsSudoku(h: Grid)
    requires IsGrid(h)
  {
    forall r1, c1, r2, c2 :: 0 <= r1 < 9 && 0 <= c1 < 9 && 0 <= r2 < 9 && 0 <= c2 < 9
      && (r1 != r2 || c1 != c2)
      && (r1 == r2 || c1 == c2 || GetBoxIndex(r1, c1) == GetBoxIndex(r2, c2))
      ==> h[r1][c1] != h[r2][c2]
  }

  /** Candidate rows that repeat no digit make the solutions exactly the
    * Sudoku grids built from candidates with a 0 in the first three columns. */
  lemma SolutionIsSudoku(candidates: seq<seq<Row>>, h: Grid)
    requires WellFormedCandidates(candidates)
    requires forall r, i :: 0 <= r < 9 && 0 <= i < |candidates[r]| ==> Distinct(candidates[r][i])
    ensures IsSolution(candidates, h)
        <==> && IsGrid(h) && (forall r :: 0 <= r < 9 ==> h[r] in candidates[r])
             && IsSudoku(h) && ZeroInFirstColumns(h)
  {
    if IsSolution(candidates, h) {
      forall r1, c1, r2, c2 | 0 <= r1 < 9 && 0 <= c1 < 9 && 0 <= r2 < 9 && 0 <= c2 < 9
          && (r1 != r2 || c1 != c2)
          && (r1 == r2 || c1 == c2 || GetBoxIndex(r1, c1) == GetBoxIndex(r2, c2))
        ensures h[r1][c1] != h[r2][c2]
      {
        if r1 == r2 {
          var i :| 0 <= i < |candidates[r1]| && candidates[r1][i] == h[r1];
          assert Distinct(h[r1]);
        } else {
          assert Compatible(h[r1], r1, h[r2], r2);
        }
      }
    }
    if IsGrid(h) && IsSudoku(h) {
      forall r1, r2 | 0 <= r1 < 9 && 0 <= r2 < 9 && r1 != r2 ensures Compatible(h[r1], r1, h[r2], r2) {
      }
    }
  }
}
