/** Grid coordinates and the neighbourhood relation the step function votes along. */
module Cells {

  /** A coordinate (row, column). Identity is by value, as for the `(row, col)` tuples of `src/game_of_life.py`. */
  datatype Cell = Cell(row: int, col: int)

  function Max(a: int, b: int): int { if a >= b then a else b }

  function Min(a: int, b: int): int { if a <= b then a else b }

  /** `c` lies on an nrow x ncol grid. */
  predicate InGrid(c: Cell, nrow: int, ncol: int) {
    0 <= c.row < nrow && 0 <= c.col < ncol
  }

  /** Moore adjacency: `c` is one of the up-to-8 cells horizontally, vertically
      or diagonally next to `a`. */
  predicate Adjacent(a: Cell, c: Cell) {
    && -1 <= c.row - a.row <= 1
    && -1 <= c.col - a.col <= 1
    && c != a
  }

  /** Live cell `a` casts a vote for `c`: `c` lies in a's search window
      [max(row-1, 0), min(row+2, nrow)) x [max(col-1, 0), min(col+2, ncol))
      and is not `a` itself. */
  predicate Casts(a: Cell, c: Cell, nrow: int, ncol: int) {
    && Max(a.row - 1, 0) <= c.row < Min(a.row + 2, nrow)
    && Max(a.col - 1, 0) <= c.col < Min(a.col + 2, ncol)
    && c != a
  }

  /** The clipped search window is exactly the in-grid part of the Moore
      neighbourhood: no wrap-around, and a cell never votes for itself. */
  lemma CastsIsClippedMooreNeighbourhood(a: Cell, c: Cell, nrow: int, ncol: int)
    ensures Casts(a, c, nrow, ncol) <==> InGrid(c, nrow, ncol) && Adjacent(a, c)
    ensures !Casts(a, a, nrow, ncol)
  {
  }

  /** The cells a list holds, as a set (Python's `set(list)`). */
  function Elements(s: seq<Cell>): set<Cell> {
    set c | c in s
  }

  /** No cell occurs twice in `s`. */
  predicate Distinct(s: seq<Cell>) {
    forall i, j :: 0 <= i < j < |s| ==> s[i] != s[j]
  }

  /** A list without duplicates holds as many cells as it has entries. */
  lemma {:induction false} DistinctCardinality(s: seq<Cell>)
    requires Distinct(s)
    ensures |Elements(s)| == |s|
    decreases |s|
  {
    if |s| > 0 {
      var prefix := s[..|s| - 1];
      DistinctCardinality(prefix);
      assert s == prefix + [s[|s| - 1]];
      assert Elements(s) == Elements(prefix) + {s[|s| - 1]};
      assert s[|s| - 1] !in Elements(prefix);
    }
  }
}
