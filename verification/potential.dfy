/** `_get_potential` (src/game_of_life.py:66-70): how many cells changed
    state between two generations, both read as sets. */
module PotentialMeasure {
  import opened Cells

  /** |set(a) - set(b)| + |set(b) - set(a)| */
  function Potential(a: seq<Cell>, b: seq<Cell>): nat {
    |Elements(a) - Elements(b)| + |Elements(b) - Elements(a)|
  }

  /** The cells alive in exactly one of the two generations. */
  ghost function Changed(a: seq<Cell>, b: seq<Cell>): set<Cell> {
    set c | c in a + b && (c in a) != (c in b)
  }

  /** The potential counts the cells that were born or died. */
  lemma PotentialCountsChangedCells(a: seq<Cell>, b: seq<Cell>)
    ensures Potential(a, b) == |Changed(a, b)|
  {
    var ab := Elements(a) - Elements(b);
    var ba := Elements(b) - Elements(a);
    assert Changed(a, b) == ab + ba;
    assert ab * ba == {};
  }

  /** Comparing a with b or b with a gives the same potential. */
  lemma PotentialSymmetric(a: seq<Cell>, b: seq<Cell>)
    ensures Potential(a, b) == Potential(b, a)
  {
  }

  /** The potential is zero exactly when the two lists hold the same cells,
      whatever their order or duplicates. */
  lemma PotentialZeroIffSameCells(a: seq<Cell>, b: seq<Cell>)
    ensures Potential(a, b) == 0 <==> Elements(a) == Elements(b)
  {
    if Potential(a, b) == 0 {
      assert Elements(a) - Elements(b) == {};
      assert Elements(b) - Elements(a) == {};
    }
  }

  /** Cardinality is monotone under inclusion. */
  lemma {:induction false} SubsetCardinality(x: set<Cell>, y: set<Cell>)
    requires x <= y
    ensures |x| <= |y|
    decreases |y|
  {
    if x != {} {
      var e :| e in x;
      SubsetCardinality(x - {e}, y - {e});
    }
  }

  /** The potential is a distance between generations: going through an
      intermediate generation can only add changes. */
  lemma PotentialTriangle(a: seq<Cell>, b: seq<Cell>, c: seq<Cell>)
    ensures Potential(a, c) <= Potential(a, b) + Potential(b, c)
  {
    var A, B, C := Elements(a), Elements(b), Elements(c);
    SubsetCardinality(A - C, (A - B) + (B - C));
    SubsetCardinality(C - A, (C - B) + (B - A));
  }
}
