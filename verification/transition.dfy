/** The transition function `_step` (src/game_of_life.py:46-64): tally the
    votes, then keep every voted cell with 3 votes, or with 2 votes if it was
    already alive. */
module Transition {
  import opened Cells
  import opened Voting

  /** The birth/survival rule on a vote count. */
  predicate Lives(votes: int, alive: bool) {
    votes == 3 || (alive && votes == 2)
  }

  /** The second loop of `_step`: walk the counter's keys in order and keep
      those the rule lets live. */
  function Select(keys: seq<Cell>, ctr: Counter, alives: seq<Cell>): seq<Cell> {
    if |keys| == 0 then []
    else
      var rest := Select(keys[1..], ctr, alives);
      if Lives(ctr.Get(keys[0]), keys[0] in alives) then [keys[0]] + rest else rest
  }

  /** The second loop keeps exactly the keys the rule lets live, each once. */
  lemma {:induction false} SelectKeeps(keys: seq<Cell>, ctr: Counter, alives: seq<Cell>)
    ensures forall c :: c in Select(keys, ctr, alives) <==> c in keys && Lives(ctr.Get(c), c in alives)
    ensures Distinct(keys) ==> Distinct(Select(keys, ctr, alives))
  {
    if |keys| > 0 {
      SelectKeeps(keys[1..], ctr, alives);
    }
  }

  /** The next generation: the voted cells the rule lets live, in the order
      they first received a vote. */
  function Step(alives: seq<Cell>, nrow: int, ncol: int): seq<Cell> {
    var ctr := Tally(alives, nrow, ncol);
    Select(ctr.keys, ctr, alives)
  }

  /** The next generation never lists a cell twice, and a cell is in it
      exactly when it has 3 votes, or 2 votes and is in the current list.
      Cells without votes never appear. */
  lemma StepRule(alives: seq<Cell>, nrow: int, ncol: int)
    ensures Distinct(Step(alives, nrow, ncol))
    ensures forall c :: c in Step(alives, nrow, ncol) <==> Lives(Votes(alives, c, nrow, ncol), c in alives)
  {
    TallyCounts(alives, nrow, ncol);
    var ctr := Tally(alives, nrow, ncol);
    SelectKeeps(ctr.keys, ctr, alives);
  }

  /** Every cell of a next generation lies on the grid, whatever the current
      list holds (even cells off the grid). */
  lemma StepInGrid(alives: seq<Cell>, nrow: int, ncol: int)
    ensures forall c :: c in Step(alives, nrow, ncol) ==> InGrid(c, nrow, ncol)
  {
    StepRule(alives, nrow, ncol);
    forall c | c in Step(alives, nrow, ncol)
      ensures InGrid(c, nrow, ncol)
    {
      var voters := set i | 0 <= i < |alives| && Casts(alives[i], c, nrow, ncol);
      assert |voters| > 0;
      var i :| i in voters;
      CastsIsClippedMooreNeighbourhood(alives[i], c, nrow, ncol);
    }
  }

  /** With no live cells nothing votes, so nothing is born. */
  lemma EmptyStaysEmpty(nrow: int, ncol: int)
    ensures Step([], nrow, ncol) == []
  {
    StepRule([], nrow, ncol);
  }

  /** A cell with no live Moore neighbour other than itself is dead in the
      next generation: its own liveness casts no vote for it. */
  lemma IsolatedCellDies(alives: seq<Cell>, a: Cell, nrow: int, ncol: int)
    requires forall i :: 0 <= i < |alives| ==> !Adjacent(alives[i], a)
    ensures a !in Step(alives, nrow, ncol)
  {
    StepRule(alives, nrow, ncol);
    var voters := set i | 0 <= i < |alives| && Casts(alives[i], a, nrow, ncol);
    forall i | 0 <= i < |alives|
      ensures !Casts(alives[i], a, nrow, ncol)
    {
      CastsIsClippedMooreNeighbourhood(alives[i], a, nrow, ncol);
    }
    assert voters == {};
  }

  /** A single live cell dies and gives birth to nothing. */
  lemma SingleCellDies(a: Cell, nrow: int, ncol: int)
    ensures Step([a], nrow, ncol) == []
  {
    StepRule([a], nrow, ncol);
    assert [a] == [] + [a];
    VotesSnoc([], a, nrow, ncol);
    assert forall c :: Votes([a], c, nrow, ncol) <= 1;
    var next := Step([a], nrow, ncol);
    DistinctCardinality(next);
    assert Elements(next) == {};
  }

  /** Appending a cell to the list does not change that cell's own count. */
  lemma OwnLivenessNotCounted(alives: seq<Cell>, a: Cell, nrow: int, ncol: int)
    ensures Votes(alives + [a], a, nrow, ncol) == Votes(alives, a, nrow, ncol)
  {
    VotesSnoc(alives, a, nrow, ncol);
  }

  /** The cells of `live` that vote for `c`. */
  ghost function Voters(live: set<Cell>, c: Cell, nrow: int, ncol: int): set<Cell> {
    set a | a in live && Casts(a, c, nrow, ncol)
  }

  /** Adding a new live cell adds its vote, if it casts one. */
  lemma VotersAdd(live: set<Cell>, x: Cell, c: Cell, nrow: int, ncol: int)
    requires x !in live
    ensures |Voters(live + {x}, c, nrow, ncol)|
            == |Voters(live, c, nrow, ncol)| + (if Casts(x, c, nrow, ncol) then 1 else 0)
  {
    var added: set<Cell> := if Casts(x, c, nrow, ncol) then {x} else {};
    assert Voters(live + {x}, c, nrow, ncol) == Voters(live, c, nrow, ncol) + added;
  }

  /** For a list without duplicates, a cell's vote count is the number of
      distinct live cells voting for it. */
  lemma {:induction false} VotesOfDistinct(alives: seq<Cell>, c: Cell, nrow: int, ncol: int)
    requires Distinct(alives)
    ensures Votes(alives, c, nrow, ncol) == |Voters(Elements(alives), c, nrow, ncol)|
    decreases |alives|
  {
    if |alives| == 0 {
      assert Voters(Elements(alives), c, nrow, ncol) == {};
    } else {
      var prefix := alives[..|alives| - 1];
      var last := alives[|alives| - 1];
      assert alives == prefix + [last];
      VotesSnoc(prefix, last, nrow, ncol);
      VotesOfDistinct(prefix, c, nrow, ncol);
      assert last !in Elements(prefix);
      assert Elements(alives) == Elements(prefix) + {last};
      VotersAdd(Elements(prefix), last, c, nrow, ncol);
    }
  }

  /** Once the live list has no duplicates, the next generation depends only
      on which cells are alive, not on their order. */
  lemma StepDependsOnlyOnCells(a: seq<Cell>, b: seq<Cell>, nrow: int, ncol: int)
    requires Distinct(a) && Distinct(b)
    requires Elements(a) == Elements(b)
    ensures Elements(Step(a, nrow, ncol)) == Elements(Step(b, nrow, ncol))
  {
    StepRule(a, nrow, ncol);
    StepRule(b, nrow, ncol);
    forall c
      ensures c in Step(a, nrow, ncol) <==> c in Step(b, nrow, ncol)
    {
      VotesOfDistinct(a, c, nrow, ncol);
      VotesOfDistinct(b, c, nrow, ncol);
      assert (c in a) == (c in Elements(a));
    }
  }
}
