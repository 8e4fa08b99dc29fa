/** Classic patterns run through the transition function: the 2x2 block is a
    still life and the 3-cell blinker has period 2. */
module Patterns {
  import opened Cells
  import opened Voting
  import opened Transition
  import opened PotentialMeasure
  import opened Engine

  function Block(): seq<Cell> {
    [Cell(5, 5), Cell(5, 6), Cell(6, 5), Cell(6, 6)]
  }

  function HorizontalBlinker(): seq<Cell> {
    [Cell(5, 4), Cell(5, 5), Cell(5, 6)]
  }

  function VerticalBlinker(): seq<Cell> {
    [Cell(4, 5), Cell(5, 5), Cell(6, 5)]
  }

  /** The vote count of every cell for a three-entry list, entry by entry. */
  lemma VotesOfThree(a: Cell, b: Cell, d: Cell, nrow: int, ncol: int)
    ensures forall c :: Votes([a, b, d], c, nrow, ncol)
                        == (if Casts(a, c, nrow, ncol) then 1 else 0)
                         + (if Casts(b, c, nrow, ncol) then 1 else 0)
                         + (if Casts(d, c, nrow, ncol) then 1 else 0)
  {
    VotesSnoc([], a, nrow, ncol);
    assert [] + [a] == [a];
    VotesSnoc([a], b, nrow, ncol);
    assert [a] + [b] == [a, b];
    VotesSnoc([a, b], d, nrow, ncol);
    assert [a, b] + [d] == [a, b, d];
  }

  /** Per cell: in the block, a cell has exactly 3 votes; outside, it never has 3. */
  lemma BlockCell(c: Cell, nrow: int, ncol: int)
    requires nrow >= 7 && ncol >= 7
    ensures Lives(Votes(Block(), c, nrow, ncol), c in Block()) <==> c in Block()
  {
    var b := Block();
    VotesOfThree(b[0], b[1], b[2], nrow, ncol);
    VotesSnoc([b[0], b[1], b[2]], b[3], nrow, ncol);
    assert [b[0], b[1], b[2]] + [b[3]] == b;
    var n := Votes(b, c, nrow, ncol);
    assert n == (if Casts(b[0], c, nrow, ncol) then 1 else 0)
               + (if Casts(b[1], c, nrow, ncol) then 1 else 0)
               + (if Casts(b[2], c, nrow, ncol) then 1 else 0)
               + (if Casts(b[3], c, nrow, ncol) then 1 else 0);
    if c.row < 4 || c.row > 7 || c.col < 4 || c.col > 7 {
      assert n == 0;
    } else if c in b {
      assert n == 3;
    } else {
      assert n <= 2;
    }
  }

  /** A 2x2 block on a grid that holds it is unchanged by a step. */
  lemma BlockIsStillLife(nrow: int, ncol: int)
    requires nrow >= 7 && ncol >= 7
    ensures Elements(Step(Block(), nrow, ncol)) == Elements(Block())
  {
    StepRule(Block(), nrow, ncol);
    forall c
      ensures c in Step(Block(), nrow, ncol) <==> c in Block()
    {
      BlockCell(c, nrow, ncol);
    }
  }

  /** Per cell: a step of the horizontal blinker gives the vertical one. */
  lemma HorizontalBlinkerCell(c: Cell, nrow: int, ncol: int)
    requires nrow >= 7 && ncol >= 7
    ensures Lives(Votes(HorizontalBlinker(), c, nrow, ncol), c in HorizontalBlinker()) <==> c in VerticalBlinker()
  {
    var h := HorizontalBlinker();
    VotesOfThree(h[0], h[1], h[2], nrow, ncol);
  }

  /** Per cell: a step of the vertical blinker gives the horizontal one. */
  lemma VerticalBlinkerCell(c: Cell, nrow: int, ncol: int)
    requires nrow >= 7 && ncol >= 7
    ensures Lives(Votes(VerticalBlinker(), c, nrow, ncol), c in VerticalBlinker()) <==> c in HorizontalBlinker()
  {
    var v := VerticalBlinker();
    VotesOfThree(v[0], v[1], v[2], nrow, ncol);
  }

  /** A horizontal blinker turns vertical. */
  lemma HorizontalBlinkerTurnsVertical(nrow: int, ncol: int)
    requires nrow >= 7 && ncol >= 7
    ensures Elements(Step(HorizontalBlinker(), nrow, ncol)) == Elements(VerticalBlinker())
  {
    StepRule(HorizontalBlinker(), nrow, ncol);
    forall c
      ensures c in Step(HorizontalBlinker(), nrow, ncol) <==> c in VerticalBlinker()
    {
      HorizontalBlinkerCell(c, nrow, ncol);
    }
  }

  /** A vertical blinker turns horizontal. */
  lemma VerticalBlinkerTurnsHorizontal(nrow: int, ncol: int)
    requires nrow >= 7 && ncol >= 7
    ensures Elements(Step(VerticalBlinker(), nrow, ncol)) == Elements(HorizontalBlinker())
  {
    StepRule(VerticalBlinker(), nrow, ncol);
    forall c
      ensures c in Step(VerticalBlinker(), nrow, ncol) <==> c in HorizontalBlinker()
    {
      VerticalBlinkerCell(c, nrow, ncol);
    }
  }

  /** The blinker is a period-2 oscillator: two steps give back its cells. */
  lemma BlinkerHasPeriodTwo(nrow: int, ncol: int)
    requires nrow >= 7 && ncol >= 7
    ensures Elements(Step(Step(HorizontalBlinker(), nrow, ncol), nrow, ncol)) == Elements(HorizontalBlinker())
  {
    assert Distinct(VerticalBlinker());
    var once := Step(HorizontalBlinker(), nrow, ncol);
    HorizontalBlinkerTurnsVertical(nrow, ncol);
    VerticalBlinkerTurnsHorizontal(nrow, ncol);
    StepRule(HorizontalBlinker(), nrow, ncol);
    StepDependsOnlyOnCells(once, VerticalBlinker(), nrow, ncol);
  }

  /** Duplicates in the live list are not collapsed: a cell listed three
      times casts three votes, so each of its in-grid neighbours is born,
      whereas listed once it leaves nothing behind. */
  lemma DuplicatesVoteRepeatedly(nrow: int, ncol: int)
    ensures forall c :: c in Step([Cell(1, 1), Cell(1, 1), Cell(1, 1)], nrow, ncol)
                        <==> InGrid(c, nrow, ncol) && Adjacent(Cell(1, 1), c)
    ensures Step([Cell(1, 1)], nrow, ncol) == []
  {
    var a := Cell(1, 1);
    VotesOfThree(a, a, a, nrow, ncol);
    StepRule([a, a, a], nrow, ncol);
    forall c
      ensures c in Step([a, a, a], nrow, ncol) <==> InGrid(c, nrow, ncol) && Adjacent(a, c)
    {
      CastsIsClippedMooreNeighbourhood(a, c, nrow, ncol);
    }
    SingleCellDies(a, nrow, ncol);
  }

  /** A list holding the cells of a still life steps to those cells again. */
  lemma StillLifeStep(alives: seq<Cell>, init: seq<Cell>, nrow: int, ncol: int)
    requires Distinct(init) && Elements(Step(init, nrow, ncol)) == Elements(init)
    requires Distinct(alives) && Elements(alives) == Elements(init)
    ensures Distinct(Step(alives, nrow, ncol)) && Elements(Step(alives, nrow, ncol)) == Elements(init)
  {
    StepRule(alives, nrow, ncol);
    StepDependsOnlyOnCells(alives, init, nrow, ncol);
  }

  /** Every generation of a run from a still life holds the same cells, without duplicates. */
  lemma {:induction false} StillLifeStays(h: seq<seq<Cell>>, init: seq<Cell>, nrow: int, ncol: int, k: nat)
    requires Distinct(init) && Elements(Step(init, nrow, ncol)) == Elements(init)
    requires |h| >= 1 && h[0] == init
    requires forall j :: 0 <= j < |h| - 1 ==> h[j + 1] == Step(h[j], nrow, ncol)
    requires k < |h|
    ensures Distinct(h[k]) && Elements(h[k]) == Elements(init)
    decreases k
  {
    if k > 0 {
      StillLifeStays(h, init, nrow, ncol, k - 1);
      StillLifeStep(h[k - 1], init, nrow, ncol);
    }
  }

  /** A run from a still life records potential 0 at every step, so with a
      positive wait it stops after exactly wait + 1 steps, or at the cap. */
  lemma StillLifeRunStopsAfterWaitSteps(h: seq<seq<Cell>>, p: seq<PotentialValue>, init: seq<Cell>,
                                        nrow: int, ncol: int, maxIteration: int, shutdownWait: int)
    requires Distinct(init) && Elements(Step(init, nrow, ncol)) == Elements(init)
    requires IsTrace(h, p, init, nrow, ncol)
    requires FollowsShutdownRule(p, maxIteration, shutdownWait)
    requires shutdownWait >= 1
    ensures |h| - 1 == Min(Max(maxIteration, 0), shutdownWait + 1)
    ensures forall k :: 0 <= k < |h| ==> Elements(h[k]) == Elements(init)
    ensures forall k :: 1 <= k < |p| ==> p[k] == Finite(0)
  {
    forall k | 0 <= k < |h|
      ensures Elements(h[k]) == Elements(init)
    {
      StillLifeStays(h, init, nrow, ncol, k);
    }
    forall k | 1 <= k < |p|
      ensures p[k] == Finite(0)
    {
      PotentialZeroIffSameCells(h[k], h[k - 1]);
    }
    ConstantPotentialStopsAfterWaitSteps(p, 0, maxIteration, shutdownWait);
  }

  /** The block, run on a grid that holds it, stops after wait + 1 steps. */
  lemma BlockRunStopsAfterWaitSteps(h: seq<seq<Cell>>, p: seq<PotentialValue>,
                                    nrow: int, ncol: int, maxIteration: int, shutdownWait: int)
    requires nrow >= 7 && ncol >= 7
    requires IsTrace(h, p, Block(), nrow, ncol)
    requires FollowsShutdownRule(p, maxIteration, shutdownWait)
    requires shutdownWait >= 1
    ensures |h| - 1 == Min(Max(maxIteration, 0), shutdownWait + 1)
  {
    assert Distinct(Block());
    BlockIsStillLife(nrow, ncol);
    StillLifeRunStopsAfterWaitSteps(h, p, Block(), nrow, ncol, maxIteration, shutdownWait);
  }
}
