/** The simulation engine, class `GameOfLife` of src/game_of_life.py: the
    initial live list, and the `run` loop recording every generation and its
    potential, with the shutdown rule that may stop the loop early. */
module Engine {
  import opened Cells
  import opened Transition
  import opened PotentialMeasure

  datatype Option<T> = None | Some(value: T)

  /** An entry of the potential list: the float infinity recorded for the
      initial generation, or a count of changed cells. A finite count never
      equals the sentinel. */
  datatype PotentialValue = Infinite | Finite(value: nat)

  /** A `GameOfLife` object: grid size, the history and potential lists that
      every run appends to, and the current live list (`None` before a run). */
  datatype GameOfLife = GameOfLife(
    nrow: int,
    ncol: int,
    history: seq<seq<Cell>>,
    potential: seq<PotentialValue>,
    alives: Option<seq<Cell>>)

  /** A new engine: nothing recorded yet. */
  function Create(nrow: int, ncol: int): GameOfLife {
    GameOfLife(nrow, ncol, [], [], None)
  }

  /** Pairs the sampled rows with the sampled columns position by position;
      the shorter list decides the length. */
  function Zip(rows: seq<int>, cols: seq<int>): (cells: seq<Cell>)
    ensures |cells| == Min(|rows|, |cols|)
    ensures forall i :: 0 <= i < |cells| ==> cells[i] == Cell(rows[i], cols[i])
  {
    if |rows| == 0 || |cols| == 0 then []
    else [Cell(rows[0], cols[0])] + Zip(rows[1..], cols[1..])
  }

  /** `_set_initial`: explicit cells are used verbatim, duplicates and
      off-grid cells included; otherwise the cells are the sampled row and
      column draws, which are parameters here. */
  function SetInitial(alives: Option<seq<Cell>>, sampledRows: seq<int>, sampledCols: seq<int>): (init: seq<Cell>)
    ensures alives.Some? ==> init == alives.value
    ensures alives.None? ==> |init| == Min(|sampledRows|, |sampledCols|)
    ensures alives.None? ==> forall i :: 0 <= i < |init| ==> init[i] == Cell(sampledRows[i], sampledCols[i])
  {
    match alives
    case Some(cells) => cells
    case None => Zip(sampledRows, sampledCols)
  }

  /** Draws taken from [0, nrow) and [0, ncol) give initial cells on the grid. */
  lemma SampledCellsInGrid(sampledRows: seq<int>, sampledCols: seq<int>, nrow: int, ncol: int)
    requires forall i :: 0 <= i < |sampledRows| ==> 0 <= sampledRows[i] < nrow
    requires forall i :: 0 <= i < |sampledCols| ==> 0 <= sampledCols[i] < ncol
    ensures forall c :: c in SetInitial(None, sampledRows, sampledCols) ==> InGrid(c, nrow, ncol)
  {
  }

  /** The shutdown counter after the potentials `p` were recorded: how many
      entries equal the entry before them. It is never reset, so equal
      potentials count even when they are far apart. */
  function EqualEvents(p: seq<PotentialValue>): nat
    decreases |p|
  {
    if |p| < 2 then 0
    else EqualEvents(p[..|p| - 1]) + (if p[|p| - 1] == p[|p| - 2] then 1 else 0)
  }

  /** The loop breaks right after recording potential `k`: it equals the one
      before and the counter has reached the shutdown wait. */
  predicate BreaksAt(p: seq<PotentialValue>, k: int, shutdownWait: int) {
    1 <= k < |p| && p[k] == p[k - 1] && EqualEvents(p[..k + 1]) >= shutdownWait
  }

  /** Recording one more potential changes neither the counter's past values
      nor whether the loop broke at an earlier step. */
  lemma BreaksAtExtend(p: seq<PotentialValue>, x: PotentialValue, shutdownWait: int)
    ensures |p| >= 1 ==> EqualEvents(p + [x]) == EqualEvents(p) + (if x == p[|p| - 1] then 1 else 0)
    ensures forall k :: 1 <= k < |p| ==> (BreaksAt(p + [x], k, shutdownWait) <==> BreaksAt(p, k, shutdownWait))
  {
    assert (p + [x])[..|p|] == p;
    forall k | 1 <= k < |p|
      ensures BreaksAt(p + [x], k, shutdownWait) <==> BreaksAt(p, k, shutdownWait)
    {
      assert (p + [x])[..k + 1] == p[..k + 1];
    }
  }

  /** `h` and `p` are what one run records from `init`: each generation is the
      step of the one before, and each potential compares a generation with
      its predecessor, the first being the infinity sentinel. */
  ghost predicate IsTrace(h: seq<seq<Cell>>, p: seq<PotentialValue>, init: seq<Cell>, nrow: int, ncol: int) {
    && |h| >= 1
    && |h| == |p|
    && h[0] == init
    && p[0] == Infinite
    && (forall k :: 0 <= k < |h| - 1 ==> h[k + 1] == Step(h[k], nrow, ncol))
    && (forall k :: 1 <= k < |p| ==> p[k] == Finite(Potential(h[k], h[k - 1])))
  }

  /** A trace extended by one more step is still a trace. */
  lemma TraceExtend(h: seq<seq<Cell>>, p: seq<PotentialValue>, init: seq<Cell>, nrow: int, ncol: int)
    requires IsTrace(h, p, init, nrow, ncol)
    ensures var next := Step(h[|h| - 1], nrow, ncol);
            IsTrace(h + [next], p + [Finite(Potential(next, h[|h| - 1]))], init, nrow, ncol)
  {
    var next := Step(h[|h| - 1], nrow, ncol);
    var h', p' := h + [next], p + [Finite(Potential(next, h[|h| - 1]))];
    forall k | 0 <= k < |h'| - 1
      ensures h'[k + 1] == Step(h'[k], nrow, ncol)
    {
      if k < |h| - 1 {
        assert h'[k + 1] == h[k + 1];
      }
    }
    forall k | 1 <= k < |p'|
      ensures p'[k] == Finite(Potential(h'[k], h'[k - 1]))
    {
      if k < |p| {
        assert p'[k] == p[k];
      }
    }
  }

  /** The run took at most `maxIteration` steps, did not break before its
      last step, and either used all its steps or broke at the last one. */
  ghost predicate FollowsShutdownRule(p: seq<PotentialValue>, maxIteration: int, shutdownWait: int) {
    && 1 <= |p| <= Max(maxIteration, 0) + 1
    && (forall k :: 1 <= k < |p| - 1 ==> !BreaksAt(p, k, shutdownWait))
    && (|p| == Max(maxIteration, 0) + 1 || BreaksAt(p, |p| - 1, shutdownWait))
  }

  /** The loop of `run`, from the initial cells on. The result flag is the
      final report: early-stopped exactly when the counter reached the wait. */
  method Simulate(init: seq<Cell>, nrow: int, ncol: int, maxIteration: int, shutdownWait: int)
    returns (history: seq<seq<Cell>>, potential: seq<PotentialValue>, earlyStopped: bool)
    ensures IsTrace(history, potential, init, nrow, ncol)
    ensures FollowsShutdownRule(potential, maxIteration, shutdownWait)
    ensures earlyStopped <==> EqualEvents(potential) >= shutdownWait
  {
    var alives := init;
    history := [alives];
    potential := [Infinite];
    var shutdownCount := 0;
    var i := 0;
    while i < maxIteration
      invariant 0 <= i <= Max(maxIteration, 0)
      invariant |history| == i + 1
      invariant IsTrace(history, potential, init, nrow, ncol)
      invariant alives == history[|history| - 1]
      invariant shutdownCount == EqualEvents(potential)
      invariant forall k :: 1 <= k < |potential| ==> !BreaksAt(potential, k, shutdownWait)
    {
      TraceExtend(history, potential, init, nrow, ncol);
      alives := Step(alives, nrow, ncol);
      var previous := potential;
      history := history + [alives];
      var pot := Potential(history[|history| - 1], history[|history| - 2]);
      potential := potential + [Finite(pot)];
      BreaksAtExtend(previous, Finite(pot), shutdownWait);
      assert potential[..|potential|] == potential;
      i := i + 1;
      if potential[|potential| - 1] == potential[|potential| - 2] {
        shutdownCount := shutdownCount + 1;
        if shutdownCount >= shutdownWait {
          break;
        }
      }
    }
    earlyStopped := shutdownCount >= shutdownWait;
  }

  /** `run`: set the initial cells, then append the run's generations and
      potentials to the engine's lists. Earlier entries stay as they were,
      and both lists grow by the same amount. */
  method Run(g: GameOfLife, maxIteration: int, alives: Option<seq<Cell>>, sampledRows: seq<int>,
             sampledCols: seq<int>, shutdownWait: int)
    returns (g': GameOfLife, earlyStopped: bool)
    ensures g'.nrow == g.nrow && g'.ncol == g.ncol
    ensures |g'.history| > |g.history| && g'.history[..|g.history|] == g.history
    ensures |g'.potential| > |g.potential| && g'.potential[..|g.potential|] == g.potential
    ensures |g'.history| - |g.history| == |g'.potential| - |g.potential|
    ensures |g.history| == |g.potential| ==> |g'.history| == |g'.potential|
    ensures IsTrace(g'.history[|g.history|..], g'.potential[|g.potential|..],
                    SetInitial(alives, sampledRows, sampledCols), g.nrow, g.ncol)
    ensures FollowsShutdownRule(g'.potential[|g.potential|..], maxIteration, shutdownWait)
    ensures earlyStopped <==> EqualEvents(g'.potential[|g.potential|..]) >= shutdownWait
    ensures g'.alives == Some(g'.history[|g'.history| - 1])
  {
    var init := SetInitial(alives, sampledRows, sampledCols);
    var history, potential, stopped := Simulate(init, g.nrow, g.ncol, maxIteration, shutdownWait);
    g' := g.(history := g.history + history, potential := g.potential + potential,
             alives := Some(history[|history| - 1]));
    assert g'.history[|g.history|..] == history;
    assert g'.potential[|g.potential|..] == potential;
    earlyStopped := stopped;
  }

  /** The first step can never raise the counter, since a finite potential
      never equals the sentinel; so after n steps the counter is at most n - 1. */
  lemma {:induction false} EqualEventsBound(p: seq<PotentialValue>)
    requires |p| >= 2
    requires p[0] == Infinite
    requires forall k :: 1 <= k < |p| ==> p[k].Finite?
    ensures EqualEvents(p) <= |p| - 2
    decreases |p|
  {
    if |p| > 2 {
      EqualEventsBound(p[..|p| - 1]);
    }
  }

  /** A run that stops before its iteration cap has taken more steps than the
      shutdown wait, and at least two. */
  lemma EarlyStopNeedsMoreThanWaitSteps(h: seq<seq<Cell>>, p: seq<PotentialValue>, init: seq<Cell>,
                                        nrow: int, ncol: int, maxIteration: int, shutdownWait: int)
    requires IsTrace(h, p, init, nrow, ncol)
    requires FollowsShutdownRule(p, maxIteration, shutdownWait)
    requires |h| - 1 < Max(maxIteration, 0)
    ensures |h| - 1 >= Max(shutdownWait, 1) + 1
  {
    assert |p| >= 2 && BreaksAt(p, |p| - 1, shutdownWait);
    assert p[..|p|] == p;
    forall k | 1 <= k < |p|
      ensures p[k].Finite?
    {
      assert p[k] == Finite(Potential(h[k], h[k - 1]));
    }
    EqualEventsBound(p);
  }

  /** While every potential after the sentinel is the same value, the counter
      after step k (k >= 1) is k - 1. */
  lemma {:induction false} ConstantPotentialEvents(p: seq<PotentialValue>, v: nat, k: nat)
    requires |p| >= 1 && p[0] == Infinite
    requires forall j :: 1 <= j < |p| ==> p[j] == Finite(v)
    requires 1 <= k < |p|
    ensures EqualEvents(p[..k + 1]) == k - 1
    decreases k
  {
    var q := p[..k + 1];
    assert q[..k] == p[..k];
    if k > 1 {
      ConstantPotentialEvents(p, v, k - 1);
    }
  }

  /** When every step yields the same potential (a still life, or an
      oscillator whose change count does not vary), a run with a positive
      wait stops after exactly wait + 1 steps, unless the cap comes first. */
  lemma ConstantPotentialStopsAfterWaitSteps(p: seq<PotentialValue>, v: nat, maxIteration: int, shutdownWait: int)
    requires |p| >= 1 && p[0] == Infinite
    requires forall j :: 1 <= j < |p| ==> p[j] == Finite(v)
    requires FollowsShutdownRule(p, maxIteration, shutdownWait)
    requires shutdownWait >= 1
    ensures |p| - 1 == Min(Max(maxIteration, 0), shutdownWait + 1)
  {
    forall k | 1 <= k < |p|
      ensures BreaksAt(p, k, shutdownWait) <==> k >= shutdownWait + 1
    {
      ConstantPotentialEvents(p, v, k);
    }
    assert !BreaksAt(p, shutdownWait + 1, shutdownWait) || shutdownWait + 1 == |p| - 1;
  }

  /** Literal behaviour of the counter: equal-potential events far apart
      still add up, so two isolated repeats stop a run with wait 2. */
  lemma CounterIsNeverReset()
    ensures var p := [Infinite, Finite(4), Finite(4), Finite(7), Finite(2), Finite(2)];
            EqualEvents(p) == 2 && !BreaksAt(p, 2, 2) && BreaksAt(p, 5, 2)
  {
    var p := [Infinite, Finite(4), Finite(4), Finite(7), Finite(2), Finite(2)];
    assert p[..1] == [Infinite];
    assert p[..2][..1] == p[..1];
    assert p[..3][..2] == p[..2];
    assert p[..4][..3] == p[..3];
    assert p[..5][..4] == p[..4];
    assert p[..6] == p;
    assert p[..6][..5] == p[..5];
    assert EqualEvents(p[..2]) == 0;
    assert EqualEvents(p[..3]) == 1;
    assert EqualEvents(p[..4]) == 1;
    assert EqualEvents(p[..5]) == 1;
  }
}
