/** The vote counter of one step: every live cell adds one vote to each cell of
    its clipped Moore neighbourhood (src/game_of_life.py, `_step`, first loop). */
module Voting {
  import opened Cells

  /** A `defaultdict(int)` keyed by cell. `keys` keeps the insertion order,
      which is the order Python iterates a dict in. */
  datatype Counter = Counter(keys: seq<Cell>, counts: map<Cell, nat>) {

    /** Keys are listed once each, exactly the keys of the map, and every
        stored count is positive (entries only ever come from `+= 1`). */
    ghost predicate Valid() {
      && Distinct(keys)
      && (forall c :: c in counts <==> c in keys)
      && (forall c :: c in counts ==> counts[c] > 0)
    }

    /** Reading `counter[c]`; a missing key reads as 0. */
    function Get(c: Cell): nat {
      if c in counts then counts[c] else 0
    }

    /** `counter[k] += 1` */
    function Increment(k: Cell): (r: Counter)
      ensures Valid() ==> r.Valid()
      ensures forall c :: r.Get(c) == Get(c) + (if c == k then 1 else 0)
    {
      if k in counts then Counter(keys, counts[k := counts[k] + 1])
      else Counter(keys + [k], counts[k := 1])
    }
  }

  /** A fresh counter, allocated anew for every step. */
  const Empty: Counter := Counter([], map[])

  /** The reference count: how many entries of `alives` (with multiplicity)
      cast a vote for `c`. */
  ghost function Votes(alives: seq<Cell>, c: Cell, nrow: int, ncol: int): nat {
    |set i | 0 <= i < |alives| && Casts(alives[i], c, nrow, ncol)|
  }

  /** One more live entry adds its own vote, if any: a cell listed twice votes twice. */
  lemma VotesSnoc(alives: seq<Cell>, x: Cell, nrow: int, ncol: int)
    ensures forall c :: Votes(alives + [x], c, nrow, ncol)
                        == Votes(alives, c, nrow, ncol) + (if Casts(x, c, nrow, ncol) then 1 else 0)
  {
    var s := alives + [x];
    forall c
      ensures Votes(s, c, nrow, ncol)
              == Votes(alives, c, nrow, ncol) + (if Casts(x, c, nrow, ncol) then 1 else 0)
    {
      var before := set i | 0 <= i < |alives| && Casts(alives[i], c, nrow, ncol);
      var after := set i | 0 <= i < |s| && Casts(s[i], c, nrow, ncol);
      var added: set<int> := if Casts(x, c, nrow, ncol) then {|alives|} else {};
      assert after == before + added;
      assert before * added == {};
    }
  }

  /** The innermost loop: columns `col .. colMax-1` of neighbour row `row`,
      skipping the voter `a` itself. */
  function VoteColumns(ctr: Counter, a: Cell, row: int, col: int, colMax: int): Counter
    decreases colMax - col
  {
    if col >= colMax then ctr
    else
      var next := if row != a.row || col != a.col then ctr.Increment(Cell(row, col)) else ctr;
      VoteColumns(next, a, row, col + 1, colMax)
  }

  /** The loop over neighbour rows `row .. rowMax-1`, each visiting the columns
      `colMin .. colMax-1`. */
  function VoteRows(ctr: Counter, a: Cell, row: int, rowMax: int, colMin: int, colMax: int): Counter
    decreases rowMax - row
  {
    if row >= rowMax then ctr
    else VoteRows(VoteColumns(ctr, a, row, colMin, colMax), a, row + 1, rowMax, colMin, colMax)
  }

  /** All votes of live cell `a`, over its window clipped to the grid. */
  function CastVotes(ctr: Counter, a: Cell, nrow: int, ncol: int): Counter {
    VoteRows(ctr, a, Max(a.row - 1, 0), Min(a.row + 2, nrow), Max(a.col - 1, 0), Min(a.col + 2, ncol))
  }

  /** The whole first loop of `_step`: the live entries vote in list order. */
  function Tally(alives: seq<Cell>, nrow: int, ncol: int): Counter
    decreases |alives|
  {
    if |alives| == 0 then Empty
    else CastVotes(Tally(alives[..|alives| - 1], nrow, ncol), alives[|alives| - 1], nrow, ncol)
  }

  /** One row of the scan adds a vote to each visited column but the voter's own. */
  lemma {:induction false} VoteColumnsCounts(ctr: Counter, a: Cell, row: int, col: int, colMax: int)
    requires ctr.Valid()
    ensures VoteColumns(ctr, a, row, col, colMax).Valid()
    ensures forall c :: VoteColumns(ctr, a, row, col, colMax).Get(c)
                        == ctr.Get(c) + (if c.row == row && col <= c.col < colMax && c != a then 1 else 0)
    decreases colMax - col
  {
    if col < colMax {
      var next := if row != a.row || col != a.col then ctr.Increment(Cell(row, col)) else ctr;
      VoteColumnsCounts(next, a, row, col + 1, colMax);
    }
  }

  /** The row scan adds a vote to each cell of the rectangle but the voter's own. */
  lemma {:induction false} VoteRowsCounts(ctr: Counter, a: Cell, row: int, rowMax: int, colMin: int, colMax: int)
    requires ctr.Valid()
    ensures VoteRows(ctr, a, row, rowMax, colMin, colMax).Valid()
    ensures forall c :: VoteRows(ctr, a, row, rowMax, colMin, colMax).Get(c)
                        == ctr.Get(c) + (if row <= c.row < rowMax && colMin <= c.col < colMax && c != a then 1 else 0)
    decreases rowMax - row
  {
    if row < rowMax {
      VoteColumnsCounts(ctr, a, row, colMin, colMax);
      VoteRowsCounts(VoteColumns(ctr, a, row, colMin, colMax), a, row + 1, rowMax, colMin, colMax);
    }
  }

  /** One live cell adds exactly one vote to every cell it casts a vote for. */
  lemma CastVotesCounts(ctr: Counter, a: Cell, nrow: int, ncol: int)
    requires ctr.Valid()
    ensures CastVotes(ctr, a, nrow, ncol).Valid()
    ensures forall c :: CastVotes(ctr, a, nrow, ncol).Get(c) == ctr.Get(c) + (if Casts(a, c, nrow, ncol) then 1 else 0)
  {
    VoteRowsCounts(ctr, a, Max(a.row - 1, 0), Min(a.row + 2, nrow), Max(a.col - 1, 0), Min(a.col + 2, ncol));
  }

  /** After the first loop the counter holds each cell's reference vote
      count, and its keys are exactly the cells with at least one vote,
      each listed once. */
  lemma {:induction false} TallyCounts(alives: seq<Cell>, nrow: int, ncol: int)
    ensures Tally(alives, nrow, ncol).Valid()
    ensures forall c :: Tally(alives, nrow, ncol).Get(c) == Votes(alives, c, nrow, ncol)
    ensures forall c :: c in Tally(alives, nrow, ncol).keys <==> Votes(alives, c, nrow, ncol) > 0
    decreases |alives|
  {
    if |alives| > 0 {
      var prefix := alives[..|alives| - 1];
      var last := alives[|alives| - 1];
      assert alives == prefix + [last];
      VotesSnoc(prefix, last, nrow, ncol);
      TallyCounts(prefix, nrow, ncol);
      CastVotesCounts(Tally(prefix, nrow, ncol), last, nrow, ncol);
    }
  }
}
