/**
  The elimination sweep: the frame after a live cell is selected eliminates
  it and then every live cell, anywhere on the board, whose colour is within
  tolerance of the selected cell's colour. It is a global similarity sweep,
  not a flood fill: every comparison is made against the one fixed target
  colour.
 */
module Elimination {
  import opened Grid

  /** The board after a sweep, and how many cells the sweep reports removed. */
  datatype Removal = Removal(grid: seq<Cell>, removed: int)

  /** One cell as the sweep leaves it. */
  function SweepCell(c: Cell, target: Color, limit: int): (d: Cell)
    ensures d.color == c.color
    ensures d.eliminated <==> c.eliminated || Similar(c.color, target, limit)
  {
    if !c.eliminated && Similar(c.color, target, limit) then c.(eliminated := true) else c
  }

  /** The selected cell marked eliminated, before the sweep starts. */
  function Mark(g: seq<Cell>, selected: int): (h: seq<Cell>)
    requires 0 <= selected < |g|
    ensures Grows(g, h)
    ensures h[selected].eliminated
    ensures forall k :: 0 <= k < |g| && k != selected ==> h[k] == g[k]
  {
    g[selected := g[selected].(eliminated := true)]
  }

  /** The sweep applied to every cell at once, independent of any scan order. */
  function Sweep(g: seq<Cell>, target: Color, limit: int): (h: seq<Cell>)
    ensures Grows(g, h)
    ensures forall k :: 0 <= k < |g| ==> h[k] == SweepCell(g[k], target, limit)
  {
    seq(|g|, k requires 0 <= k < |g| => SweepCell(g[k], target, limit))
  }

  /** Number of cells among the first n that are live and within tolerance of target. */
  function Matches(g: seq<Cell>, target: Color, limit: int, n: nat): (c: nat)
    requires n <= |g|
    ensures c <= LiveIn(g, n)
  {
    if n == 0 then 0
    else
      Matches(g, target, limit, n - 1)
      + (if !g[n - 1].eliminated && Similar(g[n - 1].color, target, limit) then 1 else 0)
  }

  /**
    Reference definition of the sweep. A negative selection means no cell
    is selected: nothing changes and nothing is removed. Otherwise the
    selected cell is marked and counted, and the sweep then removes and
    counts every other live cell within tolerance of its colour.
   */
  function Eliminate(g: seq<Cell>, selected: int, limit: int): (o: Removal)
    requires IsBoard(g) && selected < CELLS
    ensures selected < 0 ==> o.grid == g && o.removed == 0
    ensures Grows(g, o.grid)
    ensures selected >= 0 ==> o.grid[selected].eliminated && 1 <= o.removed <= CELLS
    ensures selected >= 0 ==>
      forall k :: 0 <= k < |g| && k != selected ==>
        (o.grid[k].eliminated <==> g[k].eliminated || Similar(g[k].color, g[selected].color, limit))
    ensures selected >= 0 && !g[selected].eliminated ==>
      o.removed == NewlyEliminated(g, o.grid)
  {
    if selected < 0 then Removal(g, 0)
    else
      var marked := Mark(g, selected);
      var target := g[selected].color;
      var swept := Sweep(marked, target, limit);
      LiveInMissing(marked, selected, |marked|);
      NewlyCountsMatches(g, selected, limit, |g|);
      Removal(swept, 1 + Matches(marked, target, limit, |marked|))
  }

  /**
    The cells newly eliminated by marking and sweeping are the selected cell
    (when it was live) plus the cells the sweep counts as matches.
   */
  lemma {:induction false} NewlyCountsMatches(g: seq<Cell>, selected: int, limit: int, n: nat)
    requires 0 <= selected < |g| && n <= |g|
    ensures
      var marked := Mark(g, selected);
      var swept := Sweep(marked, g[selected].color, limit);
      NewlyIn(g, swept, n)
      == (if selected < n && !g[selected].eliminated then 1 else 0)
         + Matches(marked, g[selected].color, limit, n)
  {
    if n > 0 {
      NewlyCountsMatches(g, selected, limit, n - 1);
    }
  }

  /**
    The row-by-row, column-by-column scan of the sweep over a board whose
    selected cell is already marked: it eliminates and counts each live
    cell within tolerance of target.
   */
  method ScanRowMajor(marked: seq<Cell>, target: Color, limit: int) returns (result: seq<Cell>, count: int)
    requires IsBoard(marked)
    ensures result == Sweep(marked, target, limit)
    ensures count == Matches(marked, target, limit, CELLS)
  {
    result := marked;
    count := 0;
    var i := 0;
    while i < ROWS
      invariant 0 <= i <= ROWS
      invariant SweptUpTo(result, marked, target, limit, i * COLS)
      invariant count == Matches(marked, target, limit, i * COLS)
    {
      result, count := ScanRow(marked, target, limit, i * COLS, result, count);
      i := i + 1;
    }
  }

  /**
    The scan has visited the first n cells: those are as the sweep leaves
    them, and the rest are still as marked.
   */
  predicate SweptUpTo(result: seq<Cell>, marked: seq<Cell>, target: Color, limit: int, n: int)
  {
    && |result| == |marked|
    && 0 <= n <= |marked|
    && (forall k :: 0 <= k < n ==> result[k] == SweepCell(marked[k], target, limit))
    && (forall k :: n <= k < |marked| ==> result[k] == marked[k])
  }

  /**
    Visiting cell n extends the swept prefix by that cell, and the count of
    matches by one exactly when the cell is live and within tolerance.
   */
  lemma SweptStep(result: seq<Cell>, marked: seq<Cell>, target: Color, limit: int, n: int)
    requires SweptUpTo(result, marked, target, limit, n) && n < |marked|
    ensures SweptUpTo(result[n := SweepCell(result[n], target, limit)], marked, target, limit, n + 1)
    ensures result[n] == marked[n]
    ensures SweepCell(result[n], target, limit) == result[n] ==> result[n := SweepCell(result[n], target, limit)] == result
    ensures Matches(marked, target, limit, n + 1)
            == Matches(marked, target, limit, n)
               + (if !marked[n].eliminated && Similar(marked[n].color, target, limit) then 1 else 0)
  {
  }

  /** The inner loop of the scan: the COLS cells of one row, from flat index base, left to right. */
  method ScanRow(marked: seq<Cell>, target: Color, limit: int, base: int, before: seq<Cell>, countBefore: int)
    returns (result: seq<Cell>, count: int)
    requires IsBoard(marked) && 0 <= base && base + COLS <= CELLS
    requires SweptUpTo(before, marked, target, limit, base)
    requires countBefore == Matches(marked, target, limit, base)
    ensures SweptUpTo(result, marked, target, limit, base + COLS)
    ensures count == Matches(marked, target, limit, base + COLS)
  {
    result, count := before, countBefore;
    var j := 0;
    while j < COLS
      invariant 0 <= j <= COLS
      invariant SweptUpTo(result, marked, target, limit, base + j)
      invariant count == Matches(marked, target, limit, base + j)
    {
      var k := base + j;
      SweptStep(result, marked, target, limit, k);
      if !result[k].eliminated {
        var c := result[k].color;
        if Similar(c, target, limit) {
          result := result[k := result[k].(eliminated := true)];
          count := count + 1;
        }
      }
      j := j + 1;
    }
  }

  /**
    The sweep as the game runs it: with no selection it returns 0 at once;
    otherwise it marks the selected cell, takes its colour as the target,
    counts it, and scans the board.
   */
  method EliminateSimilar(g: seq<Cell>, selected: int, limit: int) returns (result: seq<Cell>, removed: int)
    requires IsBoard(g) && selected < CELLS
    ensures Removal(result, removed) == Eliminate(g, selected, limit)
  {
    if selected < 0 {
      return g, 0;
    }
    var row := selected / COLS;
    var col := selected % COLS;
    var at := FlatIndex(row, col);
    var marked := g[at := g[at].(eliminated := true)];
    var target := marked[at].color;
    var count;
    result, count := ScanRowMajor(marked, target, limit);
    removed := 1 + count;
  }

  // ---------------------------------------------------------------------
  // Scan order does not matter
  // ---------------------------------------------------------------------

  /** The sweep run over the cells in the given visiting order, one cell at a time. */
  function SweepInOrder(g: seq<Cell>, target: Color, limit: int, order: seq<int>): (h: seq<Cell>)
    requires forall i :: 0 <= i < |order| ==> 0 <= order[i] < |g|
    ensures |h| == |g|
    decreases |order|
  {
    if |order| == 0 then g
    else
      var k := order[0];
      SweepInOrder(g[k := SweepCell(g[k], target, limit)], target, limit, order[1..])
  }

  /** Sweeping one cell twice is the same as sweeping it once. */
  lemma SweepCellIdempotent(c: Cell, target: Color, limit: int)
    ensures SweepCell(SweepCell(c, target, limit), target, limit) == SweepCell(c, target, limit)
  {
  }

  /** A visiting order changes exactly the cells it visits, each as SweepCell says. */
  lemma {:induction false} SweepInOrderVisits(g: seq<Cell>, target: Color, limit: int, order: seq<int>)
    requires forall i :: 0 <= i < |order| ==> 0 <= order[i] < |g|
    ensures forall k :: 0 <= k < |g| ==>
      SweepInOrder(g, target, limit, order)[k]
      == (if k in order then SweepCell(g[k], target, limit) else g[k])
    decreases |order|
  {
    if |order| > 0 {
      var k0 := order[0];
      var g' := g[k0 := SweepCell(g[k0], target, limit)];
      SweepInOrderVisits(g', target, limit, order[1..]);
      forall k | 0 <= k < |g|
        ensures SweepInOrder(g, target, limit, order)[k]
                == (if k in order then SweepCell(g[k], target, limit) else g[k])
      {
        assert k in order <==> k == k0 || k in order[1..] by {
          assert order == [k0] + order[1..];
        }
        if k == k0 {
          SweepCellIdempotent(g[k], target, limit);
        }
      }
    }
  }

  /**
    Any visiting order that reaches every cell leaves the board exactly as
    the order-free sweep does: the row-major scan is one such order.
   */
  lemma ScanOrderIrrelevant(g: seq<Cell>, target: Color, limit: int, order: seq<int>)
    requires forall i :: 0 <= i < |order| ==> 0 <= order[i] < |g|
    requires forall k :: 0 <= k < |g| ==> k in order
    ensures SweepInOrder(g, target, limit, order) == Sweep(g, target, limit)
  {
    SweepInOrderVisits(g, target, limit, order);
  }

  // ---------------------------------------------------------------------
  // Extreme tolerances
  // ---------------------------------------------------------------------

  /** A tolerance covering the whole colour cube eliminates every cell. */
  lemma EliminateAllAtFullTolerance(g: seq<Cell>, selected: int, limit: int)
    requires IsBoard(g) && 0 <= selected < CELLS && limit >= MAX_SQ_DIST
    ensures forall k :: 0 <= k < CELLS ==> Eliminate(g, selected, limit).grid[k].eliminated
    ensures !HasLive(Eliminate(g, selected, limit).grid)
  {
  }

  lemma {:induction false} NoMatchesBelowZero(g: seq<Cell>, target: Color, limit: int, n: nat)
    requires n <= |g| && limit < 0
    ensures Matches(g, target, limit, n) == 0
  {
    if n > 0 {
      NoMatchesBelowZero(g, target, limit, n - 1);
    }
  }

  /** A negative tolerance removes the selected cell alone. */
  lemma EliminateOnlyTargetBelowZero(g: seq<Cell>, selected: int, limit: int)
    requires IsBoard(g) && 0 <= selected < CELLS && limit < 0
    ensures Eliminate(g, selected, limit).removed == 1
    ensures Eliminate(g, selected, limit).grid == Mark(g, selected)
  {
    var marked := Mark(g, selected);
    NoMatchesBelowZero(marked, g[selected].color, limit, |marked|);
    assert Sweep(marked, g[selected].color, limit) == marked;
  }
}
