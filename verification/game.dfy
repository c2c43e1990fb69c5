/**
  The game session: the board together with the attempt counter, the score,
  the game-over flag and the transient selection, and the three things that
  change them: a click on a cell, the per-frame scoring step, and a reset.

  States: Playing (gameOver false) and GameOver. A step that leaves no live
  cell moves Playing to GameOver; nothing but a reset leaves GameOver.
 */
module Game {
  import opened Grid
  import opened Elimination

  /** The selection value meaning "no cell selected". */
  const NO_SELECTION: int := -1

  datatype Session = Session(grid: seq<Cell>, attempts: int, score: int, gameOver: bool, selected: int)

  /** Cells eliminated so far. */
  function EliminatedCount(g: seq<Cell>): int
  {
    |g| - LiveCount(g)
  }

  /**
    The invariant every reachable session keeps: the board has its fixed
    size; a pending selection is an in-range live cell of a game still in
    play; the game is over exactly when no cell is live; attempts and score
    are never negative, and together never exceed the cells eliminated
    (each attempt removes at least one cell, and a cell scores at most one
    point), which also bounds both by ROWS * COLS.
   */
  predicate Valid(s: Session)
  {
    && IsBoard(s.grid)
    && (s.selected == NO_SELECTION
        || (0 <= s.selected < CELLS && !s.grid[s.selected].eliminated && !s.gameOver))
    && (s.gameOver <==> LiveCount(s.grid) == 0)
    && 0 <= s.attempts
    && 0 <= s.score
    && s.attempts + s.score <= EliminatedCount(s.grid)
  }

  // ---------------------------------------------------------------------
  // Reset
  // ---------------------------------------------------------------------

  /** A board on which every cell among the first n is live has n live cells. */
  lemma {:induction false} AllLiveCount(g: seq<Cell>, n: nat)
    requires n <= |g|
    requires forall k :: 0 <= k < n ==> !g[k].eliminated
    ensures LiveIn(g, n) == n
  {
    if n > 0 {
      AllLiveCount(g, n - 1);
    }
  }

  /**
    A fresh game: every cell live with the given colour (the colours are the
    random draws, taken here as input), no attempts, no score, not over,
    nothing selected.
   */
  function Reset(colors: seq<Color>): (s: Session)
    requires |colors| == CELLS
    ensures Valid(s)
    ensures forall k :: 0 <= k < CELLS ==> s.grid[k].color == colors[k] && !s.grid[k].eliminated
    ensures LiveCount(s.grid) == CELLS
    ensures s.attempts == 0 && s.score == 0 && !s.gameOver && s.selected == NO_SELECTION
  {
    var g := seq(CELLS, k requires 0 <= k < CELLS => Cell(colors[k], false));
    AllLiveCount(g, CELLS);
    Session(g, 0, 0, false, NO_SELECTION)
  }

  // ---------------------------------------------------------------------
  // Click
  // ---------------------------------------------------------------------

  /** A click on (row, col) is accepted: game in play, cell in range and live. */
  predicate Accepts(s: Session, row: int, col: int)
    requires IsBoard(s.grid)
  {
    && !s.gameOver
    && 0 <= row < ROWS && 0 <= col < COLS
    && !s.grid[FlatIndex(row, col)].eliminated
  }

  /**
    A left click on the cell at (row, col): when accepted, the cell's flat
    index becomes the selection (replacing any pending one); otherwise the
    click is ignored. Nothing else changes.
   */
  function Click(s: Session, row: int, col: int): (t: Session)
    requires IsBoard(s.grid)
    ensures t.grid == s.grid && t.attempts == s.attempts && t.score == s.score && t.gameOver == s.gameOver
    ensures !Accepts(s, row, col) ==> t.selected == s.selected
    ensures Accepts(s, row, col) ==>
      && 0 <= t.selected < CELLS
      && RowOf(t.selected) == row && ColOf(t.selected) == col
      && !t.grid[t.selected].eliminated
  {
    if Accepts(s, row, col) then s.(selected := FlatIndex(row, col)) else s
  }

  /** Clicks keep the session invariant. */
  lemma ClickPreservesValid(s: Session, row: int, col: int)
    requires Valid(s)
    ensures Valid(Click(s, row, col))
  {
  }

  // ---------------------------------------------------------------------
  // The scoring step
  // ---------------------------------------------------------------------

  /** The step runs only when a cell is selected and the game is in play. */
  predicate Pending(s: Session)
  {
    s.selected >= 0 && !s.gameOver
  }

  /**
    The per-frame step: when a selection is pending it runs the sweep; a
    sweep that removed something counts as one more attempt, whose penalty
    is the new attempt number, and adds removed - penalty to the score,
    clamped at 0. The game ends when no live cell remains, and the
    selection is always consumed. Without a pending selection nothing
    happens.
   */
  function Step(s: Session, limit: int): (t: Session)
    requires IsBoard(s.grid) && s.selected < CELLS
    ensures !Pending(s) ==> t == s
    ensures Pending(s) ==>
      && t.selected == NO_SELECTION
      && t.grid == Eliminate(s.grid, s.selected, limit).grid
      && Grows(s.grid, t.grid)
      && t.grid[s.selected].eliminated
      && (t.gameOver <==> !HasLive(t.grid))
    ensures Pending(s) ==>
      var removed := Eliminate(s.grid, s.selected, limit).removed;
      && t.attempts == s.attempts + 1
      && t.score >= 0
      && (t.score == 0 || t.score == s.score + removed - t.attempts)
      && t.score >= s.score + removed - t.attempts
  {
    if Pending(s) then
      var o := Eliminate(s.grid, s.selected, limit);
      var attempts := if o.removed > 0 then s.attempts + 1 else s.attempts;
      var penalty := attempts;
      var raw := if o.removed > 0 then s.score + (o.removed - penalty) else s.score;
      var score := if raw < 0 then 0 else raw;
      var gameOver := if !HasLive(o.grid) then true else s.gameOver;
      Session(o.grid, attempts, score, gameOver, NO_SELECTION)
    else
      s
  }

  /**
    The step as the game loop runs it, with the sweep and the live-cell scan
    done by their loops.
   */
  method RunStep(s: Session, limit: int) returns (t: Session)
    requires IsBoard(s.grid) && s.selected < CELLS
    ensures t == Step(s, limit)
  {
    t := s;
    if s.selected >= 0 && !s.gameOver {
      var grid, removed := EliminateSimilar(s.grid, s.selected, limit);
      var attempts := s.attempts;
      var score := s.score;
      var gameOver := s.gameOver;
      if removed > 0 {
        attempts := attempts + 1;
        var penalty := attempts;
        score := score + (removed - penalty);
        if score < 0 {
          score := 0;
        }
      }
      var active := AnyActiveCell(grid);
      if !active {
        gameOver := true;
      }
      t := Session(grid, attempts, score, gameOver, NO_SELECTION);
    }
  }

  /**
    The step keeps the session invariant: the selected cell is live, so the
    sweep removes at least one cell and exactly as many as it reports.
   */
  lemma StepPreservesValid(s: Session, limit: int)
    requires Valid(s)
    ensures Valid(Step(s, limit))
    ensures Pending(s) ==> EliminatedCount(Step(s, limit).grid) == EliminatedCount(s.grid) + Eliminate(s.grid, s.selected, limit).removed
  {
    if Pending(s) {
      var o := Eliminate(s.grid, s.selected, limit);
      LiveSplit(s.grid, o.grid, CELLS);
      LiveCountPositive(o.grid);
    }
  }

  /** GameOver is terminal: neither a step nor a click changes the session. */
  lemma GameOverIsTerminal(s: Session, limit: int, row: int, col: int)
    requires IsBoard(s.grid) && s.selected < CELLS && s.gameOver
    ensures Step(s, limit) == s
    ensures Click(s, row, col) == s
  {
  }

  /**
    Clicks only store a selection; the attempt is scored by the next frame.
    Two accepted clicks before that frame give one attempt, taken on the
    second click's cell.
   */
  lemma TwoClicksOneAttempt(s: Session, limit: int, r1: int, c1: int, r2: int, c2: int)
    requires Valid(s) && Accepts(s, r1, c1) && Accepts(Click(s, r1, c1), r2, c2)
    ensures
      var t := Step(Click(Click(s, r1, c1), r2, c2), limit);
      && t.attempts == s.attempts + 1
      && t.grid == Eliminate(s.grid, FlatIndex(r2, c2), limit).grid
  {
  }

  // ---------------------------------------------------------------------
  // Runs of events
  // ---------------------------------------------------------------------

  /** What the window delivers to the game: a click, a frame, or the reset key with fresh colours. */
  datatype Event = Press(row: int, col: int) | Frame | ResetKey(colors: seq<Color>)

  predicate WellFormed(e: Event)
  {
    e.ResetKey? ==> |e.colors| == CELLS
  }

  function Apply(s: Session, e: Event, limit: int): (t: Session)
    requires Valid(s) && WellFormed(e)
    ensures Valid(t)
    ensures !e.ResetKey? ==> Grows(s.grid, t.grid) && s.attempts <= t.attempts
    ensures !e.ResetKey? && s.gameOver ==> t == s
  {
    match e
    case Press(row, col) =>
      ClickPreservesValid(s, row, col);
      Click(s, row, col)
    case Frame =>
      StepPreservesValid(s, limit);
      Step(s, limit)
    case ResetKey(colors) =>
      Reset(colors)
  }

  /**
    A run of events from a valid session: every session along the way is
    valid, so in particular the score is never negative.
   */
  function Run(s: Session, events: seq<Event>, limit: int): (t: Session)
    requires Valid(s)
    requires forall i :: 0 <= i < |events| ==> WellFormed(events[i])
    ensures Valid(t)
    ensures 0 <= t.score && 0 <= t.attempts <= CELLS
    decreases |events|
  {
    if |events| == 0 then s
    else Run(Apply(s, events[0], limit), events[1..], limit)
  }

  /**
    Without a reset, a run only eliminates cells and never lowers the attempt
    count, and a finished game stays exactly as it is.
   */
  lemma {:induction false} RunWithoutReset(s: Session, events: seq<Event>, limit: int)
    requires Valid(s)
    requires forall i :: 0 <= i < |events| ==> events[i].Press? || events[i].Frame?
    ensures Grows(s.grid, Run(s, events, limit).grid)
    ensures s.attempts <= Run(s, events, limit).attempts
    ensures s.gameOver ==> Run(s, events, limit) == s
    decreases |events|
  {
    if |events| > 0 {
      var s1 := Apply(s, events[0], limit);
      RunWithoutReset(s1, events[1..], limit);
    }
  }

  // ---------------------------------------------------------------------
  // Scenarios
  // ---------------------------------------------------------------------

  lemma {:induction false} AllNewly(g: seq<Cell>, h: seq<Cell>, n: nat)
    requires n <= |g| == |h|
    requires forall k :: 0 <= k < n ==> !g[k].eliminated && h[k].eliminated
    ensures NewlyIn(g, h, n) == n
  {
    if n > 0 {
      AllNewly(g, h, n - 1);
    }
  }

  /**
    On a board of one colour a single click clears everything: 48 cells
    removed on the first attempt (penalty 1) scores 47 and ends the game.
   */
  lemma UniformBoardClearsInOneMove(c: Color)
    ensures
      var s := Step(Click(Reset(seq(CELLS, k => c)), 0, 0), COLOR_TOLERANCE_SQ);
      && Eliminate(Reset(seq(CELLS, k => c)).grid, 0, COLOR_TOLERANCE_SQ).removed == CELLS
      && s.attempts == 1 && s.score == CELLS - 1 && s.gameOver
      && s.selected == NO_SELECTION
  {
    var s0 := Reset(seq(CELLS, k => c));
    var o := Eliminate(s0.grid, 0, COLOR_TOLERANCE_SQ);
    AllNewly(s0.grid, o.grid, CELLS);
  }

  /** Number of newly eliminated cells when only cell k can have gone out. */
  lemma {:induction false} NewlyOnlyAt(g: seq<Cell>, h: seq<Cell>, k: int, n: nat)
    requires n <= |g| == |h| && 0 <= k < n
    requires !g[k].eliminated && h[k].eliminated
    requires forall j :: 0 <= j < n && j != k ==> !(!g[j].eliminated && h[j].eliminated)
    ensures NewlyIn(g, h, n) == 1
  {
    if n - 1 != k {
      NewlyOnlyAt(g, h, k, n - 1);
    } else {
      NoneNewly(g, h, n - 1);
    }
  }

  lemma {:induction false} NoneNewly(g: seq<Cell>, h: seq<Cell>, n: nat)
    requires n <= |g| == |h|
    requires forall j :: 0 <= j < n ==> !(!g[j].eliminated && h[j].eliminated)
    ensures NewlyIn(g, h, n) == 0
  {
    if n > 0 {
      NoneNewly(g, h, n - 1);
    }
  }

  const BLACK: Color := Color(0, 0, 0)
  const WHITE: Color := Color(255, 255, 255)

  /** One black cell at (0, 0), every other cell white. */
  function OddCellColors(): (colors: seq<Color>)
    ensures |colors| == CELLS
  {
    seq(CELLS, k => if k == 0 then BLACK else WHITE)
  }

  /** The sweep from the black cell removes the black cell and nothing else. */
  lemma OddCellSweep(g: seq<Cell>) returns (o: Removal)
    requires IsBoard(g) && g[0] == Cell(BLACK, false)
    requires forall k :: 1 <= k < CELLS ==> g[k] == Cell(WHITE, false)
    ensures o == Eliminate(g, 0, COLOR_TOLERANCE_SQ)
    ensures o.removed == 1 && o.grid[0].eliminated
    ensures forall k :: 1 <= k < CELLS ==> o.grid[k] == Cell(WHITE, false)
  {
    assert SqDist(WHITE, BLACK) == MAX_SQ_DIST;
    o := Eliminate(g, 0, COLOR_TOLERANCE_SQ);
    NewlyOnlyAt(g, o.grid, 0, CELLS);
  }

  /** Clicking the black cell removes only itself: 1 - 1 = 0 points, the game goes on. */
  lemma OddCellFirstMove()
    ensures
      var s1 := Step(Click(Reset(OddCellColors()), 0, 0), COLOR_TOLERANCE_SQ);
      && s1.attempts == 1 && s1.score == 0 && !s1.gameOver && s1.selected == NO_SELECTION
      && s1.grid[0].eliminated
      && forall k :: 1 <= k < CELLS ==> s1.grid[k] == Cell(WHITE, false)
  {
    var s0 := Reset(OddCellColors());
    assert s0.grid[0].color == BLACK;
    assert forall k :: 1 <= k < CELLS ==> s0.grid[k] == Cell(WHITE, false);
    var o1 := OddCellSweep(s0.grid);
    var c0 := Click(s0, 0, 0);
    assert c0.selected == 0;
    assert Step(c0, COLOR_TOLERANCE_SQ).grid == o1.grid;
    assert o1.grid[1] == Cell(WHITE, false);
  }

  /** Then clicking a white cell removes the 47 others: 47 - 2 = 45 points, and the game ends. */
  lemma OddCellSecondMove(s1: Session)
    requires IsBoard(s1.grid)
    requires s1.attempts == 1 && s1.score == 0 && !s1.gameOver && s1.selected == NO_SELECTION
    requires s1.grid[0].eliminated
    requires forall k :: 1 <= k < CELLS ==> s1.grid[k] == Cell(WHITE, false)
    ensures
      var s2 := Step(Click(s1, 0, 1), COLOR_TOLERANCE_SQ);
      s2.attempts == 2 && s2.score == 45 && s2.gameOver
  {
    var o2 := Eliminate(s1.grid, 1, COLOR_TOLERANCE_SQ);
    assert forall k :: 0 <= k < CELLS ==> o2.grid[k].eliminated;
    LiveSplit(s1.grid, o2.grid, CELLS);
    AllLiveBut(s1.grid, 0, CELLS);
    assert LiveIn(o2.grid, CELLS) == 0;
  }

  /**
    The two moves together, from a fresh board with one black cell at (0, 0)
    among white ones.
   */
  lemma OddCellOutScenario()
    ensures
      var s1 := Step(Click(Reset(OddCellColors()), 0, 0), COLOR_TOLERANCE_SQ);
      var s2 := Step(Click(s1, 0, 1), COLOR_TOLERANCE_SQ);
      && s1.attempts == 1 && s1.score == 0 && !s1.gameOver
      && s2.attempts == 2 && s2.score == 45 && s2.gameOver
  {
    OddCellFirstMove();
    OddCellSecondMove(Step(Click(Reset(OddCellColors()), 0, 0), COLOR_TOLERANCE_SQ));
  }

  lemma {:induction false} AllLiveBut(g: seq<Cell>, k: int, n: nat)
    requires 0 <= k < n <= |g| && g[k].eliminated
    requires forall j :: 0 <= j < n && j != k ==> !g[j].eliminated
    ensures LiveIn(g, n) == n - 1
  {
    if n - 1 != k {
      AllLiveBut(g, k, n - 1);
    } else {
      AllLiveCount(g, n - 1);
    }
  }
}
