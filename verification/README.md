# Jogo das Cores: a Dafny model of the game logic

Jogo das Cores is a colour-matching puzzle. The board is a 6 x 8 grid of
randomly coloured cells. Clicking a live cell selects it. At the next
frame the game eliminates the selected cell and every other live cell on
the board whose colour is within a tolerance of the selected cell's colour.
Each selection consumed by a frame is one attempt; a later click before
that frame replaces the selection, and a reset before it discards it.
An attempt scores the number of cells it removed minus a penalty equal to
the attempt's number, and the score is clamped at 0. The game ends when no
live cell remains. The R key resets everything.

This project models that logic, without the OpenGL/GLFW shell around it:

- `grid.dfy` (module `Grid`): the board as one row-major sequence of
  `ROWS * COLS` cells. It holds the flat index `row * COLS + col` and its
  inverse, the colour distance, live-cell counting, and the row-major scan
  `anyActiveCell`.
- `elimination.dfy` (module `Elimination`): the sweep `eliminarSimilares`.
  `Eliminate` is an order-free reference definition. `EliminateSimilar` is
  the sweep as the game runs it, as nested row/column loops, proved equal to
  the reference. Further lemmas show that the scan order does not matter and
  cover the extreme tolerances.
- `game.dfy` (module `Game`): the session record (board, `attempts`,
  `score`, `gameOver`, selection) and what changes it:
  - the click handler's selection logic;
  - the scoring step in the main loop;
  - `resetGame`.

  It also holds the session invariant `Valid`, runs of events, and two
  concrete game scenarios.

Colours are integer channels in 0..255, the value the game draws with
`rand() % 256` before dividing by 255. The game's test is
`sqrt(d) / sqrt(3) <= 0.2` on channels scaled to [0, 1]. The model states it
on the integer squared distance `d` instead: a cell matches when `d <= limit`.
The game's tolerance 0.2 becomes `COLOR_TOLERANCE_SQ = 7803`, because
`(0.2 * sqrt(3) * 255)^2 = 7803`. The limit is a parameter of the sweep. A
negative limit therefore stands for a negative tolerance, and a limit of at
least `3 * 255^2` stands for a tolerance of 1 or more.

Where the source indexes the grid with the selection, it relies on the
click handler having stored only in-range indices. The model states that
reliance as `selected < CELLS` on the sweep and the step. The `Valid`
invariant shows that every reachable session meets it.

## Model

| member | source | states |
|---|---|---|
| Grid.FlatIndex | JogoDeCores.cpp:207-211 | the index `row*COLS+col` of an in-range cell lies in 0..ROWS*COLS-1, and dividing it by COLS gives back `row` and taking it modulo COLS gives back `col` |
| Grid.DecodeEncode | JogoDeCores.cpp:295-296 | every flat index in range is the encoding of the `(row, col)` that the sweep decodes from it |
| Grid.SqDist | JogoDeCores.cpp:310-314 | the squared colour distance lies between 0 and 3*255^2, and is 0 exactly when the two colours are equal |
| Grid.Similar | JogoDeCores.cpp:315-316 | the tolerance test as a bound on the squared distance: a negative tolerance matches no colour, not even the target itself; a tolerance covering the whole colour cube matches every colour; the target matches itself exactly when the tolerance is not negative |
| Grid.AnyActiveCell | JogoDeCores.cpp:329-340 | the row-major scan answers true exactly when some cell is not eliminated, that is, when the live count is positive |
| Grid.LiveSplit | JogoDeCores.cpp:307-320 | when cells only go from live to eliminated, the live count falls by exactly the number of cells that went out |
| Elimination.SweepCell | JogoDeCores.cpp:307-320 | a visited cell ends up eliminated exactly when it already was, or it is within tolerance of the target; its colour never changes |
| Elimination.Eliminate | JogoDeCores.cpp:291-327 | with no selection, nothing changes and 0 is returned. Otherwise: the selected cell ends up eliminated; any other cell ends up eliminated exactly when it was already, or it is within tolerance of the selected cell's colour; no flag is ever cleared and no colour changes; the count is between 1 and ROWS*COLS; if the selected cell was live, the count equals the number of cells that went from live to eliminated |
| Elimination.NewlyCountsMatches | JogoDeCores.cpp:298-319 | the cells that go out are the selected cell (counted once, before the loop) plus the live cells within tolerance that the loop counts |
| Elimination.ScanRowMajor | JogoDeCores.cpp:303-323 | the nested row/column loop leaves every cell as the order-free sweep says, and counts exactly the live cells within tolerance |
| Elimination.ScanRow | JogoDeCores.cpp:305-322 | one pass of the inner column loop extends the swept prefix by one row and keeps the count equal to the matches in that prefix |
| Elimination.EliminateSimilar | JogoDeCores.cpp:291-327 | the game's sweep returns the same board and count as the reference definition `Eliminate` |
| Elimination.SweepInOrderVisits | JogoDeCores.cpp:303-323 | sweeping the cells in any visiting order, with repeats allowed, changes exactly the visited cells, each as a single comparison against the fixed target says |
| Elimination.ScanOrderIrrelevant | JogoDeCores.cpp:299-323 | every visiting order that reaches all cells gives the same board as the order-free sweep, so the row-major order does not matter |
| Elimination.EliminateAllAtFullTolerance | JogoDeCores.cpp:310-318 | a tolerance that covers the whole colour cube eliminates every cell and leaves no live cell |
| Elimination.EliminateOnlyTargetBelowZero | JogoDeCores.cpp:298-318 | a negative tolerance removes only the selected cell: the count is 1 and the board is the input with just that cell marked |
| Game.Reset | JogoDeCores.cpp:354-382 | after a reset every cell is live with its drawn colour, attempts = score = 0, the game is not over, nothing is selected, and the session invariant holds |
| Game.Click | JogoDeCores.cpp:199-212 | a click is stored only when the game is not over and the cell is in range and live; the stored index decodes back to the clicked `(row, col)`; a rejected click leaves the selection alone; nothing else changes |
| Game.ClickPreservesValid | JogoDeCores.cpp:207-211 | an accepted or ignored click keeps the session invariant |
| Game.Step | JogoDeCores.cpp:124-146 | without a pending selection, or once the game is over, nothing changes. Otherwise: the selection is cleared; the new board is exactly the result of the elimination sweep from the selected cell, so the selected cell is eliminated, no flag is cleared, and only live cells within tolerance go out; attempts go up by exactly 1; the score is `max(0, old + removed - new attempts)` and never negative; the game is over exactly when no cell is live |
| Game.RunStep | JogoDeCores.cpp:124-146 | the main loop's step, with the looping sweep and the looping live-cell scan, gives the same session as `Step` |
| Game.StepPreservesValid | JogoDeCores.cpp:124-145 | the step keeps the session invariant: game over exactly when no cell is live, a live pending selection, score and attempts non-negative and together at most the eliminated cells. The eliminated count grows by exactly the reported count |
| Game.GameOverIsTerminal | JogoDeCores.cpp:124-124 | once the game is over, neither a step nor a click changes the session |
| Game.TwoClicksOneAttempt | JogoDeCores.cpp:122-146 | two accepted clicks before a frame give a single attempt, and the sweep runs from the second click's cell: the later click replaces the pending selection |
| Game.Apply | JogoDeCores.cpp:184-212 | one event, as the key and mouse callbacks (lines 184-212) and the frame step of the main loop (lines 124-146) handle it: a click, a frame step or a reset applied to a valid session gives a valid session. Without a reset, the board only loses live cells, attempts never fall, and a finished game stays as it is |
| Game.Run | JogoDeCores.cpp:120-146 | every session reached by a run of events is valid. Its score is never negative, and its attempts stay within 0..ROWS*COLS, so the source's `int` counters cannot overflow |
| Game.RunWithoutReset | JogoDeCores.cpp:124-146 | over a run of clicks and frames without a reset: eliminated flags stay set, attempts never decrease, and a finished game is left exactly as it is |
| Game.UniformBoardClearsInOneMove | JogoDeCores.cpp:124-145 | on a board of one colour, one click removes all 48 cells, scores 48 - 1 = 47 and ends the game |
| Game.OddCellOutScenario | JogoDeCores.cpp:124-145 | one black cell among white ones: clicking it scores 1 - 1 = 0 and the game goes on; clicking a white cell then removes 47 cells, scores 47 - 2 = 45 and ends the game |

## Left out

- Window, context, shader and vertex-array setup, the draw loop and the window title (`setupShader`, `createQuad`, `updateWindowTitle`, the rendering part of `main`). These are graphics-library calls with no game logic.
- Console messages about attempts, game over and reset. They are output only.
- The Escape key, which only closes the window.
- The conversion of the cursor's pixel position to `(row, col)`, and the mouse-button and key tests. Clicks enter the model as integer `(row, col)`, and the reset key as an event.
- The cells' `position` and `dimensions`. They are render data that the game logic never reads.
- Random colours (`srand(time)`, `rand() % 256`). Reset takes the drawn colours as a parameter, with each channel in 0..255.
- Grid.SqDist: the source compares `sqrtf(d) / sqrt(3)` with 0.2 in float32 on channels scaled to [0, 1]; the model compares the integer squared distance with 7803. In float32 arithmetic the two tests agree for every pair of colours except pairs at squared distance exactly 7803, such as (51,51,51) against (0,0,0) or (87,15,3) against (0,0,0). There the source's answer depends on the channel values and can be either; the model always counts such a pair as a match.
- The `removedCount > 0` guard in the step is modelled as written. Once a selection is pending the sweep always removes at least the selected cell, so the guard's false branch cannot happen inside the step.
