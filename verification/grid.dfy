/**
  The board of the colour game: a fixed ROWS x COLS grid of coloured cells,
  each of which is either live or eliminated.

  The board is kept as one row-major sequence of cells: the cell at
  (row, col) lives at flat index row * COLS + col, the same convention the
  game uses for its transient selection.
 */
module Grid {

  const ROWS: int := 6
  const COLS: int := 8
  const CELLS: int := ROWS * COLS

  /** One colour channel: the game draws an integer in 0..255 per channel. */
  type Channel = x: int | 0 <= x <= 255

  datatype Color = Color(r: Channel, g: Channel, b: Channel)

  datatype Cell = Cell(color: Color, eliminated: bool)

  /** The largest possible squared distance between two colours (3 * 255^2). */
  const MAX_SQ_DIST: int := 3 * 255 * 255

  /**
    The game's tolerance 0.2 on the normalised distance dist / sqrt(3), where
    each channel is scaled to [0, 1], written as a bound on the squared
    integer distance: (0.2 * sqrt(3) * 255)^2 = 0.04 * 3 * 65025 = 7803.
   */
  const COLOR_TOLERANCE_SQ: int := 7803

  // ---------------------------------------------------------------------
  // Flat index <-> (row, col)
  // ---------------------------------------------------------------------

  /** The flat index of the cell at (row, col). */
  function FlatIndex(row: int, col: int): (i: int)
    requires 0 <= row < ROWS && 0 <= col < COLS
    ensures 0 <= i < CELLS
    ensures i / COLS == row && i % COLS == col
  {
    row * COLS + col
  }

  function RowOf(i: int): (row: int)
    requires 0 <= i < CELLS
    ensures 0 <= row < ROWS
  {
    i / COLS
  }

  function ColOf(i: int): (col: int)
    requires 0 <= i < CELLS
    ensures 0 <= col < COLS
  {
    i % COLS
  }

  /** Decoding a flat index and encoding it again gives the index back. */
  lemma DecodeEncode(i: int)
    requires 0 <= i < CELLS
    ensures FlatIndex(RowOf(i), ColOf(i)) == i
  {
  }

  // ---------------------------------------------------------------------
  // Colour similarity
  // ---------------------------------------------------------------------

  /** Multiplying both sides of a <= b by the same c >= 0 keeps the order. */
  lemma MulMonotone(a: nat, b: nat, c: nat)
    requires a <= b
    ensures a * c <= b * c
  {
  }

  /** Square of a channel difference. */
  function Sq(x: int): (s: int)
    requires -255 <= x <= 255
    ensures 0 <= s <= 255 * 255
    ensures s == 0 <==> x == 0
  {
    var y: nat := if x < 0 then -x else x;
    MulMonotone(y, 255, y);
    MulMonotone(y, 255, 255);
    y * y
  }

  /** Squared Euclidean distance of two colours in the 0..255 colour cube. */
  function SqDist(a: Color, b: Color): (d: int)
    ensures 0 <= d <= MAX_SQ_DIST
    ensures d == 0 <==> a == b
  {
    Sq(a.r - b.r) + Sq(a.g - b.g) + Sq(a.b - b.b)
  }

  /**
    A colour is within tolerance of the target when its squared distance is
    at most limit. A negative limit (a negative tolerance) matches nothing,
    not even the target itself; a limit covering the whole colour cube
    (a tolerance of 1 or more) matches every colour.
   */
  function Similar(c: Color, target: Color, limit: int): (similar: bool)
    ensures limit < 0 ==> !similar
    ensures limit >= MAX_SQ_DIST ==> similar
    ensures c == target ==> (similar <==> limit >= 0)
  {
    SqDist(c, target) <= limit
  }

  // ---------------------------------------------------------------------
  // Live cells
  // ---------------------------------------------------------------------

  predicate IsBoard(g: seq<Cell>)
  {
    |g| == CELLS
  }

  /** Some cell of the board is still live. */
  predicate HasLive(g: seq<Cell>)
  {
    exists k :: 0 <= k < |g| && !g[k].eliminated
  }

  /** Number of live cells among the first n cells. */
  function LiveIn(g: seq<Cell>, n: nat): (c: nat)
    requires n <= |g|
    ensures c <= n
    ensures c == 0 <==> forall k :: 0 <= k < n ==> g[k].eliminated
  {
    if n == 0 then 0
    else LiveIn(g, n - 1) + (if g[n - 1].eliminated then 0 else 1)
  }

  function LiveCount(g: seq<Cell>): nat
  {
    LiveIn(g, |g|)
  }

  /** The live count is positive exactly when some cell is live. */
  lemma LiveCountPositive(g: seq<Cell>)
    ensures LiveCount(g) > 0 <==> HasLive(g)
  {
  }

  /** A board with an eliminated cell among the first n has fewer than n live ones. */
  lemma {:induction false} LiveInMissing(g: seq<Cell>, k: int, n: nat)
    requires 0 <= k < n <= |g| && g[k].eliminated
    ensures LiveIn(g, n) <= n - 1
  {
    if k < n - 1 {
      LiveInMissing(g, k, n - 1);
    }
  }

  /**
    h is g after eliminating some cells: the same colours, and every cell
    eliminated in g is still eliminated in h.
   */
  predicate Grows(g: seq<Cell>, h: seq<Cell>)
  {
    && |g| == |h|
    && forall k :: 0 <= k < |g| ==> g[k].color == h[k].color && (g[k].eliminated ==> h[k].eliminated)
  }

  /** Number of cells among the first n that are live in g and eliminated in h. */
  function NewlyIn(g: seq<Cell>, h: seq<Cell>, n: nat): (c: nat)
    requires n <= |g| && n <= |h|
    ensures c <= n
  {
    if n == 0 then 0
    else NewlyIn(g, h, n - 1) + (if !g[n - 1].eliminated && h[n - 1].eliminated then 1 else 0)
  }

  function NewlyEliminated(g: seq<Cell>, h: seq<Cell>): nat
    requires |g| == |h|
  {
    NewlyIn(g, h, |g|)
  }

  /** Eliminating cells lowers the live count by exactly the number of cells that went out. */
  lemma {:induction false} LiveSplit(g: seq<Cell>, h: seq<Cell>, n: nat)
    requires Grows(g, h) && n <= |g|
    ensures LiveIn(g, n) == LiveIn(h, n) + NewlyIn(g, h, n)
  {
    if n > 0 {
      LiveSplit(g, h, n - 1);
    }
  }

  // ---------------------------------------------------------------------
  // The live-cell scan
  // ---------------------------------------------------------------------

  /** Row-major scan that stops at the first live cell. */
  method AnyActiveCell(g: seq<Cell>) returns (active: bool)
    requires IsBoard(g)
    ensures active <==> HasLive(g)
    ensures active <==> LiveCount(g) > 0
  {
    LiveCountPositive(g);
    var i := 0;
    while i < ROWS
      invariant 0 <= i <= ROWS
      invariant forall k :: 0 <= k < i * COLS ==> g[k].eliminated
    {
      var j := 0;
      while j < COLS
        invariant 0 <= j <= COLS
        invariant forall k :: 0 <= k < i * COLS + j ==> g[k].eliminated
      {
        if !g[i * COLS + j].eliminated {
          return true;
        }
        j := j + 1;
      }
      i := i + 1;
    }
    return false;
  }
}
