/**
 * The Connect-Four board as a value: cells held column-major (`g[col][row]`, row 0 at
 * the bottom), runs of equal cells along the four line directions, the win test that
 * `GameState.checkWin` performs, and the Zobrist hash of a board.
 */
module Board {

  /** The two sides. The source numbers them 1 (`PLAYER`, the human) and 2 (`AI`). */
  datatype Player = P1 | P2

  /** The side that moves after `p`. */
  function Other(p: Player): (q: Player)
    ensures q != p
  {
    if p == P1 then P2 else P1
  }

  /** A board cell; the source writes 0 for `Empty` and the player's number otherwise. */
  datatype Cell = Empty | Stone(owner: Player)

  /** A board, column-major. */
  type Grid = seq<seq<Cell>>

  predicate IsGrid(g: Grid, cols: nat, rows: nat) {
    |g| == cols && forall c :: 0 <= c < cols ==> |g[c]| == rows
  }

  predicate InBounds(cols: nat, rows: nat, x: int, y: int) {
    0 <= x < cols && 0 <= y < rows
  }

  /** A step of at most one cell in each coordinate. */
  predicate IsStep(dx: int, dy: int) {
    -1 <= dx <= 1 && -1 <= dy <= 1
  }

  /** A unit step along one of the eight compass directions. */
  predicate IsDir(dx: int, dy: int) {
    IsStep(dx, dy) && (dx != 0 || dy != 0)
  }

  /** n unit steps of size d (d is -1, 0 or 1): n * d, written so that it stays linear. */
  function Offset(n: int, d: int): int {
    if d > 0 then n else if d < 0 then -n else 0
  }

  /** How many steps along (dx, dy) stay inside the board from (x, y); the termination measure of `Ray`. */
  function Steps(cols: nat, rows: nat, x: int, y: int, dx: int, dy: int): int {
    if dx > 0 then cols - x else if dx < 0 then x + 1 else if dy > 0 then rows - y else y + 1
  }

  /**
   * The number of consecutive cells equal to `cell`, starting at (x, y) and stepping by
   * (dx, dy), before the board edge or a different cell stops the walk.
   */
  function Ray(g: Grid, cols: nat, rows: nat, x: int, y: int, dx: int, dy: int, cell: Cell): nat
    requires IsGrid(g, cols, rows) && IsDir(dx, dy)
    decreases Steps(cols, rows, x, y, dx, dy)
  {
    if InBounds(cols, rows, x, y) && g[x][y] == cell then
      1 + Ray(g, cols, rows, x + dx, y + dy, dx, dy, cell)
    else
      0
  }

  /** The length of the run of `g[c][r]` through (c, r) along (dx, dy), counted both ways. */
  function LineLength(g: Grid, cols: nat, rows: nat, c: int, r: int, dx: int, dy: int): nat
    requires IsGrid(g, cols, rows) && InBounds(cols, rows, c, r) && IsDir(dx, dy)
  {
    1 + Ray(g, cols, rows, c + dx, r + dy, dx, dy, g[c][r])
      + Ray(g, cols, rows, c - dx, r - dy, -dx, -dy, g[c][r])
  }

  /** Horizontal, vertical, diagonal up-right and diagonal down-right, in the source's order. */
  const Directions: seq<(int, int)> := [(1, 0), (0, 1), (1, 1), (1, -1)]

  /** The run through (c, r) along the k-th direction. */
  function DirLine(g: Grid, cols: nat, rows: nat, c: int, r: int, k: int): nat
    requires IsGrid(g, cols, rows) && InBounds(cols, rows, c, r) && 0 <= k < 4
  {
    LineLength(g, cols, rows, c, r, Directions[k].0, Directions[k].1)
  }

  /**
   * The win test anchored at (c, r): an occupied cell with a run of at least four through it,
   * which holds exactly when four equal stones in a line pass through the anchor.
   */
  predicate Wins(g: Grid, cols: nat, rows: nat, c: int, r: int)
    requires IsGrid(g, cols, rows) && InBounds(cols, rows, c, r)
    ensures Wins(g, cols, rows, c, r) <==>
            g[c][r] != Empty &&
            exists k, t :: 0 <= k < 4 && FourThrough(g, cols, rows, c, r, Directions[k].0, Directions[k].1, t)
  {
    assert forall k | 0 <= k < 4 :: DirLine(g, cols, rows, c, r, k) >= 4 <==>
             exists t :: FourThrough(g, cols, rows, c, r, Directions[k].0, Directions[k].1, t) by {
      forall k | 0 <= k < 4
        ensures DirLine(g, cols, rows, c, r, k) >= 4 <==>
                exists t :: FourThrough(g, cols, rows, c, r, Directions[k].0, Directions[k].1, t)
      {
        LineFour(g, cols, rows, c, r, Directions[k].0, Directions[k].1);
      }
    }
    g[c][r] != Empty && exists k :: 0 <= k < 4 && DirLine(g, cols, rows, c, r, k) >= 4
  }

  /** The n cells (x, y), (x + dx, y + dy), ... lie on the board and all equal `cell`. */
  predicate Run(g: Grid, cols: nat, rows: nat, x: int, y: int, dx: int, dy: int, cell: Cell, n: nat)
    requires IsGrid(g, cols, rows)
    decreases n
  {
    n == 0 ||
    (InBounds(cols, rows, x, y) && g[x][y] == cell && Run(g, cols, rows, x + dx, y + dy, dx, dy, cell, n - 1))
  }

  /** A ray is at least n long exactly when the first n cells of the walk form a run. */
  lemma {:induction false} RayRun(g: Grid, cols: nat, rows: nat, x: int, y: int, dx: int, dy: int, cell: Cell, n: nat)
    requires IsGrid(g, cols, rows) && IsDir(dx, dy)
    ensures Ray(g, cols, rows, x, y, dx, dy, cell) >= n <==> Run(g, cols, rows, x, y, dx, dy, cell, n)
    decreases n
  {
    if n > 0 && InBounds(cols, rows, x, y) && g[x][y] == cell {
      RayRun(g, cols, rows, x + dx, y + dy, dx, dy, cell, n - 1);
    }
  }

  /** A run of n + m cells is a run of n cells followed by a run of m cells. */
  lemma {:induction false} RunSplit(g: Grid, cols: nat, rows: nat, x: int, y: int, dx: int, dy: int, cell: Cell, n: nat, m: nat)
    requires IsGrid(g, cols, rows) && IsStep(dx, dy)
    ensures Run(g, cols, rows, x, y, dx, dy, cell, n + m) <==>
            Run(g, cols, rows, x, y, dx, dy, cell, n) && Run(g, cols, rows, x + Offset(n, dx), y + Offset(n, dy), dx, dy, cell, m)
    decreases n
  {
    if n > 0 {
      RunSplit(g, cols, rows, x + dx, y + dy, dx, dy, cell, n - 1, m);
      assert x + dx + Offset(n - 1, dx) == x + Offset(n, dx);
      assert y + dy + Offset(n - 1, dy) == y + Offset(n, dy);
    }
  }

  /** Walking n cells backwards from (x, y) covers the same cells as walking forwards from the far end. */
  lemma {:induction false} RunReverse(g: Grid, cols: nat, rows: nat, x: int, y: int, dx: int, dy: int, cell: Cell, n: nat)
    requires IsGrid(g, cols, rows) && IsStep(dx, dy)
    ensures Run(g, cols, rows, x, y, -dx, -dy, cell, n) <==>
            Run(g, cols, rows, x - Offset(n - 1, dx), y - Offset(n - 1, dy), dx, dy, cell, n)
    decreases n
  {
    if n > 0 {
      var x0, y0 := x - Offset(n - 1, dx), y - Offset(n - 1, dy);
      RunReverse(g, cols, rows, x - dx, y - dy, dx, dy, cell, n - 1);
      assert x - dx - Offset(n - 2, dx) == x0 && y - dy - Offset(n - 2, dy) == y0;
      RunSplit(g, cols, rows, x0, y0, dx, dy, cell, n - 1, 1);
      assert x0 + Offset(n - 1, dx) == x && y0 + Offset(n - 1, dy) == y;
    }
  }

  /** Four equal cells in a line along (dx, dy) of which (c, r) is the t-th (counting from 0). */
  predicate FourThrough(g: Grid, cols: nat, rows: nat, c: int, r: int, dx: int, dy: int, t: int)
    requires IsGrid(g, cols, rows) && InBounds(cols, rows, c, r)
  {
    0 <= t < 4 && Run(g, cols, rows, c - Offset(t, dx), r - Offset(t, dy), dx, dy, g[c][r], 4)
  }

  /** The backward ray from (c, r) covers the t cells that end just before (c, r). */
  lemma BackRun(g: Grid, cols: nat, rows: nat, c: int, r: int, dx: int, dy: int, cell: Cell, t: nat)
    requires IsGrid(g, cols, rows) && IsDir(dx, dy)
    ensures Ray(g, cols, rows, c - dx, r - dy, -dx, -dy, cell) >= t <==>
            Run(g, cols, rows, c - Offset(t, dx), r - Offset(t, dy), dx, dy, cell, t)
  {
    RayRun(g, cols, rows, c - dx, r - dy, -dx, -dy, cell, t);
    RunReverse(g, cols, rows, c - dx, r - dy, dx, dy, cell, t);
    assert c - dx - Offset(t - 1, dx) == c - Offset(t, dx) && r - dy - Offset(t - 1, dy) == r - Offset(t, dy);
  }

  /** A run of four or more through (c, r) contains four equal cells in a line through (c, r). */
  lemma FourFromLine(g: Grid, cols: nat, rows: nat, c: int, r: int, dx: int, dy: int) returns (t: int)
    requires IsGrid(g, cols, rows) && InBounds(cols, rows, c, r) && IsDir(dx, dy)
    requires LineLength(g, cols, rows, c, r, dx, dy) >= 4
    ensures FourThrough(g, cols, rows, c, r, dx, dy, t)
  {
    var cell := g[c][r];
    var f := Ray(g, cols, rows, c + dx, r + dy, dx, dy, cell);
    var b := Ray(g, cols, rows, c - dx, r - dy, -dx, -dy, cell);
    var n: nat := if b < 3 then b else 3;
    t := n;
    var x0, y0 := c - Offset(t, dx), r - Offset(t, dy);
    assert Run(g, cols, rows, x0, y0, dx, dy, cell, n) by {
      BackRun(g, cols, rows, c, r, dx, dy, cell, n);
    }
    assert Run(g, cols, rows, c, r, dx, dy, cell, 4 - n) by {
      RayRun(g, cols, rows, c + dx, r + dy, dx, dy, cell, 3 - n);
    }
    assert Run(g, cols, rows, x0, y0, dx, dy, cell, 4) by {
      RunSplit(g, cols, rows, x0, y0, dx, dy, cell, n, 4 - n);
      assert x0 + Offset(n, dx) == c && y0 + Offset(n, dy) == r;
    }
  }

  /** Four equal cells in a line through (c, r) make the run through (c, r) at least four long. */
  lemma LineFromFour(g: Grid, cols: nat, rows: nat, c: int, r: int, dx: int, dy: int, t: int)
    requires IsGrid(g, cols, rows) && InBounds(cols, rows, c, r) && IsDir(dx, dy)
    requires FourThrough(g, cols, rows, c, r, dx, dy, t)
    ensures LineLength(g, cols, rows, c, r, dx, dy) >= 4
  {
    var cell := g[c][r];
    var x0, y0 := c - Offset(t, dx), r - Offset(t, dy);
    RunSplit(g, cols, rows, x0, y0, dx, dy, cell, t, 4 - t);
    assert x0 + Offset(t, dx) == c && y0 + Offset(t, dy) == r;
    assert Run(g, cols, rows, c + dx, r + dy, dx, dy, cell, 3 - t);
    BackRun(g, cols, rows, c, r, dx, dy, cell, t);
    RayRun(g, cols, rows, c + dx, r + dy, dx, dy, cell, 3 - t);
  }

  /** Counting outwards from (c, r) finds four exactly when four equal cells in a line pass through (c, r). */
  lemma LineFour(g: Grid, cols: nat, rows: nat, c: int, r: int, dx: int, dy: int)
    requires IsGrid(g, cols, rows) && InBounds(cols, rows, c, r) && IsDir(dx, dy)
    ensures LineLength(g, cols, rows, c, r, dx, dy) >= 4 <==> exists t :: FourThrough(g, cols, rows, c, r, dx, dy, t)
  {
    if LineLength(g, cols, rows, c, r, dx, dy) >= 4 {
      var t := FourFromLine(g, cols, rows, c, r, dx, dy);
    }
    forall t | FourThrough(g, cols, rows, c, r, dx, dy, t)
      ensures LineLength(g, cols, rows, c, r, dx, dy) >= 4
    {
      LineFromFour(g, cols, rows, c, r, dx, dy, t);
    }
  }

  /** A line of four stones is found whichever of its four cells is the anchor of the test. */
  lemma WinsAlongFour(g: Grid, cols: nat, rows: nat, x: int, y: int, k: int, p: Player)
    requires IsGrid(g, cols, rows) && 0 <= k < 4
    requires Run(g, cols, rows, x, y, Directions[k].0, Directions[k].1, Stone(p), 4)
    ensures forall i :: 0 <= i < 4 ==>
              InBounds(cols, rows, x + Offset(i, Directions[k].0), y + Offset(i, Directions[k].1)) &&
              Wins(g, cols, rows, x + Offset(i, Directions[k].0), y + Offset(i, Directions[k].1))
  {
    forall i | 0 <= i < 4
      ensures InBounds(cols, rows, x + Offset(i, Directions[k].0), y + Offset(i, Directions[k].1)) &&
              Wins(g, cols, rows, x + Offset(i, Directions[k].0), y + Offset(i, Directions[k].1))
    {
      FourAt(g, cols, rows, x, y, Directions[k].0, Directions[k].1, Stone(p), i);
      var c, r := x + Offset(i, Directions[k].0), y + Offset(i, Directions[k].1);
      assert Wins(g, cols, rows, c, r);
    }
  }

  /** Cell i of a run of four lies on the board, holds the run's cell, and the run passes through it. */
  lemma FourAt(g: Grid, cols: nat, rows: nat, x: int, y: int, dx: int, dy: int, cell: Cell, i: int)
    requires IsGrid(g, cols, rows) && IsDir(dx, dy) && Run(g, cols, rows, x, y, dx, dy, cell, 4) && 0 <= i < 4
    ensures InBounds(cols, rows, x + Offset(i, dx), y + Offset(i, dy))
    ensures g[x + Offset(i, dx)][y + Offset(i, dy)] == cell
    ensures FourThrough(g, cols, rows, x + Offset(i, dx), y + Offset(i, dy), dx, dy, i)
  {
    RunSplit(g, cols, rows, x, y, dx, dy, cell, i, 4 - i);
    var c, r := x + Offset(i, dx), y + Offset(i, dy);
    assert c - Offset(i, dx) == x && r - Offset(i, dy) == y;
  }

  /**
   * The Zobrist table: one 32-bit key per (column, row, player). The source fills it with
   * random numbers once; here it is any fixed table handed to the board.
   */
  type Zobrist = (int, int, Player) -> bv32

  /** The key a cell contributes to the hash; an empty cell contributes nothing. */
  function CellKey(z: Zobrist, c: int, r: int, cell: Cell): bv32 {
    match cell
    case Empty => 0
    case Stone(p) => z(c, r, p)
  }

  /** Bitwise exclusive or of two 32-bit words, the `^=` the source folds keys in with. */
  function Xor(a: bv32, b: bv32): bv32 {
    a ^ b
  }

  lemma XorAssoc(a: bv32, b: bv32, c: bv32)
    ensures Xor(Xor(a, b), c) == Xor(a, Xor(b, c))
  {
    assert (a ^ b) ^ c == a ^ (b ^ c);
  }

  lemma XorComm(a: bv32, b: bv32)
    ensures Xor(a, b) == Xor(b, a)
  {
  }

  lemma XorSelf(a: bv32, b: bv32)
    ensures Xor(Xor(a, b), b) == a
  {
  }

  lemma XorExchange(a: bv32, x: bv32, y: bv32)
    ensures Xor(Xor(a, x), y) == Xor(Xor(a, y), x)
  {
    XorAssoc(a, x, y);
    XorComm(x, y);
    XorAssoc(a, y, x);
  }

  lemma XorSwap(a: bv32, k: bv32, o: bv32, x: bv32)
    ensures Xor(Xor(Xor(a, o), x), k) == Xor(Xor(Xor(a, k), o), x)
  {
    XorExchange(Xor(a, o), x, k);
    XorExchange(a, o, k);
  }

  lemma XorRegroup(a: bv32, b: bv32, o: bv32, x: bv32)
    ensures Xor(a, Xor(Xor(b, o), x)) == Xor(Xor(Xor(a, b), o), x)
  {
    XorAssoc(a, Xor(b, o), x);
    XorAssoc(a, b, o);
  }

  /** XOR of the keys of the first n cells of column c. */
  function ColumnHash(z: Zobrist, c: int, column: seq<Cell>, n: nat): bv32
    requires n <= |column|
  {
    if n == 0 then 0 else Xor(ColumnHash(z, c, column, n - 1), CellKey(z, c, n - 1, column[n - 1]))
  }

  /** XOR of the keys of every cell of the first n columns. */
  function ColumnsHash(z: Zobrist, g: Grid, rows: nat, n: nat): bv32
    requires n <= |g| && forall c :: 0 <= c < |g| ==> |g[c]| == rows
  {
    if n == 0 then 0 else Xor(ColumnsHash(z, g, rows, n - 1), ColumnHash(z, n - 1, g[n - 1], rows))
  }

  /** The hash of a whole board: the XOR of `z(c, r, p)` over its occupied cells, in no particular order. */
  function GridHash(z: Zobrist, g: Grid, cols: nat, rows: nat): bv32
    requires IsGrid(g, cols, rows)
  {
    ColumnsHash(z, g, rows, cols)
  }

  /** Writing a cell at or above row n leaves the hash of the first n cells alone. */
  lemma {:induction false} ColumnHashAbove(z: Zobrist, c: int, column: seq<Cell>, n: nat, r: int, x: Cell)
    requires n <= r < |column|
    ensures ColumnHash(z, c, column[r := x], n) == ColumnHash(z, c, column, n)
  {
    if n > 0 {
      ColumnHashAbove(z, c, column, n - 1, r, x);
      assert column[r := x][n - 1] == column[n - 1];
    }
  }

  /** Writing a cell below row n swaps its key in the hash of the first n cells. */
  lemma {:induction false} ColumnHashSet(z: Zobrist, c: int, column: seq<Cell>, n: nat, r: int, x: Cell)
    requires 0 <= r < n <= |column|
    ensures ColumnHash(z, c, column[r := x], n) ==
            Xor(Xor(ColumnHash(z, c, column, n), CellKey(z, c, r, column[r])), CellKey(z, c, r, x))
  {
    var updated := column[r := x];
    var before := ColumnHash(z, c, column, n - 1);
    var o, k := CellKey(z, c, r, column[r]), CellKey(z, c, r, x);
    if r < n - 1 {
      ColumnHashSet(z, c, column, n - 1, r, x);
      var last := CellKey(z, c, n - 1, column[n - 1]);
      assert updated[n - 1] == column[n - 1];
      XorSwap(before, last, o, k);
    } else {
      ColumnHashAbove(z, c, column, n - 1, r, x);
      XorSelf(before, o);
    }
  }

  /** Writing a cell of a column at or past n leaves the hash of the first n columns alone. */
  lemma {:induction false} ColumnsHashAbove(z: Zobrist, g: Grid, rows: nat, n: nat, c: int, r: int, x: Cell)
    requires forall k :: 0 <= k < |g| ==> |g[k]| == rows
    requires n <= c < |g| && 0 <= r < rows
    ensures ColumnsHash(z, g[c := g[c][r := x]], rows, n) == ColumnsHash(z, g, rows, n)
  {
    if n > 0 {
      ColumnsHashAbove(z, g, rows, n - 1, c, r, x);
      assert g[c := g[c][r := x]][n - 1] == g[n - 1];
    }
  }

  /** Writing a cell of column c < n swaps its key in the hash of the first n columns. */
  lemma {:induction false} ColumnsHashSet(z: Zobrist, g: Grid, rows: nat, n: nat, c: int, r: int, x: Cell)
    requires n <= |g| && forall k :: 0 <= k < |g| ==> |g[k]| == rows
    requires 0 <= c < n && 0 <= r < rows
    ensures ColumnsHash(z, g[c := g[c][r := x]], rows, n) ==
            Xor(Xor(ColumnsHash(z, g, rows, n), CellKey(z, c, r, g[c][r])), CellKey(z, c, r, x))
  {
    var updated := g[c := g[c][r := x]];
    var before := ColumnsHash(z, g, rows, n - 1);
    var o, k := CellKey(z, c, r, g[c][r]), CellKey(z, c, r, x);
    if c < n - 1 {
      ColumnsHashSet(z, g, rows, n - 1, c, r, x);
      assert updated[n - 1] == g[n - 1];
      XorSwap(before, ColumnHash(z, n - 1, g[n - 1], rows), o, k);
    } else {
      ColumnsHashAbove(z, g, rows, n - 1, c, r, x);
      ColumnHashSet(z, c, g[c], rows, r, x);
      XorRegroup(before, ColumnHash(z, c, g[c], rows), o, k);
    }
  }

  /** Writing one cell changes the hash by exactly the keys of the old and the new contents of that cell. */
  lemma HashSetCell(z: Zobrist, g: Grid, cols: nat, rows: nat, c: int, r: int, x: Cell)
    requires IsGrid(g, cols, rows) && InBounds(cols, rows, c, r)
    ensures IsGrid(g[c := g[c][r := x]], cols, rows)
    ensures GridHash(z, g[c := g[c][r := x]], cols, rows) ==
            Xor(Xor(GridHash(z, g, cols, rows), CellKey(z, c, r, g[c][r])), CellKey(z, c, r, x))
  {
    ColumnsHashSet(z, g, rows, cols, c, r, x);
  }

  /** The board with every cell empty, as `reset` builds it. */
  function EmptyGrid(cols: nat, rows: nat): (g: Grid)
    ensures IsGrid(g, cols, rows)
  {
    seq(cols, _ => seq(rows, _ => Empty))
  }

  /** The empty board hashes to 0, the value `reset` stores. */
  lemma {:induction false} EmptyGridHash(z: Zobrist, cols: nat, rows: nat)
    ensures GridHash(z, EmptyGrid(cols, rows), cols, rows) == 0
  {
    var g := EmptyGrid(cols, rows);
    var n := 0;
    while n < cols
      invariant n <= cols && ColumnsHash(z, g, rows, n) == 0
    {
      var m := 0;
      while m < rows
        invariant m <= rows && ColumnHash(z, n, g[n], m) == 0
      {
        m := m + 1;
      }
      n := n + 1;
    }
  }
}
