/**
 * `GameState` as the source keeps it: the board as a two-dimensional array indexed
 * `[col, row]`, the column heights as an array, and the remaining fields updated in place.
 * `Model()` reads the object back as a `GameModel.State`, and every method is proved
 * against the value-level operation of that module.
 */
module Game {
  import opened Wrappers
  import opened Board
  import opened GameModel

  /** The first n cells of column c of a board array, bottom row first. */
  ghost function ColumnOf(b: array2<Cell>, c: int, n: nat): (col: seq<Cell>)
    requires 0 <= c < b.Length0 && n <= b.Length1
    reads b
    ensures |col| == n && forall r {:trigger col[r]} :: 0 <= r < n ==> col[r] == b[c, r]
  {
    if n == 0 then [] else ColumnOf(b, c, n - 1) + [b[c, n - 1]]
  }

  /** The first n columns of a board array. */
  ghost function ColumnsOf(b: array2<Cell>, n: nat): (g: Grid)
    requires n <= b.Length0
    reads b
    ensures |g| == n && forall c {:trigger g[c]} :: 0 <= c < n ==> g[c] == ColumnOf(b, c, b.Length1)
  {
    if n == 0 then [] else ColumnsOf(b, n - 1) + [ColumnOf(b, n - 1, b.Length1)]
  }

  /** The cells of a board array as a column-major sequence. */
  ghost function Cells(b: array2<Cell>): (g: Grid)
    reads b
    ensures IsGrid(g, b.Length0, b.Length1)
    ensures forall c, r {:trigger g[c][r]} :: 0 <= c < b.Length0 && 0 <= r < b.Length1 ==> g[c][r] == b[c, r]
  {
    ColumnsOf(b, b.Length0)
  }

  /** Two boards of the same shape that agree on every cell are equal. */
  lemma GridExt(g: Grid, h: Grid, cols: nat, rows: nat)
    requires IsGrid(g, cols, rows) && IsGrid(h, cols, rows)
    requires forall c, r :: 0 <= c < cols && 0 <= r < rows ==> g[c][r] == h[c][r]
    ensures g == h
  {
    forall c | 0 <= c < cols
      ensures g[c] == h[c]
    {
      assert forall r :: 0 <= r < rows ==> g[c][r] == h[c][r];
    }
  }

  /** A fresh rows-high board of `cols` columns, every cell empty. */
  method NewBoard(cols: nat, rows: nat) returns (b: array2<Cell>)
    ensures fresh(b) && b.Length0 == cols && b.Length1 == rows
    ensures Cells(b) == EmptyGrid(cols, rows)
  {
    b := new Cell[cols, rows]((c, r) => Empty);
    GridExt(Cells(b), EmptyGrid(cols, rows), cols, rows);
  }

  /** A fresh board holding the same cells as `src`: the per-column copy `clone` makes. */
  method CopyBoard(src: array2<Cell>) returns (b: array2<Cell>)
    ensures fresh(b) && b.Length0 == src.Length0 && b.Length1 == src.Length1
    ensures Cells(b) == Cells(src)
  {
    b := new Cell[src.Length0, src.Length1]((c, r) requires 0 <= c < src.Length0 && 0 <= r < src.Length1 reads src => src[c, r]);
    GridExt(Cells(b), Cells(src), src.Length0, src.Length1);
  }

  /** A fresh array holding the same values as `src`. */
  method CopyHeights(src: array<int>) returns (a: array<int>)
    ensures fresh(a) && a[..] == src[..]
  {
    a := new int[src.Length](c requires 0 <= c < src.Length reads src => src[c]);
  }

  class GameState {
    const rows: nat
    const cols: nat
    /** The Zobrist table, shared by every state of the game. */
    const zobrist: Zobrist

    var board: array2<Cell>
    var colHeights: array<int>
    var currentPlayer: Player
    var gameOver: bool
    var winner: Option<Player>
    var lastMove: Option<Move>
    var moveCount: int
    var moveHistory: seq<Move>
    var hash: bv32

    /** The array dimensions agree with `rows` and `cols`. */
    predicate Shaped()
      reads this
    {
      board.Length0 == cols && board.Length1 == rows && colHeights.Length == cols
    }

    /** The object as a value. */
    ghost function Model(): State
      reads this, board, colHeights
    {
      State(rows, cols, Cells(board), colHeights[..], currentPlayer, gameOver, winner, lastMove, moveCount, moveHistory, hash)
    }

    /** The arrays have the declared shape and the object as a value keeps the game-state invariant. */
    ghost predicate Valid()
      reads this, board, colHeights
    {
      Shaped() && Inv(zobrist, Model())
    }

    /** `new GameState(rows, cols)`: the table is given, then `reset` runs. */
    constructor(rows: nat, cols: nat, zobrist: Zobrist)
      ensures Valid() && Model() == Initial(rows, cols)
      ensures this.rows == rows && this.cols == cols && this.zobrist == zobrist
    {
      this.rows := rows;
      this.cols := cols;
      this.zobrist := zobrist;
      board := new Cell[cols, rows]((c, r) => Empty);
      colHeights := new int[cols](_ => 0);
      new;
      Reset();
    }

    /** `reset`: fresh empty arrays, player 1 to move, nothing recorded. */
    method Reset()
      modifies this
      ensures Valid() && Model() == Initial(rows, cols)
      ensures fresh(board) && fresh(colHeights)
    {
      var b := NewBoard(cols, rows);
      var heights := new int[cols](_ => 0);
      assert heights[..] == seq(cols, _ => 0);
      Load(b, heights, P1, false, None, None, 0, [], 0);
      InitialInv(zobrist, rows, cols);
    }

    /** `clone`: a new object with its own board and heights arrays holding the same values. */
    method Clone() returns (copy: GameState)
      requires Valid()
      ensures fresh(copy) && fresh(copy.board) && fresh(copy.colHeights)
      ensures copy.Valid() && copy.Model() == Model() && copy.zobrist == zobrist
    {
      copy := new GameState(rows, cols, zobrist);
      var b := CopyBoard(board);
      var heights := CopyHeights(colHeights);
      copy.Load(b, heights, currentPlayer, gameOver, winner, lastMove, moveCount, moveHistory, hash);
    }

    /** Store every field at once; both `reset` and `clone` end this way. */
    method Load(b: array2<Cell>, heights: array<int>, current: Player, over: bool, won: Option<Player>,
                last: Option<Move>, count: int, history: seq<Move>, h: bv32)
      requires b.Length0 == cols && b.Length1 == rows && heights.Length == cols
      modifies this
      ensures Shaped() && board == b && colHeights == heights
      ensures Model() == State(rows, cols, Cells(b), heights[..], current, over, won, last, count, history, h)
    {
      board := b;
      colHeights := heights;
      currentPlayer := current;
      gameOver := over;
      winner := won;
      lastMove := last;
      moveCount := count;
      moveHistory := history;
      hash := h;
    }

    /** `getValidMoves`: the loop over the columns. */
    method GetValidMoves() returns (moves: seq<int>)
      requires Valid()
      ensures moves == ValidMoves(Model())
    {
      moves := [];
      var col := 0;
      while col < cols
        invariant col <= cols && moves == ValidMovesBelow(Model(), col)
      {
        if colHeights[col] < rows {
          moves := moves + [col];
        }
        col := col + 1;
      }
    }

    /** `isValidMove`: the model's validity test, so true exactly for the columns `getValidMoves` lists. */
    method IsValidMove(col: int) returns (ok: bool)
      requires Valid()
      ensures ok == GameModel.IsValidMove(Model(), col)
      ensures ok <==> col in ValidMoves(Model())
    {
      ok := 0 <= col < cols && colHeights[col] < rows;
    }

    /**
     * `checkWin(col, row)`: from the piece at (col, row), count the equal pieces in each of
     * the four directions, forwards and backwards, and report a run of four or more.
     */
    method CheckWin(col: int, row: int) returns (won: bool)
      requires Shaped() && InBounds(cols, rows, col, row)
      ensures won == Wins(Cells(board), cols, rows, col, row)
    {
      ghost var g := Cells(board);
      var player := board[col, row];
      if player == Empty {
        return false;
      }
      var k := 0;
      while k < 4
        invariant 0 <= k <= 4
        invariant forall j :: 0 <= j < k ==> DirLine(g, cols, rows, col, row, j) < 4
      {
        var count := LineThrough(col, row, Directions[k].0, Directions[k].1);
        assert count == DirLine(g, cols, rows, col, row, k);
        if count >= 4 {
          return true;
        }
        k := k + 1;
      }
      return false;
    }

    /** The body of one direction of `checkWin`: the piece itself plus the two counting loops. */
    method LineThrough(col: int, row: int, dx: int, dy: int) returns (count: int)
      requires Shaped() && InBounds(cols, rows, col, row) && IsDir(dx, dy)
      ensures count == LineLength(Cells(board), cols, rows, col, row, dx, dy)
    {
      var player := board[col, row];
      count := 1;
      count := CountFrom(col + dx, row + dy, dx, dy, player, count);
      count := CountFrom(col - dx, row - dy, -dx, -dy, player, count);
    }

    /**
     * One of the two counting loops of `checkWin`: step from (x, y) by (dx, dy) while the cell
     * is on the board and holds `player`, adding one to `count` per cell.
     */
    method CountFrom(x: int, y: int, dx: int, dy: int, player: Cell, count: int) returns (total: int)
      requires Shaped() && IsDir(dx, dy)
      ensures total == count + Ray(Cells(board), cols, rows, x, y, dx, dy, player)
    {
      ghost var g := Cells(board);
      total := count;
      var cx, cy := x, y;
      while 0 <= cx < cols && 0 <= cy < rows && board[cx, cy] == player
        invariant total + Ray(g, cols, rows, cx, cy, dx, dy, player) == count + Ray(g, cols, rows, x, y, dx, dy, player)
        decreases Steps(cols, rows, cx, cy, dx, dy)
      {
        total := total + 1;
        cx, cy := cx + dx, cy + dy;
      }
    }

    /** `checkDraw`: at least rows * cols pieces placed, which is exactly a full board. */
    method CheckDraw() returns (draw: bool)
      requires Valid()
      ensures draw <==> moveCount >= rows * cols
      ensures draw <==> ValidMoves(Model()) == []
    {
      DrawIffFull(zobrist, Model());
      draw := moveCount >= rows * cols;
    }

    /** `getCell`: the cell at (col, row), which holds a piece exactly below the column height. */
    method GetCell(col: int, row: int) returns (cell: Cell)
      requires Valid() && InBounds(cols, rows, col, row)
      ensures cell == Cells(board)[col][row]
      ensures cell != Empty <==> row < colHeights[col]
    {
      cell := board[col, row];
    }

    /**
     * `makeMove(col)`: refused (false, nothing changed) when the game is over or the column is
     * not valid; otherwise the piece is dropped, the records updated and the outcome decided.
     */
    method MakeMove(col: int) returns (ok: bool)
      requires Valid()
      modifies this, board, colHeights
      ensures Valid() && board == old(board) && colHeights == old(colHeights)
      ensures ok == MoveSucceeds(old(Model()), col)
      ensures Model() == Apply(zobrist, old(Model()), col)
    {
      var valid := IsValidMove(col);
      if gameOver || !valid {
        return false;
      }
      ghost var s := Model();
      var row, p := colHeights[col], currentPlayer;
      assert MoveSucceeds(s, col) && row == s.heights[col] && p == s.current;
      Drop(col);
      ghost var t := Model();
      Settle(col, row, p);
      assert Model() == Conclude(t, col, row, p) == Apply(zobrist, s, col);
      ApplyInv(zobrist, s, col);
      return true;
    }

    /** The first half of `makeMove`: place the mover's piece on top of the column and record it. */
    method Drop(col: int)
      requires Shaped() && WF(Model()) && MoveSucceeds(Model(), col)
      modifies this, board, colHeights
      ensures Shaped() && board == old(board) && colHeights == old(colHeights)
      ensures Model() == Place(zobrist, old(Model()), col)
    {
      var row := colHeights[col];
      var p := currentPlayer;
      SetCell(col, row, Stone(p), 1);
      Load(board, colHeights, p, gameOver, winner, Some(Move(col, row, p)), moveCount + 1,
           moveHistory + [Move(col, row, p)], Xor(hash, zobrist(col, row, p)));
    }

    /** Write x into cell (col, row) and add dh to the height of the column. */
    method SetCell(col: int, row: int, x: Cell, dh: int)
      requires Shaped() && InBounds(cols, rows, col, row)
      modifies board, colHeights
      ensures Cells(board) == old(Cells(board))[col := old(Cells(board))[col][row := x]]
      ensures colHeights[..] == old(colHeights[..])[col := old(colHeights[col]) + dh]
    {
      ghost var g := Cells(board);
      board[col, row] := x;
      colHeights[col] := colHeights[col] + dh;
      GridExt(Cells(board), g[col := g[col][row := x]], cols, rows);
    }

    /** The second half of `makeMove`, after p placed at (col, row): a win, else a draw, else the turn passes. */
    method Settle(col: int, row: int, p: Player)
      requires Shaped() && InBounds(cols, rows, col, row)
      modifies this
      ensures board == old(board) && colHeights == old(colHeights)
      ensures Model() == Conclude(old(Model()), col, row, p)
    {
      var won := CheckWin(col, row);
      if won {
        gameOver := true;
        winner := Some(p);
      } else {
        var draw := moveCount >= rows * cols;
        if draw {
          gameOver := true;
          winner := None;
        } else {
          currentPlayer := Other(p);
        }
      }
    }

    /**
     * `undoMove`: false on an empty history; otherwise pop the newest entry, empty its cell,
     * lower its column, XOR its key out of the hash, hand the turn back to its player, clear
     * the end of game, and point `lastMove` at the new newest entry.
     */
    method UndoMove() returns (ok: bool)
      requires Valid()
      modifies this, board, colHeights
      ensures Valid() && board == old(board) && colHeights == old(colHeights)
      ensures ok == (|old(moveHistory)| > 0)
      ensures Model() == Undo(zobrist, old(Model()))
    {
      if |moveHistory| == 0 {
        return false;
      }
      ghost var s := Model();
      assert Stacked(s.grid, cols, rows, s.history, |s.history| - 1);
      TakeBackInv(zobrist, s);
      Pop();
      assert Model() == TakeBack(zobrist, s) == Undo(zobrist, s);
      return true;
    }

    /** The work of `undoMove` on a non-empty history. */
    method Pop()
      requires Shaped() && CanTakeBack(Model())
      modifies this, board, colHeights
      ensures Shaped() && board == old(board) && colHeights == old(colHeights)
      ensures Model() == TakeBack(zobrist, old(Model()))
    {
      ghost var s := Model();
      var last := moveHistory[|moveHistory| - 1];
      var rest := moveHistory[..|moveHistory| - 1];
      var prev := None;
      if |rest| > 0 {
        var m := rest[|rest| - 1];
        prev := Some(Move(m.col, m.row, m.player));
      }
      ghost var u := TakeBack(zobrist, s);
      assert u.grid == s.grid[last.col := s.grid[last.col][last.row := Empty]];
      assert u.heights == s.heights[last.col := s.heights[last.col] - 1];
      assert u.lastMove == prev;
      SetCell(last.col, last.row, Empty, -1);
      Load(board, colHeights, last.player, false, None, prev, moveCount - 1, rest,
           Xor(hash, zobrist(last.col, last.row, last.player)));
      assert Model() == u;
    }

    /** `evaluate`: the win scores, 0 for a draw, else +-3 per piece in the centre column. */
    method Evaluate() returns (score: int)
      requires Valid() && cols > 0
      ensures score == StaticScore(Model())
    {
      if winner == Some(P2) {
        return 1000;
      }
      if winner == Some(P1) {
        return -1000;
      }
      if gameOver {
        return 0;
      }
      score := 0;
      var centerCol := cols / 2;
      var row := 0;
      while row < rows
        invariant row <= rows && score == CenterScore(Cells(board)[centerCol], row)
      {
        if board[centerCol, row] == Stone(P2) {
          score := score + 3;
        }
        if board[centerCol, row] == Stone(P1) {
          score := score - 3;
        }
        row := row + 1;
      }
    }
  }
}
