/**
 * The game state of `GameState` (js/game.js) as a value, with `makeMove` as `Apply`,
 * `undoMove` as `Undo` and `reset` as `Initial`, the invariant the three keep, and
 * the make/undo round trip. The class in gamestate.dfy is proved against these.
 */
module GameModel {
  import opened Wrappers
  import opened Board

  /** One entry of the move history; `lastMove` holds the same three fields. */
  datatype Move = Move(col: int, row: int, player: Player)

  /** Every field of a `GameState`: the board is `grid[col][row]`, `heights` is `colHeights`. */
  datatype State = State(
    rows: nat,
    cols: nat,
    grid: Grid,
    heights: seq<int>,
    current: Player,
    gameOver: bool,
    winner: Option<Player>,
    lastMove: Option<Move>,
    moveCount: int,
    history: seq<Move>,
    hash: bv32)

  /** The shape of a state: a rows-by-cols board and one height in [0, rows] per column. */
  predicate WF(s: State) {
    IsGrid(s.grid, s.cols, s.rows) && |s.heights| == s.cols &&
    forall c :: 0 <= c < s.cols ==> 0 <= s.heights[c] <= s.rows
  }

  /** The newest history entry, or None for an empty history. */
  function Top(h: seq<Move>): Option<Move> {
    if h == [] then None else Some(h[|h| - 1])
  }

  /** How many entries of h dropped a piece into column c. */
  function CountCol(h: seq<Move>, c: int): nat {
    if h == [] then 0 else CountCol(h[..|h| - 1], c) + (if h[|h| - 1].col == c then 1 else 0)
  }

  /** History entry i sits on the board where it was dropped: on top of the earlier pieces of its column. */
  predicate Stacked(g: Grid, cols: nat, rows: nat, h: seq<Move>, i: int)
    requires IsGrid(g, cols, rows) && 0 <= i < |h|
  {
    InBounds(cols, rows, h[i].col, h[i].row) &&
    h[i].row == CountCol(h[..i], h[i].col) &&
    g[h[i].col][h[i].row] == Stone(h[i].player)
  }

  /**
   * The invariant of a game state: heights match occupancy, the history is the stack of the
   * pieces on the board, the move count is its length, the hash is the XOR of the keys of the
   * occupied cells, `lastMove` is the newest history entry, and a winner ends the game.
   */
  ghost predicate Inv(z: Zobrist, s: State) {
    && WF(s)
    && (forall c, r :: InBounds(s.cols, s.rows, c, r) ==> (s.grid[c][r] != Empty <==> r < s.heights[c]))
    && s.moveCount == |s.history|
    && (forall c :: 0 <= c < s.cols ==> s.heights[c] == CountCol(s.history, c))
    && (forall i :: 0 <= i < |s.history| ==> Stacked(s.grid, s.cols, s.rows, s.history, i))
    && s.hash == GridHash(z, s.grid, s.cols, s.rows)
    && s.lastMove == Top(s.history)
    && (s.winner.Some? ==> s.gameOver)
  }

  /** The state `reset` produces: empty board, player 1 to move, nothing recorded. */
  function Initial(rows: nat, cols: nat): (s: State)
    ensures WF(s) && s.rows == rows && s.cols == cols
    ensures forall c, r :: InBounds(cols, rows, c, r) ==> s.grid[c][r] == Empty
    ensures forall c :: 0 <= c < cols ==> s.heights[c] == 0
    ensures s.current == P1 && !s.gameOver && s.winner == None && s.lastMove == None
    ensures s.history == [] && s.moveCount == 0 && s.hash == 0
  {
    State(rows, cols, EmptyGrid(cols, rows), seq(cols, _ => 0), P1, false, None, None, 0, [], 0)
  }

  lemma InitialInv(z: Zobrist, rows: nat, cols: nat)
    ensures Inv(z, Initial(rows, cols))
  {
    EmptyGridHash(z, cols, rows);
  }

  /** `isValidMove`: a column of the board that is not yet full. */
  predicate IsValidMove(s: State, col: int)
    requires WF(s)
  {
    0 <= col < s.cols && s.heights[col] < s.rows
  }

  /** When `makeMove` places a piece rather than returning false. */
  predicate MoveSucceeds(s: State, col: int)
    requires WF(s)
  {
    !s.gameOver && IsValidMove(s, col)
  }

  /** `checkDraw`: at least rows * cols pieces have been placed. */
  predicate CheckDraw(s: State) {
    s.moveCount >= s.rows * s.cols
  }

  /** The first half of `makeMove`: drop the mover's piece on top of the column and record it. */
  function Place(z: Zobrist, s: State, col: int): (t: State)
    requires WF(s) && IsValidMove(s, col)
    ensures WF(t) && t.rows == s.rows && t.cols == s.cols
  {
    var row := s.heights[col];
    var p := s.current;
    var m := Move(col, row, p);
    s.(
      grid := s.grid[col := s.grid[col][row := Stone(p)]],
      heights := s.heights[col := row + 1],
      lastMove := Some(m),
      moveCount := s.moveCount + 1,
      hash := Xor(s.hash, z(col, row, p)),
      history := s.history + [m])
  }

  /**
   * The second half of `makeMove`, after the mover p placed at (col, row): a win ends the
   * game with p as winner, else a full count ends it as a draw, else the turn passes.
   */
  function Conclude(t: State, col: int, row: int, p: Player): State
    requires IsGrid(t.grid, t.cols, t.rows) && InBounds(t.cols, t.rows, col, row)
  {
    if Wins(t.grid, t.cols, t.rows, col, row) then t.(gameOver := true, winner := Some(p))
    else if CheckDraw(t) then t.(gameOver := true, winner := None)
    else t.(current := Other(p))
  }

  /** `makeMove(col)`: the state unchanged when the move is refused, else `Place` then `Conclude`. */
  function Apply(z: Zobrist, s: State, col: int): (t: State)
    requires WF(s)
    ensures WF(t) && t.rows == s.rows && t.cols == s.cols
    ensures !MoveSucceeds(s, col) ==> t == s
    ensures MoveSucceeds(s, col) ==>
              t.history == s.history + [Move(col, s.heights[col], s.current)] && t.moveCount == s.moveCount + 1
  {
    if !MoveSucceeds(s, col) then s
    else Conclude(Place(z, s, col), col, s.heights[col], s.current)
  }

  /** The newest history entry lies on the board, on top of a non-empty column. */
  predicate CanTakeBack(s: State) {
    WF(s) && |s.history| > 0 &&
    InBounds(s.cols, s.rows, s.history[|s.history| - 1].col, s.history[|s.history| - 1].row) &&
    s.heights[s.history[|s.history| - 1].col] >= 1
  }

  /**
   * The work of `undoMove` on a non-empty history: pop the newest entry, empty its cell,
   * lower its column, XOR its key out of the hash, give the turn back to its player, clear
   * the end of game, and point `lastMove` at the new newest entry.
   */
  function TakeBack(z: Zobrist, s: State): (t: State)
    requires CanTakeBack(s)
    ensures WF(t) && t.rows == s.rows && t.cols == s.cols
  {
    var last := s.history[|s.history| - 1];
    var rest := s.history[..|s.history| - 1];
    s.(
      grid := s.grid[last.col := s.grid[last.col][last.row := Empty]],
      heights := s.heights[last.col := s.heights[last.col] - 1],
      hash := Xor(s.hash, z(last.col, last.row, last.player)),
      current := last.player,
      gameOver := false,
      winner := None,
      moveCount := s.moveCount - 1,
      history := rest,
      lastMove := Top(rest))
  }

  /** `undoMove`: nothing to do on an empty history, else `TakeBack`. */
  function Undo(z: Zobrist, s: State): (t: State)
    requires Inv(z, s)
    ensures WF(t) && t.rows == s.rows && t.cols == s.cols
    ensures |s.history| == 0 ==> t == s
    ensures |s.history| > 0 ==>
              t.history == s.history[..|s.history| - 1] && t.moveCount == s.moveCount - 1 &&
              t.current == s.history[|s.history| - 1].player && !t.gameOver && t.winner == None
  {
    if |s.history| == 0 then s
    else
      assert Stacked(s.grid, s.cols, s.rows, s.history, |s.history| - 1);
      TakeBack(z, s)
  }

  lemma CountColSnoc(h: seq<Move>, m: Move, c: int)
    ensures CountCol(h + [m], c) == CountCol(h, c) + (if m.col == c then 1 else 0)
  {
    assert (h + [m])[..|h|] == h;
  }

  /** Counting over a longer prefix never finds fewer entries, and passing entry i adds it. */
  lemma {:induction false} CountColPrefix(h: seq<Move>, i: int, j: int, c: int)
    requires 0 <= i < j <= |h|
    ensures CountCol(h[..i], c) + (if h[i].col == c then 1 else 0) <= CountCol(h[..j], c)
  {
    if j == i + 1 {
      assert h[..j][..i] == h[..i];
    } else {
      CountColPrefix(h, i, j - 1, c);
      assert h[..j][..j - 1] == h[..j - 1];
    }
  }

  /** Dropping a piece keeps the invariant. */
  lemma PlaceInv(z: Zobrist, s: State, col: int)
    requires Inv(z, s) && IsValidMove(s, col) && !s.gameOver
    ensures Inv(z, Place(z, s, col))
  {
    var t := Place(z, s, col);
    var row := s.heights[col];
    var m := Move(col, row, s.current);
    assert s.grid[col][row] == Empty;
    HashSetCell(z, s.grid, s.cols, s.rows, col, row, Stone(s.current));
    forall c | 0 <= c < s.cols
      ensures t.heights[c] == CountCol(t.history, c)
    {
      CountColSnoc(s.history, m, c);
    }
    forall i | 0 <= i < |t.history|
      ensures Stacked(t.grid, t.cols, t.rows, t.history, i)
    {
      if i < |s.history| {
        assert t.history[..i] == s.history[..i];
        assert Stacked(s.grid, s.cols, s.rows, s.history, i);
      } else {
        assert t.history[..i] == s.history;
      }
    }
  }

  /** Deciding the outcome touches only the turn and end-of-game fields, so it keeps the invariant. */
  lemma ConcludeInv(z: Zobrist, t: State, col: int, row: int, p: Player)
    requires Inv(z, t) && InBounds(t.cols, t.rows, col, row)
    ensures Inv(z, Conclude(t, col, row, p))
  {
    var u := Conclude(t, col, row, p);
    assert u == t.(current := u.current, gameOver := u.gameOver, winner := u.winner);
    assert u.winner.Some? ==> u.gameOver;
  }

  /** `makeMove` keeps the invariant. */
  lemma ApplyInv(z: Zobrist, s: State, col: int)
    requires Inv(z, s)
    ensures Inv(z, Apply(z, s, col))
  {
    if MoveSucceeds(s, col) {
      PlaceInv(z, s, col);
      ConcludeInv(z, Place(z, s, col), col, s.heights[col], s.current);
    }
  }

  /** `undoMove` keeps the invariant. */
  lemma UndoInv(z: Zobrist, s: State)
    requires Inv(z, s)
    ensures Inv(z, Undo(z, s))
  {
    if |s.history| > 0 {
      TakeBackInv(z, s);
      assert Undo(z, s) == TakeBack(z, s);
    }
  }

  /** Taking back the newest entry of a game in the invariant keeps the invariant. */
  lemma TakeBackInv(z: Zobrist, s: State)
    requires Inv(z, s) && |s.history| > 0
    ensures CanTakeBack(s) && Inv(z, TakeBack(z, s))
  {
    var n := |s.history|;
    var m := s.history[n - 1];
    assert Stacked(s.grid, s.cols, s.rows, s.history, n - 1);
    var t := TakeBack(z, s);
    TakeBackTop(s);
    HashSetCell(z, s.grid, s.cols, s.rows, m.col, m.row, Empty);
    TakeBackCounts(s);
    TakeBackStacked(s);
  }

  /** The newest entry sits on top of its column. */
  lemma TakeBackTop(s: State)
    requires WF(s) && |s.history| > 0
    requires forall c :: 0 <= c < s.cols ==> s.heights[c] == CountCol(s.history, c)
    requires Stacked(s.grid, s.cols, s.rows, s.history, |s.history| - 1)
    ensures s.heights[s.history[|s.history| - 1].col] == s.history[|s.history| - 1].row + 1
  {
    var n := |s.history|;
    assert s.history == s.history[..n - 1] + [s.history[n - 1]];
    CountColSnoc(s.history[..n - 1], s.history[n - 1], s.history[n - 1].col);
  }

  /** After taking back, each height is still the number of entries in its column. */
  lemma TakeBackCounts(s: State)
    requires WF(s) && |s.history| > 0
    requires forall c :: 0 <= c < s.cols ==> s.heights[c] == CountCol(s.history, c)
    requires 0 <= s.history[|s.history| - 1].col < s.cols
    ensures var last, rest := s.history[|s.history| - 1], s.history[..|s.history| - 1];
            forall c :: 0 <= c < s.cols ==>
              s.heights[last.col := s.heights[last.col] - 1][c] == CountCol(rest, c)
  {
    var n := |s.history|;
    var m, rest := s.history[n - 1], s.history[..n - 1];
    assert s.history == rest + [m];
    forall c | 0 <= c < s.cols
      ensures s.heights[m.col := s.heights[m.col] - 1][c] == CountCol(rest, c)
    {
      CountColSnoc(rest, m, c);
    }
  }

  /** After taking back, every remaining entry is still stacked on the emptied board. */
  lemma TakeBackStacked(s: State)
    requires WF(s) && |s.history| > 0
    requires forall i :: 0 <= i < |s.history| ==> Stacked(s.grid, s.cols, s.rows, s.history, i)
    requires InBounds(s.cols, s.rows, s.history[|s.history| - 1].col, s.history[|s.history| - 1].row)
    ensures var last, rest := s.history[|s.history| - 1], s.history[..|s.history| - 1];
            var g := s.grid[last.col := s.grid[last.col][last.row := Empty]];
            IsGrid(g, s.cols, s.rows) &&
            forall i :: 0 <= i < |rest| ==> Stacked(g, s.cols, s.rows, rest, i)
  {
    var n := |s.history|;
    var m, rest := s.history[n - 1], s.history[..n - 1];
    assert Stacked(s.grid, s.cols, s.rows, s.history, n - 1);
    var g := s.grid[m.col := s.grid[m.col][m.row := Empty]];
    forall i | 0 <= i < n - 1
      ensures Stacked(g, s.cols, s.rows, rest, i)
    {
      assert Stacked(s.grid, s.cols, s.rows, s.history, i);
      assert rest[..i] == s.history[..i];
      if s.history[i].col == m.col {
        CountColPrefix(s.history, i, n - 1, m.col);
      }
    }
  }

  /** Taking back a move that `makeMove` accepted restores every field of the state. */
  lemma UndoApply(z: Zobrist, s: State, col: int)
    requires Inv(z, s) && MoveSucceeds(s, col)
    ensures Inv(z, Apply(z, s, col))
    ensures Undo(z, Apply(z, s, col)) == s
  {
    var row, p := s.heights[col], s.current;
    var u := Place(z, s, col);
    PlaceInv(z, s, col);
    ConcludeInv(z, u, col, row, p);
    var t := Conclude(u, col, row, p);
    assert t == u.(current := t.current, gameOver := t.gameOver, winner := t.winner);
    TakeBackPlace(z, s, col, t.current, t.gameOver, t.winner);
    assert Undo(z, t) == TakeBack(z, t);
  }

  /** Whatever the outcome fields say after a drop, taking the drop back gives the state before it. */
  lemma TakeBackPlace(z: Zobrist, s: State, col: int, current: Player, gameOver: bool, winner: Option<Player>)
    requires Inv(z, s) && IsValidMove(s, col) && !s.gameOver
    ensures CanTakeBack(Place(z, s, col).(current := current, gameOver := gameOver, winner := winner))
    ensures TakeBack(z, Place(z, s, col).(current := current, gameOver := gameOver, winner := winner)) == s
  {
    var row := s.heights[col];
    var t := Place(z, s, col).(current := current, gameOver := gameOver, winner := winner);
    assert s.grid[col][row] == Empty;
    assert t.history[..|t.history| - 1] == s.history;
    assert t.grid[col][row := Empty] == s.grid[col];
    XorSelf(s.hash, z(col, row, s.current));
    var w := TakeBack(z, t);
    assert w.grid == s.grid;
    assert w.heights == s.heights;
  }

  /** A refused move changes nothing; an accepted one changes exactly the dropped cell, its height and the records. */
  lemma ApplyEffects(z: Zobrist, s: State, col: int)
    requires WF(s)
    ensures !MoveSucceeds(s, col) ==> Apply(z, s, col) == s
    ensures MoveSucceeds(s, col) ==>
              var t, row, p := Apply(z, s, col), s.heights[col], s.current;
              && t.grid[col][row] == Stone(p)
              && (forall c, r :: InBounds(s.cols, s.rows, c, r) && (c != col || r != row) ==> t.grid[c][r] == s.grid[c][r])
              && t.heights[col] == row + 1
              && (forall c :: 0 <= c < s.cols && c != col ==> t.heights[c] == s.heights[c])
              && t.moveCount == s.moveCount + 1
              && t.hash == Xor(s.hash, z(col, row, p))
              && t.lastMove == Some(Move(col, row, p))
              && t.history == s.history + [Move(col, row, p)]
  {
    if MoveSucceeds(s, col) {
      var u := Place(z, s, col);
      var t := Apply(z, s, col);
      assert t == u.(current := t.current, gameOver := t.gameOver, winner := t.winner);
    }
  }

  /**
   * After an accepted move by p at (col, row): a win ends the game with p as winner and p
   * still to move; otherwise a board with rows * cols pieces is a draw, again with p to
   * move; otherwise the game goes on with the other player to move.
   */
  lemma ApplyOutcome(z: Zobrist, s: State, col: int)
    requires Inv(z, s) && MoveSucceeds(s, col)
    ensures var t, row, p := Apply(z, s, col), s.heights[col], s.current;
            if Wins(t.grid, t.cols, t.rows, col, row) then
              t.gameOver && t.winner == Some(p) && t.current == p
            else if t.moveCount >= t.rows * t.cols then
              t.gameOver && t.winner == None && t.current == p
            else
              !t.gameOver && t.winner == None && t.current == Other(p)
  {
  }

  /** The columns below n that are not full, in increasing order: the loop of `getValidMoves`. */
  function ValidMovesBelow(s: State, n: nat): (ms: seq<int>)
    requires WF(s) && n <= s.cols
    ensures forall i, j :: 0 <= i < j < |ms| ==> ms[i] < ms[j]
    ensures forall c :: c in ms <==> 0 <= c < n && IsValidMove(s, c)
  {
    if n == 0 then []
    else
      var below := ValidMovesBelow(s, n - 1);
      assert forall i :: 0 <= i < |below| ==> below[i] < n - 1 by {
        forall i | 0 <= i < |below|
          ensures below[i] < n - 1
        {
          assert below[i] in below;
        }
      }
      below + (if s.heights[n - 1] < s.rows then [n - 1] else [])
  }

  /** `getValidMoves`: every column that `isValidMove` accepts, each once, in increasing order. */
  function ValidMoves(s: State): seq<int>
    requires WF(s)
  {
    ValidMovesBelow(s, s.cols)
  }

  /** A column is valid exactly when its top cell is still empty. */
  lemma ValidIffTopEmpty(z: Zobrist, s: State, col: int)
    requires Inv(z, s) && 0 <= col < s.cols && s.rows > 0
    ensures IsValidMove(s, col) <==> s.grid[col][s.rows - 1] == Empty
    ensures IsValidMove(s, col) <==> col in ValidMoves(s)
  {
  }

  /** The sum of the first n entries of hs. */
  function SumPrefix(hs: seq<int>, n: nat): int
    requires n <= |hs|
  {
    if n == 0 then 0 else SumPrefix(hs, n - 1) + hs[n - 1]
  }

  /** The number of entries of h whose column is below n. */
  function CountBelow(h: seq<Move>, n: nat): nat {
    if n == 0 then 0 else CountBelow(h, n - 1) + CountCol(h, n - 1)
  }

  lemma {:induction false} CountBelowSnoc(h: seq<Move>, m: Move, n: nat)
    ensures CountBelow(h + [m], n) == CountBelow(h, n) + (if 0 <= m.col < n then 1 else 0)
  {
    if n > 0 {
      CountBelowSnoc(h, m, n - 1);
      CountColSnoc(h, m, n - 1);
    }
  }

  lemma {:induction false} CountBelowNil(n: nat)
    ensures CountBelow([], n) == 0
  {
    if n > 0 {
      CountBelowNil(n - 1);
    }
  }

  lemma {:induction false} CountBelowAll(h: seq<Move>, n: nat)
    requires forall i :: 0 <= i < |h| ==> 0 <= h[i].col < n
    ensures CountBelow(h, n) == |h|
  {
    if h == [] {
      CountBelowNil(n);
    } else {
      var rest := h[..|h| - 1];
      assert forall i :: 0 <= i < |rest| ==> rest[i] == h[i];
      CountBelowAll(rest, n);
      assert h == rest + [h[|h| - 1]];
      CountBelowSnoc(rest, h[|h| - 1], n);
    }
  }

  /** The column heights add up to the move count, which is the length of the history. */
  lemma HeightsSum(z: Zobrist, s: State)
    requires Inv(z, s)
    ensures SumPrefix(s.heights, s.cols) == s.moveCount == |s.history|
  {
    forall i | 0 <= i < |s.history|
      ensures 0 <= s.history[i].col < s.cols
    {
      assert Stacked(s.grid, s.cols, s.rows, s.history, i);
    }
    CountBelowAll(s.history, s.cols);
    var n := 0;
    while n < s.cols
      invariant n <= s.cols && SumPrefix(s.heights, n) == CountBelow(s.history, n)
    {
      n := n + 1;
    }
  }

  lemma {:induction false} SumPrefixBound(hs: seq<int>, n: nat, rows: nat)
    requires n <= |hs| && forall i :: 0 <= i < n ==> 0 <= hs[i] <= rows
    ensures SumPrefix(hs, n) <= n * rows
    ensures SumPrefix(hs, n) == n * rows <==> forall i :: 0 <= i < n ==> hs[i] == rows
  {
    if n > 0 {
      SumPrefixBound(hs, n - 1, rows);
      assert n * rows == (n - 1) * rows + rows;
    }
  }

  /** `checkDraw` holds exactly when every column is full, that is when no move is left. */
  lemma DrawIffFull(z: Zobrist, s: State)
    requires Inv(z, s)
    ensures CheckDraw(s) <==> ValidMoves(s) == []
  {
    HeightsSum(z, s);
    SumPrefixBound(s.heights, s.cols, s.rows);
    assert s.rows * s.cols == s.cols * s.rows;
    if ValidMoves(s) != [] {
      assert ValidMoves(s)[0] in ValidMoves(s);
    } else {
      forall c | 0 <= c < s.cols
        ensures s.heights[c] == s.rows
      {
        assert c !in ValidMoves(s);
      }
    }
  }

  /** The centre-column term of `GameState.evaluate`: +3 per piece of player 2, -3 per piece of player 1, over the first n cells. */
  function CenterScore(column: seq<Cell>, n: nat): int
    requires n <= |column|
  {
    if n == 0 then 0
    else CenterScore(column, n - 1) + (if column[n - 1] == Stone(P2) then 3 else if column[n - 1] == Stone(P1) then -3 else 0)
  }

  /**
   * `GameState.evaluate`: 1000 when player 2 (the AI) has won, -1000 when player 1 has,
   * 0 for a draw, else the centre-column term over the column `cols / 2`.
   */
  function StaticScore(s: State): int
    requires WF(s) && s.cols > 0
  {
    if s.winner == Some(P2) then 1000
    else if s.winner == Some(P1) then -1000
    else if s.gameOver then 0
    else CenterScore(s.grid[s.cols / 2], s.rows)
  }

  /** The centre-column term is a multiple of 3 and at most 3 per cell in size. */
  lemma {:induction false} CenterScoreBound(column: seq<Cell>, n: nat)
    requires n <= |column|
    ensures -3 * n <= CenterScore(column, n) <= 3 * n
    ensures CenterScore(column, n) % 3 == 0
  {
    if n > 0 {
      CenterScoreBound(column, n - 1);
    }
  }

  /** The centre term is a multiple of 3 and 1000 is not, so the score +-1000 means exactly a win, on a board of any size. */
  lemma StaticScoreWins(s: State)
    requires WF(s) && s.cols > 0
    ensures StaticScore(s) == 1000 <==> s.winner == Some(P2)
    ensures StaticScore(s) == -1000 <==> s.winner == Some(P1)
  {
    CenterScoreBound(s.grid[s.cols / 2], s.rows);
  }

  /** The key a history entry XORs into the hash. */
  function Key(z: Zobrist, m: Move): bv32 {
    z(m.col, m.row, m.player)
  }

  /** The XOR of the keys of the entries of a history. */
  function HistoryHash(z: Zobrist, h: seq<Move>): bv32 {
    if h == [] then 0 else Xor(HistoryHash(z, h[..|h| - 1]), Key(z, h[|h| - 1]))
  }

  /** The running hash equals the XOR of the keys of the moves made. */
  lemma {:induction false} HashIsHistoryHash(z: Zobrist, s: State)
    requires Inv(z, s)
    ensures s.hash == HistoryHash(z, s.history)
    decreases |s.history|
  {
    if s.history == [] {
      forall c | 0 <= c < s.cols
        ensures s.grid[c] == EmptyGrid(s.cols, s.rows)[c]
      {
        assert forall r :: 0 <= r < s.rows ==> s.grid[c][r] == Empty;
      }
      assert s.grid == EmptyGrid(s.cols, s.rows);
      EmptyGridHash(z, s.cols, s.rows);
    } else {
      UndoInv(z, s);
      HashIsHistoryHash(z, Undo(z, s));
    }
  }

  lemma {:induction false} HistoryHashRemove(z: Zobrist, a: seq<Move>, x: Move, b: seq<Move>)
    ensures HistoryHash(z, a + [x] + b) == Xor(HistoryHash(z, a + b), Key(z, x))
    decreases |b|
  {
    if b == [] {
      assert (a + [x] + b)[..|a|] == a;
      assert a + b == a;
    } else {
      var b' := b[..|b| - 1];
      var y := b[|b| - 1];
      HistoryHashRemove(z, a, x, b');
      XorExchange(HistoryHash(z, a + b'), Key(z, x), Key(z, y));
      assert (a + [x] + b)[..|a + [x] + b| - 1] == a + [x] + b';
      assert (a + b)[..|a + b| - 1] == a + b';
    }
  }

  lemma RemoveAt(h: seq<Move>, j: int)
    requires 0 <= j < |h|
    ensures h == h[..j] + [h[j]] + h[j + 1..]
    ensures multiset(h[..j] + h[j + 1..]) == multiset(h) - multiset{h[j]}
  {
    assert h == h[..j] + [h[j]] + h[j + 1..];
    assert multiset(h) == multiset(h[..j]) + multiset{h[j]} + multiset(h[j + 1..]);
  }

  /** The XOR of the keys does not depend on the order of the entries. */
  lemma {:induction false} HistoryHashPermutation(z: Zobrist, h1: seq<Move>, h2: seq<Move>)
    requires multiset(h1) == multiset(h2)
    ensures HistoryHash(z, h1) == HistoryHash(z, h2)
    decreases |h1|
  {
    if h1 == [] {
      assert |h2| == |multiset(h2)| == 0;
    } else {
      var x := h1[|h1| - 1];
      var rest1 := h1[..|h1| - 1];
      RemoveAt(h1, |h1| - 1);
      assert x in multiset(h2);
      var j :| 0 <= j < |h2| && h2[j] == x;
      RemoveAt(h2, j);
      var a, b := h2[..j], h2[j + 1..];
      HistoryHashPermutation(z, rest1, a + b);
      HashMoveLast(z, rest1, x, a, b);
      assert h1 == rest1 + [x] && h2 == a + [x] + b;
    }
  }

  /** Moving the newest entry of a history to any other position keeps the hash. */
  lemma HashMoveLast(z: Zobrist, rest: seq<Move>, x: Move, a: seq<Move>, b: seq<Move>)
    requires HistoryHash(z, rest) == HistoryHash(z, a + b)
    ensures HistoryHash(z, rest + [x]) == HistoryHash(z, a + [x] + b)
  {
    HistoryHashRemove(z, a, x, b);
    assert (rest + [x])[..|rest|] == rest;
  }

  /** Two games that made the same moves in any order carry the same hash. */
  lemma HashIgnoresMoveOrder(z: Zobrist, s: State, t: State)
    requires Inv(z, s) && Inv(z, t)
    requires multiset(s.history) == multiset(t.history)
    ensures s.hash == t.hash
  {
    HashIsHistoryHash(z, s);
    HashIsHistoryHash(z, t);
    HistoryHashPermutation(z, s.history, t.history);
  }

  /** Play the columns one after the other with `makeMove`. */
  function ApplyAll(z: Zobrist, s: State, cs: seq<int>): (t: State)
    requires WF(s)
    ensures WF(t) && t.rows == s.rows && t.cols == s.cols
    decreases |cs|
  {
    if cs == [] then s else ApplyAll(z, Apply(z, s, cs[0]), cs[1..])
  }

  /** Every one of the columns is accepted when its turn comes. */
  predicate AllSucceed(z: Zobrist, s: State, cs: seq<int>)
    requires WF(s)
    decreases |cs|
  {
    cs == [] || (MoveSucceeds(s, cs[0]) && AllSucceed(z, Apply(z, s, cs[0]), cs[1..]))
  }

  lemma {:induction false} ApplyAllInv(z: Zobrist, s: State, cs: seq<int>)
    requires Inv(z, s)
    ensures Inv(z, ApplyAll(z, s, cs))
    decreases |cs|
  {
    if cs != [] {
      ApplyInv(z, s, cs[0]);
      ApplyAllInv(z, Apply(z, s, cs[0]), cs[1..]);
    }
  }

  /** Call `undoMove` n times. */
  function UndoTimes(z: Zobrist, s: State, n: nat): (t: State)
    requires Inv(z, s)
    ensures Inv(z, t)
  {
    if n == 0 then s
    else
      var before := UndoTimes(z, s, n - 1);
      UndoInv(z, before);
      Undo(z, before)
  }

  lemma UndoTimesLast(z: Zobrist, e: State, n: nat, s: State, col: int)
    requires Inv(z, e) && n > 0 && Inv(z, s) && MoveSucceeds(s, col)
    requires UndoTimes(z, e, n - 1) == Apply(z, s, col)
    ensures UndoTimes(z, e, n) == s
  {
    UndoApply(z, s, col);
  }

  lemma {:induction false} UndoTimesApplyAll(z: Zobrist, s: State, cs: seq<int>)
    requires Inv(z, s) && AllSucceed(z, s, cs) && Inv(z, ApplyAll(z, s, cs))
    ensures UndoTimes(z, ApplyAll(z, s, cs), |cs|) == s
    decreases |cs|
  {
    if cs != [] {
      var c, rest := cs[0], cs[1..];
      var next := Apply(z, s, c);
      var e := ApplyAll(z, next, rest);
      assert MoveSucceeds(s, c) && AllSucceed(z, next, rest);
      assert ApplyAll(z, s, cs) == e && |cs| == |rest| + 1;
      ApplyInv(z, s, c);
      UndoTimesApplyAll(z, next, rest);
      UndoTimesLast(z, e, |rest| + 1, s, c);
    }
  }

  /** Playing any sequence of accepted moves and then undoing as many restores the state exactly. */
  lemma UndoAllApplyAll(z: Zobrist, s: State, cs: seq<int>)
    requires Inv(z, s) && AllSucceed(z, s, cs)
    ensures Inv(z, ApplyAll(z, s, cs))
    ensures UndoTimes(z, ApplyAll(z, s, cs), |cs|) == s
  {
    ApplyAllInv(z, s, cs);
    UndoTimesApplyAll(z, s, cs);
  }
}
