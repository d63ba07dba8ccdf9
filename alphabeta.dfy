/**
 * `AlphaBetaAI` (js/alphabeta.js): the engine object, its static evaluator over the board
 * array of a `GameState`, the pruned minimax search, and `findBestMove`. Each method is proved
 * against the functions of modules Evaluation and SearchModel.
 */
module AlphaBeta {
  import opened Wrappers
  import opened Board
  import opened GameModel
  import opened Evaluation
  import opened SearchModel
  import opened Game

  /** `startCol + i * dCol` for a unit step is the offset the window functions use. */
  lemma MulOffset(i: int, d: int)
    requires -1 <= d <= 1
    ensures i * d == Offset(i, d)
  {
    if d == 1 {
    } else if d == -1 {
    } else {
      assert d == 0;
    }
  }

  /** A fresh copy of `state` with `move` played: `state.clone()` followed by `makeMove(move)`. */
  method Child(state: GameState, move: int) returns (next: GameState)
    requires state.Valid()
    ensures fresh(next) && fresh(next.board) && fresh(next.colHeights)
    ensures next.Valid() && next.zobrist == state.zobrist
    ensures next.Model() == Apply(state.zobrist, state.Model(), move)
  {
    next := state.Clone();
    var moved := next.MakeMove(move);
  }

  /** A fresh copy of `state` whose `currentPlayer` is overwritten with `p`, as the block check does. */
  method CloneAs(state: GameState, p: Player) returns (next: GameState)
    requires state.Valid()
    ensures fresh(next) && fresh(next.board) && fresh(next.colHeights)
    ensures next.Valid() && next.zobrist == state.zobrist
    ensures next.Model() == state.Model().(current := p)
  {
    next := state.Clone();
    InvAnyMover(next.zobrist, next.Model(), p);
    next.currentPlayer := p;
  }

  /** A fresh copy of `state` in which `p` plays `move`: the clone of the block check followed by `makeMove`. */
  method ChildAs(state: GameState, p: Player, move: int) returns (next: GameState)
    requires state.Valid()
    ensures fresh(next) && fresh(next.board) && fresh(next.colHeights)
    ensures next.Valid() && next.zobrist == state.zobrist
    ensures next.Model() == Apply(state.zobrist, state.Model().(current := p), move)
  {
    next := CloneAs(state, p);
    var moved := next.MakeMove(move);
  }

  /** `start + i * d`, the i-th coordinate of a window along a step d of -1, 0 or 1. */
  function Along(start: int, i: int, d: int): (x: int)
    requires -1 <= d <= 1
    ensures x == start + Offset(i, d)
  {
    MulOffset(i, d);
    start + i * d
  }

  /** The counting step of `evaluateWindow`: the cell adds one to the AI's, the opponent's or the empty count. */
  method Tally(cell: Cell, ai: Player, opponent: Player, aiCount: int, oppCount: int, emptyCount: int)
    returns (aiCount': int, oppCount': int, emptyCount': int)
    requires opponent != ai
    ensures aiCount' == aiCount + (if cell == Stone(ai) then 1 else 0)
    ensures oppCount' == oppCount + (if cell == Stone(opponent) then 1 else 0)
    ensures aiCount' + oppCount' + emptyCount' == aiCount + oppCount + emptyCount + 1
  {
    aiCount', oppCount', emptyCount' := aiCount, oppCount, emptyCount;
    if cell == Stone(ai) {
      aiCount' := aiCount + 1;
    } else if cell == Stone(opponent) {
      oppCount' := oppCount + 1;
    } else {
      emptyCount' := emptyCount + 1;
    }
  }

  /** The invariant does not constrain whose turn it is. */
  lemma InvAnyMover(z: Zobrist, s: State, p: Player)
    requires Inv(z, s)
    ensures Inv(z, s.(current := p))
  {
  }

  /** vs are the values, searched to depth d, of the positions after each of the moves ms from `state`. */
  ghost predicate ChildValues(state: GameState, ms: seq<int>, d: nat, maximizing: bool, ai: Player, vs: seq<Score>)
    reads state, state.board, state.colHeights
  {
    state.Valid() && Fits7x6(state.Model()) && vs == Children(state.zobrist, state.Model(), ms, d, maximizing, ai)
  }

  class AlphaBetaAI {
    /** The search depth of `findBestMove`; the source defaults it to 6. */
    const depth: int

    constructor(depth: int)
      ensures this.depth == depth
    {
      this.depth := depth;
    }

    /**
     * `evaluateWindow`: counts the AI's, the opponent's and the empty cells of the window
     * from (startCol, startRow) along (dCol, dRow), then scores the counts.
     */
    method EvaluateWindow(state: GameState, startCol: int, startRow: int, dCol: int, dRow: int, ai: Player, opponent: Player)
      returns (score: int)
      requires state.board.Length0 >= 7 && state.board.Length1 >= 6
      requires Fits(startCol, startRow, dCol, dRow) && opponent == Other(ai)
      ensures score == Window(Cells(state.board), startCol, startRow, dCol, dRow, ai)
    {
      ghost var g := Cells(state.board);
      var aiCount, oppCount, emptyCount := 0, 0, 0;
      for i := 0 to 4
        invariant Counted(g, startCol, startRow, dCol, dRow, i, ai, aiCount, oppCount, emptyCount)
      {
        CellOnBoard(startCol, startRow, dCol, dRow, i);
        var col := Along(startCol, i, dCol);
        var row := Along(startRow, i, dRow);
        var cell := state.board[col, row];
        assert g[col][row] == cell;
        ghost var a, o, e := aiCount, oppCount, emptyCount;
        aiCount, oppCount, emptyCount := Tally(cell, ai, opponent, aiCount, oppCount, emptyCount);
        CountStep(g, startCol, startRow, dCol, dRow, i, ai, cell, a, o, e, aiCount, oppCount, emptyCount);
      }
      CountsAddUp(g, startCol, startRow, dCol, dRow, 4, ai);
      score := WindowScore(aiCount, oppCount);
    }

    /** `evaluateLines`: the sum of the 69 windows, group by group in the source's loop order. */
    method EvaluateLines(state: GameState, ai: Player, opponent: Player) returns (score: int)
      requires state.board.Length0 >= 7 && state.board.Length1 >= 6 && opponent == Other(ai)
      ensures score == LinesScore(Cells(state.board), ai)
    {
      GroupsFit();
      var horizontal := HorizontalGroup(state, ai, opponent);
      var vertical := ColumnGroup(state, 7, 0, 3, 0, 1, ai, opponent);
      var rising := ColumnGroup(state, 4, 0, 3, 1, 1, ai, opponent);
      var falling := ColumnGroup(state, 4, 3, 6, 1, -1, ai, opponent);
      score := horizontal + vertical + rising + falling;
    }

    /** The first loop nest of `evaluateLines`: the four horizontal windows of each of the six rows. */
    method HorizontalGroup(state: GameState, ai: Player, opponent: Player) returns (score: int)
      requires state.board.Length0 >= 7 && state.board.Length1 >= 6 && opponent == Other(ai)
      ensures score == Horizontal(Cells(state.board), 6, ai)
    {
      ghost var g := Cells(state.board);
      score := 0;
      for row := 0 to 6
        invariant score == Horizontal(g, row, ai)
      {
        ghost var done := score;
        for col := 0 to 4
          invariant score == done + RowWindows(g, row, col, ai)
        {
          var w := EvaluateWindow(state, col, row, 1, 0, ai, opponent);
          score := score + w;
        }
      }
    }

    /**
     * One of the other three loop nests of `evaluateLines`: for each of the first n columns, the
     * windows along (dCol, dRow) starting at rows r0 .. r1 - 1.
     */
    method ColumnGroup(state: GameState, n: int, r0: int, r1: int, dCol: int, dRow: int, ai: Player, opponent: Player)
      returns (score: int)
      requires state.board.Length0 >= 7 && state.board.Length1 >= 6 && opponent == Other(ai)
      requires 0 <= n && r0 <= r1 <= r0 + 3 && forall x, y :: 0 <= x < n && r0 <= y < r1 ==> Fits(x, y, dCol, dRow)
      ensures score == Columns(Cells(state.board), n, r0, r1, dCol, dRow, ai)
    {
      ghost var g := Cells(state.board);
      score := 0;
      for col := 0 to n
        invariant score == Columns(g, col, r0, r1, dCol, dRow, ai)
      {
        ghost var done := score;
        for row := r0 to r1
          invariant score == done + ColWindows(g, col, r0, row, dCol, dRow, ai)
        {
          var w := EvaluateWindow(state, col, row, dCol, dRow, ai, opponent);
          score := score + w;
        }
      }
    }

    /** `evaluate`: +3 / -3 per piece in the centre column 3, plus every window. */
    method Evaluate(state: GameState, ai: Player) returns (score: int)
      requires state.board.Length0 >= 7 && state.board.Length1 >= 6
      ensures score == Evaluation.BoardScore(Cells(state.board), ai)
    {
      ghost var g := Cells(state.board);
      var opponent := if ai == P1 then P2 else P1;
      score := 0;
      var centerCol := 3;
      for row := 0 to 6
        invariant score == CenterTerm(g, row, ai)
      {
        if state.board[centerCol, row] == Stone(ai) {
          score := score + 3;
        }
        if state.board[centerCol, row] == Stone(opponent) {
          score := score - 3;
        }
      }
      var lines := EvaluateLines(state, ai, opponent);
      score := score + lines;
    }

    /**
     * `minimax`: alpha-beta search of `state` to `depth`, fail-soft. Whatever it prunes, the
     * result relates to the unpruned value as `FailSoft` says; with the full window it is the
     * value itself (`FullWindow`), and at a finished game or at depth 0 it is the value
     * whatever the window.
     */
    method Minimax(state: GameState, depth: nat, alpha: Score, beta: Score, maximizing: bool, ai: Player)
      returns (result: Score)
      requires state.Valid() && Fits7x6(state.Model()) && Lt(alpha, beta)
      ensures FailSoft(result, Value(state.zobrist, state.Model(), depth, maximizing, ai), alpha, beta)
      ensures state.Model().gameOver || depth == 0 ==> result == Value(state.zobrist, state.Model(), depth, maximizing, ai)
      decreases depth, 1
    {
      if state.gameOver {
        if state.winner == Some(ai) {
          result := Fin(10000 + depth);
        } else if state.winner != None {
          result := Fin(-10000 - depth);
        } else {
          result := Fin(0);
        }
        ScoreOrder(result, result, result);
        return;
      }
      if depth == 0 {
        var e := Evaluate(state, ai);
        ScoreOrder(Fin(e), Fin(e), Fin(e));
        return Fin(e);
      }
      var validMoves := state.GetValidMoves();
      var orderedMoves := OrderMoves(validMoves);
      ghost var vs := Children(state.zobrist, state.Model(), orderedMoves, depth - 1, !maximizing, ai);
      if maximizing {
        result := MaxNode(state, depth, alpha, beta, ai, orderedMoves, vs);
      } else {
        result := MinNode(state, depth, alpha, beta, ai, orderedMoves, vs);
      }
    }

    /**
     * One child of a `minimax` node: clones `state`, plays `orderedMoves[i]` and searches the
     * result with the window (alpha, beta); vs are the true values of all the children.
     */
    method SearchChild(state: GameState, orderedMoves: seq<int>, i: int, depth: nat, alpha: Score, beta: Score,
                       maximizing: bool, ai: Player, ghost vs: seq<Score>)
      returns (score: Score)
      requires ChildValues(state, orderedMoves, depth, maximizing, ai, vs) && Lt(alpha, beta) && 0 <= i < |orderedMoves|
      ensures FailSoft(score, vs[i], alpha, beta)
      decreases depth, 2
    {
      ChildrenAt(state.zobrist, state.Model(), orderedMoves, depth, maximizing, ai);
      var newState := Child(state, orderedMoves[i]);
      score := Minimax(newState, depth, alpha, beta, maximizing, ai);
    }

    /**
     * The maximizing loop of `minimax`: `maxScore` and `alpha` rise with each child, and the
     * loop stops once beta <= alpha.
     */
    method MaxNode(state: GameState, depth: nat, alpha: Score, beta: Score, ai: Player, orderedMoves: seq<int>,
                   ghost vs: seq<Score>)
      returns (maxScore: Score)
      requires depth > 0 && ChildValues(state, orderedMoves, depth - 1, false, ai, vs) && Lt(alpha, beta)
      ensures FailSoft(maxScore, MaxOf(vs), alpha, beta)
      decreases depth, 0
    {
      maxScore := NegInf;
      var a := alpha;
      MaxLoopStart(alpha, beta, vs);
      var i := 0;
      while i < |orderedMoves|
        invariant MaxLoop(alpha, beta, a, maxScore, vs, i)
      {
        var score := SearchChild(state, orderedMoves, i, depth - 1, a, beta, false, ai, vs);
        MaxLoopStep(alpha, beta, a, maxScore, vs, i, score);
        maxScore := Max(maxScore, score);
        a := Max(a, score);
        if Le(beta, a) {
          return;
        }
        i := i + 1;
      }
      MaxLoopEnd(alpha, beta, a, maxScore, vs);
    }

    /**
     * The minimizing loop of `minimax`: `minScore` and `beta` fall with each child, and the
     * loop stops once beta <= alpha.
     */
    method MinNode(state: GameState, depth: nat, alpha: Score, beta: Score, ai: Player, orderedMoves: seq<int>,
                   ghost vs: seq<Score>)
      returns (minScore: Score)
      requires depth > 0 && ChildValues(state, orderedMoves, depth - 1, true, ai, vs) && Lt(alpha, beta)
      ensures FailSoft(minScore, MinOf(vs), alpha, beta)
      decreases depth, 0
    {
      minScore := PosInf;
      var b := beta;
      MinLoopStart(alpha, beta, vs);
      var i := 0;
      while i < |orderedMoves|
        invariant MinLoop(alpha, beta, b, minScore, vs, i)
      {
        var score := SearchChild(state, orderedMoves, i, depth - 1, alpha, b, true, ai, vs);
        MinLoopStep(alpha, beta, b, minScore, vs, i, score);
        minScore := Min(minScore, score);
        b := Min(b, score);
        if Le(b, alpha) {
          return;
        }
        i := i + 1;
      }
      MinLoopEnd(alpha, beta, b, minScore, vs);
    }

    /**
     * `findBestMove`: an immediate win, else an immediate block, else the first ordered move
     * of best full-window score; None where the source returns `undefined` (no valid move).
     */
    method FindBestMove(gameState: GameState) returns (move: Option<int>)
      requires gameState.Valid() && Fits7x6(gameState.Model()) && depth >= 1
      ensures move == Decide(gameState.zobrist, gameState.Model(), depth)
    {
      var state := gameState.Clone();
      var validMoves := state.GetValidMoves();
      var win := WinCheck(state, validMoves);
      if win.Some? {
        move := win;
      } else {
        var opponent := if state.currentPlayer == P1 then P2 else P1;
        var block := BlockCheck(state, validMoves, opponent);
        if block.Some? {
          move := block;
        } else if validMoves == [] {
          move := None;
        } else {
          var best := RootSearch(state, validMoves);
          move := Some(best);
        }
      }
    }

    /** One probe of the win check: `state.clone()`, `makeMove(move)`, then whether the mover has won. */
    method TestWin(state: GameState, move: int) returns (won: bool)
      requires state.Valid()
      ensures won == WinningMove(state.zobrist, state.Model(), move, state.currentPlayer)
    {
      var testState := Child(state, move);
      assert state.Model().(current := state.currentPlayer) == state.Model();
      won := testState.winner == Some(state.currentPlayer);
    }

    /** One probe of the block check: the clone's mover is set to `opponent` before `makeMove(move)`. */
    method TestBlock(state: GameState, opponent: Player, move: int) returns (won: bool)
      requires state.Valid()
      ensures won == WinningMove(state.zobrist, state.Model(), move, opponent)
    {
      var testState := ChildAs(state, opponent, move);
      won := testState.winner == Some(opponent);
    }

    /** The immediate-win loop of `findBestMove`: the first move after which the mover has won. */
    method WinCheck(state: GameState, validMoves: seq<int>) returns (found: Option<int>)
      requires state.Valid()
      ensures found == FirstWinning(state.zobrist, state.Model(), validMoves, state.currentPlayer)
    {
      ghost var z, s := state.zobrist, state.Model();
      for i := 0 to |validMoves|
        invariant NoWinBefore(z, s, validMoves, i, s.current)
      {
        var won := TestWin(state, validMoves[i]);
        if won {
          FirstWinningAt(z, s, validMoves, i, s.current);
          return Some(validMoves[i]);
        }
        NoWinStep(z, s, validMoves, i, s.current);
      }
      FirstWinningSpec(z, s, validMoves, s.current);
      return None;
    }

    /** The immediate-block loop of `findBestMove`: the first move with which the opponent would win. */
    method BlockCheck(state: GameState, validMoves: seq<int>, opponent: Player) returns (found: Option<int>)
      requires state.Valid()
      ensures found == FirstWinning(state.zobrist, state.Model(), validMoves, opponent)
    {
      ghost var z, s := state.zobrist, state.Model();
      for i := 0 to |validMoves|
        invariant NoWinBefore(z, s, validMoves, i, opponent)
      {
        var blocked := TestBlock(state, opponent, validMoves[i]);
        if blocked {
          FirstWinningAt(z, s, validMoves, i, opponent);
          return Some(validMoves[i]);
        }
        NoWinStep(z, s, validMoves, i, opponent);
      }
      FirstWinningSpec(z, s, validMoves, opponent);
      return None;
    }

    /**
     * The alpha-beta loop of `findBestMove`: every ordered move is searched with the full
     * window, and a score strictly above the best so far replaces it.
     */
    method RootSearch(state: GameState, validMoves: seq<int>) returns (bestMove: int)
      requires state.Valid() && Fits7x6(state.Model()) && depth >= 1 && validMoves != []
      ensures var ordered := OrderMoves(validMoves);
              bestMove == Best(ordered, Children(state.zobrist, state.Model(), ordered, depth - 1, false, state.currentPlayer), validMoves[0]).0
    {
      bestMove := validMoves[0];
      var bestScore := NegInf;
      var orderedMoves := OrderMoves(validMoves);
      ghost var vs := Children(state.zobrist, state.Model(), orderedMoves, depth - 1, false, state.currentPlayer);
      assert ChildValues(state, orderedMoves, depth - 1, false, state.currentPlayer, vs);
      for k := 0 to |orderedMoves|
        invariant (bestMove, bestScore) == Best(orderedMoves[..k], vs[..k], validMoves[0])
      {
        var score := SearchChild(state, orderedMoves, k, depth - 1, NegInf, PosInf, false, state.currentPlayer, vs);
        FullWindow(score, vs[k]);
        BestSnoc(orderedMoves, vs, k, validMoves[0]);
        if Lt(bestScore, score) {
          bestScore := score;
          bestMove := orderedMoves[k];
        }
      }
      BestWhole(orderedMoves, vs, validMoves[0]);
    }
  }
}
