# Vier Gewinnt (Connect Four): game state, alpha-beta engine, opponents and leaderboard

This project models, in Dafny, the core of the browser game *Vier Gewinnt*:

- `GameState` (js/game.js): a board of `cols` columns of `rows` cells, stored column by column. The class also holds the column heights, the side to move, the game-over flag and winner, the last move, the move count, the move history and a Zobrist hash. Its operations are `reset`, `clone`, `getValidMoves`, `isValidMove`, `makeMove`, `undoMove`, `checkWin`, `checkDraw`, `getCell` and `evaluate`.
- `AlphaBetaAI` (js/alphabeta.js): the move search.
  - `findBestMove` first takes an immediate win, then an immediate block, and otherwise runs an alpha-beta search. The search orders moves centre-first.
  - `minimax` is a fail-soft alpha-beta search.
  - The static evaluation adds a centre-column term to the score of the 69 four-cell windows of the 7-by-6 board.
- The opponent registry (js/animals.js): the eight animal profiles, `getAnimal` with its fallback to the fox, `getAllAnimals`, and `createAI`.
- The leaderboard (js/leaderboard.js): `escapeHtml`, and the rows `renderLeaderboard` builds. That means the top ten, the ranks, the rank classes, the default texts and the escaping of every cell.

Layout:

- `wrappers.dfy`: `Option`.
- `board.dfy` (module `Board`): players, cells, the board as a value, runs along the four directions, the win test, and the Zobrist hash of a board.
- `model.dfy` (module `GameModel`): the game state as a value. `makeMove` is modelled as `Apply`, `undoMove` as `Undo` and `reset` as `Initial`. The file also holds the invariant these keep and the make/undo round trip.
- `gamestate.dfy` (module `Game`): the class `GameState`. It keeps the board in an `array2` and the heights in an `array`, and every method is proved against the value model.
- `evaluator.dfy` (module `Evaluation`): the window scores and the static evaluation as functions.
- `search.dfy` (module `SearchModel`): the scores with ±Infinity, the move ordering, the plain minimax value, the fail-soft relation, and `findBestMove` as a function.
- `alphabeta.dfy` (module `AlphaBeta`): the class `AlphaBetaAI`. Its methods work on `GameState` objects and are proved against the functions above.
- `animals.dfy` (module `Animals`) and `leaderboard.dfy` (module `Leaderboard`): pure functions.

Players 1 (`PLAYER`) and 2 (`AI`) are `P1` and `P2`. The numeric cell values 0/1/2 become the datatype `Cell` (`Empty`, `Stone(p)`).

## Model

| member | source | states |
|---|---|---|
| Board.Other | js/game.js:105 | the player who moves next is never the one who just moved |
| Board.RayRun | js/game.js:155-161 | a counting loop of `checkWin` reaches n exactly when the n cells from its start lie on the board and all hold the piece |
| Board.LineFour | js/game.js:151-173 | in one direction, the counted line through a cell is at least 4 long exactly when four consecutive on-board cells of that line, including the cell, hold its piece |
| Board.Wins | js/game.js:140-176 | `checkWin(col,row)` is true exactly when, in one of the four directions, four in a row pass through the cell |
| Board.WinsAlongFour | js/game.js:140-176 | every cell of a four-in-a-row of one player is a cell at which `checkWin` reports a win |
| Board.HashSetCell | js/game.js:91 | writing one cell changes the board hash by exactly the XOR of the old and new cell keys |
| Board.EmptyGridHash | js/game.js:46 | the empty board hashes to 0, the value `reset` stores |
| GameModel.Initial | js/game.js:37-49 | `reset` gives a board of the given size with every cell empty, all heights 0, player 1 to move, no winner, no last move, an empty history, move count 0 and hash 0 |
| GameModel.InitialInv | js/game.js:37-49 | the state after `reset` satisfies the game-state invariant (heights match occupancy, the history is the stack of pieces, the count is its length, the hash is the XOR of the occupied cells' keys, `lastMove` is the newest entry) |
| GameModel.Apply | js/game.js:79-109 | `makeMove` keeps the board size. A refused move leaves the state unchanged. An accepted one appends the move (column, landing row, mover) to the history and adds one to the count |
| GameModel.ApplyInv | js/game.js:79-109 | `makeMove` keeps the game-state invariant, whether it accepts or refuses the move |
| GameModel.ApplyEffects | js/game.js:80-94 | a refused move (game over, or column off the board or full) changes nothing. An accepted one changes exactly the dropped cell, that column's height, the count, the hash (by the cell's key), `lastMove` and the history |
| GameModel.ApplyOutcome | js/game.js:97-106 | after an accepted move, a win ends the game with the mover as winner. Otherwise `rows*cols` pieces ends it as a draw. Otherwise the turn passes to the other player |
| GameModel.Undo | js/game.js:111-138 | `undoMove` on an empty history changes nothing. Otherwise it drops the newest history entry, lowers the count by one, gives the turn back to that entry's player and clears the game-over flag and the winner |
| GameModel.UndoInv | js/game.js:111-138 | `undoMove` keeps the game-state invariant |
| GameModel.UndoApply | js/game.js:79-138 | `undoMove` after an accepted `makeMove` restores every field, including hash, `lastMove`, side to move and winner |
| GameModel.UndoAllApplyAll | js/game.js:79-138 | playing any sequence of accepted moves and then undoing as many restores the starting state exactly |
| GameModel.ValidMovesBelow | js/game.js:65-73 | the moves are strictly increasing and contain exactly the columns `isValidMove` accepts |
| GameModel.ValidIffTopEmpty | js/game.js:75-77 | a column is valid exactly when its top cell is empty, and exactly when it is listed by `getValidMoves` |
| GameModel.HeightsSum | js/game.js:84-94 | the column heights add up to the move count, which is the history length |
| GameModel.DrawIffFull | js/game.js:178-180 | `checkDraw` holds exactly when no valid move is left |
| GameModel.CenterScoreBound | js/game.js:195-200 | the centre-column term is a multiple of 3, at most 3 per row in size |
| GameModel.StaticScoreWins | js/game.js:188-203 | on a board of any size, `evaluate` gives 1000 exactly when the AI has won and -1000 exactly when the human has (the centre term is a multiple of 3, and ±1000 is not) |
| GameModel.HashIsHistoryHash | js/game.js:91 | under the invariant, the hash is the XOR of the keys of the history entries |
| GameModel.HashIgnoresMoveOrder | js/game.js:91 | two games whose histories hold the same moves in any order carry the same hash |
| Game.NewBoard | js/game.js:39 | a fresh board of the given size with every cell empty |
| Game.CopyBoard | js/game.js:53 | a fresh board with the same cells as the original |
| Game.CopyHeights | js/game.js:61 | a fresh heights array with the same values |
| Game.GameState.constructor | js/game.js:27-35 | the new object is valid and is the initial state of the given size |
| Game.GameState.Reset | js/game.js:37-49 | the object becomes the initial state, on fresh arrays |
| Game.GameState.Clone | js/game.js:51-63 | a fresh object with its own arrays, holding the same state |
| Game.GameState.GetValidMoves | js/game.js:65-73 | the loop returns the valid columns in increasing order |
| Game.GameState.IsValidMove | js/game.js:75-77 | the model's validity test (a column on the board whose height is below `rows`), and so true exactly for the columns `getValidMoves` lists |
| Game.GameState.MakeMove | js/game.js:79-109 | returns whether the move is accepted. The new state is `Apply` of the old, and the object stays valid |
| Game.GameState.Drop | js/game.js:84-94 | the mover's piece is placed on top of the column, and height, last move, count, hash and history are updated |
| Game.GameState.Settle | js/game.js:97-106 | a win, else a draw, else the turn passes, as in `Conclude` |
| Game.GameState.UndoMove | js/game.js:111-138 | returns false exactly on an empty history. The new state is `Undo` of the old, and the object stays valid |
| Game.GameState.Pop | js/game.js:114-135 | removes the newest piece and restores mover, flags, count, hash and last move |
| Game.GameState.CheckWin | js/game.js:140-176 | the four-direction loop returns the win test `Wins` of the board at the cell |
| Game.GameState.LineThrough | js/game.js:152-172 | one direction counts the piece plus both rays of equal cells |
| Game.GameState.CountFrom | js/game.js:155-170 | a counting loop adds the length of the ray of the piece from its start |
| Game.GameState.CheckDraw | js/game.js:178-180 | true exactly when `moveCount >= rows*cols`, which is exactly when no valid move remains |
| Game.GameState.GetCell | js/game.js:183-185 | the cell of the board, and it holds a piece exactly below the column height |
| Game.GameState.Evaluate | js/game.js:188-203 | the win scores ±1000, 0 for a draw, else ±3 per centre-column piece |
| Evaluation.CountsAddUp | js/alphabeta.js:167-175 | the AI, opponent and empty counts of a window add up to the cells counted |
| Evaluation.WindowScore | js/alphabeta.js:177-191 | each window score is taken in exactly its case: 1000 for four AI pieces, -1000 for four opponent pieces, 50/10 for three/two AI pieces and no opponent piece, -50/-10 mirrored, 0 otherwise |
| Evaluation.Window | js/alphabeta.js:162-192 | a window scores ±1000 or lies between -50 and 50 |
| Evaluation.WindowFour | js/alphabeta.js:162-178 | a window scores 1000 exactly when its four cells all hold the AI's pieces, and -1000 exactly when they all hold the opponent's |
| Evaluation.LinesScore | js/alphabeta.js:128-160 | the sum of the 69 windows lies between -69000 and 69000 |
| Evaluation.BoardScore | js/alphabeta.js:111-126 | the evaluation (centre term plus windows) lies between -69018 and 69018 |
| Evaluation.GroupsFit | js/alphabeta.js:138-157 | every vertical and diagonal window the loops visit lies on the 7-by-6 board |
| Evaluation.WindowAntisymmetric | js/alphabeta.js:162-192 | a window scores the same for either side with the sign flipped |
| Evaluation.BoardScoreAntisymmetric | js/alphabeta.js:111-126 | the evaluation is zero-sum: swapping the side negates it |
| Evaluation.BoardScoreArea | js/alphabeta.js:111-192 | the evaluation depends only on columns 0-6 and rows 0-5 |
| SearchModel.Max | js/alphabeta.js:92-93 | `Math.max` over scores with ±Infinity is an upper bound of both and one of them |
| SearchModel.Min | js/alphabeta.js:103-104 | `Math.min` over scores with ±Infinity is a lower bound of both and one of them |
| SearchModel.ScoreOrder | js/alphabeta.js:41 | the order on scores is total and transitive, with -Infinity and Infinity at the ends |
| SearchModel.OrderMoves | js/alphabeta.js:63-67 | `orderMoves` returns as many moves as it is given (what they are and their order is `OrderMovesSpec`) |
| SearchModel.OrderMovesSpec | js/alphabeta.js:63-67 | `orderMoves` returns a permutation of the moves, sorted by distance from column 3, with ties in their original order |
| SearchModel.MaxOfIsMax | js/alphabeta.js:87-95 | the running `maxScore` ends at the maximum of the children's scores, or -Infinity for none |
| SearchModel.MinOfIsMin | js/alphabeta.js:98-106 | the running `minScore` ends at the minimum, or Infinity for none |
| SearchModel.BestIsFirstMax | js/alphabeta.js:40-57 | the root loop keeps the maximum score and the first move that reaches it, and keeps `validMoves[0]` only if every score is -Infinity |
| SearchModel.BestDominates | js/alphabeta.js:47-57 | the move kept scores at least as much as every other move |
| SearchModel.Terminal | js/alphabeta.js:73-77 | a won game scores exactly 10000 plus the remaining depth, a lost one exactly its negation, a draw 0 |
| SearchModel.TerminalPrefersSooner | js/alphabeta.js:73-76 | a win found with more depth left (sooner) scores higher than one found later, a sooner loss scores lower, and a win beats a draw, which beats a loss |
| SearchModel.MaxOverMoves | js/alphabeta.js:86-96 | over any ordering of the moves, the maximizing loop's result is at least the value after each move, and for a non-empty list equal to the value after one of them |
| SearchModel.MinOverMoves | js/alphabeta.js:97-108 | over any ordering of the moves, the minimizing loop's result is at most the value after each move, and for a non-empty list equal to the value after one of them |
| SearchModel.ValueAtMaxNode | js/alphabeta.js:69-96 | the plain minimax value of an unfinished maximizing node with depth left is at least the value after every valid move and equals the value after one of them; with no valid move it is -Infinity |
| SearchModel.ValueAtMinNode | js/alphabeta.js:69-108 | the plain minimax value of an unfinished minimizing node with depth left is at most the value after every valid move and equals the value after one of them; with no valid move it is Infinity |
| SearchModel.ChildrenAt | js/alphabeta.js:88-91 | child i of a node is the value of the position after move i |
| SearchModel.FullWindow | js/alphabeta.js:51 | a fail-soft result for the full window (-Infinity, Infinity) is the exact minimax value |
| SearchModel.MaxLoopStep | js/alphabeta.js:88-94 | one child of a maximizing node keeps the loop invariant, or on a cut-off the result is a lower bound of the node's value |
| SearchModel.MinLoopStep | js/alphabeta.js:99-105 | one child of a minimizing node keeps the loop invariant, or on a cut-off the result is an upper bound of the node's value |
| SearchModel.MaxLoopEnd | js/alphabeta.js:96 | a maximizing loop that visits every child returns a fail-soft answer for the node |
| SearchModel.MinLoopEnd | js/alphabeta.js:107 | a minimizing loop that visits every child returns a fail-soft answer for the node |
| SearchModel.FirstWinningSpec | js/alphabeta.js:17-37 | the win or block check finds nothing exactly when no valid move wins at once, and what it finds is a winning move of the list |
| SearchModel.FirstWinningAt | js/alphabeta.js:18-24 | the check stops at the first winning move |
| SearchModel.FirstWinningLeast | js/alphabeta.js:18-36 | over increasing moves, no move smaller than the one the check finds wins at once |
| SearchModel.Decide | js/alphabeta.js:12-61 | `findBestMove` returns a move exactly when a valid move exists, and any move it returns is valid |
| SearchModel.DecideWins | js/alphabeta.js:17-25 | if some valid move wins at once, the move returned is the smallest column that wins at once |
| SearchModel.DecideBlocks | js/alphabeta.js:27-37 | with no immediate win, if the opponent could win at once, the move returned is the smallest column the opponent would win with |
| SearchModel.DecideSearches | js/alphabeta.js:39-60 | with no immediate win or block, the move is the one the root loop keeps over the ordered moves |
| SearchModel.DecideMaximizes | js/alphabeta.js:39-60 | with no immediate win or block, the move returned has the largest minimax value (depth - 1, opponent to move) of all moves |
| AlphaBeta.Child | js/alphabeta.js:89-90 | `clone()` then `makeMove(move)` gives a fresh valid object whose state is `Apply` of the original's |
| AlphaBeta.CloneAs | js/alphabeta.js:30-31 | a fresh valid copy whose only difference is the side to move |
| AlphaBeta.ChildAs | js/alphabeta.js:30-32 | a fresh copy in which the given player has played the move |
| AlphaBeta.Tally | js/alphabeta.js:172-174 | each cell adds one to exactly one of the AI, opponent and empty counts |
| AlphaBeta.AlphaBetaAI.constructor | js/alphabeta.js:7-10 | the search depth is the given one |
| AlphaBeta.AlphaBetaAI.EvaluateWindow | js/alphabeta.js:162-192 | the loop counts the window's cells and returns its `WindowScore` |
| AlphaBeta.AlphaBetaAI.HorizontalGroup | js/alphabeta.js:131-136 | the horizontal loop nest sums the 24 horizontal windows |
| AlphaBeta.AlphaBetaAI.ColumnGroup | js/alphabeta.js:138-157 | each of the vertical and diagonal loop nests sums its windows |
| AlphaBeta.AlphaBetaAI.EvaluateLines | js/alphabeta.js:128-160 | the sum of all 69 windows |
| AlphaBeta.AlphaBetaAI.Evaluate | js/alphabeta.js:111-126 | the centre term plus all windows: the evaluation function |
| AlphaBeta.AlphaBetaAI.Minimax | js/alphabeta.js:69-109 | the pruned search is fail-soft with respect to the plain minimax value: at or below alpha it is an upper bound, inside the window it is exact, at or above beta it is a lower bound. At a finished game or at depth 0 it is the exact value whatever the window |
| AlphaBeta.AlphaBetaAI.SearchChild | js/alphabeta.js:89-91 | the recursive call on one child is fail-soft for that child's value |
| AlphaBeta.AlphaBetaAI.MaxNode | js/alphabeta.js:86-96 | the maximizing loop with cut-off is fail-soft for the maximum of the children |
| AlphaBeta.AlphaBetaAI.MinNode | js/alphabeta.js:97-108 | the minimizing loop with cut-off is fail-soft for the minimum of the children |
| AlphaBeta.AlphaBetaAI.TestWin | js/alphabeta.js:19-21 | a probe is true exactly when the move wins at once for the side to move |
| AlphaBeta.AlphaBetaAI.TestBlock | js/alphabeta.js:30-33 | a probe is true exactly when the move wins at once for the opponent |
| AlphaBeta.AlphaBetaAI.WinCheck | js/alphabeta.js:17-25 | the first valid move that wins at once, if any |
| AlphaBeta.AlphaBetaAI.BlockCheck | js/alphabeta.js:27-37 | the first valid move with which the opponent would win at once, if any |
| AlphaBeta.AlphaBetaAI.RootSearch | js/alphabeta.js:39-57 | the root loop returns the first ordered move with the best value of a depth - 1 search |
| AlphaBeta.AlphaBetaAI.FindBestMove | js/alphabeta.js:12-61 | the method returns `Decide`: win, else block, else the best searched move, None when no move exists |
| Animals.RegistryWellFormed | js/animals.js:6-287 | the table holds exactly the eight keys, each once, and every profile's id is its key |
| Animals.GetAnimal | js/animals.js:290-292 | a registered id gives its profile; any other id gives the fox |
| Animals.GetAllAnimals | js/animals.js:295-297 | the eight profiles in declaration order, snail to dragon |
| Animals.AllAnimalsComplete | js/animals.js:295-297 | every profile appears in the listing exactly once |
| Animals.CreateAI | js/animals.js:307-314 | an alpha-beta engine exactly for the alpha-beta profiles, with their depth; a Monte Carlo engine otherwise, with its iterations |
| Animals.UnknownIsFox | js/animals.js:307-314 | an unknown id plays alpha-beta at depth 4 |
| Animals.EnginesConfigured | js/animals.js:307-314 | every engine built gets the parameter its algorithm reads |
| Animals.StrengthOrder | js/animals.js:6-287 | the four Monte Carlo profiles have strictly growing budgets; the four alpha-beta profiles have strictly growing depths |
| Animals.EngineTable | js/animals.js:6-287 | the engines: 50, 100, 200, 500 playouts; depths 4, 6, 8, 10 |
| Leaderboard.Text | js/leaderboard.js:97 | `String(v)` of a string is the string itself; of a number, a non-empty string of digits that starts with a minus exactly when the number is negative |
| Leaderboard.DigitsValue | js/leaderboard.js:97 | the decimal digits of a natural number read back as that number |
| Leaderboard.NumberText | js/leaderboard.js:97 | the text of any whole number, sign included, reads back as that number |
| Leaderboard.EscapeHtml | js/leaderboard.js:95-103 | a falsy value escapes to the empty string; every result is free of `< > " '` and each of its `&` opens one of the five entities |
| Leaderboard.EscapeChar | js/leaderboard.js:98-102 | a character is replaced exactly when it is one of `& < > " '`, and its replacement is free of markup characters |
| Leaderboard.ChainIsEscape | js/leaderboard.js:97-102 | the five global replacements in their order equal escaping each character on its own (the `&amp;` pass first is not disturbed by the later ones) |
| Leaderboard.EscapeInert | js/leaderboard.js:97-102 | the escaped text contains none of `< > " '` and no `&` outside an entity |
| Leaderboard.EscapeLength | js/leaderboard.js:97-102 | each `&` adds 4 characters, `<` and `>` add 3, `"` and `'` add 5 |
| Leaderboard.EscapePlain | js/leaderboard.js:97-102 | text without special characters is unchanged |
| Leaderboard.UnescapeEscape | js/leaderboard.js:97-102 | decoding the entities gives the original text back |
| Leaderboard.EscapeHtmlInjective | js/leaderboard.js:95-103 | different texts of truthy values escape to different strings |
| Leaderboard.Or | js/leaderboard.js:133-136 | `v \|\| fallback` is the fallback exactly for falsy values |
| Leaderboard.RankClass | js/leaderboard.js:117-121 | ranks 1-3 get the class `rank-1` to `rank-3`, all others none |
| Leaderboard.TopEntries | js/leaderboard.js:114 | the first min(10, n) entries, in order |
| Leaderboard.RenderRow | js/leaderboard.js:116-147 | the row of entry `index` has rank index + 1 and a rank class exactly in the first three places, and each of its five cells is free of `< > " '` with every `&` opening an entity |
| Leaderboard.Rows | js/leaderboard.js:109-149 | one row per displayed entry, and row i renders entry i of the list, unreordered |
| Leaderboard.RowsRanked | js/leaderboard.js:113-121 | at most ten rows, ten whenever there are ten entries, ranked 1, 2, 3, ... with a class exactly on the first three |
| Leaderboard.RowsInert | js/leaderboard.js:132-137 | every cell of every row is free of `< > " '`, and each of its `&` opens an entity |
| Leaderboard.RowDefaults | js/leaderboard.js:124-137 | a missing name shows "Anonym", a missing difficulty or move count "-", and a falsy score or date nothing |
| Leaderboard.RowNameFaithful | js/leaderboard.js:133 | a given name is shown escaped, and decoding the cell gives the name back |

## Left out

- The Zobrist table: `ZobristTable.init` fills it with `Math.random`, so the model takes it as a parameter `z: (col, row, player) -> bv32` of `GameState`. Its one-time initialisation and the player index 0 are not modelled.
- `nodesEvaluated` and the `console.log` calls of `findBestMove`: they are diagnostics that do not influence the move.
- `findBestMove`, `minimax` and `evaluateLines` are each split into helper methods (`WinCheck`, `BlockCheck`, `RootSearch`; `MaxNode`, `MinNode`, `SearchChild`; `HorizontalGroup`, `ColumnGroup`). Each helper holds one loop or loop nest of the source in the source's order. The `return` inside the win and block loops and the `break` of the pruning loops end the helper loop the same way.
- Default arguments are not modelled: `new GameState()` defaults to 6 rows and 7 columns (js/game.js:27) and `new AlphaBetaAI()` to depth 6 (js/alphabeta.js:7). The constructors of the model take every argument explicitly.
- AlphaBeta.AlphaBetaAI.FindBestMove: requires a depth of at least 1. With depth 0 the source calls `minimax` with depth -1, which never reaches its `depth === 0` test.
- AlphaBeta.AlphaBetaAI.FindBestMove: with no valid move, the source returns `validMoves[0]`, which is `undefined`; the model returns `None`.
- AlphaBeta.AlphaBetaAI.Minimax: requires a board of at least 7 columns and 6 rows (`Fits7x6`), because the evaluation reads a hard-coded 7-by-6 area. With fewer than 7 columns the source reads `state.board[col][row]` of a missing column and throws a `TypeError`: at js/alphabeta.js:118 when there are at most 3 columns, otherwise at js/alphabeta.js:170 once the horizontal windows (js/alphabeta.js:132-136) reach column 6. With 7 or more columns but fewer than 6 rows it reads `undefined` cells, which js/alphabeta.js:172-174 count as empty.
- AlphaBeta.AlphaBetaAI.EvaluateWindow: requires only that the board arrays span 7 by 6. Like the source, it does not need the game-state invariant.
- SearchModel.OrderMovesSpec: `Array.prototype.sort` is modelled as a stable insertion sort. JavaScript engines have guaranteed a stable sort since ES2019.
- SearchModel.DecideMaximizes: the maximum is stated over the values of the ordered moves. `OrderMovesSpec` states that these are the valid moves, and `ChildrenAt` that value i belongs to move i.
- Scores are unbounded integers plus ±Infinity. JavaScript's double precision does not matter at these magnitudes.
- Animals.GetAnimal: ids that name properties inherited by a JavaScript object (such as `"toString"`) are not modelled; every id outside the table gives the fox.
- `getThinkingMessage` is not modelled: it picks a message with `Math.random`.
- Names, emoji, colours, descriptions and messages of the animal profiles are not modelled: they are presentation data.
- Leaderboard.Text: numbers are formatted as integers. Fractions, exponent notation, `NaN` and `Infinity` are not modelled.
- AlphaBeta.AlphaBetaAI.ColumnGroup: requires its row range to span at most three rows (`r1 <= r0 + 3`), which the three loop nests it models meet: the vertical and rising-diagonal nests cover rows 0-2 (js/alphabeta.js:139-150) and the falling-diagonal nest rows 3-5 (js/alphabeta.js:153-157); the bound keeps the score limits of `Evaluation.Columns` linear.
- Leaderboard.RenderRow: `toLocaleDateString('de-DE')` is a parameter `formatDate`. The `try`/`catch` around it is not modelled; an invalid date shows as whatever `formatDate` returns. `formatDate` receives the date's text, so a numeric date (epoch milliseconds) and the string of its digits are the same input, although `new Date(n)` and `new Date("n")` differ in JavaScript.
- The HTML markup of the rows, the DOM access of `renderLeaderboard`, and `loadLeaderboard`, `saveHighscore` and `showScoreVisualization` (network and DOM) are not modelled.
- The MCTS engine (js/mcts.js) is not part of this model. `createAI` is modelled up to the choice of engine and its parameter.
