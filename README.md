# Connect Four engine

This project models the engine of a Connect Four game written in Python as a
single script, `main.py`. The board has 6 rows and 7 columns, and row 0 is the
top. Cells hold `EMPTY` (0), `YELLOW` (1, the human) or `RED` (2, the
computer). The model covers:

- the board operations: next open row, placing a piece, valid moves, full board;
- the four-in-a-row test;
- the heuristic `score_position` / `evaluate_window`;
- the depth-limited `minimax` with alpha-beta pruning that the hard opponent uses;
- the game controller: `drop_piece`, `ai_move`, `ai_move_hard`, `reset_game`.

The modules follow the script's layers:

- `BoardState` (`board_state.dfy`): the board as a 6 x 7 `array2<int>`, its
  value `Board = seq<seq<int>>` (read with `Cells`), gravity, open rows, valid
  moves, and the single-cell drop.
- `WinDetection` (`win_detection.dfy`): `check_for_winner` as four nested-loop
  scans, proved equal to the predicate `HasFourInARow`.
- `Heuristic` (`heuristic.dfy`): `evaluate_window`, and `score_position` as four
  scans over the array. They are proved equal to `PositionScore`, the sum of
  `EvaluateWindow` over the 69 windows in the order the script visits them.
- `Search` (`search.dfy`): `minimax` as a recursive method over the array. Each
  child is searched on a fresh copy of the board, so the method has no
  `modifies` clause. The method is proved equal to `AlphaBeta`, a function of the
  board. `AlphaBeta` runs the script's pruning loop over `Tree`, the game tree
  the search explores. Plain minimax over the same tree (`TreeMinimax`) is the
  reference definition. `PruningSound` proves that pruning gives the minimax
  value whenever that value lies strictly inside the window, and a bound on the
  correct side of the window otherwise. With the full window (-inf, +inf),
  pruning changes neither the value nor the column (`PruningExact`).
- `GameController` (`game.dfy`): the script's module-level state (`board`,
  `current_player`) as the class `Game`. Its invariant `Valid` states conditions that
  hold of every position the game can reach (`Consistent`): gravity holds, nobody
  has four in a row, and the turns alternate from the player who started, so the
  piece counts match the player to move. These conditions are necessary, not
  sufficient: some boards meet them that no game reaches.

Where the script's own comments or its intended behaviour differ from its code,
the model follows the code:

- `drop_piece` never declares a draw. When the board fills without a winner,
  every later move is refused as a full column (`FullBoardRefusesEveryColumn`).
- `minimax` first picks a provisional `best_column` with `random.choice`, but it
  never survives. The value starts at -inf (or +inf), every child score is
  finite, so the first child always replaces the random pick, and ties keep the
  earliest column (`ProvisionalColumnIrrelevantMax`/`Min`,
  `MinimaxPicksFirstBestMove`).

## Model

| member | source | states |
|---|---|---|
| BoardState.EmptyBoard | main.py:19 | every cell of the starting board is EMPTY |
| BoardState.IsBoardFull | main.py:61-63 | is_board_full: true when every cell of the top row is taken; FullTopRowFillsBoard proves that on a board obeying gravity this means every cell is taken |
| BoardState.FullTopRowFillsBoard | main.py:61-63 | on a board obeying gravity, a full top row (the script's test) means every cell is occupied |
| BoardState.ValidMovesFrom | main.py:73 | the comprehension of find_valid_moves from column c on: the open columns in ascending order; its properties are proved in ValidMovesFromSpec |
| BoardState.ValidMovesFromSpec | main.py:73 | the columns listed from c on are ascending, at least c, and are exactly the columns from c whose top cell is EMPTY |
| BoardState.FindValidMoves | main.py:71-73 | find_valid_moves: the open columns in ascending order; its properties are proved in FindValidMovesSpec and ValidMoveIsOpen |
| BoardState.FindValidMovesSpec | main.py:71-73 | the valid moves are strictly ascending, contain a column exactly when its top cell is EMPTY, are empty exactly when the board is full, and number at most 7 |
| BoardState.ValidMoveIsOpen | main.py:71-73 | the i-th valid move has an EMPTY top cell |
| BoardState.OpenRowFrom | main.py:78-80 | scanning upward from row r, the row found is EMPTY and every row between it and r is occupied; nothing is found only when rows 0..r are all occupied |
| BoardState.OpenRow | main.py:76-81 | the open row is the bottom-most EMPTY cell of the column; None exactly when every cell of the column is occupied |
| BoardState.OpenRowNoneIffTopTaken | main.py:76-81 | on a board obeying gravity, a column has no open row exactly when its top cell is taken |
| BoardState.GravityFillsColumn | main.py:76-81 | on a board obeying gravity, a column whose top cell is taken is taken all the way down |
| BoardState.WithCell | main.py:68 | exactly one cell changes, to the given value |
| BoardState.Drop | main.py:196-198 | a full column leaves the board unchanged; otherwise the landing cell goes from EMPTY to the player's piece and no other cell changes |
| BoardState.DropPreservesGravity | main.py:196-198 | dropping a piece keeps the board free of floating pieces |
| BoardState.Window | main.py:139-162 | the four cells from (r, c) in a direction form a 4-cell window |
| BoardState.GetNextOpenRow | main.py:76-81 | the bottom-up loop returns the open row of the column, or None |
| BoardState.DropPieceOnBoard | main.py:66-68 | the array afterwards holds the old board with that one cell set to the player |
| BoardState.CopyBoard | main.py:106 | the deep copy is a fresh array holding the same cells |
| BoardState.NewBoard | main.py:19 | a fresh 6 x 7 array holding the empty board |
| WinDetection.CheckForWinner | main.py:32-58 | returns true exactly when the player has four in a row horizontally, vertically or on either diagonal |
| WinDetection.ScanHorizontal | main.py:35-38 | true exactly when some row holds a horizontal run of four of the player |
| WinDetection.ScanVertical | main.py:41-44 | true exactly when some column holds a vertical run of four |
| WinDetection.ScanDiagonal | main.py:47-50 | true exactly when some down-right diagonal holds a run of four |
| WinDetection.ScanAntiDiagonal | main.py:53-56 | true exactly when some up-right diagonal holds a run of four |
| WinDetection.NoNewRunForOthers | main.py:198-207 | writing one player's piece cannot give any other player a run it did not already have, which is why drop_piece only checks the mover |
| WinDetection.NoNewRunIn | main.py:198-207 | the same for a single direction |
| WinDetection.EmptyBoardHasNoWinner | main.py:19 | the empty board has no run for either player |
| WinDetection.FourAcrossTheBottom | main.py:35-38 | four yellow pieces dropped into columns 0-3 of the empty board land on the bottom row and win horizontally |
| Heuristic.Count | main.py:172 | window.count never exceeds the window's length |
| Heuristic.CountTwo | main.py:172-180 | two different values together occupy at most the window's length |
| Heuristic.CountThree | main.py:172-180 | three different values together occupy at most the window's length |
| Heuristic.Opponent | main.py:170 | the opponent differs from the player and is a player |
| Heuristic.EvaluateWindow | main.py:167-182 | a 4-cell window scores one of -4, 0, 2, 5, 100 |
| Heuristic.WindowCounts | main.py:172-180 | the player's, the opponent's and EMPTY's counts share the window's cells |
| Heuristic.EvaluateWindowTable | main.py:172-180 | each score holds exactly when its condition holds (100: four of the player; 5: three and one EMPTY; 2: two and two EMPTY; -4: three of the opponent and one EMPTY; 0: none), so no window earns a bonus and a penalty at once |
| Heuristic.WindowsScoreStep | main.py:143 | adding window k's score extends the running sum by one window |
| Heuristic.WindowsScoreAppend | main.py:136-164 | the score of two window lists put together is the sum of their scores |
| Heuristic.WindowsScoreBounds | main.py:167-182 | a list of n 4-cell windows scores between -4n and 100n |
| Heuristic.HorizontalWindows | main.py:139-142 | there are 24 horizontal windows |
| Heuristic.HorizontalWindowAt | main.py:139-142 | the window at row r, start column c is number 4r + c of the horizontal scan |
| Heuristic.HorizontalStep | main.py:143 | scoring the window at (r, c) extends the horizontal running sum by that window |
| Heuristic.VerticalWindows | main.py:146-149 | there are 21 vertical windows |
| Heuristic.VerticalWindowAt | main.py:146-149 | the window at start row r, column c is number 3c + r of the vertical scan |
| Heuristic.VerticalStep | main.py:150 | scoring the window at (r, c) extends the vertical running sum by that window |
| Heuristic.DiagonalWindows | main.py:153-155 | there are 12 down-right windows |
| Heuristic.DiagonalWindowAt | main.py:153-155 | the window at (r, c) is number 4r + c of the down-right scan |
| Heuristic.DiagonalStep | main.py:156 | scoring the window at (r, c) extends the down-right running sum by that window |
| Heuristic.AntiDiagonalWindows | main.py:159-161 | there are 12 up-right windows |
| Heuristic.AntiDiagonalWindowAt | main.py:159-161 | the window at (r, c) is number 4(r - 3) + c of the up-right scan |
| Heuristic.AntiDiagonalStep | main.py:162 | scoring the window at (r, c) extends the up-right running sum by that window |
| Heuristic.AllWindows | main.py:134-164 | score_position visits 69 windows |
| Heuristic.PositionScoreBounds | main.py:134-164 | every position scores between -276 and 6900 |
| Heuristic.ArrayWindow | main.py:140-142 | the four array cells read are the window of the board value |
| Heuristic.ScorePosition | main.py:134-164 | the four scans together return PositionScore, the sum over all 69 windows in the script's order |
| Heuristic.ScoreHorizontal | main.py:139-143 | the horizontal scan returns the sum over the horizontal windows |
| Heuristic.ScoreVertical | main.py:146-150 | the vertical scan returns the sum over the vertical windows |
| Heuristic.ScoreDiagonal | main.py:153-156 | the down-right scan returns the sum over those windows |
| Heuristic.ScoreAntiDiagonal | main.py:159-162 | the up-right scan returns the sum over those windows |
| Search.IsTerminal | main.py:87-88 | is_terminal: a win for either player or a full board; TreeRoot and AlphaBetaColumn prove that the search stops exactly there (or at depth 0) |
| Search.LeafScore | main.py:90-99 | a RED win scores 1e9, a YELLOW win (without a RED one) -1e9, a drawn full board 0, any other position the heuristic for RED; always within ±1e9 |
| Search.Tree | main.py:86-131 | the explored tree is well formed: a move per child, at least one child at each node, leaf scores within ±1e9 |
| Search.Subtrees | main.py:104-108 | one well-formed subtree per move |
| Search.SubtreeAt | main.py:104-108 | the i-th subtree is the tree of the position after the i-th move |
| Search.TreeRoot | main.py:86-99 | the root is a leaf exactly at depth 0 or at a terminal position, scored by LeafScore; otherwise its moves are the valid moves |
| Search.TreeChild | main.py:104-108 | the i-th child is the tree after the side to move drops into the i-th valid move |
| Search.TreeAlphaBeta | main.py:84-131 | the pruned search scores within ±1e9, returns no column exactly at a leaf, and any column it returns is a move of the node |
| Search.TreeAlphaBetaMax | main.py:104-115 | the maximising loop always ends with a column: the provisional one or a move from the i-th on |
| Search.TreeAlphaBetaMin | main.py:120-131 | the minimising loop always ends with a column: the provisional one or a move from the i-th on |
| Search.ProvisionalColumnIrrelevantMax | main.py:102-103 | the random provisional column of a maximising node never affects the result |
| Search.ProvisionalColumnIrrelevantMin | main.py:118-119 | the random provisional column of a minimising node never affects the result |
| Search.TreeMinimax | main.py:84-131 | plain minimax, the reference for the pruned search, scores within ±1e9 |
| Search.MaxOver | main.py:109-111 | the running maximum never drops below its start value |
| Search.MinOver | main.py:125-127 | the running minimum never rises above its start value |
| Search.MaxOverIsFirstMaximum | main.py:109-111 | no child beats the running maximum; the column kept is the first child reaching the maximum, with every earlier child strictly lower |
| Search.MinOverIsFirstMinimum | main.py:125-127 | no child is below the running minimum; the column kept is the first child reaching the minimum, with every earlier child strictly higher |
| Search.MaxStep | main.py:109-114 | one maximising step keeps the pruning invariant, and a cut happens only when the true maximum has reached beta |
| Search.MinStep | main.py:125-130 | one minimising step keeps the pruning invariant, and a cut happens only when the true minimum has reached alpha |
| Search.PruningSound | main.py:112-114 | the pruned score equals the minimax value when that lies strictly inside (alpha, beta), and lies on the same side of the window otherwise |
| Search.PruningSoundMax | main.py:104-115 | the loop invariant of a maximising node, preserved child by child |
| Search.PruningSoundMin | main.py:120-131 | the loop invariant of a minimising node, preserved child by child |
| Search.PruningExact | main.py:187 | with the full window, pruning returns exactly the value and column of plain minimax |
| Search.PruningExactMax | main.py:104-115 | the same for a maximising loop started from the full window |
| Search.PruningExactMin | main.py:120-131 | the same for a minimising loop started from the full window |
| Search.AlphaBeta | main.py:84-131 | the search of a board scores within ±1e9 |
| Search.AlphaBetaColumn | main.py:90-115 | no column exactly at depth 0 or a terminal position; otherwise the column is a valid move |
| Search.Minimax | main.py:84-131 | plain minimax of a board scores within ±1e9 |
| Search.SearchIsMinimax | main.py:187 | from the full window the pruned search of a board equals plain minimax |
| Search.MinimaxPicksFirstBestMove | main.py:101-115 | at an expanded maximising node no valid move scores above the result, and the column returned is the first valid move reaching it |
| Search.WinningMoveScoresWin | main.py:92-93 | if RED has a move that wins on the spot, the maximising search scores 1e9 |
| Search.ChildScore | main.py:105-108 | the score searched on the copied child board is the search of the i-th subtree |
| Search.MinimaxSearch | main.py:84-131 | the recursive method over the array returns exactly AlphaBeta of the board |
| Search.ChildBoard | main.py:105-107 | the copied child board is fresh and holds the position after the drop |
| Search.SearchChild | main.py:105-108 | the score of a child equals AlphaBeta of the position after the drop, one level down |
| Search.MaximizingNode | main.py:101-115 | the maximising loop returns exactly AlphaBeta of the node |
| Search.MinimizingNode | main.py:117-131 | the minimising loop returns exactly AlphaBeta of the node |
| GameController.MoveOutcome | main.py:196-207 | the branch drop_piece takes: the column refused when it has no open row, a win when the landed piece completes four in a row for the mover, otherwise the row it landed in; Game.DropPiece reports it, and ColumnFullIffTopTaken and WinThroughLandingCell prove its properties |
| GameController.ColumnFullIffTopTaken | main.py:196-197 | on a board obeying gravity, a move is refused exactly when the column's top cell is taken |
| GameController.FullBoardRefusesEveryColumn | main.py:196-216 | on a full board every move is refused: no draw is ever declared |
| GameController.WinThroughLandingCell | main.py:198-207 | a win reported for a player who had no run before passes through the cell the piece just landed in |
| GameController.RunThroughLandingCell | main.py:198-207 | the same for a single direction |
| GameController.CountUpdate | main.py:198 | overwriting one cell moves at most one unit of count from the old value to the new one |
| GameController.PiecesFromWithCell | main.py:198 | the same for the piece counts of the rows from r0 on |
| GameController.DropAddsOnePiece | main.py:198 | a landed piece adds one to its player's count and leaves every other player's count unchanged |
| GameController.CountAbsent | main.py:19 | a row that holds no x counts no x |
| GameController.EmptyBoardHasNoPieces | main.py:19 | the empty board holds no piece of either player |
| GameController.EmptyBoardConsistent | main.py:226-230 | a new game starts from a consistent position (gravity, no four in a row, piece counts matching the player to move), whoever moves first |
| GameController.PlacedStaysConsistent | main.py:208-210 | a non-winning move, followed by passing the turn to the other player, keeps the position consistent: gravity, no four in a row, and piece counts matching the new player to move |
| GameController.Game.constructor | main.py:19-22 | the game starts on a fresh empty board with either player to move, in a valid state |
| GameController.Game.Reset | main.py:226-230 | a fresh empty board, a new starter, and a valid state |
| GameController.Game.DropPiece | main.py:191-216 | the outcome is the turn's decision: ColumnFull leaves everything as it was, Won(p) resets to an empty board, Placed(r) drops the piece and hands the turn to the other player; the state stays valid |
| GameController.Game.Land | main.py:198-214 | after the landing row is found, the piece is written, then the game is either reset with Won or the turn passes with Placed; the state stays valid |
| GameController.Game.AiMove | main.py:219-223 | on a full board nothing happens; otherwise a valid column is played and is never refused |
| GameController.Game.AiMoveHard | main.py:185-188 | the column played is the first best column of depth-2 minimax, a valid move, and is never refused |

## Left out

- The tkinter window, canvases, chip drawing, message boxes, the difficulty dialog, and `create_board` (main.py:13-16, 201, 205-206, 216, 232-311). They are user interface and are not modelled.
- The `window.after(500, ...)` scheduling of the computer's turn (main.py:211-214, 237-242, 303-308) is event-loop timing. The two opponents are separate methods, `AiMove` and `AiMoveHard`, that a caller invokes in their place. Which one runs depends on the difficulty chosen in the dialog, which is not modelled.
- `random.choice` (main.py:22, 103, 119, 223, 230) is modelled as an arbitrary choice (`:|`). The provisional column in `minimax` is proved irrelevant, so the model fixes it to the first valid move.
- `float('inf')` (main.py:102, 118, 187) is the integer `INF = 10^12`. Every score a search can return lies within ±10^9, so `INF` behaves as infinity in every comparison the search makes.
- GameController.Game.AiMoveHard: requires a board with an open column. On a full board the script's `minimax` returns no column and `drop_piece(None)` fails, so the model excludes that case instead of modelling a crash.
- GameController.Game.DropPiece: the column is a `Column` (0-6), the only values the script's click handlers and opponents pass.
- GameController.Game.Land: a helper holding the landing branch of `drop_piece` (lines 198-214), split out to keep each proof small. The script has it inline.
- `check_for_winner`, `score_position` and the two loops of `minimax` are each split into helper methods (one per scan orientation, and `MaximizingNode`, `MinimizingNode`, `SearchChild`, `ChildBoard`). This keeps each proof small; the order of the loops and of the checks is the script's.
- Python's unbounded integers need no wrap-around modelling; Dafny's `int` is unbounded too.
