# Othello rules, minimax and MCTS — a Dafny model

The repository ReconGit/py-othello-ai has three near-copies of one Othello
program:
- `src/core` is the canonical copy;
- `core` is an older copy;
- `src_numba/core_numba` is an array-based copy written for Numba.

Each copy has three parts:
- a rules engine (`othello.py`);
- an alpha-beta minimax player with a positional evaluation (`minimax.py`);
- a Monte Carlo tree search player (`mcts.py`).

This project models all three parts of all three copies as pure Dafny functions and proves what the code promises about them.

## How the model is organised

- `board.dfy` (`Board`): the board and its cells.
  - The 8x8 board is one row-major sequence of 64 cells; cell (x, y) is element `y * 8 + x`.
  - Cells are `Empty`, `Black`, `White` and `Valid`. `Valid` marks an empty cell that is a legal move for the side to move.
  - The module also holds the eight compass directions, painting cells and counting them, and the two scan orders used when listing moves: by column then row, or by row then column.
- `capture.dfy` (`Capture`): the capture scan along one ray (`_flipped_cells_in_direction`) and over all eight rays (`_flipped_cells`).
- `rules.dfy` (`Rules`): the canonical engine.
  - `make_move` with its two refusals.
  - The recount of the scores.
  - The re-marking pass `_update_valid_cells`.
  - The phase machine: full board or wiped-out side, turn switch, single pass, double pass.
  - `get_valid_moves`.
- `opening.dfy` (`Opening`): the starting position of `Othello.__init__` / `init_game`.
- `legacy.dfy` (`Legacy`): the older engine. It differs from the canonical one only in its `get_valid_moves`, which has no phase guard.
- `numba.dfy` (`NumbaRules`): the array engine.
  - Its one-pass `elif` re-marking.
  - Moves listed row by row.
  - Incrementally kept scores.
  - `make_move_reversible` and `undo_move`.
  - The loops of `get_flipped_cells` and `len_flipped_cells`.
- `eval.dfy` (`Evaluation`): the evaluation and the search bookkeeping.
  - The `REWARDS` table and `_evaluate_board`.
  - The terminal sentinels: `sys.maxsize`, 300, and infinity.
  - The round index and the depth schedule.
  - A value type with the two infinities.
- `trees.dfy` (`Trees`): minimax and alpha-beta over an explicit game tree with integer values. The module also models the root loops: the pruning root of `src/core` and Numba, and the separate root loop of `core/minimax.py`.
- `search.dfy` (`Search`): the tree each copy's `_minimax` explores from a game, and the results of the search.
  - The children are the positions after each listed move, in the engine's listing order.
  - The results are the score and the move, the root move, and `minimax_move`.
- `mcts.dfy` (`Mcts`): the search tree as an immutable datatype.
  - One iteration is selection, expansion, playout and backpropagation. The whole search runs one iteration per random draw.
  - It is generic over an `Engine` record (listing, acceptance, playing, and whether a refused move raises), instantiated for each copy.

Randomness and the floating-point UCT score are parameters:
- Every random draw is an oracle natural, used modulo the length of the list drawn from.
- The UCT score is an arbitrary integer function of (wins, visits, parent visits).
- Selection takes its first maximum, as the strict `>` of `select_child` does.

An exception (`ValueError`, `IndexError`, `TypeError`) or a loop that never ends is an explicit result: `Rejected`, `Crashed`, `Failed` or `Aborted`.

## Model

| member | source | states |
|---|---|---|
| Board.CountPartition | src/core/othello.py:57-59 | Every cell is black, white, empty or marked, so the four counts always sum to 64. |
| Board.SameDiscsCounts | src/core/othello.py:94-100 | Two boards with the same discs have the same black count, white count and number of blank cells, so re-marking never changes a score. |
| Board.Paint | src/core/othello.py:46-48 | Painting a list of cells gives exactly those cells the new colour and leaves every other cell as it was. |
| Board.ValidCells | src/core/othello.py:55 | The listed cells are exactly the cells marked `Valid`, each once, in strictly increasing scan order. |
| Board.ValidCellsEmptyIff | src/core/othello.py:74 | The listing is empty exactly when no cell is marked. |
| Board.RankedEqual | src_numba/core_numba/othello.py:82-87 | Two lists holding the same cells, each in strictly increasing scan order, are equal. A listing is therefore fixed by the marked cells and the order. |
| Board.ShiftInjective | src/core/othello.py:107 | The eight rays from a cell never meet: step k in one direction equals step m in another only for the same direction and distance. |
| Board.DirectionsAreDirs | src/core/othello.py:107 | The eight direction pairs are distinct unit steps. |
| Capture.ScanRay | src/core/othello.py:113-116 | The loop along a ray returns either nothing or a run that is bracketed, with the k-th returned cell at step k of the ray. |
| Capture.FlippedInDirection | src/core/othello.py:111-119 | A ray captures nothing, or an unbroken run of opponent discs closed on the board by a mover disc, listed outward from the played cell. |
| Capture.RayCapturesIffBracketed | src/core/othello.py:111-119 | A ray captures exactly n cells if and only if its first n steps hold opponent discs and step n+1 holds a mover disc on the board. |
| Capture.BracketsUnique | src/core/othello.py:114-117 | Along one ray at most one run length is bracketed. |
| Capture.Flipped | src/core/othello.py:102-109 | Every cell the eight rays capture is on the board and holds an opponent disc. |
| Capture.FlippedDistinct | src/core/othello.py:102-109 | No cell is captured twice and the played cell is never captured. |
| Capture.FlippedNonEmptyIff | src/core/othello.py:99 | A cell captures something exactly when some direction brackets a run of opponent discs. |
| Capture.FlippedFrame | src/core/othello.py:46-47 | The captures depend only on the discs away from the played cell. Scanning after the disc is placed, as the code does, therefore finds what a scan before it finds. |
| Rules.ByScore | src/core/othello.py:63-68 | The final phase is a Black win exactly when Black has more discs, a White win exactly when it has fewer, and a draw exactly when the counts are equal. |
| Rules.MarkFrom | src/core/othello.py:95-100 | The marking loop leaves earlier cells alone. Every later cell gets the mark computed on the entry board, because clearing a mark never changes a capture. |
| Rules.MarkValid | src/core/othello.py:94-100 | Re-marking keeps every disc, and afterwards exactly the legal cells of the given side are marked. |
| Rules.IsFullIff | src/core/othello.py:87-92 | The board is full exactly when no cell is empty or marked. |
| Rules.ValidMoves | src/core/othello.py:51-55 | Once the game is over nothing is listed. Otherwise exactly the marked cells are listed, by column then by row. |
| Rules.ListedIffLegal | src/core/othello.py:74 | On a freshly marked board the side has a listed move if and only if it has a legal move. |
| Rules.UpdateStateWellFormed | src/core/othello.py:57-85 | `_update_state` keeps the discs and leaves a well-formed game. The scores are the disc counts, and a side to move has exactly its legal cells marked, at least one of them. |
| Rules.UpdateState | src/core/othello.py:57-85 | `_update_state` recounts both scores from the board. A full board or a side left without discs ends the game on the board as it is. A side is left to move only when it has a listed move, and a finished game is decided by score. |
| Rules.SwitchTurn | src/core/othello.py:71-85 | When the game goes on, the turn ends with one of the two sides only if that side has a listed move; otherwise the scores decide. The scores passed in are kept. |
| Rules.PassBack | src/core/othello.py:74-85 | After a pass, the side handed the turn back moves only if it has a listed move; otherwise the scores decide. |
| Rules.PhaseResolution | src/core/othello.py:61-85 | After a move, a full board or a wiped-out side is decided by score. Otherwise the other side moves if it has a legal move, else the same side moves again if it can. Else the game is decided by score. |
| Rules.Place | src/core/othello.py:44-48 | After placing, the played cell and every captured cell hold the mover's colour, and every other cell is unchanged. |
| Rules.MakeMove | src/core/othello.py:37-49 | A move is refused as game-over exactly when the game is over. It is refused as an invalid position exactly when the cell is not marked. Otherwise the placed board goes to `_update_state`. |
| Rules.PlaceCounts | src/core/othello.py:44-49 | A legal move gives the mover 1 + n discs, costs the opponent n, and fills exactly one blank cell, where n is the number captured. |
| Rules.MarkedIsLegal | src/core/othello.py:94-100 | In a well-formed running game a cell is marked exactly when it is legal for the side to move. |
| Rules.MoveAccounting | src/core/othello.py:44-59 | In a well-formed game an accepted move captures at least one disc, raises the mover's score by 1 + n and lowers the opponent's by n. It also fills exactly one blank cell, the measure that makes every game end. |
| Rules.ScoresPartition | src/core/othello.py:58-59 | In a well-formed game black + white + blank cells = 64. |
| Rules.MakeMoveWellFormed | src/core/othello.py:37-85 | Every accepted move leaves a well-formed game. |
| Rules.MakeMoveAcceptsLegal | src/core/othello.py:41-42 | In a well-formed running game a move is accepted if and only if it is legal. |
| Rules.ValidMovesAreLegal | src/core/othello.py:51-55 | In a well-formed game a cell is listed if and only if a side is to move and the cell is legal for it. |
| Opening.StartAt | src/core/othello.py:22-35 | The starting board has White on (3,3) and (4,4), Black on (4,3) and (3,4), and marks on exactly the four opening cells. |
| Opening.StartLegal | src/core/othello.py:31-34 | On the starting board Black's legal cells are exactly the four marked ones. |
| Opening.StartCounts | src/core/othello.py:24-25 | The starting board has 2 black discs, 2 white discs, 4 marked cells and 56 empty cells, so the initial scores 2/2 are the disc counts. |
| Opening.StartWellFormed | src/core/othello.py:22-35 | The starting game is well-formed. |
| Opening.StartMoves | src/core/othello.py:51-55 | The canonical engine lists the opening moves as (2,3), (3,2), (4,5), (5,4). |
| Legacy.ValidMoves | core/othello.py:51-52 | The older listing returns the marked cells by column then by row, whatever the phase. |
| Legacy.AgreesWhileTurn | core/othello.py:51-52 | While a side is to move, the older listing equals the canonical one. |
| Legacy.StaleAfterWipeout | core/othello.py:61-74 | A move that leaves a side without discs ends the game on the board as placed. Every other cell that was marked for the mover is still listed by the older engine, while the canonical engine lists nothing. |
| Legacy.StaleMovesAfterWipeout | core/othello.py:66-74 | In the constructed wipe-out game, which has three discs and is not reached from the opening, Black's move (2,2) is accepted and wins. The older listing still lists (1,2), while the canonical listing is empty. |
| NumbaRules.MarkValidElif | src_numba/core_numba/othello.py:142-156 | The one-pass re-marking keeps every disc. A cell ends marked exactly when it was empty on entry and is legal, so every mark is legal. |
| NumbaRules.ElifDropsLegalCell | src_numba/core_numba/othello.py:151-155 | A cell that is marked on entry and legal for White is left unmarked by the `elif` pass. The canonical pass marks it. |
| NumbaRules.ValidMoves | src_numba/core_numba/othello.py:73-88 | Once the game is over nothing is listed. Otherwise exactly the marked cells are listed, by row then by column. |
| NumbaRules.SameMovesOtherOrder | src_numba/core_numba/othello.py:82-87 | The array listing holds the same cells as the canonical one. |
| NumbaRules.StartMovesByRow | src_numba/core_numba/othello.py:20-32 | The array engine lists the opening moves as (3,2), (2,3), (5,4), (4,5). |
| NumbaRules.UpdateStateReady | src_numba/core_numba/othello.py:91-128 | `update_state` keeps the discs and the scores it is given. A side to move has only legal marks, at least one of them. |
| NumbaRules.UpdateState | src_numba/core_numba/othello.py:91-128 | `update_state` keeps the scores it is given. A full board or a zero score ends the game on the board as it is. A side is left to move only when it has a listed move, and a finished game is decided by score. |
| NumbaRules.MakeMove | src_numba/core_numba/othello.py:35-70 | The success flag is 0 exactly when the game is over or the cell is not marked, and then the game comes back unchanged. |
| NumbaRules.MakeMoveWellFormed | src_numba/core_numba/othello.py:56-67 | After every accepted move the incrementally kept scores equal a recount of the board, and the engine's invariant is kept. |
| NumbaRules.MoveFlipsAndFills | src_numba/core_numba/othello.py:53-59 | An accepted move captures at least one disc and fills exactly one blank cell. |
| NumbaRules.StartWellFormedHere | src_numba/core_numba/othello.py:20-32 | `init_game` satisfies the array engine's invariant. |
| NumbaRules.MakeMoveReversible | src_numba/core_numba/othello.py:225-257 | The reversible move leaves the same game as `make_move`. |
| NumbaRules.ReversibleEmptyIffRejected | src_numba/core_numba/othello.py:236-237 | In a well-formed game the returned flipped list is empty exactly when the move is refused. |
| NumbaRules.UndoMove | src_numba/core_numba/othello.py:260-278 | Undo empties the played cell, gives every flipped cell back to the opponent, and leaves every other cell as it was. |
| NumbaRules.UndoRestoresDiscs | src_numba/core_numba/othello.py:225-278 | A reversible move followed by its undo restores every disc of the original board and leaves the played cell empty. |
| NumbaRules.GetFlippedCells | src_numba/core_numba/othello.py:159-178 | The collecting loop returns exactly the canonical list of captured cells. |
| NumbaRules.LenFlippedCells | src_numba/core_numba/othello.py:181-195 | The counting loop returns the number of captured cells, which is zero exactly when nothing is captured. |
| Evaluation.TotalWeight | src/core/minimax.py:59-68 | The absolute weights of `REWARDS` sum to 1100. |
| Evaluation.Heuristic | src/core/minimax.py:71-88 | The weighted disc sum of `_evaluate_board`. Its properties are stated by `Evaluation.HeuristicBounded`, `Evaluation.HeuristicAntisymmetric` and `Evaluation.EvaluateBoard`. |
| Evaluation.HeuristicAntisymmetric | src/core/minimax.py:81-88 | The weighted disc sum from Black's view is the negation of the sum from White's view. |
| Evaluation.HeuristicBounded | src/core/minimax.py:81-88 | The weighted disc sum lies within -1100..1100. |
| Evaluation.EvaluateBoard | core/minimax.py:65-84 | The nested loop computes the weighted disc sum, which lies within -1100..1100. |
| Evaluation.Evaluate | src/core/minimax.py:71-88 | A draw scores 0. A win for `my_turn` scores the copy's win value and a loss scores its negation. A running game scores within -1100..1100. |
| Evaluation.EvaluateAntisymmetric | src_numba/core_numba/minimax.py:111-128 | In every copy a leaf scored for Black is the negation of the same leaf scored for White. |
| Evaluation.EvaluateBounded | core/minimax.py:41-45 | Every leaf value lies between minus and plus the copy's largest value. |
| Evaluation.LevelOrder | src_numba/core_numba/minimax.py:78 | Mapping the infinities to plus or minus (`sys.maxsize` + 1) keeps the order and the negation of every value no larger in size than `sys.maxsize`. |
| Evaluation.CornersOutrankWin | core/minimax.py:41-45 | A board holding only the four corners scores 320 by the heuristic, above the 300 of a proven win. |
| Evaluation.StartRound | src/core/minimax.py:91-98 | The starting position is round 1. |
| Evaluation.Round | src/core/minimax.py:91-98 | The round counts the discs from -3, so it lies between -3 and 61. |
| Evaluation.RoundAdvances | src/core/minimax.py:13-15 | Every accepted move advances the round by one. With `Evaluation.StartRound`, the random opening pick covers exactly the first two moves of a game. |
| Evaluation.SearchDepth | src/core/minimax.py:18-23 | The round bonus adds between 0 and 10 plies. |
| Evaluation.DepthMonotone | core/minimax.py:16-18 | A later round never searches less deeply. |
| Trees.Search | src/core/minimax.py:34-52 | The index of the move an inner node returns is one of its children. |
| Trees.SearchSound | src/core/minimax.py:28-56 | Alpha-beta is sound in every window: a result below beta is at least the minimax value, and a result above alpha is at most it. |
| Trees.ScanMaxSound | src/core/minimax.py:38-54 | The loop at a maximizing node keeps that soundness, for the update through `best_value` and for the update through the child's value. |
| Trees.ScanMinSound | core/minimax.py:49-60 | The loop at a minimizing node keeps that soundness, for both bound updates. |
| Trees.ProperBounds | src_numba/core_numba/minimax.py:59-108 | When every leaf and start value lies in a range, so do the minimax value and every alpha-beta result. |
| Trees.FullWindowExact | src/core/minimax.py:25 | In a window holding every leaf value, alpha-beta returns exactly the minimax value. |
| Trees.RootChoice | src/core/minimax.py:43-46 | At a pruning root the returned child has the root's minimax value, and every earlier child is strictly worse: the first best move is kept. |
| Trees.CoreRootStuck | core/minimax.py:24-32 | A root loop whose `best_value` starts above every child value never moves off its first index. |
| Trees.CoreRootPicks | core/minimax.py:25-33 | With `best_value` below every child value, the root loop returns the first child reaching the stop value if there is one, and otherwise the first child of best value. |
| Search.ListedPlay | src/core/minimax.py:38-41 | Every listed move of a running game is accepted, keeps the engine's invariant, and fills one blank cell. |
| Search.GameTree | src/core/minimax.py:28-56 | The positions `_minimax` explores: a leaf at depth 0 or once the game is over, else one subtree per listed move. Its properties are stated by `Search.SubtreePlays`, `Search.RunningIsNode` and `Search.GameTreeProper`. |
| Search.Children | src/core/minimax.py:38-41 | The loop explores one subtree per listed move. |
| Search.Subtree | src/core/minimax.py:39-41 | The subtree of a listed move is searched one level shallower. `Search.SubtreePlays` shows it is the tree of the position after that move. |
| Search.TurnHasMoves | src/core/minimax.py:34-35 | A side to move always has a listed move, so `moves[0]` exists. |
| Search.SubtreePlays | src/core/minimax.py:38-41 | In a well-formed game the subtree of a listed move is the tree of the position that move leads to. |
| Search.RunningIsNode | src_numba/core_numba/minimax.py:73-75 | A running well-formed game with depth left is an inner node with one child per listed move, so `if not moves` never fires. |
| Search.GameTreeProper | core/minimax.py:41-45 | Every leaf and start value of the explored tree lies within the copy's bound. |
| Search.AlphaBetaMove | src/core/minimax.py:34-52 | `_minimax` returns one of the listed moves, or (-1, -1) at a leaf. |
| Search.AlphaBetaSound | core/minimax.py:38-62 | The score `_minimax` returns is sound with respect to plain minimax over the same positions, in every window. |
| Search.AlphaBetaExact | src_numba/core_numba/minimax.py:55 | Called with a window holding every leaf value, as each copy calls it, `_minimax` returns exactly the plain minimax score. |
| Search.RootMove | src/core/minimax.py:25 | The root search returns a listed move, or (-1, -1). |
| Search.RootMoveListed | src/core/minimax.py:34-35 | With a side to move and depth left, the returned move is the listed move at the returned index. |
| Search.RootMoveIsFirstBest | src/core/minimax.py:43-52 | The returned move's position has the best minimax score for the side to move, and every move listed before it scores strictly less. |
| Search.CoreRootAsWritten | core/minimax.py:22-35 | The root loop of `core/minimax.py`, with `best_value` starting at 10000 for White, returns the index of a listed move. |
| Search.CoreWhiteTakesFirst | core/minimax.py:24 | As written, White's root loop always returns the first listed move. |
| Search.CoreBlackUnchanged | core/minimax.py:24 | For Black, the root loop as written and the corrected one agree. |
| Search.CoreRoot | core/minimax.py:22-35 | The corrected root loop, with `best_value` starting at -10000 for either side, returns the index of a listed move. |
| Search.CoreRootPicks | core/minimax.py:30-33 | The corrected root returns the first move whose position scores at least 300 if there is one, and otherwise the first move of best score. |
| Search.ChooseMove | src/core/minimax.py:7-25 | `minimax_move` is defined where it does not raise. With nothing listed the result is (-1, -1). With one listed move the result is that move. With two or more, the result is a listed move, except in the canonical and array copies from round 3 on when the depth raised for the round is 0: `_minimax` stops at once and the result is (-1, -1). The older copy runs its corrected root loop. |
| Search.ChooseMoveListed | src/core/minimax.py:7-25 | In a well-formed game with a side to move and a positive depth, every copy returns one of the listed moves. |
| Search.ChooseMoveFirstBest | src/core/minimax.py:13-25 | From round 3 on with two or more listed moves, the canonical and array copies return the first listed move whose position scores the root's minimax value, at the depth raised for the round. |
| Search.ChooseMoveCore | core/minimax.py:12-35 | From round 3 on with a side to move and two or more listed moves, the older copy with its root loop corrected (Findings row core/minimax.py:24) returns a move that either reaches 300 or scores best among all listed moves, at the depth raised for the round. |
| Mcts.WinIncrement | src_numba/core_numba/mcts.py:130-137 | A draw adds 0. For a finished result, the increment is +1 exactly when the winner is the side that made the node's move, and -1 exactly when the other side won. |
| Mcts.IncrementsCancel | src/core/mcts.py:42-47 | A finished result credits Black's nodes exactly what it debits White's nodes. |
| Mcts.FirstMax | core/mcts.py:39-40 | `max` with a key returns an index of a maximal element, and every earlier element is strictly smaller. |
| Mcts.FindMostVisited | src_numba/core_numba/mcts.py:140-149 | The scanning loop returns the first index of the maximal visit count. |
| Mcts.MostVisited | src/core/mcts.py:77-78 | `get_most_visited` returns a child of maximal visits, with every earlier child visited strictly less. |
| Mcts.SelectChild | src/core/mcts.py:65-75 | `select_child` returns a child of maximal UCT score, with every earlier child scoring strictly less. |
| Mcts.Remove | core/mcts.py:22 | `list.remove` takes out the first occurrence of the move and keeps the rest in order, or leaves the list alone when the move is absent. |
| Mcts.Visit | src/core/mcts.py:40-48 | Backpropagation adds one visit and the node's win increment, and changes nothing else. |
| Mcts.Backup | src/core/mcts.py:40-48 | The way back through a node replaces only the child it came from, adds one visit and the node's win increment, and changes nothing else. |
| Mcts.Expand | core/mcts.py:20-24 | `add_and_get_child` removes the first occurrence of the move from the unexplored list, keeping the rest in order, and appends one child for it. The child carries the given side and moves, has no children, and already has its first visit. |
| Mcts.PassRefused | src_numba/core_numba/mcts.py:113-119 | In the array copy the pass move (0, 0) of a side with nothing listed is refused and leaves the position unchanged, so the pass branch would loop forever. |
| Mcts.EngineStep | src/core/mcts.py:33-36 | In a well-formed running game something is listed. Every listed move is accepted, keeps the invariant, and fills one blank cell. |
| Mcts.PlayoutEnds | core/mcts.py:62-66 | From a well-formed game the random playout always ends, whatever the draws, in a finished phase. |
| Mcts.Playout | src/core/mcts.py:32-36 | A finished game is its own result. In the list-based copies a playout that ends, ends in a finished phase. `Mcts.PlayoutEnds` shows the playout of a well-formed game always ends. |
| Mcts.Descend | src/core/mcts.py:13-48 | An iteration keeps the node's move and side, adds exactly one visit, and never loses a child. |
| Mcts.Select | src/core/mcts.py:17-19 | A selection step keeps the node's move and side, adds one visit, and keeps the number of children. |
| Mcts.Grow | src/core/mcts.py:21-48 | Expansion and playout keep the node's move and side, add one visit, and never lose a child. |
| Mcts.Run | src/core/mcts.py:12 | After the loop the root has one more visit per iteration and has lost no child. |
| Mcts.CountedSelectable | src/core/mcts.py:65-71 | In a counted tree every node with children has visits of at least 1 and every child has visits of at least 1, so `log` and the divisions are defined. |
| Mcts.ExpandCounted | core/mcts.py:20-24 | Expanding a counted node and crediting the playout keeps the counter invariants. |
| Mcts.DescendCounted | src/core/mcts.py:38-48 | An iteration keeps the counter invariants at every node: at least -visits and at most visits wins, child visits summing to at most the node's visits, and every child visited. |
| Mcts.ChildListed | src/core/mcts.py:10 | In a consistent tree every child's move is listed at its parent's position. |
| Mcts.ExpandConsistent | core/mcts.py:20-24 | Expansion keeps the child moves together with the unexplored moves equal, as a multiset, to the listed moves. The new child is consistent with the position after its move. |
| Mcts.DescendConsistent | src/core/mcts.py:22-30 | An iteration keeps every node's child moves and unexplored moves a partition of its position's listed moves. |
| Mcts.RunKeeps | src/core/mcts.py:12-48 | The whole search keeps both the counter invariants and the move partition. |
| Mcts.RootKeeps | src/core/mcts.py:10 | The root a search starts from satisfies both invariants. |
| Mcts.ListedOnlyInTurn | src/core/othello.py:53-54 | The canonical and array engines list nothing once the game is over. |
| Mcts.FinishedNodeIsLeaf | src/core/mcts.py:22-28 | With those engines a node at a finished position has no unexplored moves and no children. |
| Mcts.ReplayAccepted | src_numba/core_numba/mcts.py:32-38 | Replaying a child's move on the copy is always accepted, so the array copy's `break` never fires. |
| Mcts.ExpansionAccepted | src/core/mcts.py:22-25 | Playing an unexplored move on the copy is always accepted. |
| Mcts.GrowChangesOnlyOnSuccess | src_numba/core_numba/mcts.py:41-54 | The tree changes only when the expanded move is accepted. Then exactly that move leaves the unexplored list and one child for it is appended. A refused move leaves both lists as they were. |
| Mcts.GrowSafe | src/core/mcts.py:21-36 | On a well-formed game, expansion and playout never raise, and an unexplored move always becomes a new child. |
| Mcts.DescendSafe | src/core/mcts.py:13-48 | An iteration over a tree that keeps both invariants never raises in the canonical or array copy. |
| Mcts.RunSafe | src_numba/core_numba/mcts.py:23-63 | The whole search never raises in the canonical or array copy. |
| Mcts.MctsMoveLegal | src/core/mcts.py:8-50 | With a side to move and at least one iteration, `mcts_move` returns a move, and it is one of the listed moves. |
| Mcts.MctsMove | src/core/mcts.py:8-50 | In every copy, whatever the UCT score and the draws, a move `mcts_move` returns is one of the listed moves. |
| Mcts.CoreStaleNodeCrashes | core/mcts.py:56-60 | In the older copy, with the call at line 59 passing two coordinates, an iteration reaching a node at a finished position with an unexplored move raises, because `make_move` refuses a finished game. |
| Mcts.CoreWipeoutLeavesStaleChild | core/othello.py:66-74 | Such a node arises. In the constructed wipe-out game the listed move (2,2) is accepted and ends the game, yet the older engine still lists a move, which becomes the new child's unexplored list. The canonical engine lists nothing there. |
| Mcts.CoreAsCalledRaises | core/mcts.py:59 | As written, the older copy's search of a running game raises in its first iteration, because `make_move(move)` lacks the `y` argument. |
| Mcts.CoreFirstIterationExpands | core/mcts.py:56-60 | When the move is passed as two coordinates, the first iteration of a running game expands one listed move. |

## Left out

- The user interface and the drivers are not modelled: `core/ui.py`, `src_numba/core_numba/ui.py`, the `main.py` files, the benchmarks, `test.py` and the debug printing of `src_numba/core_numba/othello.py`. They do input and output, timing and game tallies.
- Randomness is an oracle:
  - `random.randint` and `np.random.randint` become oracle naturals taken modulo the length of the list. This covers the expansion pick, each playout step and the early-round minimax pick.
  - No distribution is modelled.
- The UCT score is an arbitrary integer function of (wins, visits, parent visits).
  - `Selectable` only records when the source's `log` and divisions are defined.
  - An iteration that reaches a node without that is `Crashed`.
- Floating point:
  - The Numba engine's float64 rewards are integer sums, exact in float64, and are modelled as integers.
  - Its infinities are the `Value` constructors `NegInf` and `PosInf`.
  - Inside `Trees` they are plus or minus (`sys.maxsize` + 1); `LevelOrder` shows this keeps the order.
- `sys.maxsize` is taken as 2^63 - 1, the 64-bit value.
- `copy.deepcopy` and `board.copy()` become value semantics. Numba's `make_move` writes into the array it is given, but every caller passes a fresh copy, so the write cannot be observed.
- The MCTS tree keeps no parent links. Backpropagation from the leaf to the root is the return path of the recursive iteration.
- Moves off the board are refused as an invalid position. The source's negative indices would wrap around in Python or read outside the array in Numba; no caller passes such a move.
- Search.GameTree is total in two places that never arise. It ends a branch at a leaf when nothing is listed or when a move fills no cell. `Search.SubtreePlays`, `Search.RunningIsNode` and `Search.TurnHasMoves` show neither happens for a well-formed game.
- Mcts.Playout treats a move that fills no cell as never ending. `Mcts.PlayoutEnds` shows this does not happen for a well-formed game.
- Mcts.Playout ends the array copy's playout in the current phase after a refused move. `Mcts.EngineStep` shows no listed move is refused.
- Search.ChooseMove is not defined where `minimax_move` raises, and the exception is not modelled. With nothing listed:
  - the older copy always raises, through `randint(0, -1)` before round 3 or `moves[0]` at `core/minimax.py:23`;
  - the canonical copy raises through `randint(0, -1)` before round 3. From round 3 on its search returns (-1, -1) once the game is over or no depth remains, and otherwise raises at `moves[0]` (`src/core/minimax.py:35`);
  - the array copy returns (-1, -1) at once.
- Search.ChooseMove also excludes a finished game from round 3 on in which the older copy's unguarded listing still offers two or more stale marks (`Legacy.StaleAfterWipeout`). Its root loop plays the first of them at `core/minimax.py:27`, and `make_move` raises `ValueError` at `core/othello.py:39-40`.
- Search.ChooseMove runs the older copy with its root loop corrected (`Search.CoreRoot`). As written, White's `best_value` starts at 10000 and White always gets the first listed move from round 3 on (`Search.CoreWhiteTakesFirst`; Findings row core/minimax.py:24).
- Search.ChooseMoveCore states the corrected root's choice. It is not what the older copy as written returns for White.
- Mcts.MctsMove runs the older copy with `make_move` given two coordinates. As written, the older copy's search raises `TypeError` in its first expansion (`Mcts.CoreAsCalledRaises`; Findings row core/mcts.py:59).
- Mcts.MctsMoveLegal is stated for the canonical and array copies only. The older copy's search raises; see Findings.
- Search.RootMoveIsFirstBest is stated for the pruning root of the canonical and array copies. The older copy's separate root loop is covered by `Search.CoreRootPicks`.
- The array copy (`Numba`) keeps the one-pass `elif` re-marking as written. Everything proved about its engine, search and MCTS holds with marks that are legal but possibly incomplete.

## Findings

| source | as written | input that shows it | evidently intended | confidence | as-written member | corrected member |
|---|---|---|---|---|---|---|
| core/othello.py:51-52 | `get_valid_moves` lists marked cells even after the game is over. `_update_state` returns before re-marking when a side is wiped out, so the mover's other marks stay. | Any accepted move that takes the opponent's last disc while another cell is marked for the mover. A constructed instance, not reached from the opening: Black on (0,0) and (1,0), White on (1,1), marks on (1,2) and (2,2), Black to move. Black plays (2,2), captures (1,1) and wins, and (1,2) is still listed. | An empty list once the game is over, as `src/core/othello.py:53-54` gives | not executed | Legacy.StaleAfterWipeout | Rules.ValidMoves |
| src_numba/core_numba/othello.py:151-155 | The `elif` clears a cell that was marked on entry and never re-checks it for the new side. | The board of `NumbaRules.ElifDropsLegalCell`: cell (0,0) marked on entry and legal for White. The `elif` pass leaves it empty. | Every legal empty cell marked, as in `src/core/othello.py:97-100` | not executed | NumbaRules.ElifDropsLegalCell | Rules.MarkValid |
| core/minimax.py:24 | The root's `best_value` starts at 10000 for White. Every score lies within -1100..1100, so no move ever beats it. | Any position from round 3 on with White to move and two or more listed moves: the first listed move is played. | `best_value` starting at -10000 for either side, because the scores are always from the mover's view | not executed | Search.CoreWhiteTakesFirst | Search.CoreRootPicks |
| core/mcts.py:56-60 | Expansion calls `make_move` without checking the phase. A finished child whose stale list of moves is non-empty raises `ValueError` when it is expanded. As written, the `TypeError` of the next row fires first, so this is reached only with the call at line 59 fixed, which is the engine the model gives the older copy. | The wipe-out game above: the child after (2,2) is finished yet lists (1,2). | A finished node with nothing to expand, as the guarded listing gives. The corrected member states this for the canonical and array engines, whose listings are guarded; it is not stated for the older copy, whose listing stays unguarded | not executed | Mcts.CoreStaleNodeCrashes | Mcts.DescendSafe |
| core/mcts.py:59 | `make_move(move)` passes one tuple, but `core/othello.py:37` takes `x` and `y`, so every call raises `TypeError`. The same call appears at lines 53 and 66. | Any running game and one iteration: the first expansion raises. | `make_move(move[0], move[1])`, as `core/minimax.py:27` calls it | not executed | Mcts.CoreAsCalledRaises | Mcts.CoreFirstIterationExpands |

The corrected definitions are the ones the rest of the model builds on:
- the canonical listing and marking pass serve the canonical engine;
- `Search.ChooseMove` uses the corrected root loop for the older copy;
- the older copy's MCTS engine passes the move as two coordinates.

The older copy keeps its unguarded listing, so the stale-node crash stays visible. The array copy keeps its `elif` pass, as noted under Left out.
