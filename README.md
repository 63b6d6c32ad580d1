# Monte Carlo tree search for tic-tac-toe, in Dafny

This project models a small Python engine that picks a move by Monte Carlo
tree search (MCTS), together with the tic-tac-toe rules it searches over.

- `game_controllers.py` is the engine.
  - `MCTSNode` keeps, for one position:
    - the parent link and the move that led to it;
    - `plays` and `score` counters;
    - the set of moves not yet expanded;
    - the ordered list of children.
  - `MCTSGameController` builds a fresh tree at the position to move from. It repeats select, expand, simulate and update, then answers with the move of the root's most played child.
- `game_states.py` holds the game interface `GameState` and the tic-tac-toe rules `TicTacToeState`:
  - the result (winner, draw or undecided);
  - the moves;
  - playing a move;
  - the text rendering.
- `ttt.py` is an earlier draft of the same rules. It reports only whether the game is over, and it lists moves only while the game is not over.

Files and modules:

- `wrappers.dfy` (`Wrappers`): an `Option` type, which stands for Python's `None`-or-value.
- `game_states.dfy` (`GameStates`):
  - A position is the value `State(board, next)`. The board is nine cells, each `Empty` or `Owned(player)`.
  - Outcomes are `Undecided | Win(p) | Draw`. The source's `None` is `Undecided`, and its draw sentinel `0.5` is `Draw`.
  - The eight lines are kept in the source's order: rows, then columns, then diagonals. The first fully owned line decides the winner.
  - The class `TicTacToeState` keeps the board in an array, as the source keeps a list that it updates in place. Its methods are proved against the value model through `Value()`.
  - The class `GameState` is the interface's default behaviour.
- `ttt.dfy` (`TttDraft`): the draft's `game_over` is shown equivalent to "the result is decided". Its classes are modelled the same way as above.
- `mcts_tree.dfy` (`MctsTree`): the search tree as an arena.
  - The nodes are a sequence. The root is at 0, a parent's index is below its child's, and `children` lists indices in ascending order.
  - `Wf` bundles the tree's shape:
    - parent and child links agree;
    - every node's position is its parent's position with the node's move played;
    - that move is no longer pending at the parent;
    - siblings have distinct moves;
    - every legal move of a node is either still pending or the move of one of its children;
    - `0 <= score <= plays` at every node.
  - `Counted` is the play accounting: the root has as many plays as its children together.
  - Every other node has exactly one play more than its children together: the playout that created it. A terminal leaf is the exception. It has no pending move and no child, so its board is full. `select` returns it again and it is simulated at every visit; it has at least one play.
  - `Expanded` and `Bumped` are `expand_move` and `update` as functions on the arena.
- `game_controllers.dfy` (`GameControllers`): the controller is a class with a `nodes` field. Its methods:
  - change that field step by step, as the source changes its node objects;
  - are proved to produce `Expanded` and `Bumped`;
  - keep `Wf` and `Counted` cycle after cycle.
  - `Simulate` plays a private copy of the position with the same class `TicTacToeState`.

Inputs that the model turns into parameters:

- Every random choice (`random.choice`) becomes "some element" (`:|`). The proofs hold for whichever element is chosen.
- The wall-clock loop of `get_next_move` becomes a parameter, `iterations >= 1`.
- `deepcopy` becomes value semantics: a node's position is an immutable value, and a playout copies it into a fresh array.

Two facts about the code that are easy to get wrong:

- The moves 4, 0, 8, 2, 6 give player 0 cells 4, 8 and 6, which form no line, so the game is undecided (`FiveMovesUndecidedVector`).
- The comment at game_controllers.py:54-55 says every node's plays equal the sum of its children's plays. In the code this holds only at the root:
  - every other node counts one more play, the playout that created it;
  - a terminal leaf counts every playout that ended at it.
  - `Counted` states the accounting the code keeps.

## Model

| member | source | states |
|---|---|---|
| GameStates.FirstWonLine | game_states.py:51-55 | the line it reports is fully owned, and no earlier line in the list is; `None` exactly when no line is owned |
| GameStates.GameResult | game_states.py:45-60 | a win exactly when some line is fully owned, and then the winner owns the first such line in list order; a draw exactly when no line is owned and the board is full; undecided exactly when no line is owned and a cell is empty |
| GameStates.Opponent | game_states.py:70 | the turn passes to the other player |
| GameStates.LineOwner | game_states.py:51-55 | a reported owner holds all three cells of the line; with no owner, some cell of the line is empty or two of its cells differ |
| GameStates.Initial | game_states.py:40-43 | nine empty cells with player 0 to move |
| GameStates.Moves | game_states.py:62-64 | exactly the cells 0 to 8 that are empty, whether or not a line is already won |
| GameStates.Play | game_states.py:66-70 | the mover's id is written in cell `m`, the turn passes to the other player, and the other eight cells are unchanged |
| GameStates.MovesAfterPlay | game_states.py:62-70 | after a move the moves are the old moves without `m`, and the player to move changes |
| GameStates.NoMovesDecided | game_states.py:57-64 | with no move left the board is full and the result is decided, a win or a draw |
| GameStates.NoMovesIffNoEmptyCells | game_states.py:62-64 | the moves are empty exactly when no cell is empty |
| GameStates.PlayFillsOneCell | game_states.py:66-70 | a move fills exactly one empty cell for the mover and leaves the opponent's count alone |
| GameStates.PlayAllSnoc | game_states.py:66-70 | a legal sequence followed by a legal move is legal and ends in the position after that move |
| GameStates.PlayAllKeepsBalance | game_states.py:66-70 | along any legal move sequence, the turn is the starting turn plus the number of moves (mod 2), empty cells fall by one per move, and the players' counts stay balanced |
| GameStates.TurnsAlternate | game_states.py:40-43 | from the empty board, after k moves player `k mod 2` is to move, player 0 owns ⌈k/2⌉ cells and player 1 owns ⌊k/2⌋ |
| GameStates.DiagonalWinVector | main.py:23-31 | the moves 4, 2, 6, 1, 0, 3, 8 from the empty board are legal and end in a win for player 0 |
| GameStates.DiagonalWinPlays | main.py:23-31 | the main.py sequence reaches the board with player 0 on 0, 4, 6 and 8, player 1 on 1, 2 and 3, and player 1 to move |
| GameStates.FiveMovesUndecidedVector | game_states.py:45-60 | the moves 4, 0, 8, 2, 6 are legal and leave the game undecided |
| GameStates.FirstLineWinsVector | game_states.py:51-64 | after player 0 completes the middle row, cell 2 is still a move; once player 1 completes the top row the result names player 1, because the top row comes first in the list |
| GameStates.RenderPrefix | game_states.py:72-81 | after n cells the text has 2n characters: each cell's glyph followed by a space, or by a newline after every third cell |
| GameStates.Glyph | game_states.py:75-78 | an empty cell shows as `.`, player 0's as `O` and player 1's as `X`, and no two kinds of cell share a glyph |
| GameStates.Separator | game_states.py:80 | a newline exactly after the last cell of a row, otherwise a space |
| GameStates.Render | game_states.py:72-81 | 18 characters: cell i's glyph (`.`, `O` or `X`) at 2i, followed by a newline after cells 2, 5 and 8 and a space after the others |
| GameStates.EmptyBoardText | game_states.py:72-81 | the empty board renders as three rows of `. . .` |
| GameStates.GetRandomMove | game_states.py:24-26 | `None` exactly when there is no move, otherwise one of the moves |
| GameStates.GameState.constructor | game_states.py:14-15 | player 0 moves first |
| GameStates.GameState.GameResult | game_states.py:17-19 | the default game is never decided |
| GameStates.GameState.GetMoves | game_states.py:21-22 | the default game has no moves |
| GameStates.TicTacToeState.constructor | game_states.py:40-43 | a new game is the empty board with player 0 to move |
| GameStates.TicTacToeState.Copy | game_controllers.py:119-120 | the copy holds the given position in a fresh board |
| GameStates.TicTacToeState.PlayMove | game_states.py:66-70 | the board, updated in place, holds the position after the move |
| GameStates.TicTacToeState.Repr | game_states.py:72-81 | the text built cell by cell is the rendering of the position |
| TttDraft.LineWonFrom | ttt.py:28-31 | true exactly when some line from position k on is fully owned by one player |
| TttDraft.GameOver | ttt.py:22-36 | true exactly when some line is fully owned by one player or every cell is filled |
| TttDraft.GameOverIffDecided | ttt.py:22-36 | the draft's `game_over` holds exactly when the final `game_result` is decided |
| TttDraft.GameState.GameOver | ttt.py:6-8 | the draft interface's game is always over |
| TttDraft.GameState.GetMoves | ttt.py:10-11 | the draft interface's game has no moves |
| TttDraft.GameState.PlayMove | ttt.py:13-14 | a move returns the receiver itself |
| TttDraft.TicTacToeState.constructor | ttt.py:18-20 | a new game is the empty board with player 0 to move |
| TttDraft.TicTacToeState.GetMoves | ttt.py:38-45 | for a game not over: moves below 9, strictly ascending, containing exactly the empty cells |
| TttDraft.TicTacToeState.PlayMove | ttt.py:47-50 | the board, updated in place, holds the position after the move |
| TttDraft.TicTacToeState.Repr | ttt.py:52-61 | the text is the rendering of the position and is 18 characters long |
| MctsTree.NewNode | game_controllers.py:42-51 | a new node stores the given position, parent and move, has no plays, no score and no children, and has every move of its position pending |
| MctsTree.GetScore | game_controllers.py:72-79 | the credit is 0, 0.5 or 1; 0.5 exactly for a draw; 0 exactly when the player to move at the node won |
| MctsTree.ScoreCreditsTheMover | game_controllers.py:72-79 | a child credits a win to the player who made the child's move, and for a decided game a parent's and a child's credits add up to 1 |
| MctsTree.ChainReachesRoot | game_controllers.py:133-137 | following parent links from any node reaches the root |
| MctsTree.Bump | game_controllers.py:135-136 | one more play and the node's credit for the outcome added to its score; every other field unchanged |
| MctsTree.Bumped | game_controllers.py:133-137 | the update changes no link, move, position or pending set, and keeps `0 <= score <= plays` |
| MctsTree.BumpedAt | game_controllers.py:133-137 | each node on the chain from `n` to the root gains one play and its credit for the outcome, and every other node is unchanged |
| MctsTree.RootBumped | game_controllers.py:133-137 | every update adds one play to the root |
| MctsTree.BumpedWf | game_controllers.py:133-137 | an update keeps the tree well formed |
| MctsTree.Expanded | game_controllers.py:62-70 | the move leaves the pending set, which strictly shrinks; one new node is appended to the arena and to the parent's children; the new node names the parent and the move and holds the parent's position with the move played; the new node is exactly a fresh node for that position, parent and move; the parent's position, move, parent link and counters are unchanged, and so is every other node |
| MctsTree.ExpandedShrinks | game_controllers.py:62-70 | an expansion only shrinks pending sets and rewrites no position |
| MctsTree.BumpedShrinks | game_controllers.py:133-137 | an update only shrinks pending sets and rewrites no position |
| MctsTree.ExpandedWf | game_controllers.py:62-70 | an expansion keeps the tree well formed and adds exactly one node |
| MctsTree.ExpandedAccounted | game_controllers.py:62-70 | after an expansion every legal move of every node is still either pending or the move of one of its children; the new node has all its moves pending |
| MctsTree.AccountedFrame | game_controllers.py:133-137 | an update keeps every legal move either pending or taken by a child, since it changes no move, pending set or child list |
| MctsTree.ChildMovesAppend | game_controllers.py:68-69 | appending a child adds exactly that child's move to the moves taken by the children |
| MctsTree.ExpandedKeepsEntry | game_controllers.py:62-70 | the links and positions of every node already in the tree stay valid after an expansion |
| MctsTree.ChildPlays | game_controllers.py:54-55 | the children's plays together are at least each child's plays |
| MctsTree.ExpandedCounted | game_controllers.py:148-151 | after an expansion the accounting holds everywhere except at the new node, which lacks exactly the play its playout will bring |
| MctsTree.BumpedCounted | game_controllers.py:148-154 | when the accounting lacks one play at `n` only, updating from `n` restores it everywhere |
| MctsTree.NodePlayed | game_controllers.py:53-58 | under the play accounting, every node other than the root has at least one play, and so does any node with a child |
| MctsTree.FreshRoot | game_controllers.py:143 | a fresh root over the empty board is a well-formed tree with sound accounting and all nine cells pending |
| MctsTree.ExpandStepsVector | main.py:33-40 | expanding 4 and then 1 at a fresh root gives it the children for 4 and for 1, in that order; both hold player 0's move on the root's unchanged position; the other seven cells stay pending |
| GameControllers.Simulate | game_controllers.py:119-131 | the playout is a legal sequence of alternating moves from the given position, one fewer empty cell per move, and it keeps every filled cell; the result is always decided; with at least one empty cell, a budget no larger than the number of empty cells gives a draw; otherwise the board is full and the result is the final position's `game_result`; at most `max(1, max_iterations)` moves are played |
| GameControllers.MostPlayedChild | game_controllers.py:158-159 | the position found holds a child with the most plays, and no earlier child has as many |
| GameControllers.MctsGameController.SelectChildUcb | game_controllers.py:53-60 | the result is a child of the node, linked back to it |
| GameControllers.MctsGameController.Select | game_controllers.py:104-111 | requires the play accounting, under which every node it descends from and every child it chooses among has been played, so the key function never divides by zero or takes the logarithm of zero; the node found has a pending move, or else it has no child and no legal move at all; every node above it has neither pending move nor empty child list; the root itself is returned when it has a pending move |
| GameControllers.MctsGameController.ExpandMove | game_controllers.py:62-70 | a pending move produces the expanded tree and the new child's index; a move not pending (the source's `KeyError`) changes nothing |
| GameControllers.MctsGameController.Expand | game_controllers.py:113-117 | some pending move of the node is expanded and the new child is returned |
| GameControllers.MctsGameController.Update | game_controllers.py:133-137 | the walk up the parent links leaves the tree `Bumped` from the node |
| GameControllers.MctsGameController.RunCycle | game_controllers.py:147-156 | the new tree is the old one expanded at the selected node (when it has a pending move) and then updated from the new child, or the old one updated from the selected node, which has no pending move; in the second case the selected node has no legal move left, so the playout makes no move and the outcome is that node's own `game_result`; in the first case the outcome is the `game_result` of a full board reached by a legal alternating playout from the new child's position; the selected node is reached only through fully expanded nodes; pending sets only shrink and positions are not rewritten; one cycle keeps the accounting, adds at most one node, adds one play to the root, keeps the root's position, and leaves the root with a child; old and new tree are related by `CycleStep` |
| GameControllers.CycleStepGrows | game_controllers.py:147-156 | a tree related to the previous one by `CycleStep` keeps the root's position, has one more root play, at most one more node, and only smaller pending sets |
| GameControllers.MctsGameController.GetNextMove | game_controllers.py:139-159 | after n cycles the root has n plays and the tree at most n + 1 nodes; the answer is the move of the first most played root child, and it is a legal move of the position; the ghost trace of trees starts at a fresh root over the position, ends at the final tree, and each tree in it is related to the one before by `CycleStep`, one step per cycle |

## Left out

- The wall clock of `get_next_move` (game_controllers.py:146-147) is replaced by a cycle count of at least one. With no cycle, line 159 calls `max` on an empty list.
- The upper-confidence formula of `select_child_ucb` (game_controllers.py:56-58) uses logarithms, square roots and float division. The model chooses some child instead, and its proofs hold for any choice. As written, the inner `ucb` has no `return`, so every key is `None` and Python 2's `max` returns the first child; that choice is one of those covered. The key function still runs on every child, so the source needs positive plays at the node and its children; the model requires them and proves that `select` only calls it on such nodes.
- Uniform randomness of `random.choice` (game_controllers.py:116, game_states.py:26) is left out. Only that the choice is a member of the set is modelled.
- `deepcopy` is value semantics. Object identity and aliasing between nodes and positions are not modelled.
- `MCTSNode.__repr__` (game_controllers.py:81-92) is left out: debug text built from the node's attribute dictionary.
- `RandomGameController` (game_controllers.py:21-30, ttt.py:73-76) is left out: a one-line wrapper around `random.choice`.
- The MCTS stubs and the driver in ttt.py (lines 63-125) are left out. Their search loop does nothing.
- main.py is left out except for its two move sequences, which are modelled as `DiagonalWinVector` and `ExpandStepsVector`. The rest of main.py is the match driver, printing and tallying.
- Python's negative list indices are left out: moves are modelled as cell numbers 0 to 8.
- GameStates.GameState.PlayMove does nothing, as the source's `pass` does. It has no contract beyond changing nothing.
