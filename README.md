# Tic-tac-toe game-tree engine, modelled in Dafny

This project models the game-tree engine of a browser tic-tac-toe game that
has two human players. After every move that leaves the game running, the
game rebuilds the complete tree of continuations from the current board. A
move that ends the game keeps the previous tree. On request the game
displays one root-to-leaf path of the kept tree, chosen by minimax. The model covers these parts:

- **Board** (`board.dfy`, module `Board`):
  - cells `Empty | X | O` on a nine-cell row-major board;
  - the winner scan over the eight lines, in the order rows, columns,
    diagonals (`CheckWinner`, proved against the function `Winner`);
  - the full-board test;
  - counting and listing the empty cells.
- **Tree builder** (`tree.dfy`, module `TreeBuilder`):
  - the `Node` value (board, whose turn, children);
  - the specification function `GameTree` (with `ChildrenBelow` and `Child`), which
    says what building produces;
  - the imperative `Expand` loop over the nine cells and `BuildTree`, both
    proved equal to `GameTree`;
  - the built-tree invariant `WellBuilt`.
- **Path selector** (`selector.dfy`, module `PathSelector`):
  - `EvaluateNode`;
  - the specification functions `Minimax` and `Select`, which give the value and path
    the selector returns with its first-wins tie-break;
  - the recursive `FindBestWinningPath` with its selection loop, proved
    equal to `Minimax`;
  - `FindBestWinningSequence`;
  - a tie-break-free reference minimax value `Value`.
- **Game session** (`game.dfy`, module `Game`):
  - the move rule of the click handler as the pure transition `Click` on a
    `State`, with its invariant `Inv`;
  - the reset button as `Reset`;
  - the class `Session`, whose fields are the game's four globals and whose
    methods perform these steps in place;
  - showing the best sequence.

`wrappers.dfy` holds `Option`, which stands in for JavaScript's `null`.

Two behaviours of the game a reader might not expect:

- The reset button does not discard the tree built before it. Showing the
  tree after a reset therefore displays the old tree, and `Reset` keeps it.
- Building from a decided board still expands the root. The game never does
  this, but `GameTree`, `Expand` and `BuildTree` have no precondition and
  give the root its children.

## Model

| member | source | states |
|---|---|---|
| Board.LineWon | src/script.js:27-28 | Line k is won when its first cell is marked and its three cells hold the same mark. |
| Board.WinnerFrom | src/script.js:26-32 | The scan loop from line k on: the mark of the first won line at k or later, or None. A reported mark is never the empty cell. |
| Board.WinnerFromSpec | src/script.js:26-32 | The scan from line k returns nothing exactly when no line from k on is won. Otherwise it returns the mark of the first won line. |
| Board.WinnerSpec | src/script.js:19-33 | The winner is None exactly when none of the eight lines holds three equal non-empty marks. Otherwise it is the mark of the first such line in scan order. |
| Board.Winner | src/script.js:19-33 | A reported winner is never the empty cell. |
| Board.CheckWinner | src/script.js:19-33 | The early-return loop over the eight lines returns exactly `Winner(b)`. |
| Board.LoneLineWins | src/script.js:20-29 | With one line filled with a mark and every other cell empty, exactly that line is won, and the winner is that mark. |
| Board.IsFull | src/script.js:35 | Full holds exactly when no cell is empty, and exactly when the count of empty cells is zero. |
| Board.CountZeroIffAbsent | src/script.js:35 | A mark's count is zero exactly when the mark does not occur. |
| Board.CountAfterPlace | src/script.js:42-43 | Writing a mark into a cell changes a count by the old cell's removal and the new mark's addition. |
| Board.EmptyCellsBelow | src/script.js:40-41 | The empty cells below n, strictly ascending. Every entry is empty and every empty cell below n is listed. |
| Board.EmptyCellsCount | src/script.js:40-41 | There is one listed empty cell per empty cell. The list is empty exactly when the board is full. |
| TreeBuilder.MarkOf | src/script.js:38 | The maximizing side places X and the other places O. Never the empty mark. |
| TreeBuilder.IsTerminal | src/script.js:45-46 | A board is decided when it has a winner or is full. |
| TreeBuilder.PlaceConsumesEmpty | src/script.js:41-43 | A move into an empty cell leaves one empty cell fewer, which is the measure that makes expansion terminate. |
| TreeBuilder.GameTree | src/script.js:37-40 | The tree that building produces from a board and turn: that board and turn at the root, with the children made by the loop over all nine cells. The root is expanded whatever its board. |
| TreeBuilder.ChildrenBelow | src/script.js:40-57 | The children the loop has appended after visiting cells 0..k-1: one child per empty cell among them, in cell order. |
| TreeBuilder.Child | src/script.js:41-55 | The child for a move into empty cell i: a copy of the board with the mover's mark at i and the turn flipped. It is a leaf if that board is decided; otherwise it is expanded into the tree of that board. |
| TreeBuilder.ChildrenBelowShape | src/script.js:40-56 | The children made below cell k are, in order, one per empty cell below k. |
| TreeBuilder.ChildShape | src/script.js:42-55 | A child for cell i has the parent board with the mover's mark at i and the turn flipped. It has children exactly as the tree built from its board, unless that board is decided, in which case it is a leaf. |
| TreeBuilder.GameTreeChildren | src/script.js:37-58 | A built node has exactly one child per empty cell, in ascending cell order. Child j's board is the parent's with the mover's mark at the j-th empty cell, and its turn is flipped. If that board is decided the child has no children. Otherwise its children are those of the tree built from that board, and there is at least one. So a child is a leaf exactly when its board is decided. |
| TreeBuilder.GameTreeWellBuilt | src/script.js:37-58 | Every built tree satisfies the built-tree invariant at every level. |
| TreeBuilder.ChildLeafIffTerminal | src/script.js:45-55 | Below a built node, a child has no children exactly when its board has a winner or is full. |
| TreeBuilder.PathNodesBuilt | src/script.js:45-55 | Along any path down a built tree, every node after the root is a leaf exactly when its board is decided. |
| TreeBuilder.ChildlessRootIsFull | src/script.js:60-63 | A built root with no children comes from a full board. |
| TreeBuilder.LeafOfBuiltTreeIsDecided | src/script.js:45-62 | The last node of a path down a built tree, if it is a leaf, has a decided board. |
| TreeBuilder.Expand | src/script.js:37-58 | The node keeps its board and turn, and the loop appends exactly the built children. Expanding a childless node yields `GameTree` of its board, which is well built. |
| TreeBuilder.BuildTree | src/script.js:60-64 | The root is `GameTree(board, isMax)`, with that board and turn, and is well built. |
| PathSelector.EvaluateNode | src/script.js:66-71 | The score is 1 exactly when X has won, -1 exactly when O has won, and 0 exactly when nobody has. |
| PathSelector.IsStop | src/script.js:76 | The selector stops at a node with no children or a non-zero score. |
| PathSelector.Seed | src/script.js:80 | The starting best value: -2 for a maximizing node and +2 for a minimizing one. They stand in for -Infinity and +Infinity, since every value is in -1..1. |
| PathSelector.Improves | src/script.js:87-97 | A child's value replaces the best so far only when it is strictly greater (maximizing) or strictly smaller (minimizing). |
| PathSelector.Minimax | src/script.js:73-101 | The selected value lies in -1..1, and the path is non-empty and starts at the node. |
| PathSelector.Select | src/script.js:80-98 | After at least one child, the held value lies in -1..1, so the infinite seed has been replaced. The held path is non-empty. |
| PathSelector.SelectFirstBest | src/script.js:83-98 | After k children the loop holds the outcome of the first child whose value is best for the mover, and no child seen so far is strictly better. |
| PathSelector.MinimaxChoosesFirstBestChild | src/script.js:80-100 | At an undecided node with children, the value is the maximum (maximizing) or minimum (minimizing) of the children's values. The path is the node followed by the path of the earliest child that attains it. |
| PathSelector.ConsTreePath | src/script.js:100 | Putting a parent in front of a path that starts at one of its children gives a path. |
| PathSelector.MinimaxPathWellFormed | src/script.js:76-77 | Consecutive nodes of the selected path are parent and child. The last node has no children or a non-zero score. |
| PathSelector.MinimaxIsValue | src/script.js:73-101 | The selector's value equals the tie-break-free minimax value. |
| PathSelector.SelectIsExtremum | src/script.js:83-98 | The value held after k children is their maximum or minimum value. |
| PathSelector.BestPathEndsDecided | src/script.js:73-106 | On a built tree, the selected path ends at a board with a winner or a full board. |
| PathSelector.FindBestWinningPath | src/script.js:73-101 | The recursive loop returns exactly `Minimax(node)`. Its value is the minimax value in -1..1, and its path is a non-empty path down the tree from the node. |
| PathSelector.FindBestWinningSequence | src/script.js:103-106 | Returns the selected path: non-empty, starting at the root, descending parent to child and ending where the selector stops. |
| Game.Accepts | src/script.js:127-132 | A click is accepted when the game is not over, the cell is empty and the board has no winner. |
| Game.Click | src/script.js:127-151 | The effect of a click on the state. A rejected click changes nothing. An accepted click writes the current player's mark into the cell. If that decides the board, the game ends and the player is kept. Otherwise the turn passes and the tree is rebuilt from the new board for the new player. |
| Game.Opponent | src/script.js:149 | The turn passes to the other player. |
| Game.Reset | src/script.js:166-176 | After a reset the board is undecided, X is to move and the game runs. |
| Game.EmptyBoardUndecided | src/script.js:7 | The empty board has no winner, is not full and holds no marks. |
| Game.MoveKeepsBalance | src/script.js:134-149 | A move keeps X's count equal to O's or one above it, whether the mover keeps the turn (game over) or passes it. |
| Game.InitialSatisfiesInv | src/script.js:6-9 | The page-load state `Initial` (empty board, X to move, game running, no tree) satisfies the session invariant. |
| Game.ClickKeepsInv | src/script.js:126-152 | Every click keeps the invariant. The game is over exactly when the board is decided, the marks alternate, and a kept tree is the tree built from its own board. |
| Game.ResetKeepsInv | src/script.js:166-176 | A reset keeps the invariant. |
| Game.RunningGameHasNoWinner | src/script.js:127-132 | While the game runs the board has no winner, so a click is accepted exactly when its cell is empty. |
| Game.ClickMarksOneCell | src/script.js:132-134 | A click changes no cell but the clicked one. An accepted click puts the current player's mark there and a rejected one leaves it. |
| Game.ClickSwitchesOnlyIfUndecided | src/script.js:127-151 | The player changes exactly when the click is accepted and leaves the board undecided. After game over a click changes nothing. The game-over flag is set exactly when the board is decided. |
| Game.Session.constructor | src/script.js:6-9 | A new session is the page-load state (empty board, X to move, running, no tree) and satisfies the invariant. |
| Game.Session.HandleClick | src/script.js:126-152 | Performs the click in place: the fields become `Click` of their old values, and the invariant is kept. |
| Game.Session.ResetGame | src/script.js:166-176 | Performs the reset in place: the fields become `Reset` of their old values, and the invariant is kept. |
| Game.Session.BestSequence | src/script.js:183-188 | Shows nothing without a tree. Otherwise it shows the selected path of the kept tree, which ends at a decided board. |

## Left out

- DOM access, rendering (`createBoardHTML`, `printTree`, `renderTree`), cell text and CSS classes, the alerts and the event wiring. They hold no logic beyond what the model states. `Session.BestSequence` returns the sequence that would be rendered.
- `showTree` is not part of this model. It calls `findRandomWinningSequence`, which is never defined. Only the second show-tree listener, which calls `findBestWinningSequence`, is modelled.
- The `depth` argument of `buildTree` has no effect and is not modelled. The default `isMaximizingPlayer = true` is kept as the default `isMax := true` of `BuildTree`. The game's only call passes the flag explicitly.
- The cell index arrives in the click handler as a string attribute. The model takes it as an `Index` in 0..8, the only values the page gives it.
- Nodes are values. `expand` pushes into `node.children` in place, and the model returns the expanded node instead. Aliasing between nodes is not modelled.
- Game.Session.HandleClick: the tree root keeps a reference to the game's board array, so a later click also writes its mark into the kept root's board. The model gives the root its own copy of the board, so a tree kept after a deciding move still shows the board it was built from. What the user sees differs after a winning click. In the game, the kept root's board then holds the winning line, so the selector stops at the root and the show-tree button displays only that one board. `Session.BestSequence` instead returns the minimax path of the tree as it was built before the move.
- No theorem pins down the value or path of the tree built from a specific board, such as the empty board. Those trees hold up to several hundred thousand nodes, which the verifier cannot unfold.
- Time and memory of building the full tree are not modelled.
