/**
 * The game session: the board being played, the player to move, whether the
 * game is over, and the tree built after the last accepted move. Rendering,
 * alerts and event wiring are not part of this model.
 */
module Game {
  import opened Wrappers
  import opened Board
  import opened TreeBuilder
  import opened PathSelector

  /** The other player, as the turn switch computes it. */
  function Opponent(p: Cell): (q: Cell)
    ensures q != Empty
    ensures p != Empty ==> q != p
  {
    if p == X then O else X
  }

  /** X moves first and the players alternate, so X has as many marks as O
      or one more. While the game runs, X has one more exactly when O is to
      move; once it is over, exactly when X made the last move (the player is
      not switched after a deciding move). */
  ghost predicate MarksBalanced(b: Board, current: Cell, over: bool)
  {
    CountOf(b, X) == CountOf(b, O) + (if (current == X) == over then 1 else 0)
  }

  /** n is the tree built from its own root board and turn. */
  ghost predicate IsBuilt(n: Node)
  {
    n == GameTree(n.board, n.isMax)
  }

  /** The session's state: the board being played, the player to move, the
      game-over flag and the tree built after the last accepted move. */
  datatype State = State(board: Board, current: Cell, over: bool, tree: Option<Node>)

  /** The state invariant: a player is to move, the game is over exactly
      when the board is decided, the marks alternate, and a kept tree is the
      full tree of its own root board. */
  ghost predicate Inv(s: State)
  {
    && s.current != Empty
    && (s.over <==> IsTerminal(s.board))
    && MarksBalanced(s.board, s.current, s.over)
    && (s.tree.Some? ==> IsBuilt(s.tree.value))
  }

  /** The state a page load starts in. */
  const Initial: State := State(EmptyBoard, X, false, None)

  /** A click is accepted when the game runs, the cell is empty and the
      board has no winner yet. */
  predicate Accepts(s: State, index: Index)
  {
    !s.over && s.board[index] == Empty && Winner(s.board).None?
  }

  /** The effect of a click on cell index. A rejected click changes nothing.
      An accepted one marks the cell for the current player; if that decides
      the board the game ends with the player kept, otherwise the turn passes
      and the tree is rebuilt from the new board for the new player. */
  function Click(s: State, index: Index): State
  {
    if !Accepts(s, index) then s
    else
      var b := s.board[index := s.current];
      if IsTerminal(b) then State(b, s.current, true, s.tree)
      else
        var next := Opponent(s.current);
        State(b, next, false, Some(GameTree(b, next == X)))
  }

  /** The effect of the reset button: empty board, X to move, game running;
      the tree built before is kept. */
  function Reset(s: State): (t: State)
    ensures !IsTerminal(t.board) && t.current == X && !t.over
  {
    EmptyBoardUndecided();
    State(EmptyBoard, X, false, s.tree)
  }

  /** The empty board is undecided and holds no marks. */
  lemma EmptyBoardUndecided()
    ensures !IsTerminal(EmptyBoard)
    ensures CountOf(EmptyBoard, X) == 0 && CountOf(EmptyBoard, O) == 0
  {
    assert EmptyBoard[0] == Empty;
    CountZeroIffAbsent(EmptyBoard, X);
    CountZeroIffAbsent(EmptyBoard, O);
  }

  /** A move by p into an empty cell of a running game keeps the marks
      balanced, whether it ends the game (p stays) or not (turn passes). */
  lemma MoveKeepsBalance(b: Board, i: Index, p: Cell)
    requires b[i] == Empty && p != Empty
    requires MarksBalanced(b, p, false)
    ensures MarksBalanced(b[i := p], p, true)
    ensures MarksBalanced(b[i := p], Opponent(p), false)
  {
    CountAfterPlace(b, i, p, X);
    CountAfterPlace(b, i, p, O);
  }

  lemma InitialSatisfiesInv()
    ensures Inv(Initial)
  {
    EmptyBoardUndecided();
  }

  /** Every click keeps the invariant. */
  lemma ClickKeepsInv(s: State, index: Index)
    requires Inv(s)
    ensures Inv(Click(s, index))
  {
    if Accepts(s, index) {
      MoveKeepsBalance(s.board, index, s.current);
      var b := s.board[index := s.current];
      if !IsTerminal(b) {
        var next := Opponent(s.current);
        assert IsBuilt(GameTree(b, next == X));
      }
    }
  }

  /** Reset keeps the invariant. */
  lemma ResetKeepsInv(s: State)
    requires Inv(s)
    ensures Inv(Reset(s))
  {
    EmptyBoardUndecided();
  }

  /** Under the invariant, a running game has no winner, so the winner test
      in the click guard never rejects a click the game-over flag lets through. */
  lemma RunningGameHasNoWinner(s: State)
    requires Inv(s) && !s.over
    ensures Winner(s.board).None?
    ensures forall index: Index :: Accepts(s, index) <==> s.board[index] == Empty
  {
  }

  /** A click changes at most the clicked cell, and an accepted click puts
      exactly the current player's mark there. */
  lemma ClickMarksOneCell(s: State, index: Index)
    ensures forall j :: 0 <= j < 9 && j != index ==> Click(s, index).board[j] == s.board[j]
    ensures Click(s, index).board[index] == if Accepts(s, index) then s.current else s.board[index]
  {
  }

  /** The player switches exactly when the click is accepted and the new
      board is undecided; once the game is over every click is ignored. */
  lemma ClickSwitchesOnlyIfUndecided(s: State, index: Index)
    requires Inv(s)
    ensures Click(s, index).current != s.current <==>
      Accepts(s, index) && !IsTerminal(Click(s, index).board)
    ensures s.over ==> Click(s, index) == s
    ensures Click(s, index).over <==> IsTerminal(Click(s, index).board)
  {
    ClickKeepsInv(s, index);
  }

  class Session {
    var board: Board
    var currentPlayer: Cell
    var gameOver: bool
    var treeRoot: Option<Node>

    /** The session's fields as a state value. */
    function Current(): State
      reads this
    {
      State(board, currentPlayer, gameOver, treeRoot)
    }

    ghost predicate Valid()
      reads this
    {
      Inv(Current())
    }

    /** A new session: empty board, X to move, game running, no tree. */
    constructor ()
      ensures Valid() && Current() == Initial
    {
      board := EmptyBoard;
      currentPlayer := X;
      gameOver := false;
      treeRoot := None;
      InitialSatisfiesInv();
    }

    /** A click on cell index, performed on the fields in place. */
    method HandleClick(index: Index)
      requires Valid()
      modifies this
      ensures Current() == Click(old(Current()), index)
      ensures Valid()
    {
      ghost var s := Current();
      ClickKeepsInv(s, index);
      if gameOver {
        return;
      }
      var before := CheckWinner(board);
      if board[index] != Empty || before.Some? {
        return;
      }
      assert Accepts(s, index);
      board := board[index := currentPlayer];
      var winner := CheckWinner(board);
      if winner.Some? {
        gameOver := true;
        return;
      } else if IsFull(board) {
        gameOver := true;
        return;
      }
      currentPlayer := Opponent(currentPlayer);
      var root := BuildTree(board, currentPlayer == X);
      treeRoot := Some(root);
    }

    /** The reset button, performed on the fields in place. */
    method ResetGame()
      requires Valid()
      modifies this
      ensures Current() == Reset(old(Current()))
      ensures Valid()
    {
      ResetKeepsInv(Current());
      board := EmptyBoard;
      currentPlayer := X;
      gameOver := false;
    }

    /** The sequence shown on request: nothing without a tree, otherwise the
        selected path of the kept tree, which ends at a decided board. */
    method BestSequence() returns (shown: Option<seq<Node>>)
      requires Valid()
      ensures shown.None? <==> treeRoot.None?
      ensures shown.Some? ==> shown.value == Minimax(treeRoot.value).path
      ensures shown.Some? ==> |shown.value| > 0 && IsTerminal(shown.value[|shown.value| - 1].board)
    {
      if treeRoot.None? {
        return None;
      }
      var root := treeRoot.value;
      assert IsBuilt(root);
      BestPathEndsDecided(root);
      var path := FindBestWinningSequence(root);
      return Some(path);
    }
  }

}
