/**
 * The tree builder: every legal continuation of a board, one child per
 * empty cell in ascending index order, expanded until a win or a full board.
 */
module TreeBuilder {
  import opened Wrappers
  import opened Board

  /** One reachable position: the board, whether the side to move is the
      maximizing one (X), and one child per legal move. */
  datatype Node = Node(board: Board, isMax: bool, children: seq<Node>)

  /** The mark placed by the side to move. */
  function MarkOf(isMax: bool): (m: Cell)
    ensures m != Empty
    ensures m == X <==> isMax
  {
    if isMax then X else O
  }

  /** A board is decided when it has a winner or no empty cell left. */
  predicate IsTerminal(b: Board)
  {
    Winner(b).Some? || IsFull(b)
  }

  /** Placing a mark in an empty cell leaves one empty cell fewer. */
  lemma PlaceConsumesEmpty(b: Board, i: Index, m: Cell)
    requires b[i] == Empty && m != Empty
    ensures CountOf(b[i := m], Empty) == CountOf(b, Empty) - 1
  {
    CountAfterPlace(b, i, m, Empty);
  }

  /** The tree that building from b with the given side to move produces:
      the root is expanded whatever its board. */
  function GameTree(b: Board, isMax: bool): Node
    decreases CountOf(b, Empty), 1, 0
  {
    Node(b, isMax, ChildrenBelow(b, isMax, |b|))
  }

  /** The children made for the empty cells below k, in ascending order. */
  function ChildrenBelow(b: Board, isMax: bool, k: int): seq<Node>
    requires 0 <= k <= 9
    decreases CountOf(b, Empty), 0, k
  {
    if k == 0 then []
    else ChildrenBelow(b, isMax, k - 1) + (if b[k - 1] == Empty then [Child(b, isMax, k - 1)] else [])
  }

  /** The child for a move in empty cell i: a leaf if the move decides the
      game, otherwise the fully expanded subtree of the new board. */
  function Child(b: Board, isMax: bool, i: Index): Node
    requires b[i] == Empty
    decreases CountOf(b, Empty), 0, 0
  {
    var nb := b[i := MarkOf(isMax)];
    if IsTerminal(nb) then Node(nb, !isMax, [])
    else
      PlaceConsumesEmpty(b, i, MarkOf(isMax));
      GameTree(nb, !isMax)
  }

  /** The children of n are one per empty cell of its board, in ascending
      cell order, each the parent board with the mover's mark in that cell
      and the turn flipped. */
  ghost predicate ProperChildren(n: Node)
  {
    && |n.children| == |EmptyCells(n.board)|
    && forall j :: 0 <= j < |n.children| ==>
         && n.children[j].board == n.board[EmptyCells(n.board)[j] := MarkOf(n.isMax)]
         && n.children[j].isMax == !n.isMax
  }

  /** The invariant of a built tree: every node has proper children, and a
      child is a leaf exactly when its board is decided, in which case it is
      not expanded further. */
  ghost predicate WellBuilt(n: Node)
  {
    && ProperChildren(n)
    && forall j :: 0 <= j < |n.children| ==>
         if IsTerminal(n.children[j].board) then n.children[j].children == []
         else WellBuilt(n.children[j])
  }

  /** Consecutive nodes of p are parent and child. */
  ghost predicate IsTreePath(p: seq<Node>)
  {
    forall i :: 0 <= i < |p| - 1 ==> p[i + 1] in p[i].children
  }

  /** ChildrenBelow holds one Child per entry of EmptyCellsBelow, in order. */
  lemma {:induction false} ChildrenBelowShape(b: Board, isMax: bool, k: int)
    requires 0 <= k <= 9
    ensures |ChildrenBelow(b, isMax, k)| == |EmptyCellsBelow(b, k)|
    ensures forall j :: 0 <= j < |ChildrenBelow(b, isMax, k)| ==>
      ChildrenBelow(b, isMax, k)[j] == Child(b, isMax, EmptyCellsBelow(b, k)[j])
  {
    if k > 0 {
      ChildrenBelowShape(b, isMax, k - 1);
    }
  }

  /** The child for a move in cell i carries the new board and the flipped
      turn, and is expanded exactly when that board is not decided. */
  lemma ChildShape(b: Board, isMax: bool, i: Index)
    requires b[i] == Empty
    ensures Child(b, isMax, i).board == b[i := MarkOf(isMax)]
    ensures Child(b, isMax, i).isMax == !isMax
    ensures Child(b, isMax, i).children ==
      if IsTerminal(b[i := MarkOf(isMax)]) then [] else GameTree(b[i := MarkOf(isMax)], !isMax).children
  {
  }

  /** A built tree has one child per empty cell, each child the parent board
      with the mover's mark in that cell, the turn flipped, and, when that
      board is not decided, the subtree built from it. */
  lemma GameTreeChildren(b: Board, isMax: bool)
    ensures |GameTree(b, isMax).children| == |EmptyCells(b)| == CountOf(b, Empty)
    ensures forall j :: 0 <= j < |GameTree(b, isMax).children| ==>
      var nb := b[EmptyCells(b)[j] := MarkOf(isMax)];
      && GameTree(b, isMax).children[j].board == nb
      && GameTree(b, isMax).children[j].isMax == !isMax
      && GameTree(b, isMax).children[j].children == (if IsTerminal(nb) then [] else GameTree(nb, !isMax).children)
      && (GameTree(b, isMax).children[j].children == [] <==> IsTerminal(nb))
  {
    ChildrenBelowShape(b, isMax, |b|);
    EmptyCellsCount(b);
    var n := GameTree(b, isMax);
    forall j | 0 <= j < |n.children|
      ensures var nb := b[EmptyCells(b)[j] := MarkOf(isMax)];
        && n.children[j].board == nb
        && n.children[j].isMax == !isMax
        && n.children[j].children == (if IsTerminal(nb) then [] else GameTree(nb, !isMax).children)
        && (n.children[j].children == [] <==> IsTerminal(nb))
    {
      var nb := b[EmptyCells(b)[j] := MarkOf(isMax)];
      ChildShape(b, isMax, EmptyCells(b)[j]);
      if !IsTerminal(nb) {
        ChildrenBelowShape(nb, !isMax, |nb|);
        EmptyCellsCount(nb);
      }
    }
  }

  /** Every tree built from a board satisfies the built-tree invariant. */
  lemma {:induction false} GameTreeWellBuilt(b: Board, isMax: bool)
    ensures WellBuilt(GameTree(b, isMax))
    decreases CountOf(b, Empty)
  {
    var n := GameTree(b, isMax);
    GameTreeChildren(b, isMax);
    assert ProperChildren(n);
    forall j | 0 <= j < |n.children|
      ensures if IsTerminal(n.children[j].board) then n.children[j].children == []
              else WellBuilt(n.children[j])
    {
      var i := EmptyCells(b)[j];
      var nb := b[i := MarkOf(isMax)];
      if !IsTerminal(nb) {
        PlaceConsumesEmpty(b, i, MarkOf(isMax));
        GameTreeWellBuilt(nb, !isMax);
        assert n.children[j] == GameTree(nb, !isMax);
      }
    }
  }

  /** Below a well-built node, a child is a leaf exactly when its board is decided. */
  lemma ChildLeafIffTerminal(n: Node, c: Node)
    requires WellBuilt(n) && c in n.children
    ensures c.children == [] <==> IsTerminal(c.board)
    ensures !IsTerminal(c.board) ==> WellBuilt(c)
  {
    var j :| 0 <= j < |n.children| && n.children[j] == c;
    if !IsTerminal(c.board) {
      EmptyCellsCount(c.board);
    }
  }

  /** Along any path down from a well-built root, every node after the root
      is either a decided leaf or itself well built. */
  lemma {:induction false} PathNodesBuilt(p: seq<Node>, k: int)
    requires IsTreePath(p) && |p| > 0 && WellBuilt(p[0])
    requires 1 <= k < |p|
    ensures p[k].children == [] <==> IsTerminal(p[k].board)
    ensures !IsTerminal(p[k].board) ==> WellBuilt(p[k])
  {
    assert p[k] in p[k - 1].children;
    if k > 1 {
      PathNodesBuilt(p, k - 1);
    }
    ChildLeafIffTerminal(p[k - 1], p[k]);
  }

  /** A built tree whose root has no children was built from a full board. */
  lemma ChildlessRootIsFull(b: Board, isMax: bool)
    requires GameTree(b, isMax).children == []
    ensures IsFull(b)
  {
    GameTreeChildren(b, isMax);
  }

  /** Every leaf reached by a path down a built tree has a decided board,
      the root included. */
  lemma LeafOfBuiltTreeIsDecided(b: Board, isMax: bool, p: seq<Node>)
    requires |p| > 0 && p[0] == GameTree(b, isMax) && IsTreePath(p)
    requires p[|p| - 1].children == []
    ensures IsTerminal(p[|p| - 1].board)
  {
    if |p| == 1 {
      ChildlessRootIsFull(b, isMax);
    } else {
      GameTreeWellBuilt(b, isMax);
      PathNodesBuilt(p, |p| - 1);
    }
  }

  /** Expansion as the game runs it: a loop over the nine cells that
      appends, for each empty one, a child on a copied board, expanding it
      recursively unless its board is decided. The parent's board and turn
      are kept; what the loop adds is exactly the built children. */
  method Expand(node: Node) returns (r: Node)
    decreases CountOf(node.board, Empty)
    ensures r.board == node.board && r.isMax == node.isMax
    ensures r.children == node.children + GameTree(node.board, node.isMax).children
    ensures node.children == [] ==> r == GameTree(node.board, node.isMax) && WellBuilt(r)
  {
    var mark := MarkOf(node.isMax);
    var children := node.children;
    for i := 0 to 9
      invariant children == node.children + ChildrenBelow(node.board, node.isMax, i)
    {
      if node.board[i] == Empty {
        var newBoard := node.board[i := mark];
        var winner := CheckWinner(newBoard);
        var child := Node(newBoard, !node.isMax, []);
        if !(winner.Some? || IsFull(newBoard)) {
          PlaceConsumesEmpty(node.board, i, mark);
          child := Expand(child);
        }
        assert child == Child(node.board, node.isMax, i);
        children := children + [child];
      }
      assert ChildrenBelow(node.board, node.isMax, i + 1) ==
        ChildrenBelow(node.board, node.isMax, i) +
        (if node.board[i] == Empty then [Child(node.board, node.isMax, i)] else []);
    }
    assert GameTree(node.board, node.isMax).children == ChildrenBelow(node.board, node.isMax, 9);
    r := node.(children := children);
    if node.children == [] {
      assert children == ChildrenBelow(node.board, node.isMax, 9);
      assert r == GameTree(node.board, node.isMax);
      GameTreeWellBuilt(node.board, node.isMax);
    }
  }

  /** Builds the whole tree from a board and the side to move, which is the
      maximizing side unless the caller says otherwise. */
  method BuildTree(board: Board, isMax: bool := true) returns (root: Node)
    ensures root == GameTree(board, isMax)
    ensures root.board == board && root.isMax == isMax
    ensures WellBuilt(root)
  {
    root := Node(board, isMax, []);
    root := Expand(root);
  }

}
