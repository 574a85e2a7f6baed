/**
 * The path selector: minimax over a built tree, returning the value of a
 * node and one root-to-leaf path that achieves it. Maximizing nodes keep the
 * first child with a strictly greater value, minimizing nodes the first with
 * a strictly smaller one.
 */
module PathSelector {
  import opened Wrappers
  import opened Board
  import opened TreeBuilder

  /** A value together with the path that achieves it. */
  datatype Outcome = Outcome(value: int, path: seq<Node>)

  /** Static score of a node: +1 when X has won, -1 when O has won, 0 otherwise. */
  function EvaluateNode(n: Node): (v: int)
    ensures v == 1 <==> Winner(n.board) == Some(X)
    ensures v == -1 <==> Winner(n.board) == Some(O)
    ensures v == 0 <==> Winner(n.board).None?
  {
    var winner := Winner(n.board);
    if winner == Some(X) then 1
    else if winner == Some(O) then -1
    else 0
  }

  /** The selector stops at a node with no children or an already decided score. */
  predicate IsStop(n: Node)
  {
    n.children == [] || EvaluateNode(n) != 0
  }

  /** The starting best value of the selection loop: -2 and +2 stand for
      -Infinity and +Infinity, since every value is in -1..1. */
  function Seed(isMax: bool): int
  {
    if isMax then -2 else 2
  }

  /** A child's value replaces the best so far only if strictly better for the mover. */
  predicate Improves(isMax: bool, v: int, best: int)
  {
    if isMax then v > best else v < best
  }

  /** What the selector returns for n: its value in -1..1 and a path that
      starts at n, descends parent to child, and ends at a stopping node. */
  function Minimax(n: Node): (r: Outcome)
    decreases n, 1
    ensures -1 <= r.value <= 1
    ensures |r.path| > 0 && r.path[0] == n
  {
    if IsStop(n) then Outcome(EvaluateNode(n), [n])
    else
      var best := Select(n, |n.children|);
      Outcome(best.value, [n] + best.path)
  }

  /** The best outcome among the first k children, as the selection loop
      holds it after k iterations. */
  function Select(n: Node, k: int): (r: Outcome)
    requires 0 <= k <= |n.children|
    decreases n, 0, k
    ensures k > 0 ==> -1 <= r.value <= 1 && |r.path| > 0
  {
    if k == 0 then Outcome(Seed(n.isMax), [])
    else
      var prev := Select(n, k - 1);
      var cand := Minimax(n.children[k - 1]);
      if Improves(n.isMax, cand.value, prev.value) then cand else prev
  }

  /** Child j is the first among the first k children whose outcome the
      selection holds, and no earlier child has the same value. */
  ghost predicate HeldFirst(n: Node, k: int, j: int)
  {
    && 0 <= j < k <= |n.children|
    && Select(n, k) == Minimax(n.children[j])
    && forall i :: 0 <= i < j ==> Minimax(n.children[i]).value != Select(n, k).value
  }

  /** After k > 0 children, the selection holds the outcome of the FIRST
      child among them whose value is best for the mover, and no child seen
      so far is strictly better. */
  lemma {:induction false} SelectFirstBest(n: Node, k: int)
    requires 1 <= k <= |n.children|
    ensures exists j :: HeldFirst(n, k, j)
    ensures forall i :: 0 <= i < k ==> !Improves(n.isMax, Minimax(n.children[i]).value, Select(n, k).value)
  {
    var prev := Select(n, k - 1);
    var cand := Minimax(n.children[k - 1]);
    var best := Select(n, k);
    if k == 1 {
      assert best == cand;
      assert HeldFirst(n, k, k - 1);
    } else {
      SelectFirstBest(n, k - 1);
      var j :| HeldFirst(n, k - 1, j);
      if Improves(n.isMax, cand.value, prev.value) {
        assert best == cand;
        forall i | 0 <= i < k
          ensures !Improves(n.isMax, Minimax(n.children[i]).value, best.value)
          ensures i < k - 1 ==> Minimax(n.children[i]).value != best.value
        {
          if i < k - 1 {
            assert !Improves(n.isMax, Minimax(n.children[i]).value, prev.value);
          }
        }
        assert HeldFirst(n, k, k - 1);
      } else {
        assert best == prev;
        forall i | 0 <= i < k
          ensures !Improves(n.isMax, Minimax(n.children[i]).value, best.value)
        {
          if i < k - 1 {
            assert !Improves(n.isMax, Minimax(n.children[i]).value, prev.value);
          }
        }
        assert HeldFirst(n, k, j);
      }
    }
  }

  /** The selector's result at n is child j's value and n followed by child
      j's path, and no earlier child has that value. */
  ghost predicate ChoosesChild(n: Node, j: int)
  {
    && 0 <= j < |n.children|
    && Minimax(n).value == Minimax(n.children[j]).value
    && Minimax(n).path == [n] + Minimax(n.children[j]).path
    && forall i :: 0 <= i < j ==> Minimax(n.children[i]).value != Minimax(n).value
  }

  /** At a node that is neither a leaf nor decided, the selector's value is
      the maximum (maximizing node) or minimum (minimizing node) of its
      children's values, and its path is the node followed by the path of
      the first child that attains that value. */
  lemma MinimaxChoosesFirstBestChild(n: Node)
    requires !IsStop(n)
    ensures exists j :: ChoosesChild(n, j)
    ensures forall i :: 0 <= i < |n.children| ==>
      if n.isMax then Minimax(n.children[i]).value <= Minimax(n).value
      else Minimax(n.children[i]).value >= Minimax(n).value
  {
    var k := |n.children|;
    SelectFirstBest(n, k);
    var j :| HeldFirst(n, k, j);
    assert ChoosesChild(n, j);
  }

  /** Prefixing a tree path with a parent of its first node gives a tree path. */
  lemma ConsTreePath(n: Node, p: seq<Node>)
    requires |p| > 0 && p[0] in n.children && IsTreePath(p)
    ensures IsTreePath([n] + p)
  {
    var q := [n] + p;
    forall i | 0 <= i < |q| - 1
      ensures q[i + 1] in q[i].children
    {
      if i > 0 {
        assert q[i] == p[i - 1] && q[i + 1] == p[i];
      }
    }
  }

  /** The selected path descends from parent to child at every step and
      ends at a node where the selector stops: a leaf or a decided board. */
  lemma {:induction false} MinimaxPathWellFormed(n: Node)
    decreases n
    ensures IsTreePath(Minimax(n).path)
    ensures IsStop(Minimax(n).path[|Minimax(n).path| - 1])
  {
    if !IsStop(n) {
      var k := |n.children|;
      SelectFirstBest(n, k);
      var j :| HeldFirst(n, k, j);
      var c := n.children[j];
      MinimaxPathWellFormed(c);
      ConsTreePath(n, Minimax(c).path);
      assert Minimax(n).path == [n] + Minimax(c).path;
    }
  }

  /** Textbook minimax value, independent of paths and tie-breaking. */
  function Value(n: Node): int
    decreases n, 1
  {
    if IsStop(n) then EvaluateNode(n) else Extremum(n, |n.children|)
  }

  /** Maximum (maximizing node) or minimum (minimizing node) of the values of
      the first k children. */
  function Extremum(n: Node, k: int): int
    requires 1 <= k <= |n.children|
    decreases n, 0, k
  {
    var v := Value(n.children[k - 1]);
    if k == 1 then v
    else if n.isMax then Max(Extremum(n, k - 1), v)
    else Min(Extremum(n, k - 1), v)
  }

  function Max(a: int, b: int): int { if a >= b then a else b }
  function Min(a: int, b: int): int { if a <= b then a else b }

  /** The selector's value is the minimax value of the node. */
  lemma {:induction false} MinimaxIsValue(n: Node)
    decreases n, 1
    ensures Minimax(n).value == Value(n)
  {
    if !IsStop(n) {
      SelectIsExtremum(n, |n.children|);
    }
  }

  lemma {:induction false} SelectIsExtremum(n: Node, k: int)
    requires 1 <= k <= |n.children|
    decreases n, 0, k
    ensures Select(n, k).value == Extremum(n, k)
  {
    MinimaxIsValue(n.children[k - 1]);
    if k > 1 {
      SelectIsExtremum(n, k - 1);
    }
  }

  /** On a tree built from any board, the selected path ends at a decided
      board: a win or a full board. */
  lemma BestPathEndsDecided(root: Node)
    requires root == GameTree(root.board, root.isMax)
    ensures IsTerminal(Minimax(root).path[|Minimax(root).path| - 1].board)
  {
    MinimaxPathWellFormed(root);
    var p := Minimax(root).path;
    if EvaluateNode(p[|p| - 1]) == 0 {
      LeafOfBuiltTreeIsDecided(root.board, root.isMax, p);
    }
  }

  /** The selector as the game runs it: recursion over the children with a
      loop that keeps the best value and path seen so far. */
  method FindBestWinningPath(node: Node) returns (value: int, path: seq<Node>)
    decreases node
    ensures Outcome(value, path) == Minimax(node)
    ensures -1 <= value <= 1 && value == Value(node)
    ensures |path| > 0 && path[0] == node && IsTreePath(path)
  {
    MinimaxIsValue(node);
    MinimaxPathWellFormed(node);
    var evalValue := EvaluateNode(node);
    if |node.children| == 0 || evalValue != 0 {
      return evalValue, [node];
    }
    var bestValue := Seed(node.isMax);
    var bestPath: seq<Node> := [];
    for i := 0 to |node.children|
      invariant Outcome(bestValue, bestPath) == Select(node, i)
    {
      var childValue, childPath := FindBestWinningPath(node.children[i]);
      if node.isMax {
        if childValue > bestValue {
          bestValue, bestPath := childValue, childPath;
        }
      } else {
        if childValue < bestValue {
          bestValue, bestPath := childValue, childPath;
        }
      }
    }
    return bestValue, [node] + bestPath;
  }

  /** The sequence of positions the game displays: the selected path. */
  method FindBestWinningSequence(root: Node) returns (path: seq<Node>)
    ensures path == Minimax(root).path
    ensures |path| > 0 && path[0] == root && IsTreePath(path)
    ensures IsStop(path[|path| - 1])
  {
    var _, p := FindBestWinningPath(root);
    path := p;
    MinimaxPathWellFormed(root);
  }

}
