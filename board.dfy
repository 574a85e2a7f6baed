/**
 * The 3x3 board and the predicates over it: the winner scan over the eight
 * lines, the full-board test and the list of empty cells.
 */
module Board {
  import opened Wrappers

  /** A cell holds no mark (`null` in the game), an X or an O. */
  datatype Cell = Empty | X | O

  /** A cell index, row-major: 0 1 2 / 3 4 5 / 6 7 8. */
  type Index = i: int | 0 <= i < 9

  /** A board is exactly nine cells. */
  type Board = b: seq<Cell> | |b| == 9
    witness [Empty, Empty, Empty, Empty, Empty, Empty, Empty, Empty, Empty]

  const EmptyBoard: Board := [Empty, Empty, Empty, Empty, Empty, Empty, Empty, Empty, Empty]

  /** The eight winning triples in the order they are scanned:
      the three rows, the three columns, then the two diagonals. */
  const Lines: seq<(Index, Index, Index)> :=
    [(0, 1, 2), (3, 4, 5), (6, 7, 8),
     (0, 3, 6), (1, 4, 7), (2, 5, 8),
     (0, 4, 8), (2, 4, 6)]

  /** Line k is won: its three cells hold the same mark, and that mark is not Empty. */
  predicate LineWon(b: Board, k: int)
    requires 0 <= k < |Lines|
  {
    var (p, q, r) := Lines[k];
    b[p] != Empty && b[p] == b[q] && b[p] == b[r]
  }

  /** The mark of the first won line at position k or later, if any. */
  function WinnerFrom(b: Board, k: int): (w: Option<Cell>)
    requires 0 <= k <= |Lines|
    decreases |Lines| - k
    ensures w.Some? ==> w.value != Empty
  {
    if k == |Lines| then None
    else if LineWon(b, k) then Some(b[Lines[k].0])
    else WinnerFrom(b, k + 1)
  }

  /** Line j is the first won line at position k or later. */
  ghost predicate FirstWonFrom(b: Board, k: int, j: int)
  {
    && 0 <= k <= j < |Lines|
    && LineWon(b, j)
    && forall i :: k <= i < j ==> !LineWon(b, i)
  }

  /** WinnerFrom finds nothing exactly when no line from k on is won, and
      otherwise returns the mark of the first won line. */
  lemma {:induction false} WinnerFromSpec(b: Board, k: int)
    requires 0 <= k <= |Lines|
    decreases |Lines| - k
    ensures WinnerFrom(b, k).None? <==> forall j :: k <= j < |Lines| ==> !LineWon(b, j)
    ensures WinnerFrom(b, k).Some? ==>
      exists j :: FirstWonFrom(b, k, j) && WinnerFrom(b, k).value == b[Lines[j].0]
  {
    if k < |Lines| {
      if LineWon(b, k) {
        assert FirstWonFrom(b, k, k);
      } else {
        WinnerFromSpec(b, k + 1);
        if WinnerFrom(b, k + 1).Some? {
          var j :| FirstWonFrom(b, k + 1, j) && WinnerFrom(b, k + 1).value == b[Lines[j].0];
          assert FirstWonFrom(b, k, j);
        }
      }
    }
  }

  /**
   * The winner of a board: the mark of the FIRST won line in scan order
   * (on a malformed board holding lines of both marks, the earlier line
   * decides), or None.
   */
  function Winner(b: Board): (w: Option<Cell>)
    ensures w.Some? ==> w.value != Empty
  {
    WinnerFrom(b, 0)
  }

  /** Winner reports None exactly when no line is won; otherwise it reports
      the mark of the first won line. */
  lemma WinnerSpec(b: Board)
    ensures Winner(b).None? <==> forall j :: 0 <= j < |Lines| ==> !LineWon(b, j)
    ensures Winner(b).Some? ==>
      exists j :: FirstWonFrom(b, 0, j) && Winner(b).value == b[Lines[j].0]
  {
    WinnerFromSpec(b, 0);
  }

  /** The board holding m on the three cells of line k and nothing else. */
  function LineBoard(k: int, m: Cell): Board
    requires 0 <= k < |Lines|
  {
    var (p, q, r) := Lines[k];
    EmptyBoard[p := m][q := m][r := m]
  }

  /** Filling a single line with one mark makes that line, and no other, won,
      and the winner is that mark. */
  lemma LoneLineWins(k: int, m: Cell)
    requires 0 <= k < |Lines| && m != Empty
    ensures forall j :: 0 <= j < |Lines| ==> (LineWon(LineBoard(k, m), j) <==> j == k)
    ensures Winner(LineBoard(k, m)) == Some(m)
  {
    var b := LineBoard(k, m);
    forall j | 0 <= j < |Lines|
      ensures LineWon(b, j) <==> j == k
    {
      var (p, q, r) := Lines[j];
      assert b[p] != Empty && b[q] != Empty && b[r] != Empty <==> j == k;
    }
    WinnerSpec(b);
  }

  /** The winner scan as the game runs it: a loop over the lines that
      returns at the first won one. */
  method CheckWinner(b: Board) returns (w: Option<Cell>)
    ensures w == Winner(b)
  {
    WinnerSpec(b);
    for k := 0 to |Lines|
      invariant forall j :: 0 <= j < k ==> !LineWon(b, j)
    {
      var (p, q, r) := Lines[k];
      if b[p] != Empty && b[p] == b[q] && b[p] == b[r] {
        assert FirstWonFrom(b, 0, k);
        return Some(b[p]);
      }
    }
    return None;
  }

  /** Number of cells of s that hold c. */
  function CountOf(s: seq<Cell>, c: Cell): (n: nat)
    ensures n <= |s|
  {
    if s == [] then 0
    else
      assert s == s[..|s| - 1] + [s[|s| - 1]];
      CountOf(s[..|s| - 1], c) + (if s[|s| - 1] == c then 1 else 0)
  }

  /** The count is zero exactly when c does not occur. */
  lemma {:induction false} CountZeroIffAbsent(s: seq<Cell>, c: Cell)
    ensures CountOf(s, c) == 0 <==> c !in s
  {
    if s != [] {
      var last := |s| - 1;
      assert s == s[..last] + [s[last]];
      CountZeroIffAbsent(s[..last], c);
    }
  }

  /** Writing m at i removes one c if s[i] was c and adds one if m is c. */
  lemma {:induction false} CountAfterPlace(s: seq<Cell>, i: int, m: Cell, c: Cell)
    requires 0 <= i < |s|
    ensures CountOf(s[i := m], c) ==
      CountOf(s, c) - (if s[i] == c then 1 else 0) + (if m == c then 1 else 0)
  {
    var t := s[i := m];
    var last := |s| - 1;
    assert CountOf(t, c) == CountOf(t[..last], c) + (if t[last] == c then 1 else 0);
    assert CountOf(s, c) == CountOf(s[..last], c) + (if s[last] == c then 1 else 0);
    if i == last {
      assert t[..last] == s[..last];
    } else {
      assert t[..last] == s[..last][i := m];
      CountAfterPlace(s[..last], i, m, c);
    }
  }

  /** Every cell is marked. */
  function IsFull(b: Board): (full: bool)
    ensures full <==> forall i :: 0 <= i < 9 ==> b[i] != Empty
    ensures full <==> CountOf(b, Empty) == 0
  {
    CountZeroIffAbsent(b, Empty);
    Empty !in b
  }

  /** Indices below n whose cell is Empty, in ascending order. */
  function EmptyCellsBelow(b: Board, n: int): (cells: seq<Index>)
    requires 0 <= n <= 9
    ensures forall j :: 0 <= j < |cells| ==> cells[j] < n && b[cells[j]] == Empty
    ensures forall i, j :: 0 <= i < j < |cells| ==> cells[i] < cells[j]
    ensures forall i :: 0 <= i < n && b[i] == Empty ==> i in cells
  {
    if n == 0 then []
    else EmptyCellsBelow(b, n - 1) + (if b[n - 1] == Empty then [n - 1] else [])
  }

  /** All empty cells of b, in ascending index order. */
  function EmptyCells(b: Board): seq<Index>
  {
    EmptyCellsBelow(b, |b|)
  }

  /** The empty-cell list has one entry per Empty cell. */
  lemma {:induction false} EmptyCellsBelowCount(b: Board, n: int)
    requires 0 <= n <= 9
    ensures |EmptyCellsBelow(b, n)| == CountOf(b[..n], Empty)
  {
    if n > 0 {
      EmptyCellsBelowCount(b, n - 1);
      CountPrefix(b, n, Empty);
    }
  }

  /** Extending a prefix by one cell adds one to the count exactly when that cell holds c. */
  lemma CountPrefix(s: seq<Cell>, n: int, c: Cell)
    requires 1 <= n <= |s|
    ensures CountOf(s[..n], c) == CountOf(s[..n - 1], c) + (if s[n - 1] == c then 1 else 0)
  {
    var t := s[..n];
    assert t[..n - 1] == s[..n - 1];
  }

  lemma EmptyCellsCount(b: Board)
    ensures |EmptyCells(b)| == CountOf(b, Empty)
    ensures EmptyCells(b) == [] <==> IsFull(b)
  {
    EmptyCellsBelowCount(b, |b|);
    assert b[..|b|] == b;
  }

}
