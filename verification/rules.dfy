/** The rules of the 3x3 game: cells, board snapshots, the eight winning
    lines and winner detection (`calculateWinner`). */
module Rules {

  /** One square. `Empty` is the app's `null`; `X` and `O` are the marks. */
  datatype Cell = Empty | X | O

  /** A position on the board, row-major: rows 0-2, 3-5, 6-8. */
  type Index = i: int | 0 <= i < 9

  const EmptyBoard: seq<Cell> := [Empty, Empty, Empty, Empty, Empty, Empty, Empty, Empty, Empty]

  /** A board snapshot: exactly nine cells. */
  type Board = b: seq<Cell> | |b| == 9 witness EmptyBoard

  /** A winning line, given by three board positions. */
  datatype Line = Line(a: Index, b: Index, c: Index)

  /** The eight lines in the order they are checked:
      rows top to bottom, columns left to right, then the two diagonals. */
  const Lines: seq<Line> := [
    Line(0, 1, 2), Line(3, 4, 5), Line(6, 7, 8),
    Line(0, 3, 6), Line(1, 4, 7), Line(2, 5, 8),
    Line(0, 4, 8), Line(2, 4, 6)
  ]

  /** The mark placed by the player to move: X when `xIsNext`, O otherwise. */
  function Mark(xIsNext: bool): (m: Cell)
    ensures m != Empty
    ensures m == X <==> xIsNext
  {
    if xIsNext then X else O
  }

  /** Line `l` holds three equal, non-empty cells. */
  predicate Completes(b: Board, l: Line) {
    b[l.a] != Empty && b[l.a] == b[l.b] && b[l.a] == b[l.c]
  }

  /** Line number `j` is completed and no earlier line in `Lines` is. */
  predicate FirstCompleted(b: Board, j: nat)
    requires j < |Lines|
  {
    Completes(b, Lines[j]) && forall i :: 0 <= i < j ==> !Completes(b, Lines[i])
  }

  /** The scan of the loop in `calculateWinner`, started at line `k`. */
  function WinnerFrom(b: Board, k: nat): Cell
    requires k <= |Lines|
    decreases |Lines| - k
  {
    if k == |Lines| then Empty
    else if Completes(b, Lines[k]) then b[Lines[k].a]
    else WinnerFrom(b, k + 1)
  }

  /** `calculateWinner`: the mark of the first completed line, or `Empty` (`null`). */
  function Winner(b: Board): Cell {
    WinnerFrom(b, 0)
  }

  /** The scan from line `k` finds nothing exactly when no line from `k` on
      is completed, and otherwise returns the mark of the first completed
      line at or after `k`. */
  lemma {:induction false} WinnerFromScan(b: Board, k: nat)
    requires k <= |Lines|
    ensures WinnerFrom(b, k) == Empty <==> forall j :: k <= j < |Lines| ==> !Completes(b, Lines[j])
    ensures WinnerFrom(b, k) != Empty ==>
      exists j :: k <= j < |Lines| && Completes(b, Lines[j]) && WinnerFrom(b, k) == b[Lines[j].a]
        && forall i :: k <= i < j ==> !Completes(b, Lines[i])
    decreases |Lines| - k
  {
    if k < |Lines| && !Completes(b, Lines[k]) {
      WinnerFromScan(b, k + 1);
    }
  }

  /** The winner is `Empty` exactly when no line is completed; otherwise it
      is the mark of the first completed line in list order. */
  lemma WinnerSpec(b: Board)
    ensures Winner(b) == Empty <==> forall j :: 0 <= j < |Lines| ==> !Completes(b, Lines[j])
    ensures Winner(b) != Empty ==>
      exists j :: 0 <= j < |Lines| && FirstCompleted(b, j) && Winner(b) == b[Lines[j].a]
  {
    WinnerFromScan(b, 0);
  }

  /** Player `m` holds all three cells of some line. */
  predicate Owns(b: Board, m: Cell) {
    exists j :: 0 <= j < |Lines| && b[Lines[j].a] == m && b[Lines[j].b] == m && b[Lines[j].c] == m
  }

  /** The winner, stated through line ownership: a non-empty result is a
      player owning a line, "no winner" means neither player owns one, and a
      player who alone owns a line is the winner. */
  lemma WinnerOwnsLine(b: Board)
    ensures Winner(b) != Empty ==> Owns(b, Winner(b))
    ensures Winner(b) == Empty <==> !Owns(b, X) && !Owns(b, O)
    ensures Owns(b, X) && !Owns(b, O) ==> Winner(b) == X
    ensures Owns(b, O) && !Owns(b, X) ==> Winner(b) == O
  {
  }

  /** The start position has no winner. */
  lemma EmptyBoardHasNoWinner()
    ensures Winner(EmptyBoard) == Empty
  {
    WinnerSpec(EmptyBoard);
    forall j | 0 <= j < |Lines|
      ensures !Completes(EmptyBoard, Lines[j])
    {
      assert EmptyBoard[Lines[j].a] == Empty;
    }
  }

  /** When several lines are completed the first in list order decides:
      X's top row beats O's bottom row. */
  lemma FirstLineBreaksTies()
    ensures var b: Board := [X, X, X, Empty, Empty, Empty, O, O, O];
      Owns(b, X) && Owns(b, O) && Winner(b) == X
  {
    var b: Board := [X, X, X, Empty, Empty, Empty, O, O, O];
    WinnerSpec(b);
    assert Completes(b, Lines[0]);
    assert b[Lines[2].a] == O && b[Lines[2].b] == O && b[Lines[2].c] == O;
  }

  /** Number of filled (non-empty) cells. */
  function Filled(s: seq<Cell>): (n: nat)
    ensures n <= |s|
    ensures n == 0 <==> forall i :: 0 <= i < |s| ==> s[i] == Empty
  {
    if |s| == 0 then 0
    else Filled(s[..|s| - 1]) + (if s[|s| - 1] == Empty then 0 else 1)
  }

  /** A sequence is completely filled exactly when none of its cells is empty. */
  lemma {:induction false} FullMeansNoEmpty(s: seq<Cell>)
    ensures Filled(s) == |s| <==> forall i :: 0 <= i < |s| ==> s[i] != Empty
  {
    if |s| > 0 {
      var t := s[..|s| - 1];
      FullMeansNoEmpty(t);
      assert forall i :: 0 <= i < |t| ==> s[i] == t[i];
    }
  }

  /** Board `b'` is `b` with the empty cell `i` set to mark `m`, every other
      cell unchanged. */
  predicate Placed(b: Board, b': Board, i: Index, m: Cell) {
    b[i] == Empty && b'[i] == m && forall j: Index :: j != i ==> b'[j] == b[j]
  }

  /** `Placed` pins the new board down: it is the old one updated at `i`. */
  lemma PlacedIsUpdate(b: Board, b': Board, i: Index, m: Cell)
    ensures Placed(b, b', i, m) <==> b[i] == Empty && b' == b[i := m]
  {
    if Placed(b, b', i, m) {
      assert forall j :: 0 <= j < 9 ==> b'[j] == b[i := m][j];
    }
  }

  /** Board `b'` keeps every mark of `b`: it is `b` with zero or more
      further cells filled. */
  predicate Extends(b: Board, b': Board) {
    forall j: Index :: b[j] != Empty ==> b'[j] == b[j]
  }

  /** Marks are never removed, so a line completed on `b` stays completed
      on any board extending it: a board without a winner had none before. */
  lemma NoWinnerBefore(b: Board, b': Board)
    requires Extends(b, b')
    requires Winner(b') == Empty
    ensures Winner(b) == Empty
  {
    WinnerSpec(b);
    WinnerSpec(b');
  }

  /** Board `b'` follows from `b` by one placement of mark `m`. */
  predicate OneMove(b: Board, b': Board, m: Cell) {
    exists i: Index :: Placed(b, b', i, m)
  }

  /** Filling one empty cell with a mark raises the filled count by one. */
  lemma {:induction false} FilledAfterPlacement(s: seq<Cell>, i: nat, m: Cell)
    requires i < |s|
    requires s[i] == Empty && m != Empty
    ensures Filled(s[i := m]) == Filled(s) + 1
  {
    var s' := s[i := m];
    var n := |s| - 1;
    if i == n {
      assert s'[..n] == s[..n];
    } else {
      assert s'[..n] == s[..n][i := m];
      FilledAfterPlacement(s[..n], i, m);
    }
  }

  /** One move fills exactly one more cell. */
  lemma OneMoveFillsOne(b: Board, b': Board, m: Cell)
    requires m != Empty
    requires OneMove(b, b', m)
    ensures Filled(b') == Filled(b) + 1
  {
    var i: Index :| Placed(b, b', i, m);
    assert b' == b[i := m];
    FilledAfterPlacement(b, i, m);
  }
}
