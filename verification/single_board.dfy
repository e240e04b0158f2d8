/** The earlier `Board` component of src/index1.js: one board and the
    `xIsNext` flag, with no history. */
module SingleBoard {
  import opened Rules

  datatype BoardState = BoardState(squares: Board, xIsNext: bool)

  /** The invariant of the board: X is to move exactly when an even number
      of cells is filled. */
  predicate Valid(s: BoardState) {
    s.xIsNext <==> Filled(s.squares) % 2 == 0
  }

  /** The constructor's state: nine empty cells and X to move. */
  function Init(): (s: BoardState)
    ensures forall i: Index :: s.squares[i] == Empty
    ensures s.xIsNext
    ensures Valid(s)
  {
    BoardState(EmptyBoard, true)
  }

  /** The click is refused: the board has a winner or cell `i` is filled. */
  predicate Refused(s: BoardState, i: Index) {
    Winner(s.squares) != Empty || s.squares[i] != Empty
  }

  /** `Board.handleClick(i)`: unless refused, put the mover's mark in cell
      `i` and hand the turn to the other player. */
  function HandleClick(s: BoardState, i: Index): (s': BoardState)
    ensures Refused(s, i) <==> s' == s
    ensures !Refused(s, i) ==>
      && Placed(s.squares, s'.squares, i, Mark(s.xIsNext))
      && s'.xIsNext == !s.xIsNext
  {
    var squares := s.squares;
    if Winner(squares) != Empty || squares[i] != Empty then s
    else BoardState(squares[i := Mark(s.xIsNext)], !s.xIsNext)
  }

  /** An accepted click, spelled out as the next state. */
  lemma HandleClickAccepted(s: BoardState, i: Index)
    requires !Refused(s, i)
    ensures HandleClick(s, i) == BoardState(s.squares[i := Mark(s.xIsNext)], !s.xIsNext)
  {
  }

  /** Putting the mover's mark into an empty cell adds one filled cell,
      so the turn flag flipped with it keeps matching the count's parity. */
  lemma PlacementFlipsParity(b: Board, xIsNext: bool, i: Index)
    requires xIsNext <==> Filled(b) % 2 == 0
    requires b[i] == Empty
    ensures Filled(b[i := Mark(xIsNext)]) == Filled(b) + 1
    ensures !xIsNext <==> Filled(b[i := Mark(xIsNext)]) % 2 == 0
  {
    FilledAfterPlacement(b, i, Mark(xIsNext));
  }

  /** Every accepted click fills exactly one more cell, so the parity
      invariant survives every click. */
  lemma HandleClickValid(s: BoardState, i: Index)
    requires Valid(s)
    ensures Valid(HandleClick(s, i))
    ensures !Refused(s, i) ==> Filled(HandleClick(s, i).squares) == Filled(s.squares) + 1
  {
    if !Refused(s, i) {
      HandleClickAccepted(s, i);
      PlacementFlipsParity(s.squares, s.xIsNext, i);
    }
  }

  /** `calculateWinner` of src/index1.js, the same loop over the same eight
      lines as in src/index.js: it returns what `Rules.Winner` returns. */
  method CalculateWinner(squares: Board) returns (r: Cell)
    ensures r == Winner(squares)
  {
    var i := 0;
    while i < |Lines|
      invariant 0 <= i <= |Lines|
      invariant WinnerFrom(squares, i) == Winner(squares)
    {
      var line := Lines[i];
      if squares[line.a] != Empty && squares[line.a] == squares[line.b] && squares[line.a] == squares[line.c] {
        return squares[line.a];
      }
      i := i + 1;
    }
    return Empty;
  }
}
