/** Sequences of clicks on the history store, and a few concrete games. */
module Scenarios {
  import opened Rules
  import opened GameHistory

  /** The store after the clicks `moves`, in order. */
  function Play(g: Game, moves: seq<Index>): (g': Game)
    requires |g.history| > 0
    ensures |g'.history| > 0
    decreases |moves|
  {
    if |moves| == 0 then g
    else Play(HandleClick(g, moves[0]), moves[1..])
  }

  /** Any sequence of clicks, legal or refused, keeps the invariant: every
      entry is its predecessor plus one mark of the alternating player. */
  lemma {:induction false} PlayValid(g: Game, moves: seq<Index>)
    requires Valid(g)
    ensures Valid(Play(g, moves))
    decreases |moves|
  {
    if |moves| > 0 {
      HandleClickValid(g, moves[0]);
      PlayValid(HandleClick(g, moves[0]), moves[1..]);
    }
  }

  /** A click on an open cell of a winner-free last snapshot, with the
      cursor on it, appends the updated copy. */
  lemma AcceptAtEnd(h: seq<Board>, x: bool, i: Index)
    requires |h| > 0
    requires Winner(h[|h| - 1]) == Empty && h[|h| - 1][i] == Empty
    ensures HandleClick(Game(h, |h| - 1, x), i) == Game(h + [h[|h| - 1][i := Mark(x)]], |h|, !x)
  {
    var g := Game(h, |h| - 1, x);
    HandleClickAccepted(g, i);
    assert h[..Kept(g)] == h;
  }

  /** A board on which no line is completed has no winner. */
  lemma NoWinner(b: Board)
    requires forall j :: 0 <= j < |Lines| ==> !Completes(b, Lines[j])
    ensures Winner(b) == Empty
  {
    WinnerSpec(b);
  }

  const E := Empty

  /** The snapshots of the game where X plays 0, 1, 2 and O plays 4, 5. */
  const TopRowHistory: seq<Board> := [
    EmptyBoard,
    [X, E, E, E, E, E, E, E, E],
    [X, E, E, E, O, E, E, E, E],
    [X, X, E, E, O, E, E, E, E],
    [X, X, E, E, O, O, E, E, E],
    [X, X, X, E, O, O, E, E, E]
  ]

  /** Only the last snapshot of that game has a winner, X by the top row. */
  lemma TopRowWinners()
    ensures forall k :: 0 <= k < 5 ==> Winner(TopRowHistory[k]) == Empty
    ensures Winner(TopRowHistory[5]) == X
  {
    var h := TopRowHistory;
    EmptyBoardHasNoWinner();
    NoWinner(h[1]);
    NoWinner(h[2]);
    NoWinner(h[3]);
    NoWinner(h[4]);
    assert Completes(h[5], Lines[0]);
  }

  /** Clicks 0, 4, 1, 5, 2 from the start build exactly that history. */
  lemma TopRowPlay()
    ensures Play(Init(), [0, 4, 1, 5, 2]) == Game(TopRowHistory, 5, false)
  {
    var h := TopRowHistory;
    TopRowWinners();
    assert h[0][0 := X] == h[1];
    assert h[1][4 := O] == h[2];
    assert h[2][1 := X] == h[3];
    assert h[3][5 := O] == h[4];
    assert h[4][2 := X] == h[5];
    AcceptAtEnd(h[..1], true, 0);
    AcceptAtEnd(h[..2], false, 4);
    AcceptAtEnd(h[..3], true, 1);
    AcceptAtEnd(h[..4], false, 5);
    AcceptAtEnd(h[..5], true, 2);
    assert h[..1] + [h[1]] == h[..2];
    assert h[..2] + [h[2]] == h[..3];
    assert h[..3] + [h[3]] == h[..4];
    assert h[..4] + [h[4]] == h[..5];
    assert h[..5] + [h[5]] == h;
    assert Play(Game(h, 5, false), []) == Game(h, 5, false);
    assert Play(Game(h[..5], 4, true), [2]) == Game(h, 5, false);
    assert Play(Game(h[..4], 3, false), [5, 2]) == Game(h, 5, false);
    assert Play(Game(h[..3], 2, true), [1, 5, 2]) == Game(h, 5, false);
    assert Play(Game(h[..2], 1, false), [4, 1, 5, 2]) == Game(h, 5, false);
    assert Init() == Game(h[..1], 0, true);
  }

  /** X plays 0, 1, 2 and O plays 4, 5: no winner after moves one to four,
      X wins by the top row after move five. */
  lemma TopRowGame()
    ensures var g5 := Play(Init(), [0, 4, 1, 5, 2]);
      && g5 == Game(TopRowHistory, 5, false) && Valid(g5)
      && (forall k :: 0 <= k < 5 ==> Winner(g5.history[k]) == Empty)
      && Winner(g5.history[5]) == X
  {
    TopRowPlay();
    TopRowWinners();
    PlayValid(Init(), [0, 4, 1, 5, 2]);
  }

  /** Going back to move 2 and playing elsewhere drops the recorded future
      (moves 3 to 5) and records the new branch as move 3. */
  lemma BranchAfterRewind()
    ensures var g5 := Game(TopRowHistory, 5, false);
      var g := HandleClick(JumpTo(g5, 2), 8);
      && |g.history| == 4 && g.stepNumber == 3 && g.xIsNext == false
      && g.history[..3] == g5.history[..3]
      && g.history[3] == [X, E, E, E, O, E, E, E, X]
  {
    var h := TopRowHistory;
    TopRowGame();
    JumpToValid(Game(h, 5, false), 2);
    var j := Game(h, 2, true);
    HandleClickAccepted(j, 8);
    assert h[2][8 := X] == [X, E, E, E, O, E, E, E, X];
  }

  /** A full board with no line: no winner and no cell left to play, so
      every click on it is refused. The board is an arbitrary input with
      five O and four X, which play from the start cannot reach; the
      reachable draw is `DrawGame`. */
  lemma FullBoardWithoutWinner(xIsNext: bool, i: Index)
    ensures var b: Board := [X, O, X, O, X, O, O, X, O];
      && Winner(b) == Empty
      && Filled(b) == 9
      && HandleClick(Game([b], 0, xIsNext), i) == Game([b], 0, xIsNext)
  {
    var b: Board := [X, O, X, O, X, O, O, X, O];
    NoWinner(b);
    FullMeansNoEmpty(b);
  }

  /** Clicking `first` and then `second` is clicking `first + second`. */
  lemma {:induction false} PlayConcat(g: Game, first: seq<Index>, second: seq<Index>)
    requires |g.history| > 0
    ensures Play(g, first + second) == Play(Play(g, first), second)
    decreases |first|
  {
    if |first| > 0 {
      assert (first + second)[1..] == first[1..] + second;
      PlayConcat(HandleClick(g, first[0]), first[1..], second);
    } else {
      assert first + second == second;
    }
  }

  /** The clicks of a drawn game: X plays 0, 2, 3, 7, 8 and O plays 1, 4, 5, 6. */
  const DrawMoves: seq<Index> := [0, 1, 2, 4, 3, 5, 7, 6, 8]

  /** The snapshots of that game; the last is X O X / X O O / O X X. */
  const DrawHistory: seq<Board> := [
    EmptyBoard,
    [X, E, E, E, E, E, E, E, E],
    [X, O, E, E, E, E, E, E, E],
    [X, O, X, E, E, E, E, E, E],
    [X, O, X, E, O, E, E, E, E],
    [X, O, X, X, O, E, E, E, E],
    [X, O, X, X, O, O, E, E, E],
    [X, O, X, X, O, O, E, X, E],
    [X, O, X, X, O, O, O, X, E],
    [X, O, X, X, O, O, O, X, X]
  ]

  /** No snapshot of the drawn game has a winner. */
  lemma DrawWinners()
    ensures forall k :: 0 <= k < 10 ==> Winner(DrawHistory[k]) == Empty
  {
    var h := DrawHistory;
    NoWinner(h[9]);
    NoWinnerBefore(h[8], h[9]);
    NoWinnerBefore(h[7], h[9]);
    NoWinnerBefore(h[6], h[9]);
    NoWinnerBefore(h[5], h[9]);
    NoWinnerBefore(h[4], h[9]);
    NoWinnerBefore(h[3], h[9]);
    NoWinnerBefore(h[2], h[9]);
    NoWinnerBefore(h[1], h[9]);
    NoWinnerBefore(h[0], h[9]);
  }

  /** The first five clicks of the drawn game build its first six snapshots. */
  lemma DrawPlayOpening()
    ensures Play(Init(), DrawMoves[..5]) == Game(DrawHistory[..6], 5, false)
  {
    var h := DrawHistory;
    DrawWinners();
    assert h[0][0 := X] == h[1];
    assert h[1][1 := O] == h[2];
    assert h[2][2 := X] == h[3];
    assert h[3][4 := O] == h[4];
    assert h[4][3 := X] == h[5];
    AcceptAtEnd(h[..1], true, 0);
    AcceptAtEnd(h[..2], false, 1);
    AcceptAtEnd(h[..3], true, 2);
    AcceptAtEnd(h[..4], false, 4);
    AcceptAtEnd(h[..5], true, 3);
    assert h[..1] + [h[1]] == h[..2];
    assert h[..2] + [h[2]] == h[..3];
    assert h[..3] + [h[3]] == h[..4];
    assert h[..4] + [h[4]] == h[..5];
    assert h[..5] + [h[5]] == h[..6];
    assert DrawMoves[..5] == [0, 1, 2, 4, 3];
    assert Play(Game(h[..6], 5, false), []) == Game(h[..6], 5, false);
    assert Play(Game(h[..5], 4, true), [3]) == Game(h[..6], 5, false);
    assert Play(Game(h[..4], 3, false), [4, 3]) == Game(h[..6], 5, false);
    assert Play(Game(h[..3], 2, true), [2, 4, 3]) == Game(h[..6], 5, false);
    assert Play(Game(h[..2], 1, false), [1, 2, 4, 3]) == Game(h[..6], 5, false);
    assert Init() == Game(h[..1], 0, true);
  }

  /** The last four clicks of the drawn game fill the board. */
  lemma DrawPlayEnding()
    ensures Play(Game(DrawHistory[..6], 5, false), DrawMoves[5..]) == Game(DrawHistory, 9, false)
  {
    var h := DrawHistory;
    DrawWinners();
    assert h[5][5 := O] == h[6];
    assert h[6][7 := X] == h[7];
    assert h[7][6 := O] == h[8];
    assert h[8][8 := X] == h[9];
    AcceptAtEnd(h[..6], false, 5);
    AcceptAtEnd(h[..7], true, 7);
    AcceptAtEnd(h[..8], false, 6);
    AcceptAtEnd(h[..9], true, 8);
    assert h[..6] + [h[6]] == h[..7];
    assert h[..7] + [h[7]] == h[..8];
    assert h[..8] + [h[8]] == h[..9];
    assert h[..9] + [h[9]] == h;
    assert DrawMoves[5..] == [5, 7, 6, 8];
    assert Play(Game(h, 9, false), []) == Game(h, 9, false);
    assert Play(Game(h[..9], 8, true), [8]) == Game(h, 9, false);
    assert Play(Game(h[..8], 7, false), [6, 8]) == Game(h, 9, false);
    assert Play(Game(h[..7], 6, true), [7, 6, 8]) == Game(h, 9, false);
  }

  /** X plays 0, 2, 3, 7, 8 and O plays 1, 4, 5, 6: the game reaches a full
      board that no snapshot along the way has won, and from then on every
      click is refused. */
  lemma DrawGame(i: Index)
    ensures var g := Play(Init(), DrawMoves);
      && g == Game(DrawHistory, 9, false) && Valid(g)
      && (forall k :: 0 <= k < 10 ==> Winner(g.history[k]) == Empty)
      && Filled(Current(g)) == 9
      && HandleClick(g, i) == g
  {
    assert DrawMoves == DrawMoves[..5] + DrawMoves[5..];
    PlayConcat(Init(), DrawMoves[..5], DrawMoves[5..]);
    DrawPlayOpening();
    DrawPlayEnding();
    DrawWinners();
    var g := Game(DrawHistory, 9, false);
    PlayValid(Init(), DrawMoves);
    FilledIsIndex(g.history, 9);
    FullBoardRefusesAll(g, i);
  }
}
