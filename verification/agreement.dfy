/** The two versions of the game agree: the history-keeping `Game` of
    src/index.js, seen through its displayed snapshot and turn flag, makes
    the same moves as the single `Board` of src/index1.js. */
module Agreement {
  import opened Rules
  import GameHistory
  import SingleBoard

  /** The single-board state that a history store shows. */
  function Shown(g: GameHistory.Game): SingleBoard.BoardState
    requires g.stepNumber < |g.history|
  {
    SingleBoard.BoardState(GameHistory.Current(g), g.xIsNext)
  }

  /** The store's cursor-parity flag is the single board's filled-count
      parity flag: the displayed snapshot at step `k` has `k` marks. */
  lemma ShownIsValid(g: GameHistory.Game)
    requires GameHistory.Valid(g)
    ensures SingleBoard.Valid(Shown(g))
    ensures Filled(GameHistory.Current(g)) == g.stepNumber
  {
    GameHistory.FilledIsIndex(g.history, g.stepNumber);
  }

  /** A click on the store refuses exactly when the same click on the shown
      board refuses, and otherwise leads to the board and flag that the
      single board reaches. */
  lemma ClickAgrees(g: GameHistory.Game, i: Index)
    requires GameHistory.Valid(g)
    ensures GameHistory.Refused(g, i) <==> SingleBoard.Refused(Shown(g), i)
    ensures var g' := GameHistory.HandleClick(g, i);
      g'.stepNumber < |g'.history| && Shown(g') == SingleBoard.HandleClick(Shown(g), i)
  {
    GameHistory.HandleClickTruncates(g, i);
    var g' := GameHistory.HandleClick(g, i);
    if !GameHistory.Refused(g, i) {
      var s' := SingleBoard.HandleClick(Shown(g), i);
      var b, b' := GameHistory.Current(g'), s'.squares;
      forall j: Index
        ensures b[j] == b'[j]
      {
      }
      assert b == b';
    }
  }
}
