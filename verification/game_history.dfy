/** The `Game` component of src/index.js: a list of board snapshots, the
    `stepNumber` cursor selecting the displayed one, and the `xIsNext` turn
    flag. `HandleClick` and `JumpTo` are its two state transitions. */
module GameHistory {
  import opened Rules

  datatype Game = Game(history: seq<Board>, stepNumber: nat, xIsNext: bool)

  /** Entry `k >= 1` of the history is made by X when `k` is odd, by O when even. */
  function MoverOf(k: nat): (m: Cell)
    ensures m != Empty
    ensures m == X <==> k % 2 == 1
  {
    Mark(k % 2 == 1)
  }

  /** What a history built by play looks like: it starts at the empty
      board, each entry is its predecessor plus one mark of the alternating
      player, and only the last entry may have a winner. */
  ghost predicate ValidHistory(h: seq<Board>) {
    && |h| > 0
    && h[0] == EmptyBoard
    && (forall k :: 0 < k < |h| ==> MoveAt(h, k))
    && (forall k :: 0 <= k < |h| - 1 ==> Undecided(h[k]))
  }

  /** Entry `k` is entry `k - 1` plus one mark of the player whose turn it was. */
  ghost predicate MoveAt(h: seq<Board>, k: nat)
    requires 0 < k < |h|
  {
    OneMove(h[k - 1], h[k], MoverOf(k))
  }

  /** The board has no winner yet. */
  predicate Undecided(b: Board) {
    Winner(b) == Empty
  }

  /** The store's invariant: a valid history, a cursor inside it, and the
      turn flag in step with the cursor's parity. */
  ghost predicate Valid(g: Game) {
    && ValidHistory(g.history)
    && g.stepNumber < |g.history|
    && (g.xIsNext <==> g.stepNumber % 2 == 0)
  }

  /** The constructor's state: one empty snapshot, cursor 0, X to move. */
  function Init(): (g: Game)
    ensures Valid(g)
    ensures g.history[0] == EmptyBoard && |g.history| == 1
    ensures g.stepNumber == 0 && g.xIsNext
  {
    Game([EmptyBoard], 0, true)
  }

  /** The snapshot being displayed, `history[stepNumber]`. */
  function Current(g: Game): Board
    requires g.stepNumber < |g.history|
  {
    g.history[g.stepNumber]
  }

  /** How many entries `history.slice(0, stepNumber + 1)` keeps. */
  function Kept(g: Game): (n: nat)
    requires |g.history| > 0
    ensures 0 < n <= |g.history|
    ensures n <= g.stepNumber + 1
    ensures n == g.stepNumber + 1 || n == |g.history|
  {
    if g.stepNumber + 1 <= |g.history| then g.stepNumber + 1 else |g.history|
  }

  /** The snapshot a click plays on: the last of the kept entries. */
  function Playing(g: Game): Board
    requires |g.history| > 0
  {
    g.history[Kept(g) - 1]
  }

  /** The click is refused: the played-on snapshot has a winner or cell `i`
      is already filled. */
  predicate Refused(g: Game, i: Index)
    requires |g.history| > 0
  {
    Winner(Playing(g)) != Empty || Playing(g)[i] != Empty
  }

  /** `Game.handleClick(i)`: drop the entries after the cursor, copy the
      snapshot at the cursor, put the mover's mark in cell `i`, append the
      copy and move the cursor onto it; or do nothing when the click is
      refused. */
  function HandleClick(g: Game, i: Index): (g': Game)
    requires |g.history| > 0
    ensures Refused(g, i) <==> g' == g
    ensures !Refused(g, i) ==>
      && |g'.history| == Kept(g) + 1
      && (forall k :: 0 <= k < Kept(g) ==> g'.history[k] == g.history[k])
      && Placed(Playing(g), g'.history[Kept(g)], i, Mark(g.xIsNext))
      && g'.stepNumber == |g'.history| - 1
      && g'.xIsNext == !g.xIsNext
  {
    var kept := g.history[..Kept(g)];
    var current := kept[|kept| - 1];
    if Winner(current) != Empty || current[i] != Empty then g
    else
      var squares: Board := current[i := Mark(g.xIsNext)];
      Game(kept + [squares], |kept|, !g.xIsNext)
  }

  /** `Game.jumpTo(step)`: move the cursor and recompute the flag from it;
      the history is left alone. */
  function JumpTo(g: Game, step: nat): (g': Game)
    ensures g'.history == g.history
    ensures g'.stepNumber == step
    ensures g'.xIsNext <==> g'.stepNumber % 2 == 0
  {
    Game(g.history, step, step % 2 == 0)
  }

  /** Under the invariant a click plays on the displayed snapshot, and an
      accepted click keeps entries `0..stepNumber`, appends one snapshot
      (length `stepNumber + 2`) and puts the cursor on it. */
  lemma HandleClickTruncates(g: Game, i: Index)
    requires Valid(g)
    ensures Playing(g) == Current(g)
    ensures !Refused(g, i) ==>
      var g' := HandleClick(g, i);
      && |g'.history| == g.stepNumber + 2
      && g'.history[..g.stepNumber + 1] == g.history[..g.stepNumber + 1]
      && g'.stepNumber == g.stepNumber + 1
      && Placed(Current(g), Current(g'), i, Mark(g.xIsNext))
  {
  }

  /** Appending a snapshot that is one move of the right player on from a
      winner-free last entry keeps a history valid. */
  lemma {:induction false} AppendValid(h: seq<Board>, b: Board)
    requires ValidHistory(h)
    requires Undecided(h[|h| - 1])
    requires OneMove(h[|h| - 1], b, MoverOf(|h|))
    ensures ValidHistory(h + [b])
  {
    var h' := h + [b];
    assert h'[0] == h[0];
    forall k | 0 < k < |h'|
      ensures MoveAt(h', k)
    {
      if k < |h| {
        assert h'[k - 1] == h[k - 1] && h'[k] == h[k];
        assert MoveAt(h, k);
      } else {
        assert h'[k - 1] == h[|h| - 1] && h'[k] == b;
      }
    }
    forall k | 0 <= k < |h'| - 1
      ensures Undecided(h'[k])
    {
      assert h'[k] == h[k];
    }
  }

  /** A non-empty prefix of a valid history is valid. */
  lemma PrefixValid(h: seq<Board>, n: nat)
    requires ValidHistory(h)
    requires 0 < n <= |h|
    ensures ValidHistory(h[..n])
  {
    var p := h[..n];
    forall k | 0 < k < n
      ensures MoveAt(p, k)
    {
      assert p[k - 1] == h[k - 1] && p[k] == h[k];
      assert MoveAt(h, k);
    }
  }

  /** An accepted click, spelled out as the next store. */
  lemma HandleClickAccepted(g: Game, i: Index)
    requires |g.history| > 0
    requires !Refused(g, i)
    ensures HandleClick(g, i) ==
      Game(g.history[..Kept(g)] + [Playing(g)[i := Mark(g.xIsNext)]], Kept(g), !g.xIsNext)
  {
  }

  /** `HandleClick` preserves the invariant. */
  lemma HandleClickValid(g: Game, i: Index)
    requires Valid(g)
    ensures Valid(HandleClick(g, i))
  {
    if !Refused(g, i) {
      var s := g.stepNumber;
      var kept := g.history[..s + 1];
      var b: Board := g.history[s][i := Mark(g.xIsNext)];
      HandleClickAccepted(g, i);
      PrefixValid(g.history, s + 1);
      assert kept[s] == g.history[s];
      assert Placed(kept[s], b, i, MoverOf(s + 1));
      AppendValid(kept, b);
    }
  }

  /** A jump to one of the offered steps `0..|history| - 1` preserves the
      invariant, displays `history[step]` and gives the move to X exactly
      when `step` is even. */
  lemma JumpToValid(g: Game, step: nat)
    requires Valid(g)
    requires step < |g.history|
    ensures Valid(JumpTo(g, step))
    ensures Current(JumpTo(g, step)) == g.history[step]
    ensures JumpTo(g, step).xIsNext <==> step % 2 == 0
  {
  }

  /** Jumping to the start always shows the empty board with X to move. */
  lemma JumpToStart(g: Game)
    requires Valid(g)
    ensures Current(JumpTo(g, 0)) == EmptyBoard
    ensures JumpTo(g, 0).xIsNext
  {
  }

  /** Entry `k` of a valid history has exactly `k` filled cells. */
  lemma {:induction false} FilledIsIndex(h: seq<Board>, k: nat)
    requires ValidHistory(h)
    requires k < |h|
    ensures Filled(h[k]) == k
  {
    if k == 0 {
      assert h[0] == EmptyBoard;
    } else {
      FilledIsIndex(h, k - 1);
      assert MoveAt(h, k);
      OneMoveFillsOne(h[k - 1], h[k], MoverOf(k));
    }
  }

  /** A history holds at most ten snapshots: the empty board and nine moves. */
  lemma HistoryBound(g: Game)
    requires Valid(g)
    ensures |g.history| <= 10
  {
    FilledIsIndex(g.history, |g.history| - 1);
  }

  /** When every cell of the displayed snapshot is filled, no click changes anything. */
  lemma FullBoardRefusesAll(g: Game, i: Index)
    requires Valid(g)
    requires Filled(Current(g)) == 9
    ensures HandleClick(g, i) == g
  {
    FullMeansNoEmpty(Current(g));
  }
}
