# Tic-tac-toe game rules and move history, modelled in Dafny

This project models the game logic of a React tic-tac-toe tutorial app. The
rendering is not modelled. Two versions of the app are covered:

- `src/index.js` has a `Game` component. It keeps a history of board
  snapshots, a `stepNumber` cursor and an `xIsNext` turn flag. A click
  (`handleClick`) drops the recorded "future" after the cursor, copies the
  displayed snapshot, places one mark and appends the copy. A jump
  (`jumpTo`) moves only the cursor and the flag.
- `src/index1.js` is the earlier version. Its `Board` component holds one
  board and the `xIsNext` flag, with no history.

Both versions use the same `calculateWinner`. It checks eight fixed lines in
order (rows, then columns, then diagonals) and returns the mark of the first
line filled by one player, or `null`.

Modules:

- `Rules` (`rules.dfy`) defines cells (`Empty` stands for the app's `null`),
  nine-cell boards, the eight lines, `Winner` and the filled-cell count.
- `GameHistory` (`game_history.dfy`) is the history store of `src/index.js`.
  `HandleClick` and `JumpTo` are pure state-transition functions. `Valid` is
  the store's invariant.
- `SingleBoard` (`single_board.dfy`) is the board of `src/index1.js`. It
  includes its own loop version of `calculateWinner`.
- `Agreement` (`agreement.dfy`) shows that a click on the store does the
  same thing as a click on the single board showing the same snapshot.
- `Scenarios` (`scenarios.dfy`) defines sequences of clicks and some
  concrete games.

Modelling choices that follow the code rather than a cleaner design:

- Whose turn it is could be derived from the cursor alone. The code stores
  `xIsNext` alongside `stepNumber`, and the model keeps the stored flag. `GameHistory.Valid` states that the flag always matches
  the cursor's parity, and the lemmas prove that every transition keeps it
  that way.
- `history.slice(0, stepNumber + 1)` clamps to the history's length, like
  any JavaScript slice. `GameHistory.Kept` models that clamp, so
  `HandleClick` only needs a non-empty history. Under the invariant the
  clamp never takes effect.
- `jumpTo` does no bounds check. `GameHistory.JumpTo` takes any natural
  `step`. The invariant is proved preserved only for the steps the move list
  offers, `0 .. |history| - 1`.

## Model

| member | source | states |
|---|---|---|
| Rules.Winner | src/index.js:174-194 | No contract of its own: it runs `WinnerFrom` from line 0, as the loop starts at `i = 0`. `Rules.WinnerSpec` and `Rules.WinnerOwnsLine` state what it returns. |
| Rules.WinnerFrom | src/index.js:186-191 | No contract of its own: one step of the loop either returns the mark of completed line `k` or goes on to line `k + 1`, ending in `null` after line 8. `Rules.WinnerFromScan` states what it returns. |
| Rules.WinnerSpec | src/index.js:174-194 | The result is `Empty` (`null`) exactly when none of the eight lines holds three equal non-empty cells. Otherwise it is the mark of a completed line with no completed line before it in the list. |
| Rules.WinnerFromScan | src/index.js:186-191 | The scan from line `k` onward returns `Empty` exactly when no line from `k` on is completed. Otherwise it returns the mark of the first completed line at or after `k`. |
| Rules.WinnerOwnsLine | src/index.js:176-192 | A non-empty winner owns a whole line. There is no winner exactly when neither X nor O owns a line. A player who is the only one owning a line is the winner. |
| Rules.EmptyBoardHasNoWinner | src/index.js:76-78 | The all-empty start board has no winner. |
| Rules.FirstLineBreaksTies | src/index.js:176-191 | With X on the top row and O on the bottom row, both own a line and X is returned, because rows are checked top to bottom. |
| Rules.NoWinnerBefore | src/index.js:186-191 | A line completed on a board stays completed once more marks are added. A board with no winner therefore had no winner at any earlier snapshot that it extends. |
| Rules.Mark | src/index.js:102 | The mark placed is never empty. It is X exactly when `xIsNext` holds. |
| Rules.FullMeansNoEmpty | src/index.js:99 | A board is completely filled exactly when none of its cells is empty, so the "square already filled" guard refuses every cell. |
| Rules.PlacedIsUpdate | src/index.js:97-102 | A copy that differs from the board only at an empty cell `i`, where it holds `m`, is exactly the board with `i` updated to `m`. |
| Rules.FilledAfterPlacement | src/index1.js:88 | Writing a mark into an empty cell raises the filled count by exactly one. |
| Rules.OneMoveFillsOne | src/index.js:102 | A snapshot that is one placement on from another has one more filled cell. |
| GameHistory.Init | src/index.js:73-82 | The initial store satisfies the invariant. It holds one all-empty snapshot, the cursor is 0, and X is to move. |
| GameHistory.Current | src/index.js:127 | No contract of its own: the displayed snapshot `history[stepNumber]`, defined when the cursor is inside the history. `GameHistory.HandleClickTruncates`, `GameHistory.JumpToValid` and `GameHistory.JumpToStart` state what it shows. |
| GameHistory.Refused | src/index.js:99-101 | No contract of its own: the guard, "the played-on snapshot has a winner or cell `i` is filled". `GameHistory.HandleClick` proves that a click is a no-op exactly when it holds. |
| GameHistory.Kept | src/index.js:95 | `slice(0, stepNumber + 1)` keeps between 1 and `|history|` entries. That is `stepNumber + 1` entries, or the whole history when the cursor is past the end. |
| GameHistory.HandleClick | src/index.js:94-112 | The click changes nothing exactly when the played-on snapshot has a winner or cell `i` is filled. Otherwise the kept prefix is unchanged and exactly one snapshot is appended. That snapshot equals the played-on one except that empty cell `i` now holds X if `xIsNext`, else O. The cursor moves to the new last index and the flag flips. |
| GameHistory.HandleClickTruncates | src/index.js:95-110 | Under the invariant a click plays on `history[stepNumber]`. An accepted click keeps entries `0..stepNumber`, makes the length `stepNumber + 2`, and advances the cursor by one onto the new snapshot. |
| GameHistory.AppendValid | src/index.js:106-108 | Appending one correct-player move after a winner-free last entry keeps a history well formed. |
| GameHistory.PrefixValid | src/index.js:95 | Truncating a well-formed history to a non-empty prefix keeps it well formed. |
| GameHistory.HandleClickValid | src/index.js:94-112 | Every click preserves the invariant. Entry 0 is the empty board. Each entry is its predecessor plus one mark, from X at odd entries and O at even ones. Only the last entry may have a winner. The cursor stays in range, and the flag equals the cursor's parity. |
| GameHistory.JumpTo | src/index.js:116-121 | A jump leaves the history untouched, sets the cursor to `step`, and makes the flag equal to the new cursor's parity. |
| GameHistory.JumpToValid | src/index.js:116-136 | A jump to any step the move list offers keeps the invariant and displays `history[step]`. X is to move exactly when `step` is even. |
| GameHistory.JumpToStart | src/index.js:116-127 | After a jump to step 0, every valid store displays the empty board with X to move. |
| GameHistory.FilledIsIndex | src/index.js:106-110 | Entry `k` of a well-formed history has exactly `k` filled cells. |
| GameHistory.HistoryBound | src/index.js:94-112 | A well-formed history has at most ten snapshots. |
| GameHistory.FullBoardRefusesAll | src/index.js:99-101 | When the displayed snapshot is full, every click leaves the store unchanged. |
| SingleBoard.Init | src/index1.js:62-68 | The initial board has nine empty cells and X to move, and it satisfies the parity invariant. |
| SingleBoard.HandleClick | src/index1.js:69-93 | The click changes nothing exactly when the board has a winner or cell `i` is filled. Otherwise only cell `i` changes, from empty to X if `xIsNext` and to O otherwise, and the flag flips. |
| SingleBoard.Refused | src/index1.js:85-87 | No contract of its own: the guard, "the board has a winner or cell `i` is filled". `SingleBoard.HandleClick` proves that a click is a no-op exactly when it holds. |
| SingleBoard.PlacementFlipsParity | src/index1.js:88-91 | Putting the mover's mark into an empty cell adds one filled cell, so the flipped flag still says "X to move exactly when the filled count is even". |
| SingleBoard.HandleClickValid | src/index1.js:83-91 | The invariant "X to move exactly when an even number of cells is filled" survives every click. An accepted click fills exactly one more cell. |
| SingleBoard.CalculateWinner | src/index1.js:163-183 | The loop copy of `calculateWinner` in the earlier version returns exactly what `Rules.Winner` returns. |
| Agreement.ShownIsValid | src/index.js:109-110 | In a valid store the displayed snapshot has `stepNumber` marks. The stored flag therefore satisfies the single board's filled-count invariant. |
| Agreement.ClickAgrees | src/index1.js:83-92 | A click on a valid store is refused exactly when the same click on the single board showing its snapshot and flag is refused. The store's new displayed snapshot and flag are the single board's new state. |
| Scenarios.Play | src/index.js:94-112 | Any sequence of clicks keeps the history non-empty. |
| Scenarios.PlayValid | src/index.js:94-112 | Any sequence of clicks, accepted or refused, keeps the invariant. Consecutive snapshots differ by one mark of the alternating player. |
| Scenarios.TopRowGame | src/index.js:94-112 | After clicks 0, 4, 1, 5, 2 from the start, snapshots 0 to 4 have no winner and snapshot 5 is won by X. |
| Scenarios.BranchAfterRewind | src/index.js:95-110 | After that game, a jump to step 2 followed by a click on cell 8 drops moves 3 to 5. It records X's mark at cell 8 as the new move 3. |
| Scenarios.PlayConcat | src/index.js:94-112 | Playing two click sequences one after the other is the same as playing them joined. |
| Scenarios.FullBoardWithoutWinner | src/index.js:99-101 | The full board X O X / O X O / O X O has no winner and no empty cell, so every click on it is refused. The board is arbitrary input that play from the start cannot reach. |
| Scenarios.DrawGame | src/index.js:94-112 | The reachable draw: X plays 0, 2, 3, 7, 8 and O plays 1, 4, 5, 6. No snapshot has a winner, the last board is full, the store is valid, and every further click is refused. |

## Left out

- Rendering is not modelled: `Square`, `renderSquare`, both `render` methods and the move-list button labels. They only present the state.
- Mounting with `ReactDOM.render` and the CSS import are not modelled. They are DOM input/output.
- The asynchrony of `setState` and re-rendering is not modelled. Each handler is one atomic state transition.
- The status line is not modelled. In `src/index.js` it reads `this.props.xIsNext` rather than the state, which is a display-only quirk.
- Cell indices outside 0..8 are excluded by the `Index` type. The code has no bounds check, and the board only ever passes 0..8.
- Draw detection is not modelled, because the code never signals a draw. A full board simply refuses every click (`GameHistory.FullBoardRefusesAll`).
- The commented-out `Board` state and `handleClick` at the top of `src/index.js` are not modelled. They are dead code and duplicate `src/index1.js`.
