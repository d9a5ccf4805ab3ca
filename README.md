# Tic-tac-toe game engine

A Dafny model of the game-state engine behind the React tic-tac-toe tutorial game
(`tutorial_reactjs/my-app/src/index.js`). The model covers five parts:

- Winner detection (`calculateWinner`).
- The "(column,row)" caption table (`calculateColumnRow`).
- The state that the `Game` component builds in its constructor.
- The two state transitions, `handleClick` (play a square) and `jumpTo` (time travel through the move history).
- The status line derived in `render`.

The project has four modules:

- `Wrappers` (`wrappers.dfy`): the `Option` type used for a history entry's caption.
- `Rules` (`rules.dfy`): the board and the eight winning lines. The scan of `calculateWinner` is given twice:
  - the specification function `Winner`;
  - the method `CalculateWinner`, the original's `for` loop over an array with an early return.

  The module also holds the caption table `ColumnRow`.
- `GameModel` (`game_model.dfy`): the component state `{history, stepNumber, xIsNext, selectedSquare}` as a value, with `handleClick`, `jumpTo` and the status line as functions. Around them it states:
  - the invariant of the state: the step indexes the history, the turn matches the step's parity, and the history is a line of legal play from the empty board;
  - lemmas about that invariant and about what a click does.
- `TicTacToe` (`tictactoe.dfy`): the `Game` component as a class whose methods update its fields in place. Each history entry holds the array that its move wrote into, and `handleClick` writes into a fresh copy (`slice()`). Every method is proved to move the class's abstract state exactly as the matching `GameModel` function does. `HandleClick` also proves that no array already in the history changes, i.e. stored snapshots are never mutated.

## Model

| member | source | states |
|---|---|---|
| Rules.CalculateWinner | tutorial_reactjs/my-app/src/index.js:162-180 | The loop over the eight lines returns exactly `Winner` of the board's contents. It has no modifies clause, so the board is left untouched. |
| Rules.FirstWinMeaning | tutorial_reactjs/my-app/src/index.js:173-179 | A non-empty answer of the in-order scan is the mark of a uniform line with no uniform line before it. An empty answer means no line is uniform. |
| Rules.WinnerCharacterized | tutorial_reactjs/my-app/src/index.js:163-179 | A mark is answered only when some line holds three of that mark. The answer is `null` (Empty) if and only if no line holds three equal marks. |
| Rules.WinnerOfUniformLine | tutorial_reactjs/my-app/src/index.js:173-177 | If any one line is uniform, the scan answers a mark, and that mark fills some line. |
| Rules.EmptyBoardHasNoWinner | tutorial_reactjs/my-app/src/index.js:64 | The initial `Array(9).fill(null)` board has no winner. |
| Rules.ColumnRow | tutorial_reactjs/my-app/src/index.js:147-160 | The caption of square i is "(" + (i%3+1) + "," + (i/3+1) + ")": one-based column, then row, of a row-major 3x3 grid. |
| Rules.ColumnRowInjective | tutorial_reactjs/my-app/src/index.js:147-160 | Distinct squares get distinct captions. |
| GameModel.HandleClick | tutorial_reactjs/my-app/src/index.js:73-93 | The step of the resulting state indexes its history, and the clicked square is the selected one in every case. |
| GameModel.HandleClickRejected | tutorial_reactjs/my-app/src/index.js:78-83 | On a board that already has a winner, or on an occupied square, a click changes only `selectedSquare`. History, step and turn are unchanged, and the history is not truncated. |
| GameModel.HandleClickAccepted | tutorial_reactjs/my-app/src/index.js:75-91 | On an empty square of a board with no winner, the new history has the old entries `0..stepNumber`, then one new entry. That entry holds the current board with the mover's mark at i and the caption `ColumnRow(i)`; the step becomes the new last index and the turn flips. |
| GameModel.MoveChangesOneSquare | tutorial_reactjs/my-app/src/index.js:77-84 | The board after an accepted click equals the board before it everywhere except square i, which holds 'X' when `xIsNext` and 'O' otherwise. |
| GameModel.InitValid | tutorial_reactjs/my-app/src/index.js:60-71 | The initial state (one empty board, step 0, X to move) satisfies the invariant. |
| GameModel.WellFormedKept | tutorial_reactjs/my-app/src/index.js:90-99 | `handleClick` keeps stepNumber a history index and `xIsNext == (stepNumber % 2 == 0)`, and so does `jumpTo` to a history index. |
| GameModel.HandleClickValid | tutorial_reactjs/my-app/src/index.js:73-93 | `handleClick` keeps the full invariant, including that the history is a line of legal play. |
| GameModel.JumpToValid | tutorial_reactjs/my-app/src/index.js:95-100 | `jumpTo` to a history index keeps the invariant and leaves the history unchanged. |
| GameModel.JumpToOutOfRange | tutorial_reactjs/my-app/src/index.js:95-100 | `jumpTo` past the end of the history breaks the invariant: the bound is the caller's duty (the move list's indices). |
| GameModel.MarkCounts | tutorial_reactjs/my-app/src/index.js:84-91 | In a legal history, the board at step k holds (k+1)/2 X's, k/2 O's and 9-k empty squares. |
| GameModel.HistoryBound | tutorial_reactjs/my-app/src/index.js:81-90 | A valid history never has more than ten entries. |
| GameModel.NoEarlyWinner | tutorial_reactjs/my-app/src/index.js:81 | No board before the fifth move has a winner. |
| GameModel.OnlyWinner | tutorial_reactjs/my-app/src/index.js:162-180 | On a board of a legal history, every uniform line holds the mark of the player who moved last. The reported winner is that mark whatever the scan order. |
| GameModel.StatusMeaning | tutorial_reactjs/my-app/src/index.js:123-128 | In a valid state, the status is "Winner: " with the last mover's mark when some line is complete. Otherwise it is "Next player: " with the mark the next click writes. |
| GameModel.ScenarioTopRowWin | tutorial_reactjs/my-app/src/index.js:73-128 | Clicking 0, 3, 1, 4, 2 from the start gives step 5, X on the top row, and status "Winner: X". |
| GameModel.ScenarioJumpBackAndReplay | tutorial_reactjs/my-app/src/index.js:73-100 | Playing 5, then jumping to the start and playing 5 again, drops the old future: two entries remain and square 5 holds X. |
| TicTacToe.Slice | tutorial_reactjs/my-app/src/index.js:77 | `squares.slice()` returns a fresh array with the same contents. |
| TicTacToe.Game.constructor | tutorial_reactjs/my-app/src/index.js:60-71 | The new component satisfies the class invariant, and its abstract state is `GameModel.Init()`. |
| TicTacToe.Game.HandleClick | tutorial_reactjs/my-app/src/index.js:73-93 | Keeps the class invariant and moves the abstract state exactly as `GameModel.HandleClick` does. Every array already in the history keeps its contents, and only fresh arrays are added. |
| TicTacToe.Game.Push | tutorial_reactjs/my-app/src/index.js:85-92 | The accepting `setState` keeps history entries `0..stepNumber` and appends the new entry. It advances the step by one and flips the turn, keeping the class invariant. |
| TicTacToe.Game.JumpTo | tutorial_reactjs/my-app/src/index.js:95-100 | Moves the abstract state exactly as `GameModel.JumpTo` does, leaving the history (entries and arrays) unchanged. |
| TicTacToe.Game.Status | tutorial_reactjs/my-app/src/index.js:123-128 | The status computed from the current entry's array equals `GameModel.Status` of the abstract state. |

## Left out

- React rendering: the `Square` and `Board` components and the JSX of `Game.render` only build markup.
- The move-list captions ("Go to move #n, (c,r)") are not modelled, apart from the stored `lastColRowSelected` caption they read.
- The bold highlight that compares the selected square's caption with each entry's caption is not modelled; it is presentation only.
- `ReactDOM.render`, the CSS import and `console.log(i)` are left out; they are I/O with no effect on the state.
- The commented-out class version of `Square` is left out.
- React's asynchronous, batched `setState` is modelled as plain sequential field assignments.
  - `handleClick` reads `xIsNext` before either update, so the order does not change the result.
- The initial entry's caption is written `(0,0)`, which the comma operator evaluates to `0`. It is modelled as `None`, "no move".
- TicTacToe.Game.JumpTo: requires step to be a history index, which the original does not check. Its callers are the move-list buttons, whose indices come from `history.map`. The unchecked function `GameModel.JumpTo` is total, and `GameModel.JumpToOutOfRange` shows what an out-of-range step does to the invariant.
- TicTacToe.Game.HandleClick: requires `i < 9`; the board only ever passes 0..8.
- The class invariant `TicTacToe.Game.Valid` keeps only the well-formedness of the abstract state. Legality of the history, i.e. that it is reachable by play, is proved on the value model (`GameModel.HandleClickValid`), which the class methods are proved to follow step for step.
- A square value is a JavaScript string or `null`; it is modelled as the three-valued `Cell`. No other value can occur.
