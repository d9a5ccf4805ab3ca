/**
 * The state of the `Game` component as a value, and its transitions as functions:
 * the specification that the `Game` class in module TicTacToe is proved against.
 */
module GameModel {
  import opened Wrappers
  import opened Rules

  /** One history entry: a board and the caption of the move that produced it (None at game start). */
  datatype Snapshot = Snapshot(squares: Board, lastColRowSelected: Option<string>)

  /** `this.state` of `Game`. */
  datatype State = State(history: seq<Snapshot>, stepNumber: nat, xIsNext: bool, selectedSquare: nat)

  /** The mark the next move writes. */
  function Mark(xIsNext: bool): Cell {
    if xIsNext then X else O
  }

  /** The first history entry: an empty board and no move. */
  const Start: Snapshot := Snapshot(EmptyBoard, None)

  /** The state the constructor builds. */
  function Init(): State {
    State([Start], 0, true, 0)
  }

  /** The board shown at the current step. */
  function Current(s: State): Board
    requires s.stepNumber < |s.history|
  {
    s.history[s.stepNumber].squares
  }

  /**
   * `handleClick(i)`: keep the history up to the current step, and if the board there has
   * no winner and square i is empty, append that board with the next mark at i and move
   * to it; square i becomes the selected square in every case.
   */
  function HandleClick(s: State, i: Square): (r: State)
    requires s.stepNumber < |s.history|
    ensures r.stepNumber < |r.history| && r.selectedSquare == i
  {
    var history := s.history[..s.stepNumber + 1];
    var squares := history[|history| - 1].squares;
    if Winner(squares) != Empty || squares[i] != Empty then
      s.(selectedSquare := i)
    else
      State(history + [Snapshot(squares[i := Mark(s.xIsNext)], Some(ColumnRow(i)))],
            |history|, !s.xIsNext, i)
  }

  /** `jumpTo(step)`: no bound check, as in the original. */
  function JumpTo(s: State, step: nat): State {
    s.(stepNumber := step, xIsNext := step % 2 == 0)
  }

  /** The text of a mark. */
  function Show(c: Cell): string
    requires c != Empty
  {
    if c == X then "X" else "O"
  }

  /** The status line shown above the move list. */
  function Status(s: State): string
    requires s.stepNumber < |s.history|
  {
    var winner := Winner(Current(s));
    if winner != Empty then "Winner: " + Show(winner)
    else "Next player: " + (if s.xIsNext then "X" else "O")
  }

  /** next follows prev by a legal move number n: prev has no winner and n's mark fills one empty square. */
  ghost predicate IsMove(prev: Snapshot, next: Snapshot, n: nat) {
    Winner(prev.squares) == Empty &&
    exists i: Square :: prev.squares[i] == Empty &&
      next == Snapshot(prev.squares[i := Mark(n % 2 == 0)], Some(ColumnRow(i)))
  }

  /** A legal history starts at the empty board and each entry follows the one before it by a legal move. */
  ghost predicate LegalHistory(h: seq<Snapshot>) {
    |h| >= 1 && h[0] == Start &&
    forall k, n :: 0 <= k && n == k + 1 && n < |h| ==> IsMove(h[k], h[n], k)
  }

  /** The shape of the component state: the step indexes the history, the turn matches its parity. */
  predicate WellFormed(s: State) {
    s.stepNumber < |s.history| &&
    s.xIsNext == (s.stepNumber % 2 == 0) &&
    s.selectedSquare < 9
  }

  /** The invariant of the component state: well formed, and its history is a line of legal play. */
  ghost predicate Valid(s: State) {
    WellFormed(s) && LegalHistory(s.history)
  }

  lemma InitValid()
    ensures Valid(Init())
  {
  }

  /** handleClick and jumpTo (to a history index) keep the state well formed. */
  lemma WellFormedKept(s: State, i: Square, step: nat)
    requires WellFormed(s)
    ensures WellFormed(HandleClick(s, i))
    ensures step < |s.history| ==> WellFormed(JumpTo(s, step))
  {
    var h := s.history[..s.stepNumber + 1];
    assert h[|h| - 1] == s.history[s.stepNumber];
  }

  /** A prefix of a legal history is legal. */
  lemma LegalPrefix(h: seq<Snapshot>, n: nat)
    requires LegalHistory(h) && 1 <= n <= |h|
    ensures LegalHistory(h[..n])
  {
    forall k, k' | 0 <= k && k' == k + 1 && k' < n ensures IsMove(h[..n][k], h[..n][k'], k) {
      assert h[..n][k] == h[k] && h[..n][k'] == h[k'];
    }
  }

  /**
   * A click on an occupied square, or on a board that already has a winner, changes
   * nothing but the selected square; history is not even truncated.
   */
  lemma HandleClickRejected(s: State, i: Square)
    requires s.stepNumber < |s.history|
    requires Winner(Current(s)) != Empty || Current(s)[i] != Empty
    ensures HandleClick(s, i) == s.(selectedSquare := i)
  {
    assert s.history[..s.stepNumber + 1][s.stepNumber].squares == Current(s);
  }

  /**
   * A click on an empty square of a board without a winner drops the entries after
   * the current step and appends one: the current board with the next mark at i,
   * captioned with i's "(column,row)". The new step is the last index and the turn flips.
   */
  lemma HandleClickAccepted(s: State, i: Square)
    requires s.stepNumber < |s.history|
    requires Winner(Current(s)) == Empty && Current(s)[i] == Empty
    ensures var r := HandleClick(s, i);
      && |r.history| == s.stepNumber + 2 && r.stepNumber == s.stepNumber + 1
      && (forall k :: 0 <= k <= s.stepNumber ==> r.history[k] == s.history[k])
      && r.history[r.stepNumber] == Snapshot(Current(s)[i := Mark(s.xIsNext)], Some(ColumnRow(i)))
      && r.xIsNext == !s.xIsNext && r.selectedSquare == i
  {
    assert s.history[..s.stepNumber + 1][s.stepNumber].squares == Current(s);
  }

  /** The board a move produces differs from the board before it in square i alone, which gets the mover's mark. */
  lemma MoveChangesOneSquare(s: State, i: Square)
    requires s.stepNumber < |s.history|
    requires Winner(Current(s)) == Empty && Current(s)[i] == Empty
    ensures var r := HandleClick(s, i);
      Current(r)[i] == Mark(s.xIsNext) &&
      forall j: Square :: j != i ==> Current(r)[j] == Current(s)[j]
  {
    HandleClickAccepted(s, i);
  }

  /** Appending a legal move to a legal history keeps it legal. */
  lemma AppendMove(h: seq<Snapshot>, next: Snapshot)
    requires LegalHistory(h) && IsMove(h[|h| - 1], next, |h| - 1)
    ensures LegalHistory(h + [next])
  {
    var h' := h + [next];
    forall k, n | 0 <= k && n == k + 1 && n < |h'| ensures IsMove(h'[k], h'[n], k) {
      if n < |h| {
        assert h'[k] == h[k] && h'[n] == h[n];
      }
    }
  }

  /** handleClick keeps the invariant. */
  lemma HandleClickValid(s: State, i: Square)
    requires Valid(s)
    ensures Valid(HandleClick(s, i))
  {
    var h := s.history[..s.stepNumber + 1];
    LegalPrefix(s.history, s.stepNumber + 1);
    var prev := h[|h| - 1];
    assert prev == s.history[s.stepNumber];
    if Winner(prev.squares) == Empty && prev.squares[i] == Empty {
      var next := Snapshot(prev.squares[i := Mark(s.xIsNext)], Some(ColumnRow(i)));
      assert IsMove(prev, next, |h| - 1);
      AppendMove(h, next);
      assert HandleClick(s, i) == State(h + [next], |h|, !s.xIsNext, i);
    }
  }

  /** jumpTo keeps the invariant when the step is a history index, as the move list guarantees. */
  lemma JumpToValid(s: State, step: nat)
    requires Valid(s) && step < |s.history|
    ensures Valid(JumpTo(s, step)) && JumpTo(s, step).history == s.history
  {
  }

  /** An out-of-range step breaks the invariant: the original leaves this to its callers. */
  lemma JumpToOutOfRange(s: State, step: nat)
    requires step >= |s.history|
    ensures !Valid(JumpTo(s, step))
  {
  }

  /** Number of cells of b equal to c. */
  function Count(b: seq<Cell>, c: Cell): (n: nat)
    ensures n <= |b|
  {
    if b == [] then 0 else (if b[0] == c then 1 else 0) + Count(b[1..], c)
  }

  /** Every cell is Empty, X or O. */
  lemma {:induction false} CountTotal(b: seq<Cell>)
    ensures Count(b, Empty) + Count(b, X) + Count(b, O) == |b|
  {
    if b != [] {
      CountTotal(b[1..]);
    }
  }

  /** Overwriting square i with v moves one cell from b[i]'s count to v's count. */
  lemma {:induction false} CountUpdate(b: seq<Cell>, i: nat, v: Cell, c: Cell)
    requires i < |b|
    ensures Count(b[i := v], c) ==
      Count(b, c) - (if b[i] == c then 1 else 0) + (if v == c then 1 else 0)
  {
    if i > 0 {
      assert b[i := v][1..] == b[1..][i - 1 := v];
      CountUpdate(b[1..], i - 1, v, c);
    } else {
      assert b[i := v][1..] == b[1..];
    }
  }

  /** A move adds one mark of its player to the board and takes away one empty square. */
  lemma MoveCounts(prev: Snapshot, next: Snapshot, n: nat)
    requires IsMove(prev, next, n)
    ensures Count(next.squares, Mark(n % 2 == 0)) == Count(prev.squares, Mark(n % 2 == 0)) + 1
    ensures Count(next.squares, Mark(n % 2 != 0)) == Count(prev.squares, Mark(n % 2 != 0))
    ensures Count(next.squares, Empty) == Count(prev.squares, Empty) - 1
  {
    var m := Mark(n % 2 == 0);
    var i: Square :| prev.squares[i] == Empty &&
      next == Snapshot(prev.squares[i := m], Some(ColumnRow(i)));
    CountUpdate(prev.squares, i, m, m);
    CountUpdate(prev.squares, i, m, Mark(n % 2 != 0));
    CountUpdate(prev.squares, i, m, Empty);
  }

  /**
   * In a legal history, the board at step k holds (k+1)/2 X's, k/2 O's and 9-k
   * empty squares: X moves first and the players alternate.
   */
  lemma {:induction false} MarkCounts(h: seq<Snapshot>, k: nat)
    requires LegalHistory(h) && k < |h|
    ensures Count(h[k].squares, X) == (k + 1) / 2
    ensures Count(h[k].squares, O) == k / 2
    ensures Count(h[k].squares, Empty) == 9 - k
  {
    if k == 0 {
      StartCounts();
    } else {
      MarkCounts(h, k - 1);
      assert IsMove(h[k - 1], h[k], k - 1);
      MoveCounts(h[k - 1], h[k], k - 1);
    }
  }

  /** The empty board has nine empty squares and no mark. */
  lemma StartCounts()
    ensures Count(EmptyBoard, X) == 0 && Count(EmptyBoard, O) == 0 && Count(EmptyBoard, Empty) == 9
  {
  }

  /** A game has at most nine moves, so the history never exceeds ten entries. */
  lemma HistoryBound(s: State)
    requires Valid(s)
    ensures |s.history| <= 10
  {
    MarkCounts(s.history, |s.history| - 1);
  }

  /** Three distinct squares holding the mark c make c's count at least three. */
  lemma ThreeCounted(b: seq<Cell>, p: nat, q: nat, r: nat, c: Cell)
    requires p < |b| && q < |b| && r < |b| && p != q && q != r && p != r
    requires b[p] == c && b[q] == c && b[r] == c && c != Empty
    ensures Count(b, c) >= 3
  {
    var b1 := b[p := Empty][q := Empty];
    CountUpdate(b, p, Empty, c);
    CountUpdate(b[p := Empty], q, Empty, c);
    CountUpdate(b1, r, Empty, c);
  }

  /** A mark that wins holds three squares; so with at most two X's and two O's nobody has won. */
  lemma NoWinnerWithFewMarks(b: Board)
    requires Count(b, X) < 3 && Count(b, O) < 3
    ensures Winner(b) == Empty
  {
    WinnerCharacterized(b);
    if Winner(b) != Empty {
      var j :| 0 <= j < |Lines| && Uniform(b, Lines[j]) && b[Lines[j].0] == Winner(b);
      var (p, q, r) := Lines[j];
      assert p != q && q != r && p != r by {
        assert Lines[j] in Lines;
      }
      ThreeCounted(b, p, q, r, Winner(b));
    }
  }

  /** No game is won before its fifth move. */
  lemma NoEarlyWinner(h: seq<Snapshot>, k: nat)
    requires LegalHistory(h) && k < |h| && k < 5
    ensures Winner(h[k].squares) == Empty
  {
    MarkCounts(h, k);
    NoWinnerWithFewMarks(h[k].squares);
  }

  /**
   * On every board of a legal history, all uniform lines carry the mark of the
   * player who moved last; so the winner reported is the only winner, whatever
   * the order in which the lines are scanned.
   */
  lemma {:induction false} OnlyWinner(h: seq<Snapshot>, k: nat, j: nat)
    requires LegalHistory(h) && k < |h| && j < |Lines|
    requires Uniform(h[k].squares, Lines[j])
    ensures k > 0 && h[k].squares[Lines[j].0] == Mark((k - 1) % 2 == 0)
    ensures Winner(h[k].squares) == h[k].squares[Lines[j].0]
  {
    if k == 0 {
      assert false;
    }
    assert IsMove(h[k - 1], h[k], k - 1);
    var prev := h[k - 1].squares;
    var m := Mark((k - 1) % 2 == 0);
    var i: Square :| prev[i] == Empty &&
      h[k] == Snapshot(prev[i := m], Some(ColumnRow(i)));
    WinnerCharacterized(prev);
    // Every uniform line of the new board passes through i, so it holds m.
    forall j' | 0 <= j' < |Lines| && Uniform(h[k].squares, Lines[j'])
      ensures h[k].squares[Lines[j'].0] == m
    {
      if i != Lines[j'].0 && i != Lines[j'].1 && i != Lines[j'].2 {
        assert false;
      }
    }
    WinnerOfUniformLine(h[k].squares, j);
  }

  /**
   * The status line of a valid state: "Winner: " with the mark of the player who
   * moved last when some line is complete, otherwise "Next player: " with the mark
   * a click on an empty square would write.
   */
  lemma StatusMeaning(s: State)
    requires Valid(s)
    ensures (exists j :: 0 <= j < |Lines| && Uniform(Current(s), Lines[j])) ==>
      s.stepNumber > 0 && Status(s) == "Winner: " + Show(Mark(!s.xIsNext))
    ensures (forall j :: 0 <= j < |Lines| ==> !Uniform(Current(s), Lines[j])) ==>
      Status(s) == "Next player: " + Show(Mark(s.xIsNext))
  {
    WinnerCharacterized(Current(s));
    if j :| 0 <= j < |Lines| && Uniform(Current(s), Lines[j]) {
      OnlyWinner(s.history, s.stepNumber, j);
    }
  }

  /** X plays 0, 1, 2 while O plays 3, 4: after X's third move the status is "Winner: X". */
  lemma ScenarioTopRowWin()
    ensures var s := HandleClick(HandleClick(HandleClick(HandleClick(HandleClick(
              Init(), 0), 3), 1), 4), 2);
      s.stepNumber == 5 && Current(s)[0] == Current(s)[1] == Current(s)[2] == X &&
      Status(s) == "Winner: X"
  {
    var s0 := Init();
    InitValid();
    var s1 := ClickEarly(s0, 0);
    var s2 := ClickEarly(s1, 3);
    var s3 := ClickEarly(s2, 1);
    var s4 := ClickEarly(s3, 4);
    var s5 := HandleClick(s4, 2);
    NoEarlyWinner(s4.history, 4);
    assert Current(s5) == [X, X, X, O, O, Empty, Empty, Empty, Empty];
    assert Winner([X, X, X, O, O, Empty, Empty, Empty, Empty]) == X;
  }

  /** One click of a scenario, before the fifth move: it is accepted and keeps the invariant. */
  lemma ClickEarly(s: State, i: Square) returns (r: State)
    requires Valid(s) && s.stepNumber < 4 && Current(s)[i] == Empty
    requires s.stepNumber == |s.history| - 1
    ensures r == HandleClick(s, i) && Valid(r) && r.stepNumber == |r.history| - 1
    ensures r.stepNumber == s.stepNumber + 1 && Current(r) == Current(s)[i := Mark(s.xIsNext)]
  {
    r := HandleClick(s, i);
    NoEarlyWinner(s.history, s.stepNumber);
    HandleClickAccepted(s, i);
    HandleClickValid(s, i);
  }

  /** Jumping back to the start and replaying the same square truncates the future: two entries remain. */
  lemma ScenarioJumpBackAndReplay()
    ensures var s := HandleClick(JumpTo(HandleClick(Init(), 5), 0), 5);
      |s.history| == 2 && s.stepNumber == 1 && Current(s) == EmptyBoard[5 := X]
  {
    EmptyBoardHasNoWinner();
  }
}
