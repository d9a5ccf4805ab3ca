/**
 * The `Game` component: its state fields updated in place by `handleClick` and
 * `jumpTo`, with each history entry holding the array its move wrote into.
 * Each method is proved against the value-level transitions of module GameModel.
 */
module TicTacToe {
  import opened Wrappers
  import opened Rules
  import GameModel

  /** One element of `this.state.history`: the squares array and the caption of its move. */
  datatype HistoryEntry = HistoryEntry(squares: array<Cell>, lastColRowSelected: Option<string>)

  /** `squares.slice()`: a fresh array with the same contents. */
  method Slice(a: array<Cell>) returns (b: array<Cell>)
    ensures fresh(b) && b[..] == a[..]
  {
    b := new Cell[a.Length](j requires 0 <= j < a.Length reads a => a[j]);
  }

  class Game {
    var history: seq<HistoryEntry>
    var stepNumber: nat
    var xIsNext: bool
    var selectedSquare: nat

    /** The history as values: the contents of each entry's array, with its caption. */
    ghost var Snapshots: seq<GameModel.Snapshot>
    /** The squares arrays of the history. */
    ghost var Repr: set<array<Cell>>

    /** The component state as a value. */
    ghost function State(): GameModel.State
      reads this
    {
      GameModel.State(Snapshots, stepNumber, xIsNext, selectedSquare)
    }

    /** Each entry's array is in Repr and holds the board of its snapshot; the value state is well formed. */
    ghost predicate Valid()
      reads this, Repr
    {
      |history| == |Snapshots| &&
      (forall k :: 0 <= k < |history| ==>
        history[k].squares in Repr &&
        history[k].squares.Length == 9 &&
        history[k].squares[..] == Snapshots[k].squares &&
        history[k].lastColRowSelected == Snapshots[k].lastColRowSelected) &&
      GameModel.WellFormed(State())
    }

    /** The constructor: one entry with an all-empty board, X to move. */
    constructor ()
      ensures Valid() && fresh(Repr)
      ensures State() == GameModel.Init()
    {
      var squares := new Cell[9](_ => Empty);
      history := [HistoryEntry(squares, None)];
      stepNumber, xIsNext, selectedSquare := 0, true, 0;
      Snapshots := [GameModel.Start];
      Repr := {squares};
      assert squares[..] == EmptyBoard;
    }

    /**
     * `handleClick(i)`: the move is written into a fresh copy of the current board, so
     * every array already in the history keeps its contents.
     */
    method HandleClick(i: nat)
      requires Valid() && i < 9
      modifies this
      ensures Valid() && fresh(Repr - old(Repr))
      ensures State() == GameModel.HandleClick(old(State()), i)
      ensures forall a :: a in old(Repr) ==> a[..] == old(a[..])
    {
      ghost var s := State();
      var current := history[stepNumber];
      var squares := Slice(current.squares);
      assert squares[..] == GameModel.Current(s);
      selectedSquare := i;
      var winner := CalculateWinner(squares);
      if winner != Empty || squares[i] != Empty {
        return;
      }
      squares[i] := if xIsNext then X else O;
      ghost var next := GameModel.Snapshot(squares[..], Some(ColumnRow(i)));
      Push(squares, Some(ColumnRow(i)), next);
    }

    /**
     * The accepting half of `handleClick`: drop the entries after the current one, append
     * the new entry and move to it with the other player to play.
     */
    method Push(squares: array<Cell>, caption: Option<string>, ghost next: GameModel.Snapshot)
      requires Valid() && squares !in Repr && squares.Length == 9
      requires squares[..] == next.squares && caption == next.lastColRowSelected
      modifies this
      ensures Valid() && Repr == old(Repr) + {squares}
      ensures Snapshots == old(Snapshots[..stepNumber + 1]) + [next]
      ensures stepNumber == old(stepNumber) + 1 && xIsNext == !old(xIsNext)
      ensures selectedSquare == old(selectedSquare)
    {
      var hist := history[..stepNumber + 1];
      ghost var snaps := Snapshots[..stepNumber + 1];
      history, stepNumber, xIsNext := hist + [HistoryEntry(squares, caption)], |hist|, !xIsNext;
      Snapshots, Repr := snaps + [next], Repr + {squares};
      forall k | 0 <= k < |history|
        ensures history[k].squares in Repr && history[k].squares.Length == 9
        ensures history[k].squares[..] == Snapshots[k].squares
        ensures history[k].lastColRowSelected == Snapshots[k].lastColRowSelected
      {
        if k < |hist| {
          assert history[k] == old(history[k]) && Snapshots[k] == old(Snapshots[k]);
        }
      }
    }

    /** `jumpTo(step)`: move to an earlier or later entry of the history without changing it. */
    method JumpTo(step: nat)
      requires Valid() && step < |history|
      modifies this
      ensures Valid() && Repr == old(Repr)
      ensures State() == GameModel.JumpTo(old(State()), step)
      ensures history == old(history)
    {
      GameModel.WellFormedKept(State(), 0, step);
      stepNumber := step;
      xIsNext := step % 2 == 0;
    }

    /** The status line, computed as the render does: from the winner of the current board. */
    method Status() returns (status: string)
      requires Valid()
      ensures status == GameModel.Status(State())
    {
      var winner := CalculateWinner(history[stepNumber].squares);
      if winner != Empty {
        status := "Winner: " + GameModel.Show(winner);
      } else {
        status := "Next player: " + (if xIsNext then "X" else "O");
      }
    }
  }
}
