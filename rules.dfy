/**
 * The two pure helpers of the game: winner detection over the eight fixed
 * lines of a 3x3 board, and the fixed table of "(column,row)" captions.
 */
module Rules {

  /** A square of the board: `null`, `'X'` or `'O'` in the original. */
  datatype Cell = Empty | X | O

  /** A board index, 0..8 in row-major order. */
  type Square = i: int | 0 <= i < 9

  /** Nine cells, row-major (`Array(9)` in the original). */
  type Board = b: seq<Cell> | |b| == 9
    witness [Empty, Empty, Empty, Empty, Empty, Empty, Empty, Empty, Empty]

  /** One of the eight winning lines: three board indices. */
  type Line = (Square, Square, Square)

  /** The eight lines, in the order the original scans them: rows, columns, diagonals. */
  const Lines: seq<Line> := [
    (0, 1, 2), (3, 4, 5), (6, 7, 8),
    (0, 3, 6), (1, 4, 7), (2, 5, 8),
    (0, 4, 8), (2, 4, 6)
  ]

  /** The test the original applies to a line: first cell occupied and equal to the other two. */
  predicate Uniform(b: Board, line: Line) {
    b[line.0] != Empty && b[line.0] == b[line.1] && b[line.0] == b[line.2]
  }

  /** The mark of the first uniform line among lines, or Empty when there is none. */
  function FirstWin(b: Board, lines: seq<Line>): Cell {
    if lines == [] then Empty
    else if Uniform(b, lines[0]) then b[lines[0].0]
    else FirstWin(b, lines[1..])
  }

  /**
   * The meaning of the scan: a non-empty answer is the mark of a uniform line with
   * no uniform line before it, and Empty means that no line is uniform.
   */
  lemma {:induction false} FirstWinMeaning(b: Board, lines: seq<Line>)
    ensures var w := FirstWin(b, lines);
      w != Empty ==>
        exists j :: 0 <= j < |lines| && Uniform(b, lines[j]) && b[lines[j].0] == w &&
          forall j' :: 0 <= j' < j ==> !Uniform(b, lines[j'])
    ensures FirstWin(b, lines) == Empty ==> forall j :: 0 <= j < |lines| ==> !Uniform(b, lines[j])
  {
    if lines != [] && !Uniform(b, lines[0]) {
      FirstWinMeaning(b, lines[1..]);
      var w := FirstWin(b, lines);
      if w != Empty {
        var j :| 0 <= j < |lines[1..]| && Uniform(b, lines[1..][j]) && b[lines[1..][j].0] == w &&
          forall j' :: 0 <= j' < j ==> !Uniform(b, lines[1..][j']);
        assert lines[j + 1] == lines[1..][j];
        assert forall j' :: 1 <= j' < j + 1 ==> lines[j'] == lines[1..][j' - 1];
      } else {
        assert forall j :: 1 <= j < |lines| ==> lines[j] == lines[1..][j - 1];
      }
    }
  }

  /** What `calculateWinner` answers for a board: the winning mark, or Empty for `null`. */
  function Winner(b: Board): Cell {
    FirstWin(b, Lines)
  }

  /** Some line holds three equal marks m. */
  ghost predicate HasLine(b: Board, m: Cell) {
    exists j :: 0 <= j < |Lines| && Uniform(b, Lines[j]) && b[Lines[j].0] == m
  }

  /**
   * calculateWinner is exact: it answers a mark m only when some line holds
   * three m's, and it answers `null` exactly when no line holds three equal marks.
   */
  lemma WinnerCharacterized(b: Board)
    ensures Winner(b) != Empty ==> HasLine(b, Winner(b))
    ensures Winner(b) == Empty <==> (forall j :: 0 <= j < |Lines| ==> !Uniform(b, Lines[j]))
  {
    FirstWinMeaning(b, Lines);
    var w := FirstWin(b, Lines);
    if w == Empty {
    } else {
      var j :| 0 <= j < |Lines| && Uniform(b, Lines[j]) && b[Lines[j].0] == w &&
        forall j' :: 0 <= j' < j ==> !Uniform(b, Lines[j']);
      assert Uniform(b, Lines[j]);
    }
  }

  /** A uniform line always yields some winner, and that winner is X or O. */
  lemma WinnerOfUniformLine(b: Board, j: nat)
    requires j < |Lines| && Uniform(b, Lines[j])
    ensures Winner(b) != Empty && HasLine(b, Winner(b))
  {
    WinnerCharacterized(b);
  }

  /** The all-empty board of `Array(9).fill(null)`. */
  const EmptyBoard: Board := [Empty, Empty, Empty, Empty, Empty, Empty, Empty, Empty, Empty]

  /** The initial board has no winner. */
  lemma {:induction false} EmptyBoardHasNoWinner()
    ensures Winner(EmptyBoard) == Empty
  {
    forall j | 0 <= j < |Lines| ensures !Uniform(EmptyBoard, Lines[j]) {
      assert EmptyBoard[Lines[j].0] == Empty;
    }
    WinnerCharacterized(EmptyBoard);
  }

  /**
   * `calculateWinner`: scans the lines in order and returns the mark of the
   * first uniform one, or Empty. It has no modifies clause, so it leaves the board untouched.
   */
  method CalculateWinner(squares: array<Cell>) returns (winner: Cell)
    requires squares.Length == 9
    ensures winner == Winner(squares[..])
  {
    var i := 0;
    while i < |Lines|
      invariant 0 <= i <= |Lines|
      invariant FirstWin(squares[..], Lines[i..]) == Winner(squares[..])
    {
      var (a, b, c) := Lines[i];
      if squares[a] != Empty && squares[a] == squares[b] && squares[a] == squares[c] {
        return squares[a];
      }
      i := i + 1;
    }
    return Empty;
  }

  /** The decimal digit d as a character. */
  function Digit(d: nat): char
    requires d < 10
  {
    (('0' as int) + d) as char
  }

  /**
   * `calculateColumnRow`: the caption of a square, looked up in a fixed table.
   * The table is the one-based "(column,row)" of the square in a row-major 3x3 grid.
   */
  function ColumnRow(square: Square): (caption: string)
    ensures caption == "(" + [Digit(square % 3 + 1)] + "," + [Digit(square / 3 + 1)] + ")"
  {
    ["(1,1)", "(2,1)", "(3,1)",
     "(1,2)", "(2,2)", "(3,2)",
     "(1,3)", "(2,3)", "(3,3)"][square]
  }

  /** Distinct squares get distinct captions, so a caption identifies its square. */
  lemma ColumnRowInjective(i: Square, j: Square)
    requires ColumnRow(i) == ColumnRow(j)
    ensures i == j
  {
    assert ColumnRow(i)[1] == ColumnRow(j)[1] && ColumnRow(i)[3] == ColumnRow(j)[3];
    assert i % 3 == j % 3 && i / 3 == j / 3;
  }
}
