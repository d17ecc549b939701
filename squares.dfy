/** Squares of the board and their algebraic labels ("e4"), as the
    application converts between a clicked square's label and the (x, y)
    coordinates the search works on. */
module Squares {
  import opened Wrappers

  /** The side length of the board the application draws and solves. */
  const BoardSize: nat := 8

  /** A square by file (`x`, 0 for file 'a') and rank (`y`, 0 for rank '1').
      Coordinates are unbounded integers: the search forms candidate
      squares off the board before it tests them. */
  datatype Pos = Pos(x: int, y: int)

  /** A label the board can produce: one file letter 'a'..'h' and one rank
      digit '1'..'8'. */
  predicate IsLabel(s: string) {
    |s| == 2 && 'a' <= s[0] <= 'h' && '1' <= s[1] <= '8'
  }

  predicate IsDigit(c: char) {
    '0' <= c <= '9'
  }

  /** The label of the square at (x, y): the letter with code 97 + x
      followed by the decimal rank y + 1. */
  function PosToSquare(x: int, y: int): (s: string)
    requires 0 <= x < BoardSize && 0 <= y < BoardSize
    ensures IsLabel(s)
  {
    [(97 + x) as char] + [(48 + (y + 1)) as char]
  }

  /** The coordinates of a label: the code of its first character minus 97
      and the value of its second character as a decimal digit, minus one.
      Only the first two characters are read. A missing or non-digit second
      character makes the rank `NaN` in the source; that is `None` here. */
  function SquareToPos(s: string): (r: Option<Pos>)
    ensures r.Some? <==> |s| >= 2 && IsDigit(s[1])
    ensures r.Some? ==> -1 <= r.value.y <= 8
  {
    if |s| < 2 || !IsDigit(s[1]) then None
    else Some(Pos(s[0] as int - 97, (s[1] as int - 48) - 1))
  }

  /** Converting a square on the board to its label and back gives the
      square again. */
  lemma PosRoundTrip(x: int, y: int)
    requires 0 <= x < BoardSize && 0 <= y < BoardSize
    ensures SquareToPos(PosToSquare(x, y)) == Some(Pos(x, y))
  {
  }

  /** Converting a board label to coordinates gives a square on the board,
      and converting that square back gives the label again. */
  lemma LabelRoundTrip(s: string)
    requires IsLabel(s)
    ensures SquareToPos(s).Some?
    ensures 0 <= SquareToPos(s).value.x < BoardSize && 0 <= SquareToPos(s).value.y < BoardSize
    ensures PosToSquare(SquareToPos(s).value.x, SquareToPos(s).value.y) == s
  {
  }

  /** Labels and squares are in one-to-one correspondence: two squares on
      the board with the same label are the same square. */
  lemma PosToSquareInjective(x1: int, y1: int, x2: int, y2: int)
    requires 0 <= x1 < BoardSize && 0 <= y1 < BoardSize
    requires 0 <= x2 < BoardSize && 0 <= y2 < BoardSize
    ensures PosToSquare(x1, y1) == PosToSquare(x2, y2) <==> x1 == x2 && y1 == y2
  {
    if PosToSquare(x1, y1) == PosToSquare(x2, y2) {
      PosRoundTrip(x1, y1);
      PosRoundTrip(x2, y2);
    }
  }
}
