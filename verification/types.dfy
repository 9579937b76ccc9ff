/** Values shared by the whole engine: the three-valued cell, the 9-cell
    board, an index triple of the board, the evaluator's result record and
    the game mode. */
module Types {

  /** A cell holds 'X', 'O' or nothing (the source's `null`). */
  datatype Player = X | O | Empty

  /** A board index, 0..8, row-major. */
  type Cell = i: int | 0 <= i < 9

  /** A board snapshot: exactly nine cells. */
  type Board = s: seq<Player> | |s| == 9
    witness [Empty, Empty, Empty, Empty, Empty, Empty, Empty, Empty, Empty]

  const EmptyBoard: Board := [Empty, Empty, Empty, Empty, Empty, Empty, Empty, Empty, Empty]

  /** Three board indices, one entry of the winning-line table. */
  datatype Line = Line(a: Cell, b: Cell, c: Cell)

  datatype Option<T> = None | Some(value: T)

  /** What the outcome evaluator reports: the winning mark (or Empty), the
      winning line (or None) and whether the board is a draw. */
  datatype WinResult = WinResult(winner: Player, line: Option<Line>, isDraw: bool)

  datatype GameMode = PvP | PvC

  /** Number of entries of `s` equal to `p`: the length of `s.filter(v => v === p)`. */
  function Count(s: seq<Player>, p: Player): (n: nat)
    ensures n <= |s|
    ensures n == 0 <==> p !in s
    ensures n == |s| <==> forall j :: 0 <= j < |s| ==> s[j] == p
  {
    if s == [] then 0
    else (if s[0] == p then 1 else 0) + Count(s[1..], p)
  }

  /** Every cell is occupied: `squares.every(square => square !== null)`. */
  predicate IsFull(squares: Board)
    ensures IsFull(squares) <==> Empty !in squares
  {
    forall j :: 0 <= j < 9 ==> squares[j] != Empty
  }

  /** Writing `p` over an empty cell raises the count of `p` by one, lowers
      the count of Empty by one and leaves every other count alone. */
  lemma {:induction false} CountUpdate(s: seq<Player>, j: int, p: Player, q: Player)
    requires 0 <= j < |s| && s[j] == Empty && p != Empty
    ensures Count(s[j := p], q) ==
              if q == p then Count(s, q) + 1
              else if q == Empty then Count(s, q) - 1
              else Count(s, q)
  {
    if j > 0 {
      assert s[j := p][1..] == s[1..][j - 1 := p];
      CountUpdate(s[1..], j - 1, p, q);
    } else {
      assert s[j := p][1..] == s[1..];
    }
  }

  /** The count over a line's three values, written out. */
  lemma CountThree(x: Player, y: Player, z: Player, p: Player)
    ensures Count([x, y, z], p) ==
              (if x == p then 1 else 0) + (if y == p then 1 else 0) + (if z == p then 1 else 0)
  {
    assert [x, y, z][1..] == [y, z];
    assert [y, z][1..] == [z];
    assert [z][1..] == [];
  }
}
