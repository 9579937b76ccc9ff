/** The outcome evaluator: the fixed table of winning lines and
    `calculateWinner`, which scans it in order. */
module Outcome {
  import opened Types

  /** The 3 rows, the 3 columns and the 2 diagonals, in the source's order. */
  const WinningLines: seq<Line> := [
    Line(0, 1, 2),
    Line(3, 4, 5),
    Line(6, 7, 8),
    Line(0, 3, 6),
    Line(1, 4, 7),
    Line(2, 5, 8),
    Line(0, 4, 8),
    Line(2, 4, 6)
  ]

  /** Line `l` is a row of the board: three consecutive cells starting at
      the first column. */
  predicate IsRow(l: Line)
  {
    l.a % 3 == 0 && l.b == l.a + 1 && l.c == l.a + 2
  }

  /** Line `l` is a column: three cells a row apart, starting on the top row. */
  predicate IsColumn(l: Line)
  {
    l.a < 3 && l.b == l.a + 3 && l.c == l.a + 6
  }

  /** Line `l` is one of the two diagonals through the centre. */
  predicate IsDiagonal(l: Line)
  {
    l == Line(0, 4, 8) || l == Line(2, 4, 6)
  }

  /** The table's order: the three rows top to bottom, then the three
      columns left to right, then the two diagonals. */
  lemma WinningLinesOrder()
    ensures |WinningLines| == 8
    ensures forall k :: 0 <= k < 3 ==> IsRow(WinningLines[k]) && WinningLines[k].a == 3 * k
    ensures forall k :: 3 <= k < 6 ==> IsColumn(WinningLines[k]) && WinningLines[k].a == k - 3
    ensures forall k :: 6 <= k < 8 ==> IsDiagonal(WinningLines[k])
  {
    forall k | 0 <= k < 8
      ensures k < 3 ==> IsRow(WinningLines[k]) && WinningLines[k].a == 3 * k
      ensures 3 <= k < 6 ==> IsColumn(WinningLines[k]) && WinningLines[k].a == k - 3
      ensures 6 <= k ==> IsDiagonal(WinningLines[k])
    {
      if k == 0 {} else if k == 1 {} else if k == 2 {} else if k == 3 {}
      else if k == 4 {} else if k == 5 {} else if k == 6 {} else {}
    }
  }

  /** The table holds exactly the rows, the columns and the diagonals:
      each entry is one of them and each of them is an entry. */
  lemma WinningLinesTable()
    ensures forall k :: 0 <= k < |WinningLines| ==>
              IsRow(WinningLines[k]) || IsColumn(WinningLines[k]) || IsDiagonal(WinningLines[k])
    ensures forall l :: IsRow(l) || IsColumn(l) || IsDiagonal(l) ==> l in WinningLines
  {
    WinningLinesOrder();
    forall l | IsRow(l) || IsColumn(l) || IsDiagonal(l)
      ensures l in WinningLines
    {
      if IsRow(l) {
        assert l.a / 3 < 3 && l == WinningLines[l.a / 3];
      } else if IsColumn(l) {
        assert l == WinningLines[3 + l.a];
      } else {
        assert l == WinningLines[6] || l == WinningLines[7];
      }
    }
  }

  /** The three cells of `l` hold the same non-empty mark. */
  predicate LineComplete(squares: Board, l: Line)
  {
    squares[l.a] != Empty && squares[l.a] == squares[l.b] && squares[l.a] == squares[l.c]
  }

  /** Some line of the table is complete. */
  predicate HasCompleteLine(squares: Board)
  {
    exists k :: 0 <= k < |WinningLines| && LineComplete(squares, WinningLines[k])
  }

  /** Lines `i` onwards of the table, tried in order (one iteration of the
      loop per call); the first complete one decides the winner, and when
      none is, the board is a draw exactly when it is full. */
  function ScanLines(squares: Board, i: nat): (r: WinResult)
    requires i <= |WinningLines|
    ensures r.winner != Empty <==> r.line.Some?
    ensures r.line.Some? ==>
              && r.line.value in WinningLines[i..]
              && LineComplete(squares, r.line.value)
              && r.winner == squares[r.line.value.a]
              && !r.isDraw
    ensures r.line.None? ==>
              && (forall k :: i <= k < |WinningLines| ==> !LineComplete(squares, WinningLines[k]))
              && (r.isDraw <==> IsFull(squares))
    decreases |WinningLines| - i
  {
    if i == |WinningLines| then
      WinResult(Empty, None, IsFull(squares))
    else if LineComplete(squares, WinningLines[i]) then
      WinResult(squares[WinningLines[i].a], Some(WinningLines[i]), false)
    else
      ScanLines(squares, i + 1)
  }

  /** `calculateWinner`: the winner and winning line of the board, or
      whether it is a draw. A winner is reported exactly when some line is
      complete, the reported line is one of the table and holds the winner
      in all three cells, and a draw is reported exactly when no line is
      complete and the board is full, so never together with a winner. */
  function CalculateWinner(squares: Board): (r: WinResult)
    ensures r.winner != Empty <==> HasCompleteLine(squares)
    ensures r.winner != Empty <==> r.line.Some?
    ensures r.line.Some? ==>
              && r.line.value in WinningLines
              && squares[r.line.value.a] == r.winner
              && squares[r.line.value.b] == r.winner
              && squares[r.line.value.c] == r.winner
    ensures r.isDraw <==> !HasCompleteLine(squares) && IsFull(squares)
    ensures !(r.winner != Empty && r.isDraw)
  {
    var r := ScanLines(squares, 0);
    assert r.line.Some? ==> exists k :: 0 <= k < |WinningLines| && WinningLines[k] == r.line.value;
    r
  }

  /** The scan from `i` stops at the first complete line at or after `i`. */
  lemma {:induction false} ScanLinesFirst(squares: Board, i: nat, k: nat)
    requires i <= k < |WinningLines|
    requires LineComplete(squares, WinningLines[k])
    requires forall j :: i <= j < k ==> !LineComplete(squares, WinningLines[j])
    ensures ScanLines(squares, i) ==
              WinResult(squares[WinningLines[k].a], Some(WinningLines[k]), false)
    decreases k - i
  {
    if i < k {
      ScanLinesFirst(squares, i + 1, k);
    }
  }

  /** When several lines are complete, `calculateWinner` reports the first
      of them in table order, with the mark that fills it. */
  lemma FirstCompleteLineWins(squares: Board, k: nat)
    requires k < |WinningLines|
    requires LineComplete(squares, WinningLines[k])
    requires forall j :: 0 <= j < k ==> !LineComplete(squares, WinningLines[j])
    ensures CalculateWinner(squares) ==
              WinResult(squares[WinningLines[k].a], Some(WinningLines[k]), false)
  {
    ScanLinesFirst(squares, 0, k);
  }

  /** A move on a board with no complete line can only complete lines
      through the cell it fills, so any winner reported afterwards is the
      mark just played. */
  lemma PlacingWinsOnlyForMover(squares: Board, m: Cell, p: Player)
    requires squares[m] == Empty && p != Empty
    requires !HasCompleteLine(squares)
    ensures CalculateWinner(squares[m := p]).winner in {Empty, p}
  {
    var after: Board := squares[m := p];
    var r := CalculateWinner(after);
    if r.line.Some? {
      var l := r.line.value;
      assert !LineComplete(squares, l);
      assert l.a == m || l.b == m || l.c == m;
    }
  }
}
