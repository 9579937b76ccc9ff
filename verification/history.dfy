/** The move-history manager: the component state `history` (every
    snapshot of the board so far) and `currentMove` (the snapshot shown),
    with `handlePlay`, `jumpTo` and `resetGame`. Whose turn it is is never
    stored: it is the parity of `currentMove`. */
module History {
  import opened Types
  import opened Outcome
  import opened Heuristic

  /** The mark placed by move number `move` (counting from 0): 'X' when the
      cursor is even (`xIsNext`), 'O' when it is odd. */
  function MarkFor(move: nat): (p: Player)
    ensures p != Empty
  {
    if move % 2 == 0 then X else O
  }

  /** `next` is `prev` with one empty cell filled by the mark of move
      number `move`. */
  ghost predicate IsStep(prev: Board, next: Board, move: nat)
  {
    exists j :: 0 <= j < 9 && prev[j] == Empty && next == prev[j := MarkFor(move)]
  }

  /** Snapshot `k + 1` of `h` follows snapshot `k` by move number `k`. */
  ghost predicate StepAt(h: seq<Board>, k: nat)
    requires k + 1 < |h|
  {
    IsStep(h[k], h[k + 1], k)
  }

  /** The history invariant: it starts from the empty board, each snapshot
      is its predecessor with one more move of the right player, and no
      snapshot but the last has a complete line (play stops at a win). */
  ghost predicate WellFormed(h: seq<Board>)
  {
    && |h| >= 1
    && h[0] == EmptyBoard
    && (forall k :: 0 <= k < |h| - 1 ==> StepAt(h, k))
    && (forall k :: 0 <= k < |h| - 1 ==> !HasCompleteLine(h[k]))
  }

  /** A successful play keeps the invariant: the history cut after the
      cursor, extended by the cursor's snapshot with cell `i` set to the
      mover's mark, is well formed. */
  lemma PlayPreservesWellFormed(h: seq<Board>, c: nat, i: Cell)
    requires WellFormed(h) && c < |h|
    requires !HasCompleteLine(h[c]) && h[c][i] == Empty
    ensures WellFormed(h[..c + 1] + [h[c][i := MarkFor(c)]])
  {
    var h' := h[..c + 1] + [h[c][i := MarkFor(c)]];
    assert |h'| == c + 2;
    forall k | 0 <= k < |h'| - 1
      ensures StepAt(h', k)
    {
      if k < c {
        assert StepAt(h, k);
        assert h'[k] == h[k] && h'[k + 1] == h[k + 1];
      } else {
        assert h'[k] == h[c] && h'[k + 1] == h[c][i := MarkFor(c)];
      }
    }
    forall k | 0 <= k < |h'| - 1
      ensures !HasCompleteLine(h'[k])
    {
      assert h'[k] == h[k];
    }
  }

  /** Snapshot `k` holds exactly `k` marks: ceil(k/2) of 'X' and floor(k/2)
      of 'O'; so 'X' is to move exactly when both marks are equally many. */
  lemma {:induction false} MarkCounts(h: seq<Board>, k: nat)
    requires WellFormed(h) && k < |h|
    ensures Count(h[k], X) == (k + 1) / 2
    ensures Count(h[k], O) == k / 2
    ensures Count(h[k], Empty) == 9 - k
    ensures MarkFor(k) == X <==> Count(h[k], X) == Count(h[k], O)
  {
    if k == 0 {
      EmptyBoardCounts();
      assert h[k] == EmptyBoard;
    } else {
      MarkCounts(h, k - 1);
      StepCounts(h, k);
      assert Count(h[k], Empty) == 9 - k;
      if (k - 1) % 2 == 0 {
        assert (k + 1) / 2 == k / 2 + 1 && k / 2 == (k - 1) / 2;
      } else {
        assert (k + 1) / 2 == k / 2 && k / 2 == (k - 1) / 2 + 1;
      }
    }
  }

  /** The empty board holds no mark and nine empty cells. */
  lemma EmptyBoardCounts()
    ensures Count(EmptyBoard, X) == 0 && Count(EmptyBoard, O) == 0
    ensures Count(EmptyBoard, Empty) == 9
  {
    assert X !in EmptyBoard && O !in EmptyBoard;
  }

  /** Each move adds one mark of the mover and removes one empty cell. */
  lemma StepCounts(h: seq<Board>, k: nat)
    requires WellFormed(h) && 0 < k < |h|
    ensures Count(h[k], X) == Count(h[k - 1], X) + (if (k - 1) % 2 == 0 then 1 else 0)
    ensures Count(h[k], O) == Count(h[k - 1], O) + (if (k - 1) % 2 == 0 then 0 else 1)
    ensures Count(h[k], Empty) == Count(h[k - 1], Empty) - 1
  {
    assert StepAt(h, k - 1);
    var j :| 0 <= j < 9 && h[k - 1][j] == Empty && h[k] == h[k - 1][j := MarkFor(k - 1)];
    CountUpdate(h[k - 1], j, MarkFor(k - 1), X);
    CountUpdate(h[k - 1], j, MarkFor(k - 1), O);
    CountUpdate(h[k - 1], j, MarkFor(k - 1), Empty);
  }

  /** A well-formed history holds at most ten snapshots: nine moves fill
      the board. */
  lemma HistoryAtMostTen(h: seq<Board>)
    requires WellFormed(h)
    ensures |h| <= 10
  {
    MarkCounts(h, |h| - 1);
  }

  /** Consecutive snapshots differ in exactly one cell, which goes from
      empty to the mark of the player who moved. */
  lemma SnapshotsDifferInOneCell(h: seq<Board>, k: nat)
    requires WellFormed(h) && 0 < k < |h|
    ensures |set q: Cell | h[k - 1][q] != h[k][q]| == 1
    ensures forall q: Cell :: h[k - 1][q] != h[k][q] ==> h[k - 1][q] == Empty && h[k][q] == MarkFor(k - 1)
  {
    assert StepAt(h, k - 1);
    var j: Cell :| h[k - 1][j] == Empty && h[k] == h[k - 1][j := MarkFor(k - 1)];
    assert (set q: Cell | h[k - 1][q] != h[k][q]) == {j};
  }

  /** Every complete line of a snapshot of the history holds the mark of
      the player who made the last move into it, so any winner the
      evaluator reports is that player. */
  lemma WinnerIsLastMover(h: seq<Board>, k: nat)
    requires WellFormed(h) && 0 < k < |h|
    ensures forall n :: 0 <= n < |WinningLines| && LineComplete(h[k], WinningLines[n]) ==>
              h[k][WinningLines[n].a] == MarkFor(k - 1)
    ensures CalculateWinner(h[k]).winner in {Empty, MarkFor(k - 1)}
  {
    assert StepAt(h, k - 1);
    var j :| 0 <= j < 9 && h[k - 1][j] == Empty && h[k] == h[k - 1][j := MarkFor(k - 1)];
    forall n | 0 <= n < |WinningLines| && LineComplete(h[k], WinningLines[n])
      ensures h[k][WinningLines[n].a] == MarkFor(k - 1)
    {
      assert !LineComplete(h[k - 1], WinningLines[n]);
    }
    PlacingWinsOnlyForMover(h[k - 1], j, MarkFor(k - 1));
  }

  /** When the machine is to move ('O', odd cursor) on a snapshot that is
      neither won nor drawn, its move is an empty cell, so the play it feeds
      back is accepted, and the mark the turn parity gives it is 'O'. */
  lemma MachineMoveIsPlayable(h: seq<Board>, c: nat, rand: real)
    requires WellFormed(h) && c < |h|
    requires 0.0 <= rand < 1.0
    requires c % 2 == 1
    requires CalculateWinner(h[c]).winner == Empty && !CalculateWinner(h[c]).isDraw
    ensures var m := ComputerMove(h[c], rand); 0 <= m < 9 && h[c][m] == Empty
    ensures MarkFor(c) == O
    ensures c < 9 && Count(h[c], Empty) == 9 - c
  {
    MarkCounts(h, c);
  }

  /** The component state of the game. */
  class Game {
    var history: seq<Board>
    var currentMove: nat
    var gameMode: GameMode

    ghost predicate Valid()
      reads this
    {
      currentMove < |history| && WellFormed(history)
    }

    /** The initial state: one empty snapshot, cursor 0, playing the machine. */
    constructor ()
      ensures Valid()
      ensures history == [EmptyBoard] && currentMove == 0 && gameMode == PvC
    {
      history := [EmptyBoard];
      currentMove := 0;
      gameMode := PvC;
    }

    /** `xIsNext`: derived from the cursor, never stored. */
    function XIsNext(): (r: bool)
      reads this
      ensures r <==> MarkFor(currentMove) == X
    {
      currentMove % 2 == 0
    }

    /** `currentSquares`: the snapshot at the cursor. */
    function CurrentSquares(): Board
      reads this
      requires Valid()
    {
      history[currentMove]
    }

    /** `handlePlay(i)`: a no-op when the shown board is won or cell `i` is
        taken; otherwise the history after the cursor is dropped, a copy of
        the shown board with cell `i` set to the mover's mark is appended,
        and the cursor moves to it. */
    method HandlePlay(i: Cell)
      requires Valid()
      modifies this
      ensures Valid() && gameMode == old(gameMode)
      ensures old(CalculateWinner(CurrentSquares()).winner != Empty || CurrentSquares()[i] != Empty) ==>
                history == old(history) && currentMove == old(currentMove)
      ensures old(CalculateWinner(CurrentSquares()).winner == Empty && CurrentSquares()[i] == Empty) ==>
                && history == old(history[..currentMove + 1]) + [old(CurrentSquares()[i := MarkFor(currentMove)])]
                && currentMove == old(currentMove) + 1 == |history| - 1
    {
      var currentSquares := history[currentMove];
      if CalculateWinner(currentSquares).winner != Empty || currentSquares[i] != Empty {
        return;
      }
      var nextSquares := new Player[9](k requires 0 <= k < 9 => currentSquares[k]);
      nextSquares[i] := if XIsNext() then X else O;
      assert nextSquares[..] == currentSquares[i := MarkFor(currentMove)];
      var nextHistory := history[..currentMove + 1] + [nextSquares[..]];
      PlayPreservesWellFormed(history, currentMove, i);
      history := nextHistory;
      currentMove := |nextHistory| - 1;
    }

    /** `jumpTo(move)`: only the cursor changes. */
    method JumpTo(move: nat)
      requires Valid() && move < |history|
      modifies this
      ensures Valid()
      ensures history == old(history) && currentMove == move && gameMode == old(gameMode)
    {
      currentMove := move;
    }

    /** `resetGame(newMode?)`: back to one empty snapshot and cursor 0; the
        mode changes only when a new one is given. */
    method ResetGame(newMode: Option<GameMode>)
      modifies this
      ensures Valid()
      ensures history == [EmptyBoard] && currentMove == 0
      ensures gameMode == if newMode.Some? then newMode.value else old(gameMode)
    {
      history := [EmptyBoard];
      currentMove := 0;
      if newMode.Some? {
        gameMode := newMode.value;
      }
    }
  }
}
