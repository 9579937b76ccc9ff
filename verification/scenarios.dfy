/** Concrete games: the engine's documented examples, stated about the model. */
module Scenarios {
  import opened Types
  import opened Outcome
  import opened Heuristic
  import opened History

  /** 'X' holds cells 0 and 1 and 'O' has no threat: the machine blocks at 2. */
  lemma BlockAtTwo(rand: real)
    requires 0.0 <= rand < 1.0
    ensures ComputerMove([X, X, Empty, Empty, Empty, Empty, Empty, Empty, Empty], rand) == 2
  {
    var b: Board := [X, X, Empty, Empty, Empty, Empty, Empty, Empty, Empty];
    CountThree(X, X, Empty, X);
    CountThree(X, X, Empty, Empty);
    assert !HasCritical(b, O) by {
      forall k | 0 <= k < |WinningLines|
        ensures !Critical(b, WinningLines[k], O)
      {
        var l := WinningLines[k];
        assert O !in LineValues(b, l);
      }
    }
    BlockWhenNoWin(b, rand, 0);
  }

  /** 'O' holds 0 and 1, 'X' holds 3 and 4: winning at 2 beats blocking at 5. */
  lemma WinBeforeBlock(rand: real)
    requires 0.0 <= rand < 1.0
    ensures ComputerMove([O, O, Empty, X, X, Empty, Empty, Empty, Empty], rand) == 2
  {
    var b: Board := [O, O, Empty, X, X, Empty, Empty, Empty, Empty];
    CountThree(O, O, Empty, O);
    CountThree(O, O, Empty, Empty);
    WinTakesPriority(b, rand, 0);
  }

  /** A full board with no complete line is a draw and the machine has no move. */
  lemma FullBoardDraw(rand: real)
    requires 0.0 <= rand < 1.0
    ensures CalculateWinner([X, O, X, X, O, O, O, X, X]) == WinResult(Empty, None, true)
    ensures ComputerMove([X, O, X, X, O, O, O, X, X], rand) == -1
  {
    var b: Board := [X, O, X, X, O, O, O, X, X];
    assert IsFull(b);
    assert !HasCompleteLine(b) by {
      forall k | 0 <= k < |WinningLines|
        ensures !LineComplete(b, WinningLines[k])
      {
      }
    }
  }

  /** Playing cell 0 twice: the second play changes nothing. */
  method PlaySameCellTwice()
  {
    var g := new Game();
    g.HandlePlay(0);
    assert g.history == [EmptyBoard, EmptyBoard[0 := X]] && g.currentMove == 1;
    assert !HasCompleteLine(EmptyBoard[0 := X]);
    g.HandlePlay(0);
    assert |g.history| == 2 && g.currentMove == 1;
  }

  /** Jumping back and playing elsewhere drops the later snapshots. */
  method JumpBackDiscardsRedo()
  {
    var g := new Game();
    g.HandlePlay(4);
    assert !HasCompleteLine(g.history[1]);
    g.HandlePlay(0);
    assert |g.history| == 3;
    g.JumpTo(1);
    assert !g.XIsNext();
    g.HandlePlay(8);
    assert |g.history| == 3 && g.currentMove == 2;
    assert g.history[2] == EmptyBoard[4 := X][8 := O];
  }
}
