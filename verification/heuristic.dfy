/** The machine opponent: `getComputerMove` and its helper
    `findCriticalMove`. The machine always plays 'O' and its opponent 'X'.
    The one random draw (`Math.random()`) is passed in as `rand`, a real in
    [0, 1). */
module Heuristic {
  import opened Types
  import opened Outcome

  const Corners: seq<Cell> := [0, 2, 6, 8]
  const Sides: seq<Cell> := [1, 3, 5, 7]

  /** The three values of a line, in a, b, c order. */
  function LineValues(squares: Board, l: Line): seq<Player>
  {
    [squares[l.a], squares[l.b], squares[l.c]]
  }

  /** The test of `findCriticalMove`: two of the line's values equal
      `player` and one is empty. */
  predicate Critical(squares: Board, l: Line, player: Player)
  {
    Count(LineValues(squares, l), player) == 2 && Count(LineValues(squares, l), Empty) == 1
  }

  /** Some line of the table passes that test. */
  predicate HasCritical(squares: Board, player: Player)
  {
    exists k :: 0 <= k < |WinningLines| && Critical(squares, WinningLines[k], player)
  }

  /** Cell `m` of line `l` is empty and the mark `player` holds the line's
      other two cells, so playing `player` at `m` completes the line. */
  predicate Completes(squares: Board, l: Line, m: Cell, player: Player)
  {
    && player != Empty
    && squares[m] == Empty
    && ((m == l.a && squares[l.b] == player && squares[l.c] == player)
     || (m == l.b && squares[l.a] == player && squares[l.c] == player)
     || (m == l.c && squares[l.a] == player && squares[l.b] == player))
  }

  /** The first empty cell of the line in a, b, c order. */
  function FirstEmptyCell(squares: Board, l: Line): (m: Cell)
    ensures m == l.a || m == l.b || m == l.c
    ensures squares[l.a] == Empty || squares[l.b] == Empty || squares[l.c] == Empty ==>
              && squares[m] == Empty
              && (m != l.a ==> squares[l.a] != Empty)
              && (m != l.a && m != l.b ==> squares[l.b] != Empty)
  {
    if squares[l.a] == Empty then l.a
    else if squares[l.b] == Empty then l.b
    else l.c
  }

  /** The counting test and the positional description agree: a line is
      critical for a mark exactly when its first empty cell is the one the
      mark needs to complete it. */
  lemma CriticalIff(squares: Board, l: Line, player: Player)
    ensures Critical(squares, l, player) <==>
              Completes(squares, l, FirstEmptyCell(squares, l), player)
  {
    CountThree(squares[l.a], squares[l.b], squares[l.c], player);
    CountThree(squares[l.a], squares[l.b], squares[l.c], Empty);
  }

  /** Lines `i` onwards, tried in order (one loop iteration per call): the
      first critical line yields its first empty cell; if there is none, the
      result is None (the source's `null`). */
  function ScanCritical(squares: Board, player: Player, i: nat): (r: Option<Cell>)
    requires i <= |WinningLines|
    ensures r.None? <==>
              forall k :: i <= k < |WinningLines| ==> !Critical(squares, WinningLines[k], player)
    ensures r.Some? ==>
              && squares[r.value] == Empty
              && exists k :: i <= k < |WinningLines| && Completes(squares, WinningLines[k], r.value, player)
    decreases |WinningLines| - i
  {
    if i == |WinningLines| then
      None
    else if Critical(squares, WinningLines[i], player) then
      CriticalIff(squares, WinningLines[i], player);
      Some(FirstEmptyCell(squares, WinningLines[i]))
    else
      ScanCritical(squares, player, i + 1)
  }

  /** `findCriticalMove(player)`: an empty cell that `player` needs to
      complete some line, or None exactly when no line is critical. */
  function FindCriticalMove(squares: Board, player: Player): (r: Option<Cell>)
    ensures r.None? <==> !HasCritical(squares, player)
    ensures r.Some? ==>
              && squares[r.value] == Empty
              && exists k :: 0 <= k < |WinningLines| && Completes(squares, WinningLines[k], r.value, player)
  {
    ScanCritical(squares, player, 0)
  }

  /** The scan from `i` yields the first empty cell of the first critical
      line at or after `i`. */
  lemma {:induction false} ScanCriticalFirst(squares: Board, player: Player, i: nat, k: nat)
    requires i <= k < |WinningLines|
    requires Critical(squares, WinningLines[k], player)
    requires forall j :: i <= j < k ==> !Critical(squares, WinningLines[j], player)
    ensures ScanCritical(squares, player, i) == Some(FirstEmptyCell(squares, WinningLines[k]))
    decreases k - i
  {
    if i < k {
      ScanCriticalFirst(squares, player, i + 1, k);
    }
  }

  /** The cells of `cells` that are empty, in order:
      `cells.filter(i => squares[i] === null)`. */
  function EmptyAmong(squares: Board, cells: seq<Cell>): (r: seq<Cell>)
    ensures |r| <= |cells|
    ensures forall m :: m in r <==> m in cells && squares[m] == Empty
    ensures r == [] <==> forall m :: m in cells ==> squares[m] != Empty
  {
    if cells == [] then []
    else (if squares[cells[0]] == Empty then [cells[0]] else []) + EmptyAmong(squares, cells[1..])
  }

  /** `Math.floor(rand * n)`: an index into a list of length `n`. */
  function RandomIndex(rand: real, n: nat): (k: nat)
    requires 0.0 <= rand < 1.0
    requires 0 < n
    ensures k < n
  {
    var x := rand * n as real;
    ScaleMonotone(rand, 1.0, n as real);
    FloorIs(x, x.Floor);
    x.Floor
  }

  /** Index `j` is drawn exactly when the random source falls in
      [j/n, (j+1)/n): each of the `n` indices has an interval of length 1/n. */
  lemma RandomIndexInterval(rand: real, n: nat, j: nat)
    requires 0.0 <= rand < 1.0
    requires j < n
    ensures RandomIndex(rand, n) == j <==>
              j as real / n as real <= rand < (j + 1) as real / n as real
  {
    FloorIs(rand * n as real, j);
    ScaledInterval(rand, n as real, j as real, (j + 1) as real);
  }

  /** `x` lies in [lo/n, hi/n) exactly when `x * n` lies in [lo, hi). */
  lemma ScaledInterval(x: real, n: real, lo: real, hi: real)
    requires n > 0.0
    ensures lo / n <= x < hi / n <==> lo <= x * n < hi
  {
    DivTimes(lo, n);
    DivTimes(hi, n);
    ScaleMonotone(lo / n, x, n);
    ScaleMonotone(x, hi / n, n);
  }

  /** The floor of `x` is `j` exactly when `x` lies in [j, j+1). */
  lemma FloorIs(x: real, j: int)
    ensures x.Floor == j <==> j as real <= x < (j + 1) as real
  {
    assert x.Floor as real <= x < x.Floor as real + 1.0;
  }

  /** Dividing by a positive number and multiplying back gives the number. */
  lemma DivTimes(a: real, n: real)
    requires n > 0.0
    ensures a / n * n == a
  {
  }

  /** Multiplying by a positive number keeps the order of reals. */
  lemma ScaleMonotone(a: real, b: real, n: real)
    requires n > 0.0
    ensures a < b <==> a * n < b * n
    ensures a <= b <==> a * n <= b * n
  {
    if a < b {
      assert (b - a) * n > 0.0;
    } else {
      assert (a - b) * n >= 0.0;
    }
  }

  /** The cells are listed in strictly increasing order. */
  predicate Increasing(cells: seq<Cell>)
  {
    forall p, q :: 0 <= p < q < |cells| ==> cells[p] < cells[q]
  }

  /** The filter keeps the order of the cells it keeps: from an increasing
      list it yields an increasing list, so no cell appears twice. */
  lemma {:induction false} EmptyAmongIncreasing(squares: Board, cells: seq<Cell>)
    requires Increasing(cells)
    ensures Increasing(EmptyAmong(squares, cells))
  {
    if cells != [] {
      var rest := cells[1..];
      assert Increasing(rest);
      EmptyAmongIncreasing(squares, rest);
      var tail := EmptyAmong(squares, rest);
      if squares[cells[0]] == Empty {
        assert forall m :: m in tail ==> cells[0] < m by {
          forall m | m in rest
            ensures cells[0] < m
          {
            var t :| 0 <= t < |rest| && rest[t] == m;
            assert cells[t + 1] == m;
          }
        }
        IncreasingCons(cells[0], tail);
        assert EmptyAmong(squares, cells) == [cells[0]] + tail;
      } else {
        assert EmptyAmong(squares, cells) == tail;
      }
    }
  }

  /** Putting a cell below all of an increasing list in front keeps it
      increasing. */
  lemma IncreasingCons(c: Cell, tail: seq<Cell>)
    requires Increasing(tail)
    requires forall m :: m in tail ==> c < m
    ensures Increasing([c] + tail)
  {
    var r := [c] + tail;
    forall p, q | 0 <= p < q < |r|
      ensures r[p] < r[q]
    {
      assert r[q] == tail[q - 1] && r[q] in tail;
    }
  }

  /** `list[Math.floor(rand * list.length)]`: a random member of a
      non-empty list. */
  function RandomElement(list: seq<Cell>, rand: real): (r: Cell)
    requires 0.0 <= rand < 1.0
    requires |list| > 0
    ensures r in list
  {
    list[RandomIndex(rand, |list|)]
  }

  /** Every index of a list of length `n` is drawn by some value of the
      random source. */
  lemma RandomIndexReaches(n: nat, k: nat)
    requires k < n
    ensures 0.0 <= k as real / n as real < 1.0
    ensures RandomIndex(k as real / n as real, n) == k
  {
  }

  /** Rules 3 to 6 of `getComputerMove`: the centre, else a random empty
      corner, else a random empty side, else -1. The result is -1 exactly
      when the board is full, and otherwise an empty cell. */
  function PositionalMove(squares: Board, rand: real): (r: int)
    requires 0.0 <= rand < 1.0
    ensures r == -1 <==> IsFull(squares)
    ensures r != -1 ==> 0 <= r < 9 && squares[r] == Empty
  {
    if squares[4] == Empty then 4
    else
      var corners := EmptyAmong(squares, Corners);
      if |corners| > 0 then RandomElement(corners, rand)
      else
        var sides := EmptyAmong(squares, Sides);
        if |sides| > 0 then RandomElement(sides, rand)
        else
          assert squares[0] != Empty && squares[2] != Empty && squares[6] != Empty && squares[8] != Empty;
          assert squares[1] != Empty && squares[3] != Empty && squares[5] != Empty && squares[7] != Empty;
          -1
  }

  /** `getComputerMove`: win for 'O', else block 'X', else the positional
      rules. The result is -1 exactly when the board is full, and otherwise
      an empty cell. */
  function ComputerMove(squares: Board, rand: real): (r: int)
    requires 0.0 <= rand < 1.0
    ensures r == -1 <==> IsFull(squares)
    ensures r != -1 ==> 0 <= r < 9 && squares[r] == Empty
  {
    var winMove := FindCriticalMove(squares, O);
    if winMove.Some? then winMove.value
    else
      var blockMove := FindCriticalMove(squares, X);
      if blockMove.Some? then blockMove.value
      else PositionalMove(squares, rand)
  }

  /** Rule 1: when 'O' can complete a line, the machine plays the first
      empty cell of the first such line, and that move completes the line. */
  lemma WinTakesPriority(squares: Board, rand: real, k: nat)
    requires 0.0 <= rand < 1.0
    requires k < |WinningLines|
    requires Critical(squares, WinningLines[k], O)
    requires forall j :: 0 <= j < k ==> !Critical(squares, WinningLines[j], O)
    ensures ComputerMove(squares, rand) == FirstEmptyCell(squares, WinningLines[k])
    ensures LineComplete(squares[FirstEmptyCell(squares, WinningLines[k]) := O], WinningLines[k])
  {
    ScanCriticalFirst(squares, O, 0, k);
    CriticalIff(squares, WinningLines[k], O);
  }

  /** Whenever a win for 'O' exists, the chosen move wins: the evaluator
      reports a winner afterwards, and it is 'O' when the board had no
      complete line before. */
  lemma WinningMoveWins(squares: Board, rand: real)
    requires 0.0 <= rand < 1.0
    requires HasCritical(squares, O)
    ensures var m := ComputerMove(squares, rand);
              && 0 <= m < 9 && squares[m] == Empty
              && CalculateWinner(squares[m := O]).winner != Empty
              && (!HasCompleteLine(squares) ==> CalculateWinner(squares[m := O]).winner == O)
  {
    var m := ComputerMove(squares, rand);
    var k :| 0 <= k < |WinningLines| && Completes(squares, WinningLines[k], m, O);
    assert LineComplete(squares[m := O], WinningLines[k]);
    if !HasCompleteLine(squares) {
      PlacingWinsOnlyForMover(squares, m, O);
    }
  }

  /** Rule 2: when 'O' cannot win but 'X' could complete a line, the
      machine plays the first empty cell of the first such line, which is
      the cell 'X' needs. */
  lemma BlockWhenNoWin(squares: Board, rand: real, k: nat)
    requires 0.0 <= rand < 1.0
    requires !HasCritical(squares, O)
    requires k < |WinningLines|
    requires Critical(squares, WinningLines[k], X)
    requires forall j :: 0 <= j < k ==> !Critical(squares, WinningLines[j], X)
    ensures ComputerMove(squares, rand) == FirstEmptyCell(squares, WinningLines[k])
    ensures Completes(squares, WinningLines[k], FirstEmptyCell(squares, WinningLines[k]), X)
  {
    ScanCriticalFirst(squares, X, 0, k);
    CriticalIff(squares, WinningLines[k], X);
  }

  /** Rules 3 to 6, when no line is critical for either mark: the centre if
      it is empty, else an empty corner if there is one, else an empty side
      if there is one, else -1. */
  lemma FallbackOrder(squares: Board, rand: real)
    requires 0.0 <= rand < 1.0
    requires !HasCritical(squares, O) && !HasCritical(squares, X)
    ensures squares[4] == Empty ==> ComputerMove(squares, rand) == 4
    ensures squares[4] != Empty && (exists c :: c in Corners && squares[c] == Empty) ==>
              ComputerMove(squares, rand) in Corners
    ensures squares[4] != Empty && (forall c :: c in Corners ==> squares[c] != Empty) && !IsFull(squares) ==>
              ComputerMove(squares, rand) in Sides
  {
    if squares[4] != Empty && (forall c :: c in Corners ==> squares[c] != Empty) {
      assert EmptyAmong(squares, Corners) == [];
    }
  }

  /** The random draw only breaks ties among corners or among sides: when a
      win, a block or the centre is available, or the board is full, every
      draw gives the same move. */
  lemma RandomOnlyBreaksTies(squares: Board, rand1: real, rand2: real)
    requires 0.0 <= rand1 < 1.0 && 0.0 <= rand2 < 1.0
    requires HasCritical(squares, O) || HasCritical(squares, X) || squares[4] == Empty || IsFull(squares)
    ensures ComputerMove(squares, rand1) == ComputerMove(squares, rand2)
  {
  }

  /** Every empty corner can be drawn when the corner rule applies. */
  lemma EveryEmptyCornerReachable(squares: Board, c: Cell)
    requires !HasCritical(squares, O) && !HasCritical(squares, X) && squares[4] != Empty
    requires c in Corners && squares[c] == Empty
    ensures exists rand :: 0.0 <= rand < 1.0 && ComputerMove(squares, rand) == c
  {
    var corners := EmptyAmong(squares, Corners);
    assert c in corners;
    var k :| 0 <= k < |corners| && corners[k] == c;
    var rand := k as real / |corners| as real;
    RandomIndexReaches(|corners|, k);
    assert RandomElement(corners, rand) == c;
    assert PositionalMove(squares, rand) == c;
    assert ComputerMove(squares, rand) == c;
  }

  /** Every empty side can be drawn when the side rule applies. */
  lemma EveryEmptySideReachable(squares: Board, s: Cell)
    requires !HasCritical(squares, O) && !HasCritical(squares, X) && squares[4] != Empty
    requires forall c :: c in Corners ==> squares[c] != Empty
    requires s in Sides && squares[s] == Empty
    ensures exists rand :: 0.0 <= rand < 1.0 && ComputerMove(squares, rand) == s
  {
    assert EmptyAmong(squares, Corners) == [];
    var sides := EmptyAmong(squares, Sides);
    assert s in sides;
    var k :| 0 <= k < |sides| && sides[k] == s;
    var rand := k as real / |sides| as real;
    RandomIndexReaches(|sides|, k);
    assert RandomElement(sides, rand) == s;
    assert PositionalMove(squares, rand) == s;
    assert ComputerMove(squares, rand) == s;
  }

  /** Under the corner rule the draw is uniform: the k-th empty corner (in
      0, 2, 6, 8 order) is chosen exactly when the random source falls in
      [k/n, (k+1)/n), where n is the number of empty corners. */
  lemma CornerPickIsUniform(squares: Board, rand: real, k: nat)
    requires 0.0 <= rand < 1.0
    requires !HasCritical(squares, O) && !HasCritical(squares, X) && squares[4] != Empty
    requires k < |EmptyAmong(squares, Corners)|
    ensures var corners := EmptyAmong(squares, Corners);
              ComputerMove(squares, rand) == corners[k] <==>
                k as real / |corners| as real <= rand < (k + 1) as real / |corners| as real
  {
    var corners := EmptyAmong(squares, Corners);
    assert ComputerMove(squares, rand) == RandomElement(corners, rand) by {
      assert PositionalMove(squares, rand) == RandomElement(corners, rand);
    }
    PickIsUniform(corners, rand, k) by {
      TablesIncreasing();
      EmptyAmongIncreasing(squares, Corners);
    }
  }

  /** Under the side rule the draw is uniform in the same way over the
      empty sides (in 1, 3, 5, 7 order). */
  lemma SidePickIsUniform(squares: Board, rand: real, k: nat)
    requires 0.0 <= rand < 1.0
    requires !HasCritical(squares, O) && !HasCritical(squares, X) && squares[4] != Empty
    requires forall c :: c in Corners ==> squares[c] != Empty
    requires k < |EmptyAmong(squares, Sides)|
    ensures var sides := EmptyAmong(squares, Sides);
              ComputerMove(squares, rand) == sides[k] <==>
                k as real / |sides| as real <= rand < (k + 1) as real / |sides| as real
  {
    var sides := EmptyAmong(squares, Sides);
    SideRuleMove(squares, rand);
    PickIsUniform(sides, rand, k) by {
      TablesIncreasing();
      EmptyAmongIncreasing(squares, Sides);
    }
  }

  /** Under the side rule the move is the random pick among the empty sides. */
  lemma SideRuleMove(squares: Board, rand: real)
    requires 0.0 <= rand < 1.0
    requires !HasCritical(squares, O) && !HasCritical(squares, X) && squares[4] != Empty
    requires forall c :: c in Corners ==> squares[c] != Empty
    requires EmptyAmong(squares, Sides) != []
    ensures ComputerMove(squares, rand) == RandomElement(EmptyAmong(squares, Sides), rand)
  {
    assert EmptyAmong(squares, Corners) == [];
    assert PositionalMove(squares, rand) == RandomElement(EmptyAmong(squares, Sides), rand);
  }

  /** The corner and side tables list their cells in increasing order. */
  lemma TablesIncreasing()
    ensures Increasing(Corners) && Increasing(Sides)
  {
    forall p, q | 0 <= p < q < 4
      ensures Corners[p] < Corners[q] && Sides[p] < Sides[q]
    {
      assert Corners[p] <= 3 * p && 3 * q - 1 <= Corners[q];
      assert Sides[p] == 2 * p + 1 && Sides[q] == 2 * q + 1;
    }
  }

  /** Drawing from a list without repeats: element k is drawn exactly when
      the random source falls in [k/n, (k+1)/n). */
  lemma PickIsUniform(cells: seq<Cell>, rand: real, k: nat)
    requires 0.0 <= rand < 1.0
    requires Increasing(cells) && k < |cells|
    ensures RandomElement(cells, rand) == cells[k] <==>
              k as real / |cells| as real <= rand < (k + 1) as real / |cells| as real
  {
    var idx := RandomIndex(rand, |cells|);
    assert cells[idx] == cells[k] <==> idx == k;
    RandomIndexInterval(rand, |cells|, k);
  }
}
