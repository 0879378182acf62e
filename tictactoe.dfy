/**
 * The rules of tic-tac-toe on a 3x3 board and the minimax search over them
 * (cs50ai/tictactoe/tictactoe.py).
 *
 * The source's loop-based functions (`player`, `actions`, `winner`,
 * `max_value`, `min_value`, `minimax`) are methods proved against the
 * specification functions `NextPlayer`, `EmptyCells`, `WinnerOf`,
 * `MaxScore` and `MinScore`; its expression-only functions are functions.
 */
module TicTacToe {
  import opened Optional

  datatype Mark = X | O

  /** A cell holds a mark or nothing: `EMPTY` is `None`, as in the source. */
  type Cell = Option<Mark>
  const EMPTY: Cell := None

  /** A board is always three rows of three cells. */
  type Board = b: seq<seq<Cell>> | |b| == 3 && forall i | 0 <= i < |b| :: |b[i]| == 3
    witness [[None, None, None], [None, None, None], [None, None, None]]

  /** A move `(i, j)`: row `i`, column `j`. */
  type Action = (int, int)

  predicate InRange(a: Action) {
    0 <= a.0 < 3 && 0 <= a.1 < 3
  }

  function Opponent(p: Mark): Mark {
    if p == X then O else X
  }

  function Max(x: int, y: int): int { if x >= y then x else y }
  function Min(x: int, y: int): int { if x <= y then x else y }

  /** Integer stand-ins for the source's -inf and +inf: every utility lies in [-1, 1]. */
  const NegInf: int := -2
  const PosInf: int := 2

  // ---------------------------------------------------------------------------
  // Counting marks and whose turn it is
  // ---------------------------------------------------------------------------

  /** Number of marked cells in one row. */
  function CountRow(r: seq<Cell>): nat {
    if r == [] then 0 else CountRow(r[..|r| - 1]) + (if r[|r| - 1] != EMPTY then 1 else 0)
  }

  /** Number of marked cells in a sequence of rows. */
  function CountFilled(rows: seq<seq<Cell>>): nat {
    if rows == [] then 0 else CountFilled(rows[..|rows| - 1]) + CountRow(rows[|rows| - 1])
  }

  /** X moves when an even number of cells is marked, O otherwise. */
  function NextPlayer(b: Board): Mark {
    if CountFilled(b) % 2 == 0 then X else O
  }

  /** The set of cells that are still empty. */
  function EmptyCells(b: Board): set<Action> {
    set i, j | 0 <= i < 3 && 0 <= j < 3 && b[i][j] == EMPTY :: (i, j)
  }

  function InitialState(): (b: Board)
    ensures forall i, j | 0 <= i < 3 && 0 <= j < 3 :: b[i][j] == EMPTY
    ensures NextPlayer(b) == X
  {
    var b := [[EMPTY, EMPTY, EMPTY], [EMPTY, EMPTY, EMPTY], [EMPTY, EMPTY, EMPTY]];
    NoMarksNoCount(b);
    b
  }

  /** Rows without marks count no marked cell. */
  lemma {:induction false} NoMarksNoCount(rows: seq<seq<Cell>>)
    requires forall i, j | 0 <= i < |rows| && 0 <= j < |rows[i]| :: rows[i][j] == EMPTY
    ensures CountFilled(rows) == 0
  {
    if rows != [] {
      NoMarksNoCount(rows[..|rows| - 1]);
      NoMarksRowNoCount(rows[|rows| - 1]);
    }
  }

  lemma {:induction false} NoMarksRowNoCount(r: seq<Cell>)
    requires forall j | 0 <= j < |r| :: r[j] == EMPTY
    ensures CountRow(r) == 0
  {
    if r != [] {
      NoMarksRowNoCount(r[..|r| - 1]);
    }
  }

  /** `player`: counts the marked cells row by row. */
  method Player(b: Board) returns (p: Mark)
    ensures p == NextPlayer(b)
  {
    var turns := 0;
    var i := 0;
    while i < |b|
      invariant 0 <= i <= 3
      invariant turns == CountFilled(b[..i])
    {
      var j := 0;
      while j < |b[1]|
        invariant 0 <= j <= 3
        invariant turns == CountFilled(b[..i]) + CountRow(b[i][..j])
      {
        if b[i][j] != EMPTY {
          turns := turns + 1;
        }
        assert b[i][..j + 1][..j] == b[i][..j];
        j := j + 1;
      }
      assert b[i][..3] == b[i];
      assert b[..i + 1][..i] == b[..i];
      i := i + 1;
    }
    assert b[..3] == b;
    if turns % 2 == 0 {
      p := X;
    } else {
      p := O;
    }
  }

  /** `actions`: collects every empty cell. */
  method Actions(b: Board) returns (moves: set<Action>)
    ensures moves == EmptyCells(b)
  {
    moves := {};
    var i := 0;
    while i < |b|
      invariant 0 <= i <= 3
      invariant forall a :: a in moves <==> 0 <= a.0 < i && 0 <= a.1 < 3 && b[a.0][a.1] == EMPTY
    {
      var j := 0;
      while j < |b[i]|
        invariant 0 <= j <= 3
        invariant forall a :: a in moves <==>
          ((0 <= a.0 < i && 0 <= a.1 < 3) || (a.0 == i && 0 <= a.1 < j)) && b[a.0][a.1] == EMPTY
      {
        if b[i][j] == EMPTY {
          moves := moves + {(i, j)};
        }
        j := j + 1;
      }
      i := i + 1;
    }
  }

  /**
   * `result`: the board after the player to move marks cell `a`. The source
   * raises "Invalid move" for a cell that is not empty; that is `None` here.
   * The input board is a value and is never modified.
   */
  function Result(b: Board, a: Action): (r: Option<Board>)
    ensures r.Some? <==> a in EmptyCells(b)
  {
    if a in EmptyCells(b) then Some(b[a.0 := b[a.0][a.1 := Some(NextPlayer(b))]]) else None
  }

  /** A legal move marks exactly its own cell, with the mark of the player to move. */
  lemma ResultCells(b: Board, a: Action)
    requires a in EmptyCells(b)
    ensures forall i, j | 0 <= i < 3 && 0 <= j < 3 ::
      Result(b, a).value[i][j] == if (i, j) == a then Some(NextPlayer(b)) else b[i][j]
  {
  }

  lemma ResultShrinks(b: Board, a: Action)
    requires a in EmptyCells(b)
    ensures EmptyCells(Result(b, a).value) == EmptyCells(b) - {a}
  {
    var r := Result(b, a).value;
    forall c | c in EmptyCells(b) - {a} ensures c in EmptyCells(r) {
      assert r[c.0][c.1] == EMPTY;
    }
  }

  lemma {:induction false} CountRowUpdate(r: seq<Cell>, j: int, c: Cell)
    requires 0 <= j < |r| && r[j] == EMPTY && c != EMPTY
    ensures CountRow(r[j := c]) == CountRow(r) + 1
  {
    var n := |r|;
    if j == n - 1 {
      assert r[j := c][..n - 1] == r[..n - 1];
    } else {
      assert r[j := c][..n - 1] == r[..n - 1][j := c];
      CountRowUpdate(r[..n - 1], j, c);
    }
  }

  lemma {:induction false} CountFilledUpdate(rows: seq<seq<Cell>>, i: int, row: seq<Cell>)
    requires 0 <= i < |rows| && CountRow(row) == CountRow(rows[i]) + 1
    ensures CountFilled(rows[i := row]) == CountFilled(rows) + 1
  {
    var n := |rows|;
    if i == n - 1 {
      assert rows[i := row][..n - 1] == rows[..n - 1];
    } else {
      assert rows[i := row][..n - 1] == rows[..n - 1][i := row];
      CountFilledUpdate(rows[..n - 1], i, row);
    }
  }

  /** Every legal move passes the turn to the other player. */
  lemma ResultAlternates(b: Board, a: Action)
    requires a in EmptyCells(b)
    ensures NextPlayer(Result(b, a).value) == Opponent(NextPlayer(b))
  {
    var mark := Some(NextPlayer(b));
    CountRowUpdate(b[a.0], a.1, mark);
    CountFilledUpdate(b, a.0, b[a.0][a.1 := mark]);
  }

  // ---------------------------------------------------------------------------
  // Lines, the winner, the end of the game
  // ---------------------------------------------------------------------------

  /** Three cells holding the same mark. */
  predicate Three(b: Board, p: Action, q: Action, r: Action)
    requires InRange(p) && InRange(q) && InRange(r)
  {
    b[p.0][p.1] != EMPTY && b[q.0][q.1] == b[p.0][p.1] && b[r.0][r.1] == b[p.0][p.1]
  }

  predicate RowLine(b: Board, k: int) requires 0 <= k < 3 { Three(b, (k, 0), (k, 1), (k, 2)) }
  predicate ColLine(b: Board, k: int) requires 0 <= k < 3 { Three(b, (0, k), (1, k), (2, k)) }

  /** Some row, column or diagonal holds three equal marks. */
  predicate HasLine(b: Board) {
    || RowLine(b, 0) || RowLine(b, 1) || RowLine(b, 2)
    || ColLine(b, 0) || ColLine(b, 1) || ColLine(b, 2)
    || Three(b, (0, 0), (1, 1), (2, 2))
    || Three(b, (0, 2), (1, 1), (2, 0))
  }

  /**
   * The winner as the source computes it: when any line is complete, the
   * player opposite to the one whose turn it is, not the mark on the line.
   */
  function WinnerOf(b: Board): Option<Mark> {
    if HasLine(b) then Some(Opponent(NextPlayer(b))) else None
  }

  /** Some row among the first `n` holds three equal marks. */
  predicate RowsUpTo(b: Board, n: int) requires 0 <= n <= 3 {
    n > 0 && (RowsUpTo(b, n - 1) || RowLine(b, n - 1))
  }

  /** Some column among the first `n` holds three equal marks. */
  predicate ColsUpTo(b: Board, n: int) requires 0 <= n <= 3 {
    n > 0 && (ColsUpTo(b, n - 1) || ColLine(b, n - 1))
  }

  /** `winner`: rows, then columns, then both diagonals, overwriting `win`. */
  method Winner(b: Board) returns (win: Option<Mark>)
    ensures win == WinnerOf(b)
  {
    win := None;
    var pl := Player(b);
    var p := if pl == O then X else O;
    var i := 0;
    while i < |b|
      invariant 0 <= i <= 3
      invariant win == if RowsUpTo(b, i) then Some(p) else None
    {
      var row := b[i];
      assert row == [row[0], row[1], row[2]];
      if row[0] != EMPTY && forall play | play in row :: play == row[0] {
        assert row[1] in row && row[2] in row;
        win := Some(p);
      }
      i := i + 1;
    }
    var j := 0;
    while j < |b[0]|
      invariant 0 <= j <= 3
      invariant win == if RowsUpTo(b, 3) || ColsUpTo(b, j) then Some(p) else None
    {
      var colValues: seq<Cell> := [];
      var k := 0;
      while k < |b|
        invariant 0 <= k <= 3
        invariant |colValues| == k && forall m | 0 <= m < k :: colValues[m] == b[m][j]
      {
        colValues := colValues + [b[k][j]];
        k := k + 1;
      }
      assert colValues == [b[0][j], b[1][j], b[2][j]];
      if colValues[0] != EMPTY && forall play | play in colValues :: play == colValues[0] {
        assert colValues[1] in colValues && colValues[2] in colValues;
        win := Some(p);
      }
      j := j + 1;
    }
    if b[0][0] != EMPTY && b[0][0] == b[1][1] && b[0][0] == b[2][2] {
      win := Some(p);
    }
    if b[0][2] != EMPTY && b[0][2] == b[1][1] && b[0][2] == b[2][0] {
      win := Some(p);
    }
    AllRowsAndCols(b);
  }

  /** Three rows and three columns: the lines `HasLine` lists. */
  lemma AllRowsAndCols(b: Board)
    ensures RowsUpTo(b, 3) == (RowLine(b, 0) || RowLine(b, 1) || RowLine(b, 2))
    ensures ColsUpTo(b, 3) == (ColLine(b, 0) || ColLine(b, 1) || ColLine(b, 2))
  {
    assert RowsUpTo(b, 1) == RowLine(b, 0) && ColsUpTo(b, 1) == ColLine(b, 0);
    assert RowsUpTo(b, 2) == (RowLine(b, 0) || RowLine(b, 1));
    assert ColsUpTo(b, 2) == (ColLine(b, 0) || ColLine(b, 1));
  }

  /** When a move completes a line, the reported winner is the player who made it. */
  lemma WinnerIsLastMover(b: Board, a: Action)
    requires a in EmptyCells(b) && HasLine(Result(b, a).value)
    ensures WinnerOf(Result(b, a).value) == Some(NextPlayer(b))
  {
    ResultAlternates(b, a);
  }

  /** Every complete line of `b` is made of `m`'s marks. */
  predicate LinesOf(b: Board, m: Mark) {
    && (forall k | 0 <= k < 3 :: RowLine(b, k) ==> b[k][0] == Some(m))
    && (forall k | 0 <= k < 3 :: ColLine(b, k) ==> b[0][k] == Some(m))
    && (Three(b, (0, 0), (1, 1), (2, 2)) ==> b[1][1] == Some(m))
    && (Three(b, (0, 2), (1, 1), (2, 0)) ==> b[1][1] == Some(m))
  }

  /**
   * A move that completes the first line on the board completes a line of
   * the mover's own marks, so the winner reported is the player whose
   * marks form the line.
   */
  lemma FirstLineIsMovers(b: Board, a: Action)
    requires a in EmptyCells(b) && !HasLine(b) && HasLine(Result(b, a).value)
    ensures LinesOf(Result(b, a).value, NextPlayer(b))
    ensures WinnerOf(Result(b, a).value) == Some(NextPlayer(b))
  {
    ResultCells(b, a);
    WinnerIsLastMover(b, a);
  }

  /**
   * On a board that already has a line, a further move can make the
   * reported winner differ from the owner of the line: O's top row stands,
   * X moves, and X is reported.
   */
  lemma WinnerAfterFinishedGame()
    ensures var b: Board := [[Some(O), Some(O), Some(O)], [Some(X), Some(X), EMPTY], [Some(X), EMPTY, EMPTY]];
            (2, 1) in EmptyCells(b) && LinesOf(Result(b, (2, 1)).value, O) &&
            WinnerOf(Result(b, (2, 1)).value) == Some(X)
  {
    var b: Board := [[Some(O), Some(O), Some(O)], [Some(X), Some(X), EMPTY], [Some(X), EMPTY, EMPTY]];
    CountByCells(b);
    assert NextPlayer(b) == X;
    assert (2, 1) in EmptyCells(b);
    var r := Result(b, (2, 1)).value;
    assert r == b[2 := b[2][1 := Some(X)]];
    assert r[0] == b[0] && r[1] == b[1] && r[2] == [Some(X), Some(X), EMPTY];
    CountByCells(r);
  }

  /** The count of marked cells, cell by cell. */
  lemma CountByCells(b: Board)
    ensures CountFilled(b) == CountRow(b[0]) + CountRow(b[1]) + CountRow(b[2])
    ensures forall i | 0 <= i < 3 ::
      CountRow(b[i]) == (if b[i][0] != EMPTY then 1 else 0) + (if b[i][1] != EMPTY then 1 else 0) + (if b[i][2] != EMPTY then 1 else 0)
  {
    assert b[..2][..1][..0] == [] && b[..2][..1] == [b[0]] && b[..2] == [b[0], b[1]];
    assert CountFilled([b[0]]) == CountRow(b[0]);
    assert CountFilled([b[0], b[1]]) == CountRow(b[0]) + CountRow(b[1]);
    forall i | 0 <= i < 3 ensures
      CountRow(b[i]) == (if b[i][0] != EMPTY then 1 else 0) + (if b[i][1] != EMPTY then 1 else 0) + (if b[i][2] != EMPTY then 1 else 0)
    {
      var r := b[i];
      assert r[..2][..1][..0] == [] && r[..2][..1] == [r[0]] && r[..2] == [r[0], r[1]];
      assert CountRow([r[0]]) == if r[0] != EMPTY then 1 else 0;
      assert CountRow([r[0], r[1]]) == CountRow([r[0]]) + if r[1] != EMPTY then 1 else 0;
    }
  }

  /** `terminal`: someone has won or no move is left. */
  predicate Terminal(b: Board) {
    WinnerOf(b).Some? || |EmptyCells(b)| < 1
  }

  /** The game is over exactly when a line is complete or the board is full; otherwise a move is left and nobody has won. */
  lemma TerminalMeans(b: Board)
    ensures Terminal(b) <==> HasLine(b) || EmptyCells(b) == {}
    ensures !Terminal(b) ==> EmptyCells(b) != {} && WinnerOf(b).None?
  {
    if EmptyCells(b) != {} {
      var a :| a in EmptyCells(b);
      assert |EmptyCells(b)| >= 1;
    }
  }

  /** `utility`: 1 when X has won, -1 when O has won, 0 otherwise. */
  function Utility(b: Board): (u: int)
    ensures -1 <= u <= 1
    ensures u == 1 <==> WinnerOf(b) == Some(X)
    ensures u == -1 <==> WinnerOf(b) == Some(O)
    ensures u == 0 <==> !HasLine(b)
  {
    match WinnerOf(b)
    case Some(X) => 1
    case Some(O) => -1
    case None => 0
  }

  // ---------------------------------------------------------------------------
  // Minimax values: specification
  // ---------------------------------------------------------------------------

  /** The largest `m[a]` over the moves `a` in a non-empty `s`. */
  ghost function MaxOf(m: map<Action, int>, s: set<Action>): int
    requires s <= m.Keys && s != {}
  {
    var a :| a in s;
    if s - {a} == {} then m[a] else Max(m[a], MaxOf(m, s - {a}))
  }

  /** The smallest `m[a]` over the moves `a` in a non-empty `s`. */
  ghost function MinOf(m: map<Action, int>, s: set<Action>): int
    requires s <= m.Keys && s != {}
  {
    var a :| a in s;
    if s - {a} == {} then m[a] else Min(m[a], MinOf(m, s - {a}))
  }

  lemma {:induction false} MaxOfIsMax(m: map<Action, int>, s: set<Action>)
    requires s <= m.Keys && s != {}
    ensures forall a | a in s :: m[a] <= MaxOf(m, s)
    ensures exists a | a in s :: MaxOf(m, s) == m[a]
    decreases s
  {
    var a :| a in s && MaxOf(m, s) == if s - {a} == {} then m[a] else Max(m[a], MaxOf(m, s - {a}));
    if s - {a} == {} {
      assert s == {a};
    } else {
      var rest := MaxOf(m, s - {a});
      assert MaxOf(m, s) == Max(m[a], rest);
      MaxOfIsMax(m, s - {a});
      if rest <= m[a] {
        assert MaxOf(m, s) == m[a];
      } else {
        var c :| c in s - {a} && rest == m[c];
        assert c in s && MaxOf(m, s) == m[c];
      }
      forall d | d in s ensures m[d] <= MaxOf(m, s) {
        if d != a {
          assert d in s - {a};
        }
      }
    }
  }

  lemma {:induction false} MinOfIsMin(m: map<Action, int>, s: set<Action>)
    requires s <= m.Keys && s != {}
    ensures forall a | a in s :: MinOf(m, s) <= m[a]
    ensures exists a | a in s :: MinOf(m, s) == m[a]
    decreases s
  {
    var a :| a in s && MinOf(m, s) == if s - {a} == {} then m[a] else Min(m[a], MinOf(m, s - {a}));
    if s - {a} == {} {
      assert s == {a};
    } else {
      var rest := MinOf(m, s - {a});
      assert MinOf(m, s) == Min(m[a], rest);
      MinOfIsMin(m, s - {a});
      if m[a] <= rest {
        assert MinOf(m, s) == m[a];
      } else {
        var c :| c in s - {a} && rest == m[c];
        assert c in s && MinOf(m, s) == m[c];
      }
      forall d | d in s ensures MinOf(m, s) <= m[d] {
        if d != a {
          assert d in s - {a};
        }
      }
    }
  }

  /** The game value when X is to choose: `max_value`. */
  ghost function MaxScore(b: Board): int
    decreases EmptyCells(b), 1
  {
    if Terminal(b) then Utility(b) else MaxOf(AfterX(b), EmptyCells(b))
  }

  /** The game value when O is to choose: `min_value`. */
  ghost function MinScore(b: Board): int
    decreases EmptyCells(b), 1
  {
    if Terminal(b) then Utility(b) else MinOf(AfterO(b), EmptyCells(b))
  }

  /** For each legal move of X, the value of the resulting board with O to choose. */
  ghost function AfterX(b: Board): (m: map<Action, int>)
    ensures m.Keys == EmptyCells(b)
    decreases EmptyCells(b), 0
  {
    map a | a in EmptyCells(b) :: ResultShrinks(b, a); MinScore(Result(b, a).value)
  }

  /** For each legal move of O, the value of the resulting board with X to choose. */
  ghost function AfterO(b: Board): (m: map<Action, int>)
    ensures m.Keys == EmptyCells(b)
    decreases EmptyCells(b), 0
  {
    map a | a in EmptyCells(b) :: ResultShrinks(b, a); MaxScore(Result(b, a).value)
  }

  /** Every game value is an outcome: between -1 (O wins) and 1 (X wins). */
  lemma {:induction false} ScoreBounds(b: Board)
    ensures -1 <= MaxScore(b) <= 1 && -1 <= MinScore(b) <= 1
    decreases EmptyCells(b)
  {
    if !Terminal(b) {
      var e := EmptyCells(b);
      forall a | a in e ensures -1 <= AfterX(b)[a] <= 1 && -1 <= AfterO(b)[a] <= 1 {
        ResultShrinks(b, a);
        ScoreBounds(Result(b, a).value);
      }
      MaxOfIsMax(AfterX(b), e);
      MinOfIsMin(AfterO(b), e);
    }
  }

  /** `v` is the largest value of the map `m`, and some move attains it. */
  ghost predicate IsMaxOf(m: map<Action, int>, v: int) {
    (forall a | a in m :: m[a] <= v) && (exists a | a in m :: m[a] == v)
  }

  /** `v` is the smallest value of the map `m`, and some move attains it. */
  ghost predicate IsMinOf(m: map<Action, int>, v: int) {
    (forall a | a in m :: v <= m[a]) && (exists a | a in m :: m[a] == v)
  }

  lemma MaxStep(m: map<Action, int>, v: int, a: Action, w: int)
    requires a !in m && -1 <= w
    requires if m == map[] then v == NegInf else IsMaxOf(m, v)
    ensures IsMaxOf(m[a := w], Max(v, w))
  {
    if m == map[] {
      assert m[a := w][a] == Max(v, w);
    } else {
      var c :| c in m && m[c] == v;
      if v < w {
        assert m[a := w][a] == Max(v, w);
      } else {
        assert m[a := w][c] == Max(v, w);
      }
    }
  }

  lemma MinStep(m: map<Action, int>, v: int, a: Action, w: int)
    requires a !in m && w <= 1
    requires if m == map[] then v == PosInf else IsMinOf(m, v)
    ensures IsMinOf(m[a := w], Min(v, w))
  {
    if m == map[] {
      assert m[a := w][a] == Min(v, w);
    } else {
      var c :| c in m && m[c] == v;
      if w < v {
        assert m[a := w][a] == Min(v, w);
      } else {
        assert m[a := w][c] == Min(v, w);
      }
    }
  }

  /** Moving `a` from the moves still to try to the moves tried. */
  lemma SetStep(all: set<Action>, todo: set<Action>, done: set<Action>, a: Action)
    requires todo <= all && done == all - todo && a in todo
    ensures todo - {a} <= all && done + {a} == all - (todo - {a})
  {
  }

  /** `MaxOf` is the value `IsMaxOf` describes. */
  lemma MaxOfIs(m: map<Action, int>, v: int)
    requires IsMaxOf(m, v)
    ensures MaxOf(m, m.Keys) == v
  {
    MaxOfIsMax(m, m.Keys);
    var c :| c in m && MaxOf(m, m.Keys) == m[c];
  }

  /** `MinOf` is the value `IsMinOf` describes. */
  lemma MinOfIs(m: map<Action, int>, v: int)
    requires IsMinOf(m, v)
    ensures MinOf(m, m.Keys) == v
  {
    MinOfIsMin(m, m.Keys);
    var c :| c in m && MinOf(m, m.Keys) == m[c];
  }

  /** `m` scores legal moves of X by the value of the board they lead to. */
  ghost predicate ScoredForX(b: Board, m: map<Action, int>) {
    forall a | a in m :: a in EmptyCells(b) && m[a] == MinScore(Result(b, a).value)
  }

  /** `m` scores legal moves of O by the value of the board they lead to. */
  ghost predicate ScoredForO(b: Board, m: map<Action, int>) {
    forall a | a in m :: a in EmptyCells(b) && m[a] == MaxScore(Result(b, a).value)
  }

  lemma ScoredForXStep(b: Board, m: map<Action, int>, a: Action)
    requires ScoredForX(b, m) && a in EmptyCells(b)
    ensures ScoredForX(b, m[a := MinScore(Result(b, a).value)])
  {
  }

  lemma ScoredForOStep(b: Board, m: map<Action, int>, a: Action)
    requires ScoredForO(b, m) && a in EmptyCells(b)
    ensures ScoredForO(b, m[a := MaxScore(Result(b, a).value)])
  {
  }

  /** Once every legal move of X is scored, the scores are `AfterX`; there is at least one. */
  lemma AllScoredForX(b: Board, m: map<Action, int>, todo: set<Action>)
    requires !Terminal(b) && todo == {} && m.Keys == EmptyCells(b) - todo && ScoredForX(b, m)
    ensures m == AfterX(b) && m != map[]
  {
    assert m.Keys == EmptyCells(b);
    var a :| a in EmptyCells(b);
    assert a in m;
  }

  /** Once every legal move of O is scored, the scores are `AfterO`; there is at least one. */
  lemma AllScoredForO(b: Board, m: map<Action, int>, todo: set<Action>)
    requires !Terminal(b) && todo == {} && m.Keys == EmptyCells(b) - todo && ScoredForO(b, m)
    ensures m == AfterO(b) && m != map[]
  {
    assert m.Keys == EmptyCells(b);
    var a :| a in EmptyCells(b);
    assert a in m;
  }

  /** On an unfinished board, the best of X's scored moves is `MaxScore`. */
  lemma MaxScoreIs(b: Board, m: map<Action, int>, todo: set<Action>, v: int)
    requires !Terminal(b) && todo == {} && m.Keys == EmptyCells(b) - todo && ScoredForX(b, m)
    requires if m == map[] then v == NegInf else IsMaxOf(m, v)
    ensures v == MaxScore(b)
  {
    AllScoredForX(b, m, todo);
    MaxOfIs(m, v);
  }

  /** On an unfinished board, the best of O's scored moves is `MinScore`. */
  lemma MinScoreIs(b: Board, m: map<Action, int>, todo: set<Action>, v: int)
    requires !Terminal(b) && todo == {} && m.Keys == EmptyCells(b) - todo && ScoredForO(b, m)
    requires if m == map[] then v == PosInf else IsMinOf(m, v)
    ensures v == MinScore(b)
  {
    AllScoredForO(b, m, todo);
    MinOfIs(m, v);
  }

  // ---------------------------------------------------------------------------
  // Minimax: the source's loops
  // ---------------------------------------------------------------------------

  /** `min_value(result(board, action))` for a move of X, extending the scores seen so far. */
  method ValueAfterX(b: Board, a: Action, ghost got: map<Action, int>) returns (w: int)
    requires a in EmptyCells(b) && ScoredForX(b, got)
    ensures -1 <= w <= 1 && ScoredForX(b, got[a := w])
    decreases EmptyCells(b), 0
  {
    var next := Result(b, a).value;
    ResultShrinks(b, a);
    w := MinValue(next);
    ScoreBounds(next);
    ScoredForXStep(b, got, a);
  }

  /** `max_value(result(board, action))` for a move of O, extending the scores seen so far. */
  method ValueAfterO(b: Board, a: Action, ghost got: map<Action, int>) returns (w: int)
    requires a in EmptyCells(b) && ScoredForO(b, got)
    ensures -1 <= w <= 1 && ScoredForO(b, got[a := w])
    decreases EmptyCells(b), 0
  {
    var next := Result(b, a).value;
    ResultShrinks(b, a);
    w := MaxValue(next);
    ScoreBounds(next);
    ScoredForOStep(b, got, a);
  }

  /** `max_value`: the best outcome X can force from `b`. */
  method MaxValue(b: Board) returns (v: int)
    ensures v == MaxScore(b)
    decreases EmptyCells(b), 1
  {
    if Terminal(b) {
      return Utility(b);
    }
    v := NegInf;
    var acts := Actions(b);
    ghost var got: map<Action, int> := map[];
    while acts != {}
      invariant acts <= EmptyCells(b) && got.Keys == EmptyCells(b) - acts
      invariant ScoredForX(b, got)
      invariant if got == map[] then v == NegInf else IsMaxOf(got, v)
      decreases acts
    {
      var a :| a in acts;
      var w := ValueAfterX(b, a, got);
      MaxStep(got, v, a, w);
      SetStep(EmptyCells(b), acts, got.Keys, a);
      v := Max(v, w);
      acts := acts - {a};
      got := got[a := w];
    }
    MaxScoreIs(b, got, acts, v);
  }

  /** `min_value`: the best outcome O can force from `b`. */
  method MinValue(b: Board) returns (v: int)
    ensures v == MinScore(b)
    decreases EmptyCells(b), 1
  {
    if Terminal(b) {
      return Utility(b);
    }
    v := PosInf;
    var acts := Actions(b);
    ghost var got: map<Action, int> := map[];
    while acts != {}
      invariant acts <= EmptyCells(b) && got.Keys == EmptyCells(b) - acts
      invariant ScoredForO(b, got)
      invariant if got == map[] then v == PosInf else IsMinOf(got, v)
      decreases acts
    {
      var a :| a in acts;
      var w := ValueAfterO(b, a, got);
      MinStep(got, v, a, w);
      SetStep(EmptyCells(b), acts, got.Keys, a);
      v := Min(v, w);
      acts := acts - {a};
      got := got[a := w];
    }
    MinScoreIs(b, got, acts, v);
  }

  /** The (move, value) list of `minimax` holds exactly the scored moves of `m`. */
  ghost predicate Listed(moves: seq<(Action, int)>, m: map<Action, int>) {
    (forall k | 0 <= k < |moves| :: moves[k].0 in m && moves[k].1 == m[moves[k].0])
    && (forall a | a in m :: exists k | 0 <= k < |moves| :: moves[k].0 == a)
  }

  lemma ListedStep(moves: seq<(Action, int)>, m: map<Action, int>, a: Action, w: int)
    requires Listed(moves, m) && a !in m
    ensures Listed(moves + [(a, w)], m[a := w])
  {
    var moves' := moves + [(a, w)];
    var m' := m[a := w];
    forall c | c in m' ensures exists k | 0 <= k < |moves'| :: moves'[k].0 == c {
      if c == a {
        assert moves'[|moves|].0 == c;
      } else {
        var k :| 0 <= k < |moves| && moves[k].0 == c;
        assert moves'[k].0 == c;
      }
    }
  }

  /**
   * The head of `sorted(moves, key=value)` (or of its `reverse=True` form
   * when `highest`): Python's sort is stable, also when reversed, so the
   * head is the first entry whose value is extreme.
   */
  function FirstBest(moves: seq<(Action, int)>, highest: bool): (k: nat)
    requires |moves| > 0
    ensures k < |moves|
    ensures forall j | 0 <= j < |moves| :: if highest then moves[j].1 <= moves[k].1 else moves[k].1 <= moves[j].1
    ensures forall j | 0 <= j < k :: moves[j].1 != moves[k].1
  {
    if |moves| == 1 then 0
    else
      var k := FirstBest(moves[..|moves| - 1], highest);
      var last := moves[|moves| - 1].1;
      if (highest && last > moves[k].1) || (!highest && last < moves[k].1) then |moves| - 1 else k
  }

  /**
   * `a` is a legal move that achieves the game value for the player to
   * move: the best X can force when X moves, the best O can force when O moves.
   */
  ghost predicate Optimal(b: Board, a: Action) {
    a in EmptyCells(b) &&
    if NextPlayer(b) == X then AfterX(b)[a] == MaxScore(b) else AfterO(b)[a] == MinScore(b)
  }

  /** The head of the sorted list carries the extreme value of the scored moves. */
  lemma ListedHead(moves: seq<(Action, int)>, m: map<Action, int>, highest: bool)
    requires Listed(moves, m) && m != map[]
    ensures |moves| > 0
    ensures highest ==> IsMaxOf(m, moves[FirstBest(moves, highest)].1)
    ensures !highest ==> IsMinOf(m, moves[FirstBest(moves, highest)].1)
  {
    var c :| c in m;
    var j :| 0 <= j < |moves| && moves[j].0 == c;
    var k := FirstBest(moves, highest);
    assert moves[k].0 in m && m[moves[k].0] == moves[k].1;
    forall a | a in m ensures if highest then m[a] <= moves[k].1 else moves[k].1 <= m[a] {
      var i :| 0 <= i < |moves| && moves[i].0 == a;
    }
  }

  /** After X's loop in `minimax`, the head of the list sorted by decreasing value is optimal. */
  lemma BestForX(b: Board, m: map<Action, int>, todo: set<Action>, moves: seq<(Action, int)>)
    requires !Terminal(b) && NextPlayer(b) == X
    requires todo == {} && m.Keys == EmptyCells(b) - todo && ScoredForX(b, m) && Listed(moves, m)
    ensures |moves| > 0 && Optimal(b, moves[FirstBest(moves, true)].0)
  {
    AllScoredForX(b, m, todo);
    ListedHead(moves, m, true);
    MaxOfIs(m, moves[FirstBest(moves, true)].1);
  }

  /** After O's loop in `minimax`, the head of the list sorted by increasing value is optimal. */
  lemma BestForO(b: Board, m: map<Action, int>, todo: set<Action>, moves: seq<(Action, int)>)
    requires !Terminal(b) && NextPlayer(b) == O
    requires todo == {} && m.Keys == EmptyCells(b) - todo && ScoredForO(b, m) && Listed(moves, m)
    ensures |moves| > 0 && Optimal(b, moves[FirstBest(moves, false)].0)
  {
    AllScoredForO(b, m, todo);
    ListedHead(moves, m, false);
    MinOfIs(m, moves[FirstBest(moves, false)].1);
  }

  /**
   * `minimax`: no move on a finished game; otherwise the head of the
   * (move, value) list sorted best first for the player to move, which is a
   * legal move achieving the game value.
   */
  method Minimax(b: Board) returns (move: Option<Action>)
    ensures move.None? <==> Terminal(b)
    ensures move.Some? ==> Optimal(b, move.value)
  {
    if Terminal(b) {
      return None;
    }
    var moves: seq<(Action, int)> := [];
    var p := Player(b);
    var acts := Actions(b);
    ghost var got: map<Action, int> := map[];
    if p == X {
      while acts != {}
        invariant acts <= EmptyCells(b) && got.Keys == EmptyCells(b) - acts
        invariant ScoredForX(b, got) && Listed(moves, got)
        decreases acts
      {
        var a :| a in acts;
        var w := ValueAfterX(b, a, got);
        SetStep(EmptyCells(b), acts, got.Keys, a);
        ListedStep(moves, got, a, w);
        moves := moves + [(a, w)];
        acts := acts - {a};
        got := got[a := w];
      }
      BestForX(b, got, acts, moves);
      var k := FirstBest(moves, true);
      move := Some(moves[k].0);
    } else {
      while acts != {}
        invariant acts <= EmptyCells(b) && got.Keys == EmptyCells(b) - acts
        invariant ScoredForO(b, got) && Listed(moves, got)
        decreases acts
      {
        var a :| a in acts;
        var w := ValueAfterO(b, a, got);
        SetStep(EmptyCells(b), acts, got.Keys, a);
        ListedStep(moves, got, a, w);
        moves := moves + [(a, w)];
        acts := acts - {a};
        got := got[a := w];
      }
      BestForO(b, got, acts, moves);
      var k := FirstBest(moves, false);
      move := Some(moves[k].0);
    }
  }
}
