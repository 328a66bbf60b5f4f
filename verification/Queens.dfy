/** lab7/src/solver.cpp: backtracking over rows, in place, on a board that already holds some queens.
    The side of the board is N (30 in the source). */
module Queens {

  datatype Cell = Cell(row: int, col: int)

  predicate SameDiagonal(a: Cell, b: Cell) {
    a.row - b.row == a.col - b.col || a.row - b.row == b.col - a.col
  }

  predicate Attack(a: Cell, b: Cell) {
    a != b && (a.row == b.row || a.col == b.col || SameDiagonal(a, b))
  }

  ghost predicate Peaceful(queens: set<Cell>) {
    forall a, b :: a in queens && b in queens ==> !Attack(a, b)
  }

  predicate OnBoard(n: nat, c: Cell) {
    0 <= c.row < n && 0 <= c.col < n
  }

  /** N queens on the board, none attacking another. */
  ghost predicate Solution(n: nat, queens: set<Cell>) {
    |queens| == n && Peaceful(queens) && forall c :: c in queens ==> OnBoard(n, c)
  }

  ghost predicate Completable(n: nat, queens: set<Cell>) {
    exists all: set<Cell> :: queens <= all && Solution(n, all)
  }

  /** A queen attacks along rows, columns and both diagonals, and not a knight's move away. */
  lemma QueenMoves()
    ensures Attack(Cell(1, 1), Cell(1, 3)) && Attack(Cell(1, 1), Cell(3, 1))
    ensures Attack(Cell(1, 1), Cell(3, 3)) && Attack(Cell(1, 3), Cell(3, 1))
    ensures !Attack(Cell(1, 1), Cell(2, 3)) && !Attack(Cell(1, 1), Cell(3, 2)) && !Attack(Cell(1, 1), Cell(1, 1))
  {
  }

  /** A solution for a board of side 4. */
  lemma FourQueens(queens: set<Cell>)
    requires queens == {Cell(0, 1), Cell(1, 3), Cell(2, 0), Cell(3, 2)}
    ensures Solution(4, queens)
  {
  }

  // ---- pigeonhole ----

  ghost predicate DistinctRows(queens: set<Cell>) {
    forall a, b :: a in queens && b in queens && a.row == b.row ==> a == b
  }

  ghost predicate RowTaken(queens: set<Cell>, row: int) {
    exists c :: c in queens && c.row == row
  }

  ghost predicate ColumnTaken(queens: set<Cell>, col: int) {
    exists c :: c in queens && c.col == col
  }

  lemma {:induction false} RowsBoundCount(n: nat, queens: set<Cell>)
    requires DistinctRows(queens) && forall c :: c in queens ==> 0 <= c.row < n
    ensures |queens| <= n
    decreases n
  {
    if n == 0 {
      assert queens == {};
    } else if RowTaken(queens, n - 1) {
      var c :| c in queens && c.row == n - 1;
      RowsBoundCount(n - 1, queens - {c});
    } else {
      RowsBoundCount(n - 1, queens);
    }
  }

  /** N queens in N rows, no two in one row: every row has one. */
  lemma {:induction false} EveryRowTaken(n: nat, queens: set<Cell>, row: nat)
    requires DistinctRows(queens) && |queens| == n && row < n
    requires forall c :: c in queens ==> 0 <= c.row < n
    ensures RowTaken(queens, row)
    decreases n
  {
    if !RowTaken(queens, row) {
      if row == n - 1 {
        RowsBoundCount(n - 1, queens);
      } else if RowTaken(queens, n - 1) {
        var c :| c in queens && c.row == n - 1;
        EveryRowTaken(n - 1, queens - {c}, row);
      } else {
        RowsBoundCount(n - 1, queens);
      }
    }
  }

  function Mirror(c: Cell): Cell {
    Cell(c.col, c.row)
  }

  lemma {:induction false} MirrorSize(queens: set<Cell>)
    ensures |set c | c in queens :: Mirror(c)| == |queens|
    decreases |queens|
  {
    if queens != {} {
      var c :| c in queens;
      var rest := queens - {c};
      MirrorSize(rest);
      assert (set d | d in queens :: Mirror(d)) == (set d | d in rest :: Mirror(d)) + {Mirror(c)};
      assert Mirror(c) !in (set d | d in rest :: Mirror(d)) by {
        assert forall d :: d in rest && Mirror(d) == Mirror(c) ==> d == c;
      }
    }
  }

  lemma SolutionFillsRow(n: nat, queens: set<Cell>, row: nat)
    requires Solution(n, queens) && row < n
    ensures RowTaken(queens, row)
  {
    assert forall a, b :: a in queens && b in queens ==> !Attack(a, b);
    assert forall c :: c in queens ==> OnBoard(n, c);
    EveryRowTaken(n, queens, row);
  }

  lemma SolutionFillsColumn(n: nat, queens: set<Cell>, col: nat)
    requires Solution(n, queens) && col < n
    ensures ColumnTaken(queens, col)
  {
    var mirrored := set c | c in queens :: Mirror(c);
    MirrorSize(queens);
    assert forall m :: m in mirrored ==> Mirror(m) in queens && OnBoard(n, Mirror(m));
    forall a, b | a in mirrored && b in mirrored && a.row == b.row ensures a == b {
      assert !Attack(Mirror(a), Mirror(b));
    }
    EveryRowTaken(n, mirrored, col);
    var m :| m in mirrored && m.row == col;
    assert Mirror(m) in queens;
  }

  /** A solution has exactly one queen in every row and in every column. */
  lemma SolutionFillsRowsAndColumns(n: nat, queens: set<Cell>, k: nat)
    requires Solution(n, queens) && k < n
    ensures exists c :: c in queens && c.row == k && forall d :: d in queens && d.row == k ==> d == c
    ensures exists c :: c in queens && c.col == k && forall d :: d in queens && d.col == k ==> d == c
  {
    SolutionFillsRow(n, queens, k);
    SolutionFillsColumn(n, queens, k);
    var a :| a in queens && a.row == k;
    var b :| b in queens && b.col == k;
    assert forall d :: d in queens ==> !Attack(a, d) && !Attack(b, d);
  }

  // ---- what the search looks for ----

  /** Every pair that attacks on the larger board attacked already on the smaller one. */
  ghost predicate NoNewAttack(before: set<Cell>, after: set<Cell>) {
    forall a, b :: a in after && b in after && Attack(a, b) ==> a in before && b in before
  }

  /** `after` keeps the given queens, fills every row and adds no attack; attacks among the given ones stay. */
  ghost predicate Fills(n: nat, given: set<Cell>, after: set<Cell>) {
    && given <= after && (forall c :: c in after ==> OnBoard(n, c))
    && (forall r :: 0 <= r < n ==> RowTaken(after, r))
    && NoNewAttack(given, after)
  }

  ghost predicate Fillable(n: nat, given: set<Cell>) {
    exists after: set<Cell> :: Fills(n, given, after)
  }

  ghost predicate FillableWith(n: nat, given: set<Cell>, cell: Cell) {
    exists after: set<Cell> :: Fills(n, given, after) && cell in after
  }

  lemma CompletableIsFillable(n: nat, given: set<Cell>)
    ensures Completable(n, given) ==> Fillable(n, given)
  {
    if Completable(n, given) {
      var all :| given <= all && Solution(n, all);
      forall r | 0 <= r < n ensures RowTaken(all, r) {
        SolutionFillsRow(n, all, r);
      }
      assert Fills(n, given, all);
    }
  }

  /** For peaceful queens that is the search for a solution. */
  lemma FillableIffCompletable(n: nat, given: set<Cell>)
    requires Peaceful(given)
    ensures Fillable(n, given) <==> Completable(n, given)
  {
    CompletableIsFillable(n, given);
    if Fillable(n, given) {
      var after: set<Cell> :| Fills(n, given, after);
      FullRowsCount(n, after);
      assert Solution(n, after);
    }
  }

  /** If a board can be filled, every row of the result has a queen in some column. */
  lemma SomeColumnWorks(n: nat, given: set<Cell>, row: nat) returns (col: nat)
    requires Fillable(n, given) && row < n
    ensures col < n && FillableWith(n, given, Cell(row, col))
  {
    var after: set<Cell> :| Fills(n, given, after);
    assert RowTaken(after, row);
    var c :| c in after && c.row == row;
    assert OnBoard(n, c) && c == Cell(row, c.col);
    col := c.col;
  }

  lemma AttackedCellFails(n: nat, given: set<Cell>, c: Cell, d: Cell)
    requires d in given && c !in given && Attack(c, d)
    ensures !FillableWith(n, given, c)
  {
  }

  /** A cell that no given queen attacks: filling from the board with it is filling through it. */
  lemma FreeCellDecides(n: nat, given: set<Cell>, cell: Cell)
    requires !RowTaken(given, cell.row) && !ColumnTaken(given, cell.col)
    requires forall d :: d in given ==> !SameDiagonal(cell, d)
    ensures FillableWith(n, given, cell) <==> Fillable(n, given + {cell})
  {
    if after: set<Cell> :| Fills(n, given, after) && cell in after {
      assert Fills(n, given + {cell}, after);
    }
    if after: set<Cell> :| Fills(n, given + {cell}, after) {
      FreeCellAddsNoAttack(given, cell, after);
      assert cell in given + {cell};
      assert Fills(n, given, after) && cell in after;
    }
  }

  // ---- the solver ----

  /** table, row_Queen and col_Queen, passed by reference from call to call. */
  class Solver {
    const n: nat
    var table: seq<string>
    var rowQueen: seq<bool>
    var colQueen: seq<bool>

    ghost function Queens(): (queens: set<Cell>)
      reads this
    {
      QueensOf(n, table)
    }

    /** Shapes, and the flag arrays agreeing with the board. */
    ghost predicate Valid()
      reads this
    {
      IsTable(n, table) && FlagsAgree(n, Queens(), rowQueen, colQueen)
    }

    /** The set-up in main: flags are raised for every queen on the board. */
    constructor (board: seq<string>)
      requires IsTable(|board|, board)
      ensures Valid() && n == |board| && table == board
    {
      n := |board|;
      table := board;
      rowQueen := seq(|board|, _ => false);
      colQueen := seq(|board|, _ => false);
      new;
      for row := 0 to |board|
        invariant table == board && |rowQueen| == |colQueen| == |board|
        invariant forall r :: 0 <= r < n ==>
          (rowQueen[r] <==> exists c :: 0 <= c < n && r < row && table[r][c] == 'Q')
        invariant forall c :: 0 <= c < n ==> (colQueen[c] <==> exists r :: 0 <= r < row && table[r][c] == 'Q')
      {
        ghost var columnsBefore := colQueen;
        for col := 0 to n
          invariant table == board && |rowQueen| == |colQueen| == |board|
          invariant forall r :: 0 <= r < n ==>
            (rowQueen[r] <==> exists c :: 0 <= c < n && (r < row || (r == row && c < col)) && table[r][c] == 'Q')
          invariant forall c :: 0 <= c < n ==>
            (colQueen[c] <==> columnsBefore[c] || (c < col && table[row][c] == 'Q'))
        {
          if table[row][col] == 'Q' {
            rowQueen := rowQueen[row := true];
            colQueen := colQueen[col := true];
          }
        }
      }
      FlagsFromTable(n, table, rowQueen, colQueen);
    }

    /** checkqueen: looks along the four diagonals only. */
    method CheckQueen(x: nat, y: nat) returns (free: bool)
      requires IsTable(n, table) && x < n && y < n
      ensures free <==> forall d :: d in Queens() ==> !SameDiagonal(Cell(x, y), d)
    {
      for i := 0 to n
        invariant forall k: nat :: k < i ==> DiagonalsFree(n, table, x, y, k)
      {
        if x + i < n && y + i < n && table[x + i][y + i] == 'Q' {
          assert Cell(x + i, y + i) in Queens();
          return false;
        }
        if x - i >= 0 && y - i >= 0 && table[x - i][y - i] == 'Q' {
          assert Cell(x - i, y - i) in Queens();
          return false;
        }
        if x + i < n && y - i >= 0 && table[x + i][y - i] == 'Q' {
          assert Cell(x + i, y - i) in Queens();
          return false;
        }
        if x - i >= 0 && y + i < n && table[x - i][y + i] == 'Q' {
          assert Cell(x - i, y + i) in Queens();
          return false;
        }
        assert DiagonalsFree(n, table, x, y, i);
      }
      AllDiagonalsFree(n, table, x, y);
      return true;
    }

    /** solveNQueen. It succeeds exactly when the board can be filled, and then has filled it; a failure leaves
        everything as it was. */
    method SolveNQueen(row: nat) returns (solved: bool)
      requires Valid() && row <= n
      requires forall r :: 0 <= r < row ==> rowQueen[r]
      modifies this
      ensures Valid()
      ensures solved <==> Fillable(n, old(Queens()))
      ensures solved ==> Fills(n, old(Queens()), Queens())
      ensures !solved ==> table == old(table) && rowQueen == old(rowQueen) && colQueen == old(colQueen)
      ensures !solved ==> !Completable(n, old(Queens()))
      decreases n - row
    {
      if row == n {
        assert Fills(n, Queens(), Queens());
        return true;
      }
      if rowQueen[row] {
        solved := SolveNQueen(row + 1);
        return;
      }
      ghost var given := Queens();
      for col := 0 to n
        invariant table == old(table) && rowQueen == old(rowQueen) && colQueen == old(colQueen)
        invariant forall c :: 0 <= c < col ==> !FillableWith(n, given, Cell(row, c))
      {
        ghost var cell := Cell(row, col);
        if colQueen[col] {
          ColumnFails(n, given, cell);
          continue;
        }
        var free := CheckQueen(row, col);
        if free {
          PlacedQueens(n, table, row, col);
          PlacedFlags(n, given, rowQueen, colQueen, cell);
          FreeCellDecides(n, given, cell);
          rowQueen := rowQueen[row := true];
          colQueen := colQueen[col := true];
          table := table[row := table[row][col := 'Q']];
          var flg := SolveNQueen(row + 1);
          if flg {
            FreeCellAddsNoAttack(given, cell, Queens());
            return true;
          }
          rowQueen := rowQueen[row := false];
          colQueen := colQueen[col := false];
          table := table[row := table[row][col := '.']];
          LiftedQueen(old(table), row, col);
        } else {
          ghost var d :| d in given && SameDiagonal(cell, d);
          AttackedCellFails(n, given, cell, d);
        }
      }
      if Fillable(n, given) {
        ghost var col := SomeColumnWorks(n, given, row);
      }
      CompletableIsFillable(n, given);
      return false;
    }

    /** The call in main, from row 0. Given queens that attack each other are never noticed: the call succeeds
        exactly when the rows can be filled without a further attack, and what it finds is a solution exactly
        when the given queens were peaceful. */
    method Solve() returns (solved: bool)
      requires Valid()
      modifies this
      ensures Valid()
      ensures solved <==> Fillable(n, old(Queens()))
      ensures Peaceful(old(Queens())) ==> (solved <==> Completable(n, old(Queens())))
      ensures !solved ==> table == old(table) && !Completable(n, old(Queens()))
      ensures solved ==> old(Queens()) <= Queens()
      ensures solved ==> (Solution(n, Queens()) <==> Peaceful(old(Queens())))
    {
      solved := SolveNQueen(0);
      if Peaceful(old(Queens())) {
        FillableIffCompletable(n, old(Queens()));
        if solved {
          FullRowsCount(n, Queens());
        }
      }
    }
  }

  /** A board on which the search reports success although no solution exists: two queens in one row, the other
      row just as full. */
  lemma AttackingQueensAccepted()
    ensures IsTable(2, ["QQ", "QQ"])
    ensures var given := QueensOf(2, ["QQ", "QQ"]);
      Fillable(2, given) && !Peaceful(given) && !Completable(2, given)
  {
    var given := QueensOf(2, ["QQ", "QQ"]);
    assert Cell(0, 0) in given && Cell(0, 1) in given && Cell(1, 0) in given;
    assert Attack(Cell(0, 0), Cell(0, 1));
    assert RowTaken(given, 0) && RowTaken(given, 1);
    assert Fills(2, given, given);
  }

  lemma {:induction false} FullRowsCount(n: nat, queens: set<Cell>)
    requires DistinctRows(queens) && forall c :: c in queens ==> 0 <= c.row < n
    requires forall r :: 0 <= r < n ==> RowTaken(queens, r)
    ensures |queens| == n
    decreases n
  {
    RowsBoundCount(n, queens);
    if n > 0 {
      assert RowTaken(queens, n - 1);
      var c :| c in queens && c.row == n - 1;
      var rest := queens - {c};
      forall r | 0 <= r < n - 1 ensures RowTaken(rest, r) {
        assert RowTaken(queens, r);
        var d :| d in queens && d.row == r;
        assert d in rest;
      }
      FullRowsCount(n - 1, rest);
    }
  }

  ghost predicate IsTable(n: nat, table: seq<string>) {
    && |table| == n
    && forall r :: 0 <= r < n ==> |table[r]| == n && forall c :: 0 <= c < n ==> table[r][c] == 'Q' || table[r][c] == '.'
  }

  ghost function QueensOf(n: nat, table: seq<string>): (queens: set<Cell>)
    ensures IsTable(n, table) ==>
      forall c :: c in queens <==> OnBoard(n, c) && table[c.row][c.col] == 'Q'
  {
    set r, c | 0 <= r < n && 0 <= c < n && r < |table| && c < |table[r]| && table[r][c] == 'Q' :: Cell(r, c)
  }

  /** The four cells at distance k on the diagonals through (x, y), as far as they are on the board. */
  ghost predicate DiagonalsFree(n: nat, table: seq<string>, x: nat, y: nat, k: nat)
    requires IsTable(n, table)
  {
    && (x + k < n && y + k < n ==> table[x + k][y + k] != 'Q')
    && (0 <= x - k < n && 0 <= y - k < n ==> table[x - k][y - k] != 'Q')
    && (x + k < n && 0 <= y - k < n ==> table[x + k][y - k] != 'Q')
    && (0 <= x - k < n && y + k < n ==> table[x - k][y + k] != 'Q')
  }

  lemma AllDiagonalsFree(n: nat, table: seq<string>, x: nat, y: nat)
    requires IsTable(n, table) && x < n && y < n
    requires forall k: nat :: k < n ==> DiagonalsFree(n, table, x, y, k)
    ensures forall d :: d in QueensOf(n, table) ==> !SameDiagonal(Cell(x, y), d)
  {
    forall d | d in QueensOf(n, table) ensures !SameDiagonal(Cell(x, y), d) {
      var k := if d.row < x then x - d.row else d.row - x;
      assert OnBoard(n, d) && DiagonalsFree(n, table, x, y, k);
    }
  }

  ghost predicate FlagsAgree(n: nat, queens: set<Cell>, rowQueen: seq<bool>, colQueen: seq<bool>) {
    && |rowQueen| == n && |colQueen| == n
    && (forall r :: 0 <= r < n ==> (rowQueen[r] <==> RowTaken(queens, r)))
    && (forall c :: 0 <= c < n ==> (colQueen[c] <==> ColumnTaken(queens, c)))
  }

  lemma FlagsFromTable(n: nat, table: seq<string>, rowQueen: seq<bool>, colQueen: seq<bool>)
    requires IsTable(n, table) && |rowQueen| == |colQueen| == n
    requires forall r :: 0 <= r < n ==> (rowQueen[r] <==> exists c :: 0 <= c < n && table[r][c] == 'Q')
    requires forall c :: 0 <= c < n ==> (colQueen[c] <==> exists r :: 0 <= r < n && table[r][c] == 'Q')
    ensures FlagsAgree(n, QueensOf(n, table), rowQueen, colQueen)
  {
    var queens := QueensOf(n, table);
    forall k | 0 <= k < n ensures (rowQueen[k] <==> RowTaken(queens, k)) && (colQueen[k] <==> ColumnTaken(queens, k)) {
      if rowQueen[k] {
        var c :| 0 <= c < n && table[k][c] == 'Q';
        assert Cell(k, c) in queens;
      }
      if colQueen[k] {
        var r :| 0 <= r < n && table[r][k] == 'Q';
        assert Cell(r, k) in queens;
      }
    }
  }

  lemma PlacedFlags(n: nat, queens: set<Cell>, rowQueen: seq<bool>, colQueen: seq<bool>, cell: Cell)
    requires FlagsAgree(n, queens, rowQueen, colQueen) && OnBoard(n, cell)
    ensures FlagsAgree(n, queens + {cell}, rowQueen[cell.row := true], colQueen[cell.col := true])
  {
    var more := queens + {cell};
    assert cell in more;
    forall k | 0 <= k < n
      ensures RowTaken(more, k) <==> RowTaken(queens, k) || k == cell.row
      ensures ColumnTaken(more, k) <==> ColumnTaken(queens, k) || k == cell.col
    {
      assert forall c :: c in queens ==> c in more;
    }
  }

  lemma ColumnFails(n: nat, queens: set<Cell>, cell: Cell)
    requires ColumnTaken(queens, cell.col) && !RowTaken(queens, cell.row)
    ensures !FillableWith(n, queens, cell)
  {
    var d :| d in queens && d.col == cell.col;
    AttackedCellFails(n, queens, cell, d);
  }

  lemma FreeCellAddsNoAttack(given: set<Cell>, cell: Cell, after: set<Cell>)
    requires !RowTaken(given, cell.row) && !ColumnTaken(given, cell.col)
    requires forall d :: d in given ==> !SameDiagonal(cell, d)
    requires NoNewAttack(given + {cell}, after)
    ensures NoNewAttack(given, after)
  {
  }

  lemma LiftedQueen(table: seq<string>, row: nat, col: nat)
    requires row < |table| && col < |table[row]| && table[row][col] == '.'
    ensures var placed := table[row := table[row][col := 'Q']];
            placed[row := placed[row][col := '.']] == table
  {
    assert table[row][col := 'Q'][col := '.'] == table[row];
  }

  lemma PlacedQueens(n: nat, table: seq<string>, row: nat, col: nat)
    requires IsTable(n, table) && row < n && col < n
    ensures IsTable(n, table[row := table[row][col := 'Q']])
    ensures QueensOf(n, table[row := table[row][col := 'Q']]) == QueensOf(n, table) + {Cell(row, col)}
  {
    var placed := table[row := table[row][col := 'Q']];
    assert forall r, c :: 0 <= r < n && 0 <= c < n ==>
      placed[r][c] == if r == row && c == col then 'Q' else table[r][c];
  }
}
