/** Island discovery: a row-major scan of the board collecting the occupied cells
    (`find_islands`, and the first step of the CNF builder and of the graph solvers' parser). */
module Islands {
  import opened Hashi

  /** Which cells are islands: `find_islands` keeps every nonzero cell, the CNF builder and
      the graph solvers' parser every positive one. */
  datatype CellTest = NonZero | Positive

  predicate IsIslandCell(test: CellTest, v: int)
  {
    match test
    case NonZero => v != 0
    case Positive => v > 0
  }

  /** The islands among the first `j` cells of row `i`, left to right. */
  function RowIslands(board: Board, test: CellTest, i: nat, j: nat): seq<Island>
    requires i < |board| && j <= |board[i]|
  {
    if j == 0 then []
    else RowIslands(board, test, i, j - 1)
         + (if IsIslandCell(test, board[i][j - 1]) then [Island(i, j - 1, board[i][j - 1])] else [])
  }

  /** The islands of the first `i` rows, in row-major order. */
  function Scan(board: Board, test: CellTest, i: nat): seq<Island>
    requires i <= |board|
  {
    if i == 0 then [] else Scan(board, test, i - 1) + RowIslands(board, test, i - 1, |board[i - 1]|)
  }

  /** The island list of the whole board; an island's id is its index here. */
  function IslandsOf(board: Board, test: CellTest): seq<Island>
  {
    Scan(board, test, |board|)
  }

  /** The scan itself: nested loops over rows and columns appending each island cell. */
  method FindIslands(board: Board, test: CellTest) returns (islands: seq<Island>)
    ensures islands == IslandsOf(board, test)
  {
    islands := [];
    for i := 0 to |board|
      invariant islands == Scan(board, test, i)
    {
      for j := 0 to |board[i]|
        invariant islands == Scan(board, test, i) + RowIslands(board, test, i, j)
      {
        if IsIslandCell(test, board[i][j]) {
          islands := islands + [Island(i, j, board[i][j])];
        }
      }
    }
  }

  /** The cell holding `x` exists, passes the test and holds `x.val`. */
  predicate OnBoard(board: Board, test: CellTest, x: Island)
  {
    && 0 <= x.r < |board| && 0 <= x.c < |board[x.r]|
    && IsIslandCell(test, board[x.r][x.c]) && x.val == board[x.r][x.c]
  }

  /** `x` comes strictly before `y` in row-major order. */
  predicate Before(x: Island, y: Island)
  {
    x.r < y.r || (x.r == y.r && x.c < y.c)
  }

  predicate RowMajor(s: seq<Island>)
  {
    forall a, b :: 0 <= a < b < |s| ==> Before(s[a], s[b])
  }

  lemma {:induction false} RowIslandsMembers(board: Board, test: CellTest, i: nat, j: nat, x: Island)
    requires i < |board| && j <= |board[i]|
    ensures x in RowIslands(board, test, i, j) <==> OnBoard(board, test, x) && x.r == i && x.c < j
  {
    if j > 0 {
      RowIslandsMembers(board, test, i, j - 1, x);
    }
  }

  lemma {:induction false} ScanMembers(board: Board, test: CellTest, i: nat, x: Island)
    requires i <= |board|
    ensures x in Scan(board, test, i) <==> OnBoard(board, test, x) && x.r < i
  {
    if i > 0 {
      ScanMembers(board, test, i - 1, x);
      RowIslandsMembers(board, test, i - 1, |board[i - 1]|, x);
    }
  }

  /** The island list holds exactly the cells that pass the test, each with its own value. */
  lemma IslandsExactly(board: Board, test: CellTest, x: Island)
    ensures x in IslandsOf(board, test) <==> OnBoard(board, test, x)
  {
    ScanMembers(board, test, |board|, x);
  }

  lemma RowMajorConcat(s: seq<Island>, t: seq<Island>)
    requires RowMajor(s) && RowMajor(t)
    requires forall a, b :: 0 <= a < |s| && 0 <= b < |t| ==> Before(s[a], t[b])
    ensures RowMajor(s + t)
  {
  }

  lemma {:induction false} RowIslandsOrdered(board: Board, test: CellTest, i: nat, j: nat)
    requires i < |board| && j <= |board[i]|
    ensures RowMajor(RowIslands(board, test, i, j))
  {
    if j > 0 {
      RowIslandsOrdered(board, test, i, j - 1);
      var s := RowIslands(board, test, i, j - 1);
      var t := if IsIslandCell(test, board[i][j - 1]) then [Island(i, j - 1, board[i][j - 1])] else [];
      forall a, b | 0 <= a < |s| && 0 <= b < |t| ensures Before(s[a], t[b]) {
        RowIslandsMembers(board, test, i, j - 1, s[a]);
      }
      RowMajorConcat(s, t);
    }
  }

  lemma {:induction false} ScanOrdered(board: Board, test: CellTest, i: nat)
    requires i <= |board|
    ensures RowMajor(Scan(board, test, i))
  {
    if i > 0 {
      ScanOrdered(board, test, i - 1);
      RowIslandsOrdered(board, test, i - 1, |board[i - 1]|);
      var s, t := Scan(board, test, i - 1), RowIslands(board, test, i - 1, |board[i - 1]|);
      forall a, b | 0 <= a < |s| && 0 <= b < |t| ensures Before(s[a], t[b]) {
        ScanMembers(board, test, i - 1, s[a]);
        RowIslandsMembers(board, test, i - 1, |board[i - 1]|, t[b]);
      }
      RowMajorConcat(s, t);
    }
  }

  /** Islands come in strict row-major order, so no cell is listed twice. */
  lemma IslandsRowMajor(board: Board, test: CellTest)
    ensures RowMajor(IslandsOf(board, test))
  {
    ScanOrdered(board, test, |board|);
  }

  /** A board without an island cell yields no islands. */
  lemma NoIslands(board: Board, test: CellTest)
    requires forall r, c :: 0 <= r < |board| && 0 <= c < |board[r]| ==> !IsIslandCell(test, board[r][c])
    ensures IslandsOf(board, test) == []
  {
    var s := IslandsOf(board, test);
    if s != [] {
      IslandsExactly(board, test, s[0]);
    }
  }

  /** On a board without negative cells the nonzero scan and the positive scan agree. */
  lemma {:induction false} ScansAgree(board: Board, i: nat)
    requires i <= |board|
    requires forall r, c :: 0 <= r < |board| && 0 <= c < |board[r]| ==> board[r][c] >= 0
    ensures Scan(board, NonZero, i) == Scan(board, Positive, i)
  {
    if i > 0 {
      ScansAgree(board, i - 1);
      RowScansAgree(board, i - 1, |board[i - 1]|);
    }
  }

  lemma {:induction false} RowScansAgree(board: Board, i: nat, j: nat)
    requires i < |board| && j <= |board[i]|
    requires forall c :: 0 <= c < |board[i]| ==> board[i][c] >= 0
    ensures RowIslands(board, NonZero, i, j) == RowIslands(board, Positive, i, j)
  {
    if j > 0 {
      RowScansAgree(board, i, j - 1);
    }
  }
}
