/**
 * The puzzle grid and the island table (get_island_info), and the
 * per-island neighbour count (count_possible_bridges).
 */
module Grid {

  /** The puzzle: 0 is an empty cell, any other value an island needing that many bridges. */
  type Matrix = seq<seq<int>>

  /** Every row as long as the first (the grid files are rectangular). */
  predicate Rectangular(m: Matrix)
  {
    |m| > 0 && forall r :: 0 <= r < |m| ==> |m[r]| == |m[0]|
  }

  predicate InGrid(m: Matrix, r: int, c: int)
  {
    0 <= r < |m| && 0 <= c < |m[r]|
  }

  /** An island: its cell and its required bridge count. Island id k is entry k - 1 of the table. */
  datatype Island = Island(row: nat, col: nat, value: int)

  /** The islands of row r among its first c cells, left to right. */
  function RowIslands(m: Matrix, r: nat, c: nat): seq<Island>
    requires r < |m| && c <= |m[r]|
  {
    if c == 0 then []
    else RowIslands(m, r, c - 1) + (if m[r][c - 1] != 0 then [Island(r, c - 1, m[r][c - 1])] else [])
  }

  /** The islands of the first r rows in row-major order. */
  function IslandsOfRows(m: Matrix, r: nat): seq<Island>
    requires r <= |m|
  {
    if r == 0 then [] else IslandsOfRows(m, r - 1) + RowIslands(m, r - 1, |m[r - 1]|)
  }

  /** The island table of the whole grid. */
  function IslandsOf(m: Matrix): seq<Island>
  {
    IslandsOfRows(m, |m|)
  }

  /** Row-major order on cells. */
  predicate Before(r1: int, c1: int, r2: int, c2: int)
  {
    r1 < r2 || (r1 == r2 && c1 < c2)
  }

  /** Some entry of the table sits at cell (r, c). */
  predicate HasCell(islands: seq<Island>, r: int, c: int)
  {
    exists k :: 0 <= k < |islands| && islands[k].row == r && islands[k].col == c
  }

  /** What a table of islands extracted from m must be: exactly its non-zero cells, in scan order. */
  ghost predicate IsTableOf(islands: seq<Island>, m: Matrix)
  {
    && (forall k :: 0 <= k < |islands| ==>
          InGrid(m, islands[k].row, islands[k].col)
          && m[islands[k].row][islands[k].col] == islands[k].value != 0)
    && (forall r, c :: InGrid(m, r, c) && m[r][c] != 0 ==> HasCell(islands, r, c))
    && InScanOrder(islands)
  }

  /** Each island comes before every later one in row-major order. */
  predicate InScanOrder(islands: seq<Island>)
  {
    forall k1, k2 :: 0 <= k1 < k2 < |islands| ==>
      Before(islands[k1].row, islands[k1].col, islands[k2].row, islands[k2].col)
  }

  /** Every entry of RowIslands(m, r, c) is a non-zero cell of row r left of c, with its value. */
  lemma {:induction false} RowIslandsCells(m: Matrix, r: nat, c: nat)
    requires r < |m| && c <= |m[r]|
    ensures forall k :: 0 <= k < |RowIslands(m, r, c)| ==>
      RowIslands(m, r, c)[k].row == r && RowIslands(m, r, c)[k].col < c
      && m[r][RowIslands(m, r, c)[k].col] == RowIslands(m, r, c)[k].value != 0
  {
    if c > 0 {
      RowIslandsCells(m, r, c - 1);
      var prev := RowIslands(m, r, c - 1);
      var s := RowIslands(m, r, c);
      assert forall k :: 0 <= k < |prev| ==> s[k] == prev[k];
    }
  }

  /** Every non-zero cell of row r left of c has its entry in RowIslands(m, r, c). */
  lemma {:induction false} RowIslandsComplete(m: Matrix, r: nat, c: nat)
    requires r < |m| && c <= |m[r]|
    ensures forall cc :: 0 <= cc < c && m[r][cc] != 0 ==> HasCell(RowIslands(m, r, c), r, cc)
  {
    if c > 0 {
      RowIslandsComplete(m, r, c - 1);
      var prev := RowIslands(m, r, c - 1);
      var s := RowIslands(m, r, c);
      assert forall k :: 0 <= k < |prev| ==> s[k] == prev[k];
      forall cc | 0 <= cc < c && m[r][cc] != 0
        ensures HasCell(s, r, cc)
      {
        if cc < c - 1 {
          assert HasCell(prev, r, cc);
          var k :| 0 <= k < |prev| && prev[k].row == r && prev[k].col == cc;
          assert s[k].row == r && s[k].col == cc;
        } else {
          assert s[|prev|].row == r && s[|prev|].col == cc;
        }
      }
    }
  }

  /** RowIslands lists its cells left to right. */
  lemma {:induction false} RowIslandsOrdered(m: Matrix, r: nat, c: nat)
    requires r < |m| && c <= |m[r]|
    ensures forall k1, k2 :: 0 <= k1 < k2 < |RowIslands(m, r, c)| ==>
      RowIslands(m, r, c)[k1].col < RowIslands(m, r, c)[k2].col
  {
    if c > 0 {
      RowIslandsOrdered(m, r, c - 1);
      RowIslandsCells(m, r, c - 1);
      var prev := RowIslands(m, r, c - 1);
      var s := RowIslands(m, r, c);
      assert forall k :: 0 <= k < |prev| ==> s[k] == prev[k];
      assert forall k :: |prev| <= k < |s| ==> s[k].col == c - 1;
    }
  }

  lemma {:induction false} IslandsOfRowsCells(m: Matrix, r: nat)
    requires r <= |m|
    ensures forall k :: 0 <= k < |IslandsOfRows(m, r)| ==>
      IslandsOfRows(m, r)[k].row < r && InGrid(m, IslandsOfRows(m, r)[k].row, IslandsOfRows(m, r)[k].col)
      && m[IslandsOfRows(m, r)[k].row][IslandsOfRows(m, r)[k].col] == IslandsOfRows(m, r)[k].value != 0
  {
    if r > 0 {
      IslandsOfRowsCells(m, r - 1);
      RowIslandsCells(m, r - 1, |m[r - 1]|);
      var prev, row := IslandsOfRows(m, r - 1), RowIslands(m, r - 1, |m[r - 1]|);
      var s := IslandsOfRows(m, r);
      assert forall k :: 0 <= k < |prev| ==> s[k] == prev[k];
      assert forall k :: |prev| <= k < |s| ==> s[k] == row[k - |prev|];
    }
  }

  lemma {:induction false} IslandsOfRowsComplete(m: Matrix, r: nat)
    requires r <= |m|
    ensures forall rr, c :: 0 <= rr < r && InGrid(m, rr, c) && m[rr][c] != 0 ==>
      HasCell(IslandsOfRows(m, r), rr, c)
  {
    if r > 0 {
      IslandsOfRowsComplete(m, r - 1);
      RowIslandsComplete(m, r - 1, |m[r - 1]|);
      var prev, row := IslandsOfRows(m, r - 1), RowIslands(m, r - 1, |m[r - 1]|);
      var s := IslandsOfRows(m, r);
      assert forall k :: 0 <= k < |prev| ==> s[k] == prev[k];
      assert forall k :: 0 <= k < |row| ==> s[|prev| + k] == row[k];
      forall rr, c | 0 <= rr < r && InGrid(m, rr, c) && m[rr][c] != 0
        ensures HasCell(s, rr, c)
      {
        if rr < r - 1 {
          assert HasCell(prev, rr, c);
          var k :| 0 <= k < |prev| && prev[k].row == rr && prev[k].col == c;
          assert s[k].row == rr && s[k].col == c;
        } else {
          assert HasCell(row, rr, c);
          var k :| 0 <= k < |row| && row[k].row == rr && row[k].col == c;
          assert s[|prev| + k].row == rr && s[|prev| + k].col == c;
        }
      }
    }
  }

  lemma {:induction false} IslandsOfRowsOrdered(m: Matrix, r: nat)
    requires r <= |m|
    ensures forall k1, k2 :: 0 <= k1 < k2 < |IslandsOfRows(m, r)| ==>
      Before(IslandsOfRows(m, r)[k1].row, IslandsOfRows(m, r)[k1].col,
             IslandsOfRows(m, r)[k2].row, IslandsOfRows(m, r)[k2].col)
  {
    if r > 0 {
      IslandsOfRowsOrdered(m, r - 1);
      IslandsOfRowsCells(m, r - 1);
      RowIslandsCells(m, r - 1, |m[r - 1]|);
      RowIslandsOrdered(m, r - 1, |m[r - 1]|);
      var prev, row := IslandsOfRows(m, r - 1), RowIslands(m, r - 1, |m[r - 1]|);
      var s := IslandsOfRows(m, r);
      assert forall k :: 0 <= k < |prev| ==> s[k] == prev[k];
      assert forall k :: |prev| <= k < |s| ==> s[k] == row[k - |prev|];
    }
  }

  /**
   * The table maps ids 1..k, consecutive in row-major order, to exactly the
   * non-zero cells, each with its value.
   */
  lemma IslandsOfIsTable(m: Matrix)
    ensures IsTableOf(IslandsOf(m), m)
  {
    IslandsOfRowsCells(m, |m|);
    IslandsOfRowsComplete(m, |m|);
    IslandsOfRowsOrdered(m, |m|);
  }

  /** get_island_info: scan the grid row by row, numbering non-zero cells from 1. */
  method GetIslandInfo(matrix: Matrix) returns (islands: seq<Island>)
    ensures islands == IslandsOf(matrix)
    ensures IsTableOf(islands, matrix)
  {
    islands := [];
    var islandId := 1;
    for i := 0 to |matrix|
      invariant islands == IslandsOfRows(matrix, i)
      invariant islandId == |islands| + 1
    {
      var row := matrix[i];
      for j := 0 to |row|
        invariant islands == IslandsOfRows(matrix, i) + RowIslands(matrix, i, j)
        invariant islandId == |islands| + 1
      {
        var cell := row[j];
        if cell != 0 {
          islands := islands + [Island(i, j, cell)];
          islandId := islandId + 1;
        }
      }
    }
    IslandsOfIsTable(matrix);
  }

  // ---------------------------------------------------------------------
  // count_possible_bridges

  /** The coordinate reached after k steps of d (d is -1, 0 or 1). */
  function Walk(x: int, d: int, k: nat): int
  {
    if d == 1 then x + k else if d == -1 then x - k else x
  }

  predicate IsDirection(dr: int, dc: int)
  {
    (dr, dc) in {(-1, 0), (1, 0), (0, -1), (0, 1)}
  }

  /**
   * Looking from (row, col) in direction (dr, dc), the first cell that is not
   * empty lies on the grid and holds a positive value.
   */
  ghost predicate SeesIsland(grid: Matrix, row: int, col: int, dr: int, dc: int)
    requires Rectangular(grid)
  {
    exists k: nat :: k >= 1 && StepOnGrid(grid, row, col, dr, dc, k)
      && grid[Walk(row, dr, k)][Walk(col, dc, k)] > 0
      && forall j: nat :: 1 <= j < k ==>
           StepOnGrid(grid, row, col, dr, dc, j) && grid[Walk(row, dr, j)][Walk(col, dc, j)] == 0
  }

  /** Step k from (row, col) in direction (dr, dc) is a cell of the grid. */
  predicate StepOnGrid(grid: Matrix, row: int, col: int, dr: int, dc: int, k: nat)
    requires Rectangular(grid)
  {
    0 <= Walk(row, dr, k) < |grid| && 0 <= Walk(col, dc, k) < |grid[0]|
  }

  function Indicator(b: bool): nat
  {
    if b then 1 else 0
  }

  /** One direction of the while loop of count_possible_bridges. */
  method Look(grid: Matrix, row: int, col: int, dr: int, dc: int) returns (found: bool)
    requires Rectangular(grid) && IsDirection(dr, dc)
    ensures found == SeesIsland(grid, row, col, dr, dc)
  {
    var R, C := |grid|, |grid[0]|;
    var r, c := row + dr, col + dc;
    ghost var k: nat := 1;
    while 0 <= r < R && 0 <= c < C
      invariant k >= 1 && r == Walk(row, dr, k) && c == Walk(col, dc, k)
      invariant forall j: nat :: 1 <= j < k ==>
        StepOnGrid(grid, row, col, dr, dc, j) && grid[Walk(row, dr, j)][Walk(col, dc, j)] == 0
      decreases if dr == 1 then R - r else if dr == -1 then r + 1 else if dc == 1 then C - c else c + 1
    {
      if grid[r][c] > 0 {
        return true;
      } else if grid[r][c] == 0 {
        r, c := r + dr, c + dc;
        k := k + 1;
      } else {
        NotSeenPast(grid, row, col, dr, dc, k);
        return false;
      }
    }
    NotSeenPast(grid, row, col, dr, dc, k);
    return false;
  }

  /** Once step k is off the grid or holds a negative value, no island is seen in that direction. */
  lemma NotSeenPast(grid: Matrix, row: int, col: int, dr: int, dc: int, k: nat)
    requires Rectangular(grid) && k >= 1
    requires forall j: nat :: 1 <= j < k ==>
        StepOnGrid(grid, row, col, dr, dc, j) && grid[Walk(row, dr, j)][Walk(col, dc, j)] == 0
    requires !StepOnGrid(grid, row, col, dr, dc, k) || grid[Walk(row, dr, k)][Walk(col, dc, k)] < 0
    ensures !SeesIsland(grid, row, col, dr, dc)
  {
    forall k': nat | k' >= 1
      ensures !(StepOnGrid(grid, row, col, dr, dc, k') && grid[Walk(row, dr, k')][Walk(col, dc, k')] > 0
        && forall j: nat :: 1 <= j < k' ==>
             StepOnGrid(grid, row, col, dr, dc, j) && grid[Walk(row, dr, j)][Walk(col, dc, j)] == 0)
    {
      if k' < k {
        assert grid[Walk(row, dr, k')][Walk(col, dc, k')] == 0;
      } else if k' > k {
        assert !(StepOnGrid(grid, row, col, dr, dc, k) && grid[Walk(row, dr, k)][Walk(col, dc, k)] == 0);
      }
    }
  }

  const Directions: seq<(int, int)> := [(-1, 0), (1, 0), (0, -1), (0, 1)]

  /** The number of the first d directions (up, down, left, right) that see an island. */
  ghost function CountSeen(grid: Matrix, row: int, col: int, d: nat): nat
    requires Rectangular(grid) && d <= 4
  {
    if d == 0 then 0
    else CountSeen(grid, row, col, d - 1)
         + Indicator(SeesIsland(grid, row, col, Directions[d - 1].0, Directions[d - 1].1))
  }

  /**
   * count_possible_bridges: the number of the four directions in which the
   * nearest non-empty cell is an island.
   */
  method CountPossibleBridges(grid: Matrix, row: int, col: int) returns (count: nat)
    requires Rectangular(grid)
    ensures count == Indicator(SeesIsland(grid, row, col, -1, 0)) + Indicator(SeesIsland(grid, row, col, 1, 0))
                   + Indicator(SeesIsland(grid, row, col, 0, -1)) + Indicator(SeesIsland(grid, row, col, 0, 1))
    ensures count <= 4
  {
    var directions := Directions;
    count := 0;
    for d := 0 to 4
      invariant count == CountSeen(grid, row, col, d)
      invariant count <= d
    {
      var (dr, dc) := directions[d];
      var found := Look(grid, row, col, dr, dc);
      if found {
        count := count + 1;
      }
    }
    assert Directions[0] == (-1, 0) && Directions[1] == (1, 0) && Directions[2] == (0, -1) && Directions[3] == (0, 1);
    assert CountSeen(grid, row, col, 4) == CountSeen(grid, row, col, 3) + Indicator(SeesIsland(grid, row, col, 0, 1));
    assert CountSeen(grid, row, col, 3) == CountSeen(grid, row, col, 2) + Indicator(SeesIsland(grid, row, col, 0, -1));
    assert CountSeen(grid, row, col, 2) == CountSeen(grid, row, col, 1) + Indicator(SeesIsland(grid, row, col, 1, 0));
  }
}
