/**
 * Candidate bridges (generate_bridge): from every island, the first island to
 * its right in its row and the first island below it in its column, provided
 * the cells in between are empty; then duplicates of an unordered pair are
 * dropped, keeping the first.
 */
module Bridges {
  import opened Wrappers
  import opened Grid

  /** How two islands are joined: ('horizontal', row, start_col, end_col) or ('vertical', col, start_row, end_row). */
  datatype Extra = Horizontal(row: int, startCol: int, endCol: int) | Vertical(col: int, startRow: int, endRow: int)

  /** A candidate bridge (i, j, extra) between islands i and j. */
  datatype Bridge = Bridge(i: int, j: int, extra: Extra)

  /** coord_to_id: (row, col) -> id, later ids overwriting earlier ones at the same cell. */
  function CoordMap(islands: seq<Island>): map<(int, int), int>
  {
    if islands == [] then map[]
    else
      var last := islands[|islands| - 1];
      CoordMap(islands[..|islands| - 1])[(last.row, last.col) := |islands|]
  }

  /** A cell is a key exactly when some island sits there, and its id names such an island. */
  lemma CoordMapSpec(islands: seq<Island>)
    ensures NamesIslands(CoordMap(islands), islands)
  {
    CoordMapKeys(islands);
    CoordMapIds(islands);
  }

  lemma {:induction false} CoordMapKeys(islands: seq<Island>)
    ensures KeysAreCells(CoordMap(islands), islands)
  {
    if islands != [] {
      var prev := islands[..|islands| - 1];
      CoordMapKeys(prev);
      forall r, c ensures (r, c) in CoordMap(islands) <==> HasCell(islands, r, c) {
        if HasCell(islands, r, c) {
          var k :| 0 <= k < |islands| && islands[k].row == r && islands[k].col == c;
          if k < |prev| {
            assert prev[k] == islands[k];
            assert HasCell(prev, r, c);
          }
        }
        if HasCell(prev, r, c) {
          var k :| 0 <= k < |prev| && prev[k].row == r && prev[k].col == c;
          assert islands[k] == prev[k];
        }
      }
    }
  }

  lemma {:induction false} CoordMapIds(islands: seq<Island>)
    ensures IdsAtKeys(CoordMap(islands), islands)
  {
    if islands != [] {
      var prev := islands[..|islands| - 1];
      CoordMapIds(prev);
      assert forall k :: 0 <= k < |prev| ==> prev[k] == islands[k];
    }
  }

  /** coords maps exactly the cells of the islands, each to the id of an island there. */
  ghost predicate NamesIslands(coords: map<(int, int), int>, islands: seq<Island>)
  {
    KeysAreCells(coords, islands) && IdsAtKeys(coords, islands)
  }

  /** The keys of coords are exactly the cells holding an island. */
  ghost predicate KeysAreCells(coords: map<(int, int), int>, islands: seq<Island>)
  {
    forall r, c :: (r, c) in coords <==> HasCell(islands, r, c)
  }

  /** Each key is mapped to the id of an island at that cell. */
  predicate IdsAtKeys(coords: map<(int, int), int>, islands: seq<Island>)
  {
    forall key :: key in coords ==>
      1 <= coords[key] <= |islands| && islands[coords[key] - 1].row == key.0 && islands[coords[key] - 1].col == key.1
  }

  /** The id coords gives a cell names an island at that cell. */
  lemma CoordsAt(coords: map<(int, int), int>, islands: seq<Island>, key: (int, int))
    requires IdsAtKeys(coords, islands) && key in coords
    ensures 1 <= coords[key] <= |islands| && islands[coords[key] - 1].row == key.0 && islands[coords[key] - 1].col == key.1
  {
  }

  /** Islands in different rows have different ids. */
  lemma DistinctEnds(coords: map<(int, int), int>, islands: seq<Island>, r: int, c: int, x: int, y: int)
    requires IdsAtKeys(coords, islands) && (r, x) in coords && (y, c) in coords && r < y
    ensures coords[(r, x)] != coords[(y, c)]
  {
    CoordsAt(coords, islands, (r, x));
    CoordsAt(coords, islands, (y, c));
  }

  /** The cell visited at position x of a row scan (fixed = row) or a column scan (fixed = column). */
  function Probe(horizontal: bool, fixed: int, x: int): (int, int)
  {
    if horizontal then (fixed, x) else (x, fixed)
  }

  /** The first position x in lo..hi - 1 whose cell is a key of coords. */
  function Nearest(coords: map<(int, int), int>, horizontal: bool, fixed: int, lo: int, hi: int): (x: Option<int>)
    ensures x.Some? ==> lo <= x.value < hi && Probe(horizontal, fixed, x.value) in coords
    ensures forall y :: lo <= y < hi && (x.None? || y < x.value) ==> Probe(horizontal, fixed, y) !in coords
    decreases hi - lo
  {
    if lo >= hi then None
    else if Probe(horizontal, fixed, lo) in coords then Some(lo)
    else Nearest(coords, horizontal, fixed, lo + 1, hi)
  }

  /** The cell at position x of the scan; the scanned row or column lies inside the grid. */
  function CellAt(m: Matrix, horizontal: bool, fixed: int, x: int): int
    requires Rectangular(m)
    requires horizontal ==> 0 <= fixed < |m| && 0 <= x < |m[0]|
    requires !horizontal ==> 0 <= fixed < |m[0]| && 0 <= x < |m|
  {
    if horizontal then m[fixed][x] else m[x][fixed]
  }

  /** Every cell at positions lo..hi - 1 of the scan is empty. */
  predicate ClearBetween(m: Matrix, horizontal: bool, fixed: int, lo: int, hi: int)
    requires Rectangular(m) && 0 <= lo && hi <= (if horizontal then |m[0]| else |m|)
    requires if horizontal then 0 <= fixed < |m| else 0 <= fixed < |m[0]|
  {
    forall y :: lo <= y < hi ==> CellAt(m, horizontal, fixed, y) == 0
  }

  /** The grid's extent along the scan. */
  function Limit(m: Matrix, horizontal: bool): nat
    requires Rectangular(m)
  {
    if horizontal then |m[0]| else |m|
  }

  /** tuple(sorted((id, id2))) with the extra attached. */
  function MakeBridge(id: int, id2: int, extra: Extra): (b: Bridge)
    ensures b.i <= b.j
    ensures (b.i, b.j) == (id, id2) || (b.i, b.j) == (id2, id)
  {
    if id <= id2 then Bridge(id, id2, extra) else Bridge(id2, id, extra)
  }

  /**
   * The bridge found by one direction of generate_bridge for island id at (r, c):
   * the nearest island in that direction, kept only when every cell strictly
   * between the two is empty.
   */
  function Candidate(m: Matrix, coords: map<(int, int), int>, id: int, r: int, c: int, horizontal: bool): Option<Bridge>
    requires Rectangular(m) && InGrid(m, r, c)
  {
    var fixed, start := if horizontal then r else c, (if horizontal then c else r) + 1;
    match Nearest(coords, horizontal, fixed, start, Limit(m, horizontal))
    case None => None
    case Some(x) =>
      if ClearBetween(m, horizontal, fixed, start, x) then
        Some(MakeBridge(id, coords[Probe(horizontal, fixed, x)],
                        if horizontal then Horizontal(r, c, x) else Vertical(c, r, x)))
      else None
  }

  predicate AllInGrid(islands: seq<Island>, m: Matrix)
  {
    forall k :: 0 <= k < |islands| ==> InGrid(m, islands[k].row, islands[k].col)
  }

  function ToSeq<T>(o: Option<T>): seq<T>
  {
    if o.Some? then [o.value] else []
  }

  /** The bridges the two scans from island k + 1 append: rightward first, then downward. */
  function FromIsland(m: Matrix, islands: seq<Island>, coords: map<(int, int), int>, k: nat): seq<Bridge>
    requires Rectangular(m) && AllInGrid(islands, m) && k < |islands|
  {
    ToSeq(Candidate(m, coords, k + 1, islands[k].row, islands[k].col, true))
      + ToSeq(Candidate(m, coords, k + 1, islands[k].row, islands[k].col, false))
  }

  /** The contributions of the islands, in id order. */
  function Parts(m: Matrix, islands: seq<Island>, coords: map<(int, int), int>): (parts: seq<seq<Bridge>>)
    requires Rectangular(m) && AllInGrid(islands, m)
    ensures |parts| == |islands|
  {
    seq(|islands|, k requires 0 <= k < |islands| => FromIsland(m, islands, coords, k))
  }

  function Flatten(parts: seq<seq<Bridge>>): seq<Bridge>
  {
    if parts == [] then [] else Flatten(parts[..|parts| - 1]) + parts[|parts| - 1]
  }

  /** The list `bridges` before deduplication. */
  function RawBridges(islands: seq<Island>, m: Matrix, coords: map<(int, int), int>): seq<Bridge>
    requires Rectangular(m) && AllInGrid(islands, m)
  {
    Flatten(Parts(m, islands, coords))
  }

  function PairOf(b: Bridge): (int, int)
  {
    (b.i, b.j)
  }

  /** `p in unique_bridge`, the dictionary being kept as its list of entries in insertion order. */
  predicate HasPair(s: seq<Bridge>, p: (int, int))
  {
    exists k :: 0 <= k < |s| && PairOf(s[k]) == p
  }

  predicate DistinctPairs(s: seq<Bridge>)
  {
    forall k1, k2 :: 0 <= k1 < k2 < |s| ==> PairOf(s[k1]) != PairOf(s[k2])
  }

  /** The entries of unique_bridge after the whole list: the first bridge of each pair, in order. */
  function Dedupe(raw: seq<Bridge>): (r: seq<Bridge>)
    ensures DistinctPairs(r)
    ensures forall p :: HasPair(r, p) <==> HasPair(raw, p)
  {
    if raw == [] then []
    else
      var prev, last := Dedupe(raw[..|raw| - 1]), raw[|raw| - 1];
      assert forall p :: HasPair(raw, p) <==> HasPair(raw[..|raw| - 1], p) || p == PairOf(last) by {
        forall p ensures HasPair(raw, p) <==> HasPair(raw[..|raw| - 1], p) || p == PairOf(last) {
          if HasPair(raw[..|raw| - 1], p) {
            var k :| 0 <= k < |raw| - 1 && PairOf(raw[..|raw| - 1][k]) == p;
            assert PairOf(raw[k]) == p;
          }
          if HasPair(raw, p) {
            var k :| 0 <= k < |raw| && PairOf(raw[k]) == p;
            if k < |raw| - 1 {
              assert PairOf(raw[..|raw| - 1][k]) == p;
            }
          }
        }
      }
      if HasPair(prev, PairOf(last)) then prev
      else
        var r := prev + [last];
        assert forall p :: HasPair(r, p) <==> HasPair(prev, p) || p == PairOf(last) by {
          forall p ensures HasPair(r, p) <==> HasPair(prev, p) || p == PairOf(last) {
            if HasPair(prev, p) {
              var k :| 0 <= k < |prev| && PairOf(prev[k]) == p;
              assert PairOf(r[k]) == p;
            }
            assert PairOf(r[|prev|]) == PairOf(last);
          }
        }
        r
  }

  /** b is an entry of raw whose pair does not occur earlier in raw. */
  predicate FirstOfPair(raw: seq<Bridge>, b: Bridge)
  {
    exists q :: 0 <= q < |raw| && raw[q] == b && !HasPair(raw[..q], PairOf(b))
  }

  /** Each entry kept is the first bridge of the list with its pair, so the first `extra` seen wins. */
  lemma {:induction false} DedupeKeepsFirst(raw: seq<Bridge>)
    ensures forall k :: 0 <= k < |Dedupe(raw)| ==> FirstOfPair(raw, Dedupe(raw)[k])
  {
    if raw != [] {
      var init := raw[..|raw| - 1];
      var prev, last := Dedupe(init), raw[|raw| - 1];
      DedupeKeepsFirst(init);
      assert forall q :: 0 <= q < |init| ==> raw[q] == init[q] && raw[..q] == init[..q];
      var r := Dedupe(raw);
      forall k | 0 <= k < |r|
        ensures FirstOfPair(raw, r[k])
      {
        if k < |prev| {
          assert FirstOfPair(init, prev[k]);
          var q :| 0 <= q < |init| && init[q] == prev[k] && !HasPair(init[..q], PairOf(prev[k]));
          assert raw[q] == r[k] && !HasPair(raw[..q], PairOf(raw[q]));
        } else {
          assert !HasPair(prev, PairOf(last)) && r[k] == last;
          assert raw[..|raw| - 1] == init;
          assert raw[|raw| - 1] == r[k] && !HasPair(raw[..|raw| - 1], PairOf(r[k]));
        }
      }
    }
  }

  lemma SplitLast<T>(s: seq<T>)
    requires s != []
    ensures s == s[..|s| - 1] + [s[|s| - 1]]
  {
  }

  /** When no pair repeats, deduplication keeps the list as it is. */
  lemma {:induction false} DedupeDistinct(raw: seq<Bridge>)
    requires DistinctPairs(raw)
    ensures Dedupe(raw) == raw
  {
    if raw != [] {
      var init := raw[..|raw| - 1];
      assert DistinctPairs(init) by {
        assert forall k :: 0 <= k < |init| ==> init[k] == raw[k];
      }
      DedupeDistinct(init);
      forall k | 0 <= k < |init| ensures PairOf(init[k]) != PairOf(raw[|raw| - 1]) {
        assert init[k] == raw[k];
      }
      SplitLast(raw);
    }
  }

  /** One direction of the loop over islands: the `for next_c` / `for next_r` scan and its `valid` check. */
  method Scan(m: Matrix, coords: map<(int, int), int>, id: int, r: int, c: int, horizontal: bool)
    returns (bridge: Option<Bridge>)
    requires Rectangular(m) && InGrid(m, r, c)
    ensures bridge == Candidate(m, coords, id, r, c, horizontal)
  {
    var limit := if horizontal then |m[0]| else |m|;
    var fixed := if horizontal then r else c;
    var start := (if horizontal then c else r) + 1;
    bridge := None;
    var next := start;
    while next < limit
      invariant start <= next <= limit
      invariant forall y :: start <= y < next ==> Probe(horizontal, fixed, y) !in coords
      invariant bridge == None
    {
      var cell := if horizontal then (r, next) else (next, c);
      if cell in coords {
        var valid := true;
        var t := start;
        while t < next
          invariant start <= t <= next
          invariant valid && forall y :: start <= y < t ==> CellAt(m, horizontal, fixed, y) == 0
        {
          if (if horizontal then m[r][t] else m[t][c]) != 0 {
            assert CellAt(m, horizontal, fixed, t) != 0;
            valid := false;
            break;
          }
          t := t + 1;
        }
        assert valid <==> ClearBetween(m, horizontal, fixed, start, next);
        if valid {
          var id2 := coords[cell];
          bridge := Some(MakeBridge(id, id2, if horizontal then Horizontal(r, c, next) else Vertical(c, r, next)));
        }
        assert cell == Probe(horizontal, fixed, next);
        assert Nearest(coords, horizontal, fixed, start, limit) == Some(next);
        return;
      }
      next := next + 1;
    }
  }

  /** The first loop of generate_bridge: coord_to_id[(r, c)] = id for every island. */
  method BuildCoordMap(islands: seq<Island>) returns (coordToId: map<(int, int), int>)
    ensures coordToId == CoordMap(islands)
  {
    coordToId := map[];
    for k := 0 to |islands|
      invariant coordToId == CoordMap(islands[..k])
    {
      assert islands[..k + 1][..k] == islands[..k];
      coordToId := coordToId[(islands[k].row, islands[k].col) := k + 1];
    }
    assert islands[..|islands|] == islands;
  }

  /** The main loop of generate_bridge: a rightward and a downward scan from every island. */
  method CollectBridges(islands: seq<Island>, matrix: Matrix, coordToId: map<(int, int), int>) returns (raw: seq<Bridge>)
    requires Rectangular(matrix) && AllInGrid(islands, matrix)
    ensures raw == RawBridges(islands, matrix, coordToId)
  {
    ghost var parts := Parts(matrix, islands, coordToId);
    raw := [];
    for k := 0 to |islands|
      invariant raw == Flatten(parts[..k])
    {
      var r, c := islands[k].row, islands[k].col;
      var right := Scan(matrix, coordToId, k + 1, r, c, true);
      var down := Scan(matrix, coordToId, k + 1, r, c, false);
      assert parts[..k + 1][..k] == parts[..k] && parts[k] == ToSeq(right) + ToSeq(down);
      raw := raw + ToSeq(right);
      raw := raw + ToSeq(down);
    }
    assert parts[..|islands|] == parts;
  }

  /** The unique_bridge loop: keep a bridge only when its pair is not yet a key. */
  method RemoveDuplicates(raw: seq<Bridge>) returns (unique: seq<Bridge>)
    ensures unique == Dedupe(raw)
  {
    unique := [];
    for k := 0 to |raw|
      invariant unique == Dedupe(raw[..k])
    {
      assert raw[..k + 1][..k] == raw[..k];
      if !HasPair(unique, PairOf(raw[k])) {
        unique := unique + [raw[k]];
      }
    }
    assert raw[..|raw|] == raw;
  }

  /**
   * generate_bridge: the deduplicated candidate bridges and the cell-to-id map.
   * The islands are those of the table (id k at entry k - 1), all inside the grid.
   */
  method GenerateBridge(islands: seq<Island>, matrix: Matrix) returns (bridges: seq<Bridge>, coordToId: map<(int, int), int>)
    requires Rectangular(matrix) && AllInGrid(islands, matrix)
    ensures coordToId == CoordMap(islands)
    ensures bridges == Dedupe(RawBridges(islands, matrix, coordToId))
  {
    coordToId := BuildCoordMap(islands);
    var raw := CollectBridges(islands, matrix, coordToId);
    bridges := RemoveDuplicates(raw);
  }

  // ---------------------------------------------------------------------
  // Properties of generate_bridge on the table built by get_island_info

  /** On a table, coord_to_id has exactly the non-zero cells as keys, each mapped to its own island. */
  lemma TableCoords(m: Matrix, islands: seq<Island>, coords: map<(int, int), int>)
    requires IsTableOf(islands, m) && NamesIslands(coords, islands)
    ensures forall r, c :: (r, c) in coords <==> InGrid(m, r, c) && m[r][c] != 0
  {
    forall r, c | HasCell(islands, r, c) ensures InGrid(m, r, c) && m[r][c] != 0 {
      var k :| 0 <= k < |islands| && islands[k].row == r && islands[k].col == c;
    }
  }

  /** Bridge b joins island b.i to the nearest island right of it or below it, across empty cells only. */
  ghost predicate Joins(m: Matrix, islands: seq<Island>, b: Bridge)
    requires Rectangular(m) && AllInGrid(islands, m)
  {
    && 1 <= b.i < b.j <= |islands|
    && match b.extra
       case Horizontal(r, c1, c2) =>
         && islands[b.i - 1].row == r && islands[b.i - 1].col == c1
         && islands[b.j - 1].row == r && islands[b.j - 1].col == c2
         && c1 < c2 && forall x :: c1 < x < c2 ==> m[r][x] == 0
       case Vertical(c, r1, r2) =>
         && islands[b.i - 1].row == r1 && islands[b.i - 1].col == c
         && islands[b.j - 1].row == r2 && islands[b.j - 1].col == c
         && r1 < r2 && forall x :: r1 < x < r2 ==> m[x][c] == 0
  }

  /** Some cell beyond island k in the scan direction is non-empty. */
  ghost predicate IslandAhead(m: Matrix, islands: seq<Island>, k: nat, horizontal: bool)
    requires Rectangular(m) && IsTableOf(islands, m) && k < |islands|
  {
    var isl := islands[k];
    if horizontal then exists x :: isl.col < x < |m[0]| && m[isl.row][x] != 0
    else exists x :: isl.row < x < |m| && m[x][isl.col] != 0
  }

  /** On a table, the scan stops at the nearest non-empty cell, and every cell before it is empty. */
  lemma NearestOnTable(m: Matrix, islands: seq<Island>, coords: map<(int, int), int>,
                        horizontal: bool, fixed: int, lo: nat, hi: int)
    requires Rectangular(m) && IsTableOf(islands, m) && NamesIslands(coords, islands)
    requires hi <= Limit(m, horizontal) && if horizontal then fixed < |m| else 0 <= fixed < |m[0]|
    requires 0 <= fixed
    ensures var x := Nearest(coords, horizontal, fixed, lo, hi);
      && (x.Some? <==> exists y :: lo <= y < hi && CellAt(m, horizontal, fixed, y) != 0)
      && (x.Some? ==> CellAt(m, horizontal, fixed, x.value) != 0 && ClearBetween(m, horizontal, fixed, lo, x.value))
  {
    TableCoords(m, islands, coords);
    assert forall y :: lo <= y < hi ==>
      (Probe(horizontal, fixed, y) in coords <==> CellAt(m, horizontal, fixed, y) != 0);
  }

  /** From island k + 1 a scan yields a bridge exactly when some island lies ahead. */
  lemma CandidateExists(m: Matrix, islands: seq<Island>, coords: map<(int, int), int>, k: nat, horizontal: bool)
    requires Rectangular(m) && IsTableOf(islands, m) && NamesIslands(coords, islands) && k < |islands|
    ensures Candidate(m, coords, k + 1, islands[k].row, islands[k].col, horizontal).Some?
            <==> IslandAhead(m, islands, k, horizontal)
  {
    var isl := islands[k];
    var fixed, start := if horizontal then isl.row else isl.col, (if horizontal then isl.col else isl.row) + 1;
    NearestOnTable(m, islands, coords, horizontal, fixed, start, Limit(m, horizontal));
    if horizontal {
      assert forall y :: start <= y < |m[0]| ==> CellAt(m, horizontal, fixed, y) == m[isl.row][y];
    } else {
      assert forall y :: start <= y < |m| ==> CellAt(m, horizontal, fixed, y) == m[y][isl.col];
    }
  }

  /** In a table, an island before another in scan order has the smaller index. */
  lemma IndexOrder(islands: seq<Island>, a: nat, b: nat)
    requires InScanOrder(islands) && a < |islands| && b < |islands|
    requires Before(islands[a].row, islands[a].col, islands[b].row, islands[b].col)
    ensures a < b
  {
  }

  /** What a scan that finds a bridge has seen: an island at the nearest key, across empty cells. */
  lemma CandidateUnfold(m: Matrix, coords: map<(int, int), int>, id: int, r: int, c: int, horizontal: bool)
    returns (x: int)
    requires Rectangular(m) && InGrid(m, r, c)
    requires Candidate(m, coords, id, r, c, horizontal).Some?
    ensures var fixed, start := if horizontal then r else c, (if horizontal then c else r) + 1;
      && start <= x < Limit(m, horizontal) && Probe(horizontal, fixed, x) in coords
      && ClearBetween(m, horizontal, fixed, start, x)
      && Candidate(m, coords, id, r, c, horizontal).value
         == MakeBridge(id, coords[Probe(horizontal, fixed, x)],
                       if horizontal then Horizontal(r, c, x) else Vertical(c, r, x))
  {
    var fixed, start := if horizontal then r else c, (if horizontal then c else r) + 1;
    x := Nearest(coords, horizontal, fixed, start, Limit(m, horizontal)).value;
  }

  /** A bridge from island k + 1 to island id2 at position x of a scan across empty cells joins nearest islands. */
  lemma JoinsAt(m: Matrix, islands: seq<Island>, k: nat, horizontal: bool, x: int, id2: int, b: Bridge)
    requires Rectangular(m) && AllInGrid(islands, m) && InScanOrder(islands) && k < |islands| && 1 <= id2 <= |islands|
    requires var isl := islands[k];
      var fixed, start := if horizontal then isl.row else isl.col, (if horizontal then isl.col else isl.row) + 1;
      && start <= x < Limit(m, horizontal)
      && Probe(horizontal, fixed, x) == (islands[id2 - 1].row, islands[id2 - 1].col)
      && ClearBetween(m, horizontal, fixed, start, x)
    requires b == MakeBridge(k + 1, id2, if horizontal then Horizontal(islands[k].row, islands[k].col, x)
                                         else Vertical(islands[k].col, islands[k].row, x))
    ensures Joins(m, islands, b) && b.i == k + 1 && b.extra.Horizontal? == horizontal
  {
    var isl := islands[k];
    var r, c := isl.row, isl.col;
    var fixed, start := if horizontal then r else c, (if horizontal then c else r) + 1;
    IndexOrder(islands, k, id2 - 1);
    if horizontal {
      assert forall y :: start <= y < x ==> CellAt(m, horizontal, fixed, y) == m[r][y];
    } else {
      assert forall y :: start <= y < x ==> CellAt(m, horizontal, fixed, y) == m[y][c];
    }
  }

  /**
   * The bridge a scan from island k + 1 finds starts there, ends at the nearest
   * island in the scan direction, and crosses only empty cells, so the `valid`
   * check never rejects it.
   */
  lemma CandidateJoins(m: Matrix, islands: seq<Island>, coords: map<(int, int), int>, k: nat, horizontal: bool)
    requires Rectangular(m) && AllInGrid(islands, m) && InScanOrder(islands) && IdsAtKeys(coords, islands)
    requires k < |islands|
    requires Candidate(m, coords, k + 1, islands[k].row, islands[k].col, horizontal).Some?
    ensures var b := Candidate(m, coords, k + 1, islands[k].row, islands[k].col, horizontal).value;
      Joins(m, islands, b) && b.i == k + 1 && b.extra.Horizontal? == horizontal
  {
    var isl := islands[k];
    var r, c := isl.row, isl.col;
    var fixed, start := if horizontal then r else c, (if horizontal then c else r) + 1;
    var x := CandidateUnfold(m, coords, k + 1, r, c, horizontal);
    var key := Probe(horizontal, fixed, x);
    CoordsAt(coords, islands, key);
    JoinsAt(m, islands, k, horizontal, x, coords[key], Candidate(m, coords, k + 1, r, c, horizontal).value);
  }

  /** Some bridge of s starts at island id and runs in the given direction. */
  predicate HasBridgeFrom(s: seq<Bridge>, id: int, horizontal: bool)
  {
    exists q :: 0 <= q < |s| && s[q].i == id && s[q].extra.Horizontal? == horizontal
  }

  /** On a table, every bridge the scans from island k + 1 find starts there and joins nearest islands. */
  lemma FromIslandJoins(m: Matrix, islands: seq<Island>, coords: map<(int, int), int>, k: nat)
    requires Rectangular(m) && AllInGrid(islands, m) && InScanOrder(islands) && IdsAtKeys(coords, islands)
    requires k < |islands|
    ensures forall q :: 0 <= q < |FromIsland(m, islands, coords, k)| ==>
      Joins(m, islands, FromIsland(m, islands, coords, k)[q]) && FromIsland(m, islands, coords, k)[q].i == k + 1
  {
    var isl := islands[k];
    var right := Candidate(m, coords, k + 1, isl.row, isl.col, true);
    var down := Candidate(m, coords, k + 1, isl.row, isl.col, false);
    if right.Some? { CandidateJoins(m, islands, coords, k, true); }
    if down.Some? { CandidateJoins(m, islands, coords, k, false); }
  }

  /** On a table, the bridges found from island k + 1 start there. */
  lemma FromIslandStarts(m: Matrix, islands: seq<Island>, coords: map<(int, int), int>, k: nat)
    requires Rectangular(m) && IsTableOf(islands, m) && NamesIslands(coords, islands) && k < |islands|
    ensures forall q :: 0 <= q < |FromIsland(m, islands, coords, k)| ==> FromIsland(m, islands, coords, k)[q].i == k + 1
  {
    FromIslandJoins(m, islands, coords, k);
  }

  /** The two scans from one island never give the same pair: they end at islands in different cells. */
  lemma FromIslandDistinct(m: Matrix, islands: seq<Island>, coords: map<(int, int), int>, k: nat)
    requires Rectangular(m) && AllInGrid(islands, m) && IdsAtKeys(coords, islands) && k < |islands|
    ensures DistinctPairs(FromIsland(m, islands, coords, k))
  {
    var isl := islands[k];
    var right := Candidate(m, coords, k + 1, isl.row, isl.col, true);
    var down := Candidate(m, coords, k + 1, isl.row, isl.col, false);
    if right.Some? && down.Some? {
      var x := CandidateUnfold(m, coords, k + 1, isl.row, isl.col, true);
      var y := CandidateUnfold(m, coords, k + 1, isl.row, isl.col, false);
      assert isl.row < y;
      DistinctEnds(coords, islands, isl.row, isl.col, x, y);
      assert PairOf(right.value) != PairOf(down.value);
      assert FromIsland(m, islands, coords, k) == [right.value] + [down.value];
    }
  }

  /** On a table, the scans from island k + 1 give a bridge in a direction iff an island lies ahead. */
  lemma FromIslandComplete(m: Matrix, islands: seq<Island>, coords: map<(int, int), int>, k: nat)
    requires Rectangular(m) && IsTableOf(islands, m) && NamesIslands(coords, islands) && k < |islands|
    ensures forall h :: HasBridgeFrom(FromIsland(m, islands, coords, k), k + 1, h) <==> IslandAhead(m, islands, k, h)
  {
    var isl := islands[k];
    var right := Candidate(m, coords, k + 1, isl.row, isl.col, true);
    var down := Candidate(m, coords, k + 1, isl.row, isl.col, false);
    var found := FromIsland(m, islands, coords, k);
    CandidateExists(m, islands, coords, k, true);
    CandidateExists(m, islands, coords, k, false);
    FromIslandJoins(m, islands, coords, k);
    forall h ensures HasBridgeFrom(found, k + 1, h) <==> IslandAhead(m, islands, k, h) {
      if h && right.Some? {
        assert found[0] == right.value;
      }
      if !h && down.Some? {
        assert found[|found| - 1] == down.value;
      }
    }
  }

  /** Every bridge of part k starts at island k + 1. */
  predicate StartsAt(parts: seq<seq<Bridge>>)
  {
    forall k, q :: 0 <= k < |parts| && 0 <= q < |parts[k]| ==> parts[k][q].i == k + 1
  }

  predicate InSomePart(parts: seq<seq<Bridge>>, b: Bridge)
  {
    exists k, q :: 0 <= k < |parts| && 0 <= q < |parts[k]| && parts[k][q] == b
  }

  lemma StartsAtInit(parts: seq<seq<Bridge>>)
    requires parts != [] && StartsAt(parts)
    ensures StartsAt(parts[..|parts| - 1])
  {
    assert forall k :: 0 <= k < |parts| - 1 ==> parts[..|parts| - 1][k] == parts[k];
  }

  /** Every entry of the concatenation comes from some part. */
  lemma {:induction false} FlattenMembers(parts: seq<seq<Bridge>>)
    ensures forall q :: 0 <= q < |Flatten(parts)| ==> InSomePart(parts, Flatten(parts)[q])
  {
    if parts != [] {
      var init, last := parts[..|parts| - 1], parts[|parts| - 1];
      FlattenMembers(init);
      var s := Flatten(parts);
      forall q | 0 <= q < |s| ensures InSomePart(parts, s[q]) {
        if q < |Flatten(init)| {
          assert s[q] == Flatten(init)[q];
          assert InSomePart(init, s[q]);
          var k, q' :| 0 <= k < |init| && 0 <= q' < |init[k]| && init[k][q'] == s[q];
          assert parts[k][q'] == s[q];
        } else {
          assert s[q] == last[q - |Flatten(init)|];
          assert parts[|parts| - 1][q - |Flatten(init)|] == s[q];
        }
      }
    }
  }

  /** When part k starts at island k + 1, the concatenation only holds bridges from islands 1..|parts|. */
  lemma {:induction false} FlattenStarts(parts: seq<seq<Bridge>>)
    requires StartsAt(parts)
    ensures forall q :: 0 <= q < |Flatten(parts)| ==> 1 <= Flatten(parts)[q].i <= |parts|
  {
    if parts != [] {
      var init, last := parts[..|parts| - 1], parts[|parts| - 1];
      StartsAtInit(parts);
      FlattenStarts(init);
      var s := Flatten(parts);
      assert forall q :: 0 <= q < |Flatten(init)| ==> s[q] == Flatten(init)[q];
      assert forall q :: 0 <= q < |last| ==> s[|Flatten(init)| + q] == last[q] && last[q].i == |parts|;
    }
  }

  /** Distinct parts starting at distinct islands concatenate without a repeated pair. */
  lemma {:induction false} FlattenDistinct(parts: seq<seq<Bridge>>)
    requires StartsAt(parts)
    requires forall k :: 0 <= k < |parts| ==> DistinctPairs(parts[k])
    ensures DistinctPairs(Flatten(parts))
  {
    if parts != [] {
      var init, last := parts[..|parts| - 1], parts[|parts| - 1];
      StartsAtInit(parts);
      assert forall k :: 0 <= k < |init| ==> init[k] == parts[k];
      FlattenDistinct(init);
      FlattenStarts(init);
      var s, a := Flatten(parts), Flatten(init);
      assert forall q :: 0 <= q < |last| ==> last[q].i == |parts|;
      forall q1, q2 | 0 <= q1 < q2 < |s| ensures PairOf(s[q1]) != PairOf(s[q2]) {
        if q2 < |a| {
          assert s[q1] == a[q1] && s[q2] == a[q2];
        } else if q1 < |a| {
          assert s[q1] == a[q1] && s[q2] == last[q2 - |a|];
        } else {
          assert s[q1] == last[q1 - |a|] && s[q2] == last[q2 - |a|];
        }
      }
    }
  }

  lemma HasBridgeFromAppend(a: seq<Bridge>, b: seq<Bridge>, id: int, horizontal: bool)
    ensures HasBridgeFrom(a + b, id, horizontal) <==> HasBridgeFrom(a, id, horizontal) || HasBridgeFrom(b, id, horizontal)
  {
    var s := a + b;
    if HasBridgeFrom(s, id, horizontal) {
      var q :| 0 <= q < |s| && s[q].i == id && s[q].extra.Horizontal? == horizontal;
      if q < |a| {
        assert s[q] == a[q];
      } else {
        assert s[q] == b[q - |a|];
      }
    }
    if HasBridgeFrom(a, id, horizontal) {
      var q :| 0 <= q < |a| && a[q].i == id && a[q].extra.Horizontal? == horizontal;
      assert s[q] == a[q];
    }
    if HasBridgeFrom(b, id, horizontal) {
      var q :| 0 <= q < |b| && b[q].i == id && b[q].extra.Horizontal? == horizontal;
      assert s[|a| + q] == b[q];
    }
  }

  /** Island k + 1 has a bridge in a direction in the concatenation iff it has one in its own part. */
  lemma {:induction false} FlattenHasFrom(parts: seq<seq<Bridge>>)
    requires StartsAt(parts)
    ensures forall id, h :: 1 <= id <= |parts| ==>
      (HasBridgeFrom(Flatten(parts), id, h) <==> HasBridgeFrom(parts[id - 1], id, h))
  {
    if parts != [] {
      var init, last := parts[..|parts| - 1], parts[|parts| - 1];
      StartsAtInit(parts);
      FlattenHasFrom(init);
      FlattenStarts(init);
      var a := Flatten(init);
      forall id, h | 1 <= id <= |parts|
        ensures HasBridgeFrom(Flatten(parts), id, h) <==> HasBridgeFrom(parts[id - 1], id, h)
      {
        HasBridgeFromAppend(a, last, id, h);
        if id < |parts| {
          assert init[id - 1] == parts[id - 1];
          assert !HasBridgeFrom(last, id, h) by {
            assert forall q :: 0 <= q < |last| ==> last[q].i == |parts|;
          }
        } else {
          assert !HasBridgeFrom(a, id, h);
        }
      }
    }
  }

  /** On a table, the per-island parts start at their islands, repeat no pair, and say where islands lie ahead. */
  lemma PartsOnTable(m: Matrix, islands: seq<Island>, coords: map<(int, int), int>)
    requires Rectangular(m) && IsTableOf(islands, m) && NamesIslands(coords, islands)
    ensures StartsAt(Parts(m, islands, coords))
    ensures forall k :: 0 <= k < |islands| ==> DistinctPairs(Parts(m, islands, coords)[k])
    ensures forall k, h :: 0 <= k < |islands| ==>
      (HasBridgeFrom(Parts(m, islands, coords)[k], k + 1, h) <==> IslandAhead(m, islands, k, h))
  {
    var parts: seq<seq<Bridge>> := Parts(m, islands, coords);
    forall k | 0 <= k < |islands|
      ensures (forall q :: 0 <= q < |parts[k]| ==> parts[k][q].i == k + 1)
      ensures DistinctPairs(parts[k])
      ensures forall h :: HasBridgeFrom(parts[k], k + 1, h) <==> IslandAhead(m, islands, k, h)
    {
      FromIslandStarts(m, islands, coords, k);
      FromIslandDistinct(m, islands, coords, k);
      FromIslandComplete(m, islands, coords, k);
    }
  }

  /** On a table, every bridge before deduplication joins nearest islands. */
  lemma RawJoins(m: Matrix, islands: seq<Island>, coords: map<(int, int), int>)
    requires Rectangular(m) && IsTableOf(islands, m) && NamesIslands(coords, islands)
    ensures forall q :: 0 <= q < |RawBridges(islands, m, coords)| ==> Joins(m, islands, RawBridges(islands, m, coords)[q])
  {
    var parts := Parts(m, islands, coords);
    var raw := RawBridges(islands, m, coords);
    FlattenMembers(parts);
    forall q | 0 <= q < |raw| ensures Joins(m, islands, raw[q]) {
      assert InSomePart(parts, raw[q]);
      var k, q' :| 0 <= k < |parts| && 0 <= q' < |parts[k]| && parts[k][q'] == raw[q];
      FromIslandJoins(m, islands, coords, k);
    }
  }

  /**
   * On the table of a grid, generate_bridge returns, with i < j, exactly one
   * bridge from each island in each direction where an island lies ahead,
   * joining it to the nearest island across empty cells; no pair repeats, so
   * the deduplication leaves the list unchanged.
   */
  lemma GenerateBridgeOnTable(m: Matrix, islands: seq<Island>)
    requires Rectangular(m) && IsTableOf(islands, m)
    ensures var raw := RawBridges(islands, m, CoordMap(islands));
      && Dedupe(raw) == raw
      && DistinctPairs(raw)
      && (forall q :: 0 <= q < |raw| ==> Joins(m, islands, raw[q]))
      && (forall k, h :: 0 <= k < |islands| ==> (HasBridgeFrom(raw, k + 1, h) <==> IslandAhead(m, islands, k, h)))
  {
    var coords := CoordMap(islands);
    CoordMapSpec(islands);
    var parts := Parts(m, islands, coords);
    PartsOnTable(m, islands, coords);
    FlattenDistinct(parts);
    FlattenHasFrom(parts);
    RawJoins(m, islands, coords);
    DedupeDistinct(RawBridges(islands, m, coords));
  }
}
