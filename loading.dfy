/**
  The validation of `LoadGame`, on the lines the file's patterns matched: the
  field line must give 4 to 25 columns and rows and an island count between
  min(columns, rows) and columns * rows / 5; every island line must name a
  free cell of the field; every bridge line must name two islands between
  which a bridge can be created. A rejected island or bridge line clears the
  game; a bridge line whose index names no island makes the list access fail.
*/
module Loading {
  import opened Wrappers
  import opened Sorting
  import opened IslandModel
  import opened BridgeModel
  import opened BoardModel
  import opened Legality
  import opened Mutation

  /** `columns x rows | count` */
  datatype FieldLine = FieldLine(columns: nat, rows: nat, count: nat)

  /** `(column, row | bridges)` */
  datatype IslandLine = IslandLine(column: nat, row: nat, bridges: nat)

  /** `(startIndex, endIndex | doubleBridge)` */
  datatype BridgeLine = BridgeLine(startIndex: nat, endIndex: nat, doubleBridge: bool)

  /**
    The message `LoadGame` returns: "OK", one of the three rejections, or the
    index fault of a bridge line that names no island.
  */
  datatype LoadResult = LoadOK | DimensionsRejected | IslandsRejected | BridgesRejected | IndexFault

  /** The dimension rule of `LoadGame`. */
  predicate DimensionsOK(f: FieldLine) {
    4 <= f.columns <= 25 && 4 <= f.rows <= 25 &&
    f.count >= Min(f.columns, f.rows) && f.count <= f.columns * f.rows / 5
  }

  /** The board `ClearGame` leaves. */
  function Cleared(): Board {
    Board(SetDimensions(-1, -1, -1), [], [])
  }

  // ------------------------------------------------------------------ islands

  /** The islands `new Island(column, row, bridges)` the lines describe, in file order. */
  function Made(lines: seq<IslandLine>): (r: seq<Island>)
    ensures |r| == |lines|
    ensures forall a :: 0 <= a < |lines| ==> r[a] == MakeIsland(lines[a].column, lines[a].row, lines[a].bridges)
  {
    seq(|lines|, a requires 0 <= a < |lines| => MakeIsland(lines[a].column, lines[a].row, lines[a].bridges))
  }

  function Cell(l: IslandLine): Key {
    (l.column, l.row)
  }

  /** The island loop of `LoadGame`, appending to `s`: `None` when `IslandOK` rejects a line. */
  function PlaceIslands(dims: Dimensions, s: seq<Island>, lines: seq<IslandLine>): Option<seq<Island>>
    decreases |lines|
  {
    if lines == [] then Some(s)
    else if IslandOK(Board(dims, s, []), lines[0].column, lines[0].row)
    then PlaceIslands(dims, s + [MakeIsland(lines[0].column, lines[0].row, lines[0].bridges)], lines[1..])
    else None
  }

  /** Every line names a cell of the field, no two lines the same cell, and none a cell of `s`. */
  ghost predicate IslandLinesOK(dims: Dimensions, s: seq<Island>, lines: seq<IslandLine>) {
    && (forall a :: 0 <= a < |lines| ==> lines[a].column < dims.columns && lines[a].row < dims.rows)
    && (forall a, c :: 0 <= a < c < |lines| ==> Cell(lines[a]) != Cell(lines[c]))
    && (forall a, k :: 0 <= a < |lines| && 0 <= k < |s| ==> Cell(lines[a]) != IslandKey(s[k]))
  }

  /**
    The island loop accepts the lines exactly when they name distinct free
    cells of the field, and then appends their islands in file order.
  */
  lemma {:induction false} PlaceIslandsMeaning(dims: Dimensions, s: seq<Island>, lines: seq<IslandLine>)
    ensures PlaceIslands(dims, s, lines).Some? <==> IslandLinesOK(dims, s, lines)
    ensures PlaceIslands(dims, s, lines).Some? ==> PlaceIslands(dims, s, lines).value == s + Made(lines)
    decreases |lines|
  {
    if lines != [] {
      var l := lines[0];
      var t := s + [MakeIsland(l.column, l.row, l.bridges)];
      PlaceIslandsMeaning(dims, t, lines[1..]);
      if IslandLinesOK(dims, s, lines) {
        LinesOKFirst(dims, s, lines);
        assert s + Made(lines) == t + Made(lines[1..]);
      } else if IslandOK(Board(dims, s, []), l.column, l.row) && IslandLinesOK(dims, t, lines[1..]) {
        LinesOKJoin(dims, s, lines);
        assert false;
      }
    }
  }

  /** Lines that are all acceptable: the first passes `IslandOK`, and the rest are acceptable once it is placed. */
  lemma LinesOKFirst(dims: Dimensions, s: seq<Island>, lines: seq<IslandLine>)
    requires lines != [] && IslandLinesOK(dims, s, lines)
    ensures IslandOK(Board(dims, s, []), lines[0].column, lines[0].row)
    ensures IslandLinesOK(dims, s + [MakeIsland(lines[0].column, lines[0].row, lines[0].bridges)], lines[1..])
  {
    var t := s + [MakeIsland(lines[0].column, lines[0].row, lines[0].bridges)];
    var rest := lines[1..];
    forall a, k | 0 <= a < |rest| && 0 <= k < |t| ensures Cell(rest[a]) != IslandKey(t[k]) {
      assert rest[a] == lines[a + 1];
      if k == |s| {
        assert Cell(lines[0]) != Cell(lines[a + 1]);
      }
    }
  }

  /** The converse: a first line `IslandOK` accepts, followed by lines acceptable after it, are acceptable. */
  lemma LinesOKJoin(dims: Dimensions, s: seq<Island>, lines: seq<IslandLine>)
    requires lines != [] && IslandOK(Board(dims, s, []), lines[0].column, lines[0].row)
    requires IslandLinesOK(dims, s + [MakeIsland(lines[0].column, lines[0].row, lines[0].bridges)], lines[1..])
    ensures IslandLinesOK(dims, s, lines)
  {
    var t := s + [MakeIsland(lines[0].column, lines[0].row, lines[0].bridges)];
    var rest := lines[1..];
    forall a, c | 0 <= a < c < |lines| ensures Cell(lines[a]) != Cell(lines[c]) {
      if a == 0 {
        assert Cell(rest[c - 1]) != IslandKey(t[|s|]);
      } else {
        assert Cell(rest[a - 1]) != Cell(rest[c - 1]);
      }
    }
    forall a, k | 0 <= a < |lines| && 0 <= k < |s| ensures Cell(lines[a]) != IslandKey(s[k]) {
      if a > 0 {
        assert Cell(rest[a - 1]) != IslandKey(t[k]);
      }
    }
    forall a | 0 <= a < |lines| ensures lines[a].column < dims.columns && lines[a].row < dims.rows {
      if a > 0 {
        assert lines[a] == rest[a - 1];
      }
    }
  }

  /** The island loop as `LoadGame` runs it: stop at the first line `IslandOK` rejects. */
  method LoadIslands(dims: Dimensions, lines: seq<IslandLine>) returns (r: Option<seq<Island>>)
    ensures r == PlaceIslands(dims, [], lines)
  {
    var islands: seq<Island> := [];
    var a := 0;
    while a < |lines|
      invariant 0 <= a <= |lines|
      invariant PlaceIslands(dims, islands, lines[a..]) == PlaceIslands(dims, [], lines)
    {
      assert lines[a..][1..] == lines[a + 1..];
      var l := lines[a];
      if IslandOK(Board(dims, islands, []), l.column, l.row) {
        islands := islands + [MakeIsland(l.column, l.row, l.bridges)];
      } else {
        return None;
      }
      a := a + 1;
    }
    return Some(islands);
  }

  /** The board after the island loop and `FindNeighbours`, before any bridge. */
  function Started(dims: Dimensions, s: seq<Island>): Board {
    Board(dims, Linked(Sort(s, IslandKey)), [])
  }

  /** The island line `l` is on the board: an island on its cell with its target. */
  ghost predicate HasIsland(b: Board, l: IslandLine) {
    exists k :: 0 <= k < |b.islands| && IslandKey(b.islands[k]) == Cell(l) && b.islands[k].target == l.bridges
  }

  /** Islands strictly ascending, correctly linked and without bridges at them form a well-formed board with no bridges. */
  lemma NoBridgesWellFormed(dims: Dimensions, s: seq<Island>)
    requires StrictlySorted(s, IslandKey) && LinksCorrect(s)
    requires forall k :: 0 <= k < |s| ==> s[k].current == 0
    ensures WellFormed(Board(dims, s, []))
  {
  }

  /** Islands on distinct cells, sorted and linked, with no bridges yet, form a well-formed board. */
  lemma StartedWellFormed(dims: Dimensions, lines: seq<IslandLine>)
    requires IslandLinesOK(dims, [], lines)
    ensures WellFormed(Started(dims, Made(lines)))
  {
    var s := Made(lines);
    assert forall a :: 0 <= a < |s| ==> IslandKey(s[a]) == Cell(lines[a]);
    assert DistinctKeys(s, IslandKey);
    SortStrictlySorted(s, IslandKey);
    var sorted := Sort(s, IslandKey);
    var t := Linked(sorted);
    LinkedIsLinked(sorted);
    SamePositionsSorted(sorted, t);
    forall k | 0 <= k < |t| ensures t[k].current == 0 {
      assert sorted[k] in multiset(s);
      assert t[k] == Relink(sorted[k], Positions(sorted), k);
    }
    NoBridgesWellFormed(dims, t);
  }

  /** Sorting and linking keep every island line: one island per line, on its cell with its target. */
  lemma StartedHasIslands(dims: Dimensions, lines: seq<IslandLine>)
    ensures |Started(dims, Made(lines)).islands| == |lines|
    ensures forall a :: 0 <= a < |lines| ==> HasIsland(Started(dims, Made(lines)), lines[a])
  {
    var s := Made(lines);
    var sorted := Sort(s, IslandKey);
    var b := Started(dims, s);
    forall a | 0 <= a < |lines| ensures HasIsland(b, lines[a]) {
      assert s[a] in multiset(sorted);
      var k :| 0 <= k < |sorted| && sorted[k] == s[a];
      assert b.islands[k] == Relink(sorted[k], Positions(sorted), k);
    }
  }

  // ------------------------------------------------------------------ bridges

  /** The outcome of the bridge loop: the board, a rejection, or the fault of an index that names no island. */
  datatype Placed = Placed(board: Board) | Rejected | Faulted(board: Board)

  /** The bridge loop of `LoadGame`: `NewBridge` for every line that `BridgeInfo` finds creatable. */
  function PlaceBridges(b: Board, lines: seq<BridgeLine>): Placed
    decreases |lines|
  {
    if lines == [] then Placed(b)
    else
      var l := lines[0];
      if l.startIndex >= |b.islands| || l.endIndex >= |b.islands| then Faulted(b)
      else if BridgeInfo(b, l.startIndex, l.endIndex).kind == OK
      then PlaceBridges(WithNewBridge(b, l.startIndex, l.endIndex, l.doubleBridge), lines[1..])
      else Rejected
  }

  /** The bridge line `l` is on the board: a bridge joins its two islands, with its kind. */
  ghost predicate Holds(b: Board, l: BridgeLine) {
    exists q :: 0 <= q < |b.bridges| && Joins(b.bridges[q], l.startIndex, l.endIndex) &&
      b.bridges[q].doubleBridge == l.doubleBridge
  }

  /** The bridge loop keeps the board well formed, whether it runs through or faults. */
  lemma {:induction false} PlaceBridgesKeeps(b: Board, lines: seq<BridgeLine>)
    requires WellFormed(b)
    ensures PlaceBridges(b, lines).Placed? || PlaceBridges(b, lines).Faulted? ==> WellFormed(PlaceBridges(b, lines).board)
    decreases |lines|
  {
    if lines != [] {
      var l := lines[0];
      if l.startIndex < |b.islands| && l.endIndex < |b.islands| && BridgeInfo(b, l.startIndex, l.endIndex).kind == OK {
        NewBridgeKeepsWellFormed(b, l.startIndex, l.endIndex, l.doubleBridge);
        PlaceBridgesKeeps(WithNewBridge(b, l.startIndex, l.endIndex, l.doubleBridge), lines[1..]);
      }
    }
  }

  /** The bridge loop keeps the dimensions and the islands, counts aside. */
  lemma {:induction false} PlaceBridgesIslands(b: Board, lines: seq<BridgeLine>)
    ensures PlaceBridges(b, lines).Placed? || PlaceBridges(b, lines).Faulted? ==>
      var nb := PlaceBridges(b, lines).board;
      nb.dims == b.dims && SameButCounts(b.islands, nb.islands)
    decreases |lines|
  {
    if lines != [] {
      var l := lines[0];
      if l.startIndex < |b.islands| && l.endIndex < |b.islands| && BridgeInfo(b, l.startIndex, l.endIndex).kind == OK {
        var mid := WithNewBridge(b, l.startIndex, l.endIndex, l.doubleBridge);
        PlaceBridgesIslands(mid, lines[1..]);
        var r := PlaceBridges(mid, lines[1..]);
        if r.Placed? || r.Faulted? {
          var nb := r.board;
          assert forall m :: 0 <= m < |b.islands| ==> nb.islands[m] == mid.islands[m].(current := nb.islands[m].current);
        }
      }
    }
  }

  /** Once the bridge loop has run through, every bridge there was is still there, and one bridge was added per line. */
  lemma {:induction false} PlaceBridgesGrows(b: Board, lines: seq<BridgeLine>)
    ensures PlaceBridges(b, lines).Placed? ==>
      var nb := PlaceBridges(b, lines).board;
      && |nb.bridges| == |b.bridges| + |lines|
      && (forall q :: 0 <= q < |b.bridges| ==> b.bridges[q] in nb.bridges)
    decreases |lines|
  {
    if lines != [] {
      var l := lines[0];
      if l.startIndex < |b.islands| && l.endIndex < |b.islands| && BridgeInfo(b, l.startIndex, l.endIndex).kind == OK {
        NewBridgeKeepsBridges(b, l.startIndex, l.endIndex, l.doubleBridge);
        PlaceBridgesGrows(WithNewBridge(b, l.startIndex, l.endIndex, l.doubleBridge), lines[1..]);
      }
    }
  }

  /** Once the bridge loop has run through, every line of the file is on the board. */
  lemma {:induction false} PlaceBridgesHolds(b: Board, lines: seq<BridgeLine>)
    ensures PlaceBridges(b, lines).Placed? ==>
      forall a :: 0 <= a < |lines| ==> Holds(PlaceBridges(b, lines).board, lines[a])
    decreases |lines|
  {
    if lines != [] {
      var l := lines[0];
      if l.startIndex < |b.islands| && l.endIndex < |b.islands| && BridgeInfo(b, l.startIndex, l.endIndex).kind == OK {
        var mid := WithNewBridge(b, l.startIndex, l.endIndex, l.doubleBridge);
        PlaceBridgesHolds(mid, lines[1..]);
        var r := PlaceBridges(mid, lines[1..]);
        if r.Placed? {
          FirstLineHolds(b, l, lines[1..]);
          forall a | 0 <= a < |lines| ensures Holds(r.board, lines[a]) {
            if a > 0 {
              assert lines[a] == lines[1..][a - 1];
            }
          }
        }
      }
    }
  }

  /** The bridge the first accepted line creates survives the rest of the loop. */
  lemma FirstLineHolds(b: Board, l: BridgeLine, rest: seq<BridgeLine>)
    requires l.startIndex < |b.islands| && l.endIndex < |b.islands|
    requires PlaceBridges(WithNewBridge(b, l.startIndex, l.endIndex, l.doubleBridge), rest).Placed?
    ensures Holds(PlaceBridges(WithNewBridge(b, l.startIndex, l.endIndex, l.doubleBridge), rest).board, l)
  {
    var mid := WithNewBridge(b, l.startIndex, l.endIndex, l.doubleBridge);
    var nb := PlaceBridges(mid, rest).board;
    NewBridgeKeepsBridges(b, l.startIndex, l.endIndex, l.doubleBridge);
    PlaceBridgesGrows(mid, rest);
    var br := NewBridgeRecord(b, l.startIndex, l.endIndex, l.doubleBridge);
    var p :| 0 <= p < |mid.bridges| && mid.bridges[p] == br;
    assert mid.bridges[p] in nb.bridges;
    var q :| 0 <= q < |nb.bridges| && nb.bridges[q] == br;
    assert Joins(nb.bridges[q], l.startIndex, l.endIndex);
  }

  /** The bridge loop as `LoadGame` runs it: stop at the first line that faults or is rejected. */
  method LoadBridges(b: Board, lines: seq<BridgeLine>) returns (r: Placed)
    ensures r == PlaceBridges(b, lines)
  {
    var current := b;
    var a := 0;
    while a < |lines|
      invariant 0 <= a <= |lines|
      invariant PlaceBridges(current, lines[a..]) == PlaceBridges(b, lines)
    {
      assert lines[a..][1..] == lines[a + 1..];
      var l := lines[a];
      if l.startIndex >= |current.islands| || l.endIndex >= |current.islands| {
        return Faulted(current);
      }
      if BridgeInfo(current, l.startIndex, l.endIndex).kind == OK {
        current := WithNewBridge(current, l.startIndex, l.endIndex, l.doubleBridge);
      } else {
        return Rejected;
      }
      a := a + 1;
    }
    return Placed(current);
  }

  // ---------------------------------------------------------------- LoadGame

  /** `LoadGame` on the matched lines, from the board `current`: the message and the board it leaves. */
  function Load(current: Board, f: FieldLine, islands: seq<IslandLine>, bridges: seq<BridgeLine>): (LoadResult, Board) {
    if !DimensionsOK(f) then (DimensionsRejected, current)
    else
      var dims := SetDimensions(f.columns, f.rows, f.count);
      match PlaceIslands(dims, [], islands)
      case None => (IslandsRejected, Cleared())
      case Some(s) => Finished(PlaceBridges(Started(dims, s), bridges))
  }

  /** The outcome of the bridge lines: a rejected line clears the game, an index fault keeps what was loaded. */
  function Finished(p: Placed): (LoadResult, Board) {
    match p
    case Rejected => (BridgesRejected, Cleared())
    case Faulted(b) => (IndexFault, b)
    case Placed(b) => (LoadOK, b)
  }

  /** The dimension rule comes first: a field line that breaks it is rejected and changes nothing. */
  lemma DimensionsRule(current: Board, f: FieldLine, islands: seq<IslandLine>, bridges: seq<BridgeLine>)
    ensures Load(current, f, islands, bridges).0 == DimensionsRejected <==> !DimensionsOK(f)
    ensures !DimensionsOK(f) ==> Load(current, f, islands, bridges).1 == current
  {
    if DimensionsOK(f) {
      var dims := SetDimensions(f.columns, f.rows, f.count);
      var placed := PlaceIslands(dims, [], islands);
      if placed.Some? {
        var r := Finished(PlaceBridges(Started(dims, placed.value), bridges));
        assert Load(current, f, islands, bridges) == r;
      }
    }
  }

  /**
    Past the dimension rule, the island lines are rejected exactly when they
    do not name distinct free cells of the field; a rejected island or
    bridge line leaves a cleared game.
  */
  lemma LoadRejections(current: Board, f: FieldLine, islands: seq<IslandLine>, bridges: seq<BridgeLine>)
    requires DimensionsOK(f)
    ensures var (result, b) := Load(current, f, islands, bridges);
      && (result == IslandsRejected <==> !IslandLinesOK(SetDimensions(f.columns, f.rows, f.count), [], islands))
      && (result in {IslandsRejected, BridgesRejected} ==> b == Cleared())
  {
    var dims := SetDimensions(f.columns, f.rows, f.count);
    PlaceIslandsMeaning(dims, [], islands);
    var placed := PlaceIslands(dims, [], islands);
    if placed.Some? {
      var r := Finished(PlaceBridges(Started(dims, placed.value), bridges));
      assert Load(current, f, islands, bridges) == r;
    }
  }

  /**
    What `LoadGame` promises when it accepts the dimensions and the islands:
    the board is well formed, has the file's dimensions and one island per
    island line, on its cell with its target; after "OK" it has one bridge
    per bridge line, each joining the two islands the line names.
  */
  lemma LoadAccepted(current: Board, f: FieldLine, islands: seq<IslandLine>, bridges: seq<BridgeLine>)
    ensures var (result, b) := Load(current, f, islands, bridges);
      && (result in {LoadOK, IndexFault} ==>
            && WellFormed(b) && b.dims == SetDimensions(f.columns, f.rows, f.count)
            && |b.islands| == |islands|
            && (forall a :: 0 <= a < |islands| ==> HasIsland(b, islands[a])))
      && (result == LoadOK ==>
            |b.bridges| == |bridges| && forall a :: 0 <= a < |bridges| ==> Holds(b, bridges[a]))
  {
    if DimensionsOK(f) {
      var dims := SetDimensions(f.columns, f.rows, f.count);
      PlaceIslandsMeaning(dims, [], islands);
      if IslandLinesOK(dims, [], islands) {
        assert [] + Made(islands) == Made(islands);
        var start := Started(dims, Made(islands));
        assert Load(current, f, islands, bridges) == Finished(PlaceBridges(start, bridges));
        StartedWellFormed(dims, islands);
        StartedHasIslands(dims, islands);
        FinishedAccepted(start, islands, bridges);
      }
    }
  }

  /** The bridge lines on a started board: what is kept when they are accepted or fault. */
  lemma FinishedAccepted(start: Board, islands: seq<IslandLine>, bridges: seq<BridgeLine>)
    requires WellFormed(start) && |start.bridges| == 0 && |start.islands| == |islands|
    requires forall a :: 0 <= a < |islands| ==> HasIsland(start, islands[a])
    ensures var (result, b) := Finished(PlaceBridges(start, bridges));
      && (result in {LoadOK, IndexFault} ==>
            && WellFormed(b) && b.dims == start.dims
            && |b.islands| == |islands|
            && (forall a :: 0 <= a < |islands| ==> HasIsland(b, islands[a])))
      && (result == LoadOK ==>
            |b.bridges| == |bridges| && forall a :: 0 <= a < |bridges| ==> Holds(b, bridges[a]))
  {
    PlaceBridgesKeeps(start, bridges);
    PlaceBridgesIslands(start, bridges);
    PlaceBridgesGrows(start, bridges);
    PlaceBridgesHolds(start, bridges);
    var r := PlaceBridges(start, bridges);
    if r.Placed? || r.Faulted? {
      HasIslandsKept(start, r.board, islands);
    }
  }

  /** Changing counts only keeps every island line on the board. */
  lemma HasIslandsKept(b: Board, nb: Board, lines: seq<IslandLine>)
    requires SameButCounts(b.islands, nb.islands)
    requires forall a :: 0 <= a < |lines| ==> HasIsland(b, lines[a])
    ensures forall a :: 0 <= a < |lines| ==> HasIsland(nb, lines[a])
  {
    forall a | 0 <= a < |lines| ensures HasIsland(nb, lines[a]) {
      var k :| 0 <= k < |b.islands| && IslandKey(b.islands[k]) == Cell(lines[a]) && b.islands[k].target == lines[a].bridges;
      assert nb.islands[k] == b.islands[k].(current := nb.islands[k].current);
    }
  }
}
