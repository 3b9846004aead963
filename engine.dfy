/**
  The loops of `GameManager` that read or rebuild one list: the neighbour
  scans of `FindNeighbours`, the breadth-first search of `AllConnected`, the
  renumbering loop of `NewIsland`, the reset loop of `RemoveAllBridges` and
  the final loop of `CreateGame`. Each is proved against the list function
  that specifies it.
*/
module Engine {
  import opened Wrappers
  import opened Sorting
  import opened IslandModel
  import opened BridgeModel
  import opened BoardModel
  import opened Legality
  import opened Mutation
  import opened Status
  import opened Assist

  // ----------------------------------------------------------- FindNeighbours

  /** The forward scan of `FindNeighbours` for island `i`: the first later island on its column (south) and on its row (east). */
  method ScanForward(s: seq<Island>, i: int) returns (south: int, east: int)
    requires 0 <= i < |s|
    ensures south == NeighbourOf(Positions(s), i, South)
    ensures east == NeighbourOf(Positions(s), i, East)
  {
    ghost var ps := Positions(s);
    south, east := -1, -1;
    var j := i + 1;
    while j < |s|
      invariant i + 1 <= j <= |s|
      invariant south == -1 ==> FirstAfter(ps, i, i + 1, ColumnAxis) == FirstAfter(ps, i, j, ColumnAxis)
      invariant south != -1 ==> south == FirstAfter(ps, i, i + 1, ColumnAxis)
      invariant east == -1 ==> FirstAfter(ps, i, i + 1, RowAxis) == FirstAfter(ps, i, j, RowAxis)
      invariant east != -1 ==> east == FirstAfter(ps, i, i + 1, RowAxis)
    {
      if s[i].column == s[j].column && south == -1 {
        south := j;
      }
      if s[i].row == s[j].row && east == -1 {
        east := j;
      }
      j := j + 1;
    }
  }

  /** The backward scan of `FindNeighbours` for island `i`: the nearest earlier island on its column (north) and on its row (west). */
  method ScanBackward(s: seq<Island>, i: int) returns (north: int, west: int)
    requires 0 <= i < |s|
    ensures north == NeighbourOf(Positions(s), i, North)
    ensures west == NeighbourOf(Positions(s), i, West)
  {
    ghost var ps := Positions(s);
    north, west := -1, -1;
    var j := i - 1;
    while j >= 0
      invariant -1 <= j <= i - 1
      invariant north == -1 ==> LastBefore(ps, i, i - 1, ColumnAxis) == LastBefore(ps, i, j, ColumnAxis)
      invariant north != -1 ==> north == LastBefore(ps, i, i - 1, ColumnAxis)
      invariant west == -1 ==> LastBefore(ps, i, i - 1, RowAxis) == LastBefore(ps, i, j, RowAxis)
      invariant west != -1 ==> west == LastBefore(ps, i, i - 1, RowAxis)
    {
      if s[i].column == s[j].column && north == -1 {
        north := j;
      }
      if s[i].row == s[j].row && west == -1 {
        west := j;
      }
      j := j - 1;
    }
  }

  /** The loop of `FindNeighbours` over a sorted list: every island gets the four links the scans find. */
  method LinkNeighbours(s: seq<Island>) returns (r: seq<Island>)
    ensures r == Linked(s)
  {
    r := s;
    var i := 0;
    while i < |r|
      invariant 0 <= i <= |r| == |s|
      invariant Positions(r) == Positions(s)
      invariant forall k :: 0 <= k < i ==> r[k] == Relink(s[k], Positions(s), k)
      invariant forall k :: i <= k < |r| ==> r[k] == s[k]
    {
      var south, east := ScanForward(r, i);
      var north, west := ScanBackward(r, i);
      r := r[i := r[i].(south := south, east := east, north := north, west := west)];
      assert forall k :: 0 <= k < |r| ==> IslandKey(r[k]) == Positions(s)[k];
      i := i + 1;
    }
  }

  /** `FindNeighbours` on an island list: sort it, then relink every island. */
  method FindNeighboursOn(s: seq<Island>) returns (r: seq<Island>)
    ensures r == Linked(Sort(s, IslandKey))
  {
    r := Sort(s, IslandKey);
    r := LinkNeighbours(r);
  }

  // ------------------------------------------------------------- AllConnected

  /** Every bridge end is an island index below `n`. */
  predicate EndsInRange(bs: seq<Bridge>, n: int) {
    forall q :: 0 <= q < |bs| ==> 0 <= bs[q].startIndex < n && 0 <= bs[q].endIndex < n
  }

  /** On a board whose bridges fit, every bridge end is an island index. */
  lemma FitEndsInRange(b: Board)
    requires BridgesFit(b)
    ensures EndsInRange(b.bridges, |b.islands|)
  {
    forall q | 0 <= q < |b.bridges| ensures 0 <= b.bridges[q].startIndex < |b.islands| && 0 <= b.bridges[q].endIndex < |b.islands| {
      assert BridgeFits(b, b.bridges[q]);
    }
  }

  /** Enqueuing the far end of a bridge at a found island keeps every listed island reachable and the list distinct. */
  lemma EnqueueReachable(bs: seq<Bridge>, found: seq<int>, queue: seq<int>, n: int, q: int, x: int, y: int)
    requires 0 <= q < |bs| && Incident(bs[q], x) && Incident(bs[q], y)
    requires x in found && y !in found && y !in queue && Distinct(found + queue)
    requires InRange(found + queue, n) && 0 <= y < n
    requires forall z :: z in found + queue ==> Reachable(bs, 0, z)
    ensures Reachable(bs, 0, y)
    ensures Distinct(found + (queue + [y])) && InRange(found + (queue + [y]), n)
    ensures forall z :: z in found + (queue + [y]) <==> z in found + queue || z == y
  {
    assert Connects(bs[q], x, y);
    assert Adjacent(bs, x, y);
    ReachableStep(bs, 0, x, y);
    assert found + (queue + [y]) == (found + queue) + [y];
  }

  /**
    `AllConnected`: breadth-first search from island 0 over the bridges; true
    exactly when it finds all `count` islands, that is, when every island is
    reachable from island 0.
  */
  method AllConnected(bs: seq<Bridge>, count: int) returns (r: bool)
    requires EndsInRange(bs, count)
    ensures r <==> count > 0 && forall k :: 0 <= k < count ==> Reachable(bs, 0, k)
  {
    ghost var n := if count <= 0 then 1 else count;
    var islandsFound: seq<int> := [];
    var islandsQueue: seq<int> := [0];
    ReachableSelf(bs, 0);
    while |islandsQueue| > 0
      invariant Distinct(islandsFound + islandsQueue) && InRange(islandsFound + islandsQueue, n)
      invariant 0 in islandsFound + islandsQueue
      invariant forall x :: x in islandsFound + islandsQueue ==> Reachable(bs, 0, x)
      invariant forall a, q :: 0 <= a < |islandsFound| && 0 <= q < |bs| && Incident(bs[q], islandsFound[a]) ==>
        bs[q].startIndex in islandsFound + islandsQueue && bs[q].endIndex in islandsFound + islandsQueue
      decreases n - |islandsFound|
    {
      DistinctBound(islandsFound + islandsQueue, n);
      var islandIndex := islandsQueue[0];
      assert islandsFound + islandsQueue == islandsFound + [islandIndex] + islandsQueue[1..];
      islandsQueue := islandsQueue[1..];
      islandsFound := islandsFound + [islandIndex];
      var q := 0;
      while q < |bs|
        invariant 0 <= q <= |bs|
        invariant |islandsFound| > 0 && islandsFound[|islandsFound| - 1] == islandIndex
        invariant Distinct(islandsFound + islandsQueue) && InRange(islandsFound + islandsQueue, n)
        invariant 0 in islandsFound + islandsQueue
        invariant forall x :: x in islandsFound + islandsQueue ==> Reachable(bs, 0, x)
        invariant forall a, p ::
          (0 <= a < |islandsFound| && 0 <= p < |bs| && Incident(bs[p], islandsFound[a]) && (a < |islandsFound| - 1 || p < q)) ==>
          bs[p].startIndex in islandsFound + islandsQueue && bs[p].endIndex in islandsFound + islandsQueue
      {
        var bridge := bs[q];
        if Incident(bridge, islandIndex) {
          assert 0 <= bridge.startIndex < n && 0 <= bridge.endIndex < n;
          if bridge.startIndex !in islandsFound && bridge.startIndex !in islandsQueue {
            EnqueueReachable(bs, islandsFound, islandsQueue, n, q, islandIndex, bridge.startIndex);
            islandsQueue := islandsQueue + [bridge.startIndex];
          }
          if bridge.endIndex !in islandsFound && bridge.endIndex !in islandsQueue {
            EnqueueReachable(bs, islandsFound, islandsQueue, n, q, islandIndex, bridge.endIndex);
            islandsQueue := islandsQueue + [bridge.endIndex];
          }
        }
        q := q + 1;
      }
    }
    assert islandsFound + islandsQueue == islandsFound;
    assert Closed(bs, islandsFound);
    r := |islandsFound| == count;
    if r {
      FullContainsAll(islandsFound, n);
    }
    if count > 0 && forall k :: 0 <= k < count ==> Reachable(bs, 0, k) {
      forall k | 0 <= k < count ensures k in islandsFound {
        ClosedKeepsReachable(bs, islandsFound, 0, k);
      }
      CoverBound(islandsFound, count);
      DistinctBound(islandsFound, n);
    }
  }

  // ------------------------------------------------ NewIsland, RemoveAllBridges

  /** The renumbering loop of `NewIsland`: every bridge end at or after index `k` moves up by one. */
  method ShiftBridges(bs: seq<Bridge>, k: int) returns (r: seq<Bridge>)
    ensures r == ShiftAll(bs, k)
  {
    r := bs;
    var q := 0;
    while q < |r|
      invariant 0 <= q <= |r| == |bs|
      invariant forall p :: 0 <= p < q ==> r[p] == ShiftBridge(bs[p], k)
      invariant forall p :: q <= p < |r| ==> r[p] == bs[p]
    {
      if r[q].startIndex >= k {
        r := r[q := r[q].(startIndex := r[q].startIndex + 1)];
      }
      if r[q].endIndex >= k {
        r := r[q := r[q].(endIndex := r[q].endIndex + 1)];
      }
      q := q + 1;
    }
  }

  /** The loop of `RemoveAllBridges` over the islands: every count back to zero. */
  method ZeroCounts(s: seq<Island>) returns (r: seq<Island>)
    ensures |r| == |s|
    ensures forall k :: 0 <= k < |s| ==> r[k] == s[k].(current := 0)
  {
    r := s;
    var k := 0;
    while k < |r|
      invariant 0 <= k <= |r| == |s|
      invariant forall m :: 0 <= m < k ==> r[m] == s[m].(current := 0)
      invariant forall m :: k <= m < |r| ==> r[m] == s[m]
    {
      r := r[k := r[k].(current := 0)];
      k := k + 1;
    }
  }

  /** The last loop of `CreateGame`: every island's count becomes its target, and its count zero. */
  method CountsToTargets(s: seq<Island>) returns (r: seq<Island>)
    ensures |r| == |s|
    ensures forall k :: 0 <= k < |s| ==> r[k] == s[k].(target := s[k].current, current := 0)
  {
    r := s;
    var k := 0;
    while k < |r|
      invariant 0 <= k <= |r| == |s|
      invariant forall m :: 0 <= m < k ==> r[m] == s[m].(target := s[m].current, current := 0)
      invariant forall m :: k <= m < |r| ==> r[m] == s[m]
    {
      r := r[k := r[k].(target := r[k].current)];
      r := r[k := r[k].(current := 0)];
      k := k + 1;
    }
  }

  // --------------------------------------------------------------- NextBridge

  /**
    The loop of `NextBridge`: the first island, in list order, that still
    misses bridges and has a direction whose potential meets the threshold.
  */
  method FindMove(b: Board) returns (move: Option<(int, Direction)>)
    requires LinksValid(b.islands)
    ensures move == NextMove(b)
  {
    var i := 0;
    while i < |b.islands|
      invariant 0 <= i <= |b.islands|
      invariant FirstChoice(Choices(b), i) == NextMove(b)
    {
      if UnderTarget(b.islands[i]) != 0 {
        var direction := MoveAt(b, i);
        if direction.Some? {
          assert Choices(b)[i] == direction;
          return Some((i, direction.value));
        }
      }
      assert Choices(b)[i].None?;
      i := i + 1;
    }
    return None;
  }

  // ------------------------------------------------------ the mutator bodies
  //
  // The engine changes its lists in place, one field write after the other;
  // these methods keep that sequence of steps, while the functions they are
  // proved equal to (`WithNewBridge`, `Added`, `Removed`, `InsertIsland`) are
  // the single definition the lemmas reason about.

  /** The body of `NewBridge(startIndex, endIndex, doubleBridge)` on a board value. */
  method NewBridgeOn(b: Board, startIndex: int, endIndex: int, doubleBridge: bool) returns (r: Board, bridge: Bridge)
    requires 0 <= startIndex < |b.islands| && 0 <= endIndex < |b.islands|
    ensures r == WithNewBridge(b, startIndex, endIndex, doubleBridge)
    ensures bridge == NewBridgeRecord(b, startIndex, endIndex, doubleBridge)
  {
    var islands, bridges := b.islands, b.bridges;
    var startIndexNew := Min(startIndex, endIndex);
    var endIndexNew := Max(startIndex, endIndex);
    var startColumn := islands[startIndexNew].column;
    var startRow := islands[startIndexNew].row;
    var endColumn := islands[endIndexNew].column;
    var endRow := islands[endIndexNew].row;
    bridge := Bridge(startIndexNew, endIndexNew, startColumn, startRow, endColumn, endRow, doubleBridge);
    bridges := Sort(bridges + [bridge], BridgeKey);
    if doubleBridge {
      islands := islands[startIndex := islands[startIndex].(current := islands[startIndex].current + 2)];
      islands := islands[endIndex := islands[endIndex].(current := islands[endIndex].current + 2)];
    } else {
      islands := islands[startIndex := islands[startIndex].(current := islands[startIndex].current + 1)];
      islands := islands[endIndex := islands[endIndex].(current := islands[endIndex].current + 1)];
    }
    r := Board(b.dims, islands, bridges);
  }

  /** The body of `AddBridge(startIndex, endIndex)` on a board value; `changed` tells whether it acted. */
  method AddBridgeOn(b: Board, startIndex: int, endIndex: int) returns (r: Board, changed: bool)
    requires IndexOrNone(b, startIndex) && IndexOrNone(b, endIndex)
    ensures r == Added(b, startIndex, endIndex)
    ensures changed <==> BridgeInfo(b, startIndex, endIndex).kind in {Single, OK}
  {
    var islands, bridges := b.islands, b.bridges;
    var bridgeInfo := BridgeInfo(b, startIndex, endIndex);
    r, changed := b, false;
    if bridgeInfo.kind == Single {
      bridges := bridges[bridgeInfo.index := bridges[bridgeInfo.index].(doubleBridge := true)];
      islands := islands[startIndex := islands[startIndex].(current := islands[startIndex].current + 1)];
      islands := islands[endIndex := islands[endIndex].(current := islands[endIndex].current + 1)];
      r, changed := Board(b.dims, islands, bridges), true;
    } else if bridgeInfo.kind == OK {
      var bridge;
      r, bridge := NewBridgeOn(b, startIndex, endIndex, false);
      changed := true;
    }
  }

  /** The body of `RemoveBridge(startIndex, endIndex)` on a board value; `changed` tells whether it acted. */
  method RemoveBridgeOn(b: Board, startIndex: int, endIndex: int) returns (r: Board, changed: bool)
    requires IndexOrNone(b, startIndex) && IndexOrNone(b, endIndex)
    ensures r == Removed(b, startIndex, endIndex)
    ensures changed <==> BridgeInfo(b, startIndex, endIndex).index != -1
  {
    var islands, bridges := b.islands, b.bridges;
    var bridgeInfo := BridgeInfo(b, startIndex, endIndex);
    r, changed := b, false;
    if bridgeInfo.index != -1 {
      if bridgeInfo.kind == Double {
        bridges := bridges[bridgeInfo.index := bridges[bridgeInfo.index].(doubleBridge := false)];
      } else {
        bridges := bridges[..bridgeInfo.index] + bridges[bridgeInfo.index + 1..];
      }
      islands := islands[startIndex := islands[startIndex].(current := islands[startIndex].current - 1)];
      islands := islands[endIndex := islands[endIndex].(current := islands[endIndex].current - 1)];
      r, changed := Board(b.dims, islands, bridges), true;
    }
  }

  /**
    The body of `NewIsland(column, row)` on a board value: add the island,
    `FindNeighbours`, find its index, renumber the bridges. Returns the new
    island as it stands in the new list.
  */
  method NewIslandOn(b: Board, column: int, row: int) returns (r: Board, island: Island)
    requires StrictlySorted(b.islands, IslandKey) && FindIsland(b.islands, column, row) == -1
    ensures r == InsertIsland(b, column, row)
    ensures island == r.islands[NewIslandIndex(b.islands, column, row)]
    ensures IslandKey(island) == (column, row) && island.target == 0 && island.current == 0
  {
    InsertIslandPlacement(b, column, row);
    var newIsland := MakeIsland(column, row, 0);
    var islands := FindNeighboursOn(b.islands + [newIsland]);
    var islandIndex := FindIsland(islands, column, row);
    var bridges := ShiftBridges(b.bridges, islandIndex);
    r := Board(b.dims, islands, bridges);
    island := islands[islandIndex];
  }
}
