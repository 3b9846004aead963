/**
  `CreateGame`: a random puzzle grown from one start island. Each pass of the
  loop either joins an island to the neighbour it sees in a random direction
  or places a new island on the way and joins it, so that the bridges drawn
  along the way connect every island; the targets are then set to the bridge
  counts and the bridges removed, which leaves a puzzle those bridges solve.
  The random draws are an input: `draw(t)` is the raw value behind the
  `t`-th call of `Random.Next`.
*/
module Generator {
  import opened Wrappers
  import opened Sorting
  import opened IslandModel
  import opened BridgeModel
  import opened BoardModel
  import opened Legality
  import opened Mutation
  import opened Status
  import opened Engine

  // ------------------------------------------------------------------ random

  /** `Random.Next(maxValue)`: 0 when `maxValue` is 0, otherwise a value below `maxValue`. */
  function NextBelow(value: nat, maxValue: int): (r: int)
    requires maxValue >= 0
    ensures maxValue == 0 ==> r == 0
    ensures maxValue > 0 ==> 0 <= r < maxValue
  {
    if maxValue == 0 then 0 else value % maxValue
  }

  /** `Random.Next(minValue, maxValue)`: `minValue` when the range is empty, otherwise a value in [minValue, maxValue). */
  function NextBetween(value: nat, minValue: int, maxValue: int): (r: int)
    requires minValue <= maxValue
    ensures minValue == maxValue ==> r == minValue
    ensures minValue < maxValue ==> minValue <= r < maxValue
  {
    if minValue == maxValue then minValue else minValue + value % (maxValue - minValue)
  }

  /** The value of `random.Next(4)` as a direction: 0 north, 1 east, 2 south, 3 west. */
  function DirectionOf(n: int): Direction {
    if n == 0 then North else if n == 1 then East else if n == 2 then South else West
  }

  // ------------------------------------------------------------------- field

  /** Cell `key` lies in the field. */
  predicate Inside(dims: Dimensions, key: Key) {
    0 <= key.0 < dims.columns && 0 <= key.1 < dims.rows
  }

  /** Every island lies in the field. */
  ghost predicate InField(b: Board) {
    forall k :: 0 <= k < |b.islands| ==> Inside(b.dims, IslandKey(b.islands[k]))
  }

  /** Whether the islands lie in the field depends only on their positions. */
  lemma InFieldOnPositions(b: Board, nb: Board, key: Key, k: int)
    requires InField(b) && nb.dims == b.dims && Inside(b.dims, key) && 0 <= k <= |b.islands|
    requires Positions(nb.islands) == Positions(b.islands)[..k] + [key] + Positions(b.islands)[k..]
    ensures InField(nb)
  {
    forall m | 0 <= m < |nb.islands| ensures Inside(nb.dims, IslandKey(nb.islands[m])) {
      assert IslandKey(nb.islands[m]) == Positions(nb.islands)[m];
      if m < k {
        assert Positions(nb.islands)[m] == Positions(b.islands)[m];
      } else if m > k {
        assert Positions(nb.islands)[m] == Positions(b.islands)[m - 1];
      }
    }
  }

  // ------------------------------------------------------------- one attempt

  /**
    The `switch (direction)` of the loop: the neighbour of island `i` in
    direction `d` (-1 when there is none) and the distance to it, or to the
    last cell before the field border when there is no neighbour.
  */
  function Reach(b: Board, i: int, d: Direction): (r: (int, int))
    requires LinksValid(b.islands) && 0 <= i < |b.islands|
    ensures r.0 == Link(b.islands[i], d)
  {
    var island := b.islands[i];
    var endIndex := Link(island, d);
    var maxDistance :=
      match d
      case North => if endIndex != -1 then island.row - b.islands[endIndex].row else island.row
      case East => if endIndex != -1 then b.islands[endIndex].column - island.column else b.dims.columns - island.column - 1
      case South => if endIndex != -1 then b.islands[endIndex].row - island.row else b.dims.rows - island.row - 1
      case West => if endIndex != -1 then island.column - b.islands[endIndex].column else island.column;
    (endIndex, maxDistance)
  }

  /** The cell `distance` steps from (`column`, `row`) in direction `d`. */
  function Step(column: int, row: int, d: Direction, distance: int): Key {
    match d
    case North => (column, row - distance)
    case East => (column + distance, row)
    case South => (column, row + distance)
    case West => (column - distance, row)
  }

  /**
    A step short of the neighbour, or no longer than the room left before the
    border, stays inside the field.
  */
  lemma StepInside(b: Board, i: int, d: Direction, distance: int)
    requires InField(b) && LinksValid(b.islands) && 0 <= i < |b.islands|
    requires var (endIndex, maxDistance) := Reach(b, i, d);
      0 <= distance <= maxDistance && (endIndex == -1 || distance < maxDistance)
    ensures Inside(b.dims, Step(b.islands[i].column, b.islands[i].row, d, distance))
  {
    assert Inside(b.dims, IslandKey(b.islands[i]));
    var endIndex := Link(b.islands[i], d);
    if endIndex != -1 {
      assert Inside(b.dims, IslandKey(b.islands[endIndex]));
    }
  }

  /** Renumbering the bridge ends changes no geometry, so `BridgeInfo` by cells gives the same answer. */
  lemma InfoIgnoresShift(bs: seq<Bridge>, k: int, maxLen: int, c1: int, r1: int, c2: int, r2: int)
    ensures BridgeInfoAt(ShiftAll(bs, k), maxLen, c1, r1, c2, r2) == BridgeInfoAt(bs, maxLen, c1, r1, c2, r2)
  {
    var t := ShiftAll(bs, k);
    var g := Canonical(c1, r1, c2, r2);
    assert forall q :: 0 <= q < |bs| ==> Geometry(t[q]) == Geometry(bs[q]) && t[q].doubleBridge == bs[q].doubleBridge;
    assert forall q :: 0 <= q < |bs| ==>
      BlocksRow(t[q], g.1, g.0, g.2) == BlocksRow(bs[q], g.1, g.0, g.2) &&
      BlocksColumn(t[q], g.0, g.1, g.3) == BlocksColumn(bs[q], g.0, g.1, g.3);
    var x, y := BridgeInfoAt(t, maxLen, c1, r1, c2, r2), BridgeInfoAt(bs, maxLen, c1, r1, c2, r2);
    if x.index != -1 {
      assert Geometry(bs[x.index]) == g;
      assert x.index == y.index;
    }
  }

  /** A new bridge between two islands keeps a connected board connected. */
  lemma ConnectedAfterNewBridge(b: Board, i: int, j: int, doubleBridge: bool)
    requires Connected(b) && 0 <= i < |b.islands| && 0 <= j < |b.islands|
    ensures Connected(WithNewBridge(b, i, j, doubleBridge))
  {
    var nb := WithNewBridge(b, i, j, doubleBridge);
    NewBridgeKeepsBridges(b, i, j, doubleBridge);
    forall m | 0 <= m < |nb.islands| ensures Reachable(nb.bridges, 0, m) {
      ReachableInSuperset(b.bridges, nb.bridges, 0, m);
    }
  }

  /** Renumbering the bridge ends moves every walk with it. */
  lemma ReachableShifted(bs: seq<Bridge>, k: int, x: int, y: int)
    requires Reachable(bs, x, y)
    ensures Reachable(ShiftAll(bs, k), ShiftIndex(x, k), ShiftIndex(y, k))
  {
    var path :| IsPath(bs, path) && path[0] == x && path[|path| - 1] == y;
    var t := ShiftAll(bs, k);
    var moved := seq(|path|, u requires 0 <= u < |path| => ShiftIndex(path[u], k));
    forall u | 0 <= u < |moved| - 1 ensures Adjacent(t, moved[u], moved[u + 1]) {
      assert Adjacent(bs, path[u], path[u + 1]);
      var q :| 0 <= q < |bs| && Connects(bs[q], path[u], path[u + 1]);
      assert Connects(t[q], moved[u], moved[u + 1]);
    }
    assert IsPath(t, moved);
  }

  /**
    A connected board stays connected when a new island is inserted at index
    `k` and joined by a bridge to an old island.
  */
  lemma ConnectedAfterExtend(b: Board, mid: Board, k: int, start: int, doubleBridge: bool)
    requires Connected(b) && 0 <= start < |b.islands| && 0 <= k <= |b.islands|
    requires |mid.islands| == |b.islands| + 1 && mid.bridges == ShiftAll(b.bridges, k)
    ensures Connected(WithNewBridge(mid, ShiftIndex(start, k), k, doubleBridge))
  {
    var s := ShiftIndex(start, k);
    var nb := WithNewBridge(mid, s, k, doubleBridge);
    var root := ShiftIndex(0, k);
    NewBridgeKeepsBridges(mid, s, k, doubleBridge);
    var br := NewBridgeRecord(mid, s, k, doubleBridge);
    var p :| 0 <= p < |nb.bridges| && nb.bridges[p] == br;
    assert Connects(nb.bridges[p], s, k);
    forall m | 0 <= m < |b.islands| ensures Reachable(nb.bridges, root, ShiftIndex(m, k)) {
      ReachableShifted(b.bridges, k, 0, m);
      ReachableInSuperset(mid.bridges, nb.bridges, root, ShiftIndex(m, k));
    }
    assert Reachable(nb.bridges, root, s);
    ReachableStep(nb.bridges, root, s, k);
    if k == 0 {
      ReachableSymmetric(nb.bridges, root, 0);
    } else {
      ReachableSelf(nb.bridges, 0);
    }
    forall m | 0 <= m < |nb.islands| ensures Reachable(nb.bridges, 0, m) {
      if m != k {
        var m0 := if m < k then m else m - 1;
        assert ShiftIndex(m0, k) == m;
      }
      ReachableTransitive(nb.bridges, 0, root, m);
    }
  }

  /**
    The island branch of the loop: place a new island on the free cell
    (`column`, `row`) with `NewIsland`, then join it to island `startIndex`
    with `NewBridge`, both found again by position after the re-sort.
  */
  method Extend(b: Board, startIndex: int, column: int, row: int, doubleBridge: bool) returns (nb: Board)
    requires WellFormed(b) && 0 <= startIndex < |b.islands|
    requires IslandOK(b, column, row)
    requires BridgeInfoAt(b.bridges, b.dims.maxBridgeLength,
                          b.islands[startIndex].column, b.islands[startIndex].row, column, row).kind == OK
    ensures WellFormed(nb) && nb.dims == b.dims
    ensures var k := NewIslandIndex(b.islands, column, row);
      Positions(nb.islands) == Positions(b.islands)[..k] + [(column, row)] + Positions(b.islands)[k..]
    ensures Connected(b) ==> Connected(nb)
  {
    var startIsland := b.islands[startIndex];
    ghost var k := NewIslandIndex(b.islands, column, row);
    InsertIslandPlacement(b, column, row);
    InsertIslandKeepsWellFormed(b, column, row);
    var mid, endIsland := NewIslandOn(b, column, row);
    var s := FindIsland(mid.islands, startIsland.column, startIsland.row);
    var e := FindIsland(mid.islands, endIsland.column, endIsland.row);
    FindIslandUnique(mid.islands, ShiftIndex(startIndex, k));
    assert s == ShiftIndex(startIndex, k);
    assert e == k;
    InfoIgnoresShift(b.bridges, k, b.dims.maxBridgeLength, startIsland.column, startIsland.row, column, row);
    assert CanCreate(mid, s, e);
    NewBridgeKeepsWellFormed(mid, s, e, doubleBridge);
    if Connected(b) {
      ConnectedAfterExtend(b, mid, k, startIndex, doubleBridge);
    }
    var bridge;
    nb, bridge := NewBridgeOn(mid, s, e, doubleBridge);
    SameButCountsKeeps(mid.islands, nb.islands);
  }

  /** The neighbour branch of the loop: `NewBridge` to the neighbour when `BridgeInfo` allows it. */
  method Join(b: Board, startIndex: int, endIndex: int, doubleBridge: bool) returns (nb: Board)
    requires WellFormed(b) && InField(b) && 0 <= startIndex < |b.islands| && 0 <= endIndex < |b.islands|
    ensures WellFormed(nb) && InField(nb) && nb.dims == b.dims && |nb.islands| == |b.islands|
    ensures Connected(b) ==> Connected(nb)
  {
    nb := b;
    if BridgeInfo(b, startIndex, endIndex).kind == OK {
      NewBridgeKeepsWellFormed(b, startIndex, endIndex, doubleBridge);
      if Connected(b) {
        ConnectedAfterNewBridge(b, startIndex, endIndex, doubleBridge);
      }
      var bridge;
      nb, bridge := NewBridgeOn(b, startIndex, endIndex, doubleBridge);
      SameButCountsKeeps(b.islands, nb.islands);
      assert forall m :: 0 <= m < |nb.islands| ==> IslandKey(nb.islands[m]) == Positions(b.islands)[m];
    }
  }

  /**
    The island branch of the loop: when the cell `distance` steps away is
    free and a bridge to it may be created, place an island there and join it.
  */
  method Branch(b: Board, startIndex: int, direction: Direction, distance: int, doubleBridge: bool) returns (nb: Board, added: bool)
    requires WellFormed(b) && InField(b) && LinksValid(b.islands) && 0 <= startIndex < |b.islands|
    requires var (endIndex, maxDistance) := Reach(b, startIndex, direction);
      0 <= distance <= maxDistance && (endIndex == -1 || distance < maxDistance)
    ensures WellFormed(nb) && InField(nb) && nb.dims == b.dims
    ensures |nb.islands| == |b.islands| + (if added then 1 else 0)
    ensures Connected(b) ==> Connected(nb)
  {
    var startIsland := b.islands[startIndex];
    var (endColumn, endRow) := Step(startIsland.column, startIsland.row, direction, distance);
    nb, added := b, false;
    if IslandOK(b, endColumn, endRow) &&
       BridgeInfoAt(b.bridges, b.dims.maxBridgeLength, startIsland.column, startIsland.row, endColumn, endRow).kind == OK
    {
      StepInside(b, startIndex, direction, distance);
      nb := Extend(b, startIndex, endColumn, endRow, doubleBridge);
      InFieldOnPositions(b, nb, (endColumn, endRow), NewIslandIndex(b.islands, endColumn, endRow));
      added := true;
    }
  }

  /**
    One pass of the loop of `CreateGame`: draw an island, a direction, the
    bridge kind and, when there is room, a distance; then either bridge to
    the neighbour that distance reaches or place a new island there and
    bridge to it. `added` tells whether an island was placed; `t` counts the
    draws used so far.
  */
  method Attempt(b: Board, draw: nat -> nat, t0: nat) returns (nb: Board, added: bool, t: nat)
    requires WellFormed(b) && InField(b) && |b.islands| > 0 && b.dims.maxBridgeLength >= 1
    ensures WellFormed(nb) && InField(nb) && nb.dims == b.dims
    ensures |nb.islands| == |b.islands| + (if added then 1 else 0)
    ensures Connected(b) ==> Connected(nb)
    ensures t0 + 3 <= t <= t0 + 4
  {
    t := t0;
    var startIndex := NextBelow(draw(t), |b.islands|);
    var direction := DirectionOf(NextBelow(draw(t + 1), 4));
    var doubleBridge := NextBelow(draw(t + 2), 2) == 1;
    t := t + 3;
    LinksCorrectValid(b.islands);
    var (endIndex, maxDistance) := Reach(b, startIndex, direction);
    nb, added := b, false;
    if maxDistance >= 2 {
      var distance := NextBetween(draw(t), 2, Min(b.dims.maxBridgeLength + 1, maxDistance + 1));
      t := t + 1;
      if endIndex != -1 && distance == maxDistance {
        nb := Join(b, startIndex, endIndex, doubleBridge);
      } else {
        nb, added := Branch(b, startIndex, direction, distance, doubleBridge);
      }
    }
  }

  // --------------------------------------------------------------- the loop

  /**
    The `while (count > 0)` loop of `CreateGame`: attempts until `count` more
    islands are placed or 5000 passes are done. Returns the grown board and
    the pass count.
  */
  method Populate(b0: Board, count0: int, draw: nat -> nat, t0: nat) returns (b: Board, loopCount: int, t: nat)
    requires WellFormed(b0) && InField(b0) && |b0.islands| > 0 && b0.dims.maxBridgeLength >= 1
    ensures WellFormed(b) && InField(b) && b.dims == b0.dims
    ensures 0 <= loopCount <= 5000
    ensures |b0.islands| <= |b.islands| <= |b0.islands| + Max(count0, 0)
    ensures loopCount < 5000 ==> |b.islands| == |b0.islands| + Max(count0, 0)
    ensures Connected(b0) ==> Connected(b)
  {
    var count := count0;
    b, loopCount, t := b0, 0, t0;
    while count > 0
      invariant WellFormed(b) && InField(b) && b.dims == b0.dims && |b.islands| > 0
      invariant 0 <= loopCount < 5000
      invariant count0 > 0 ==> 0 <= count <= count0 && |b.islands| + count == |b0.islands| + count0
      invariant count0 <= 0 ==> b == b0 && count == count0
      invariant Connected(b0) ==> Connected(b)
      decreases 5000 - loopCount
    {
      var added;
      b, added, t := Attempt(b, draw, t);
      if added {
        count := count - 1;
      }
      loopCount := loopCount + 1;
      if loopCount == 5000 {
        break;
      }
    }
  }

  /** A lone island is a well-formed, connected board: no neighbours, no bridges. */
  lemma SingleIslandBoard(dims: Dimensions, island: Island)
    requires island.current == 0 && forall d :: Link(island, d) == -1
    ensures WellFormed(Board(dims, [island], []))
    ensures Connected(Board(dims, [island], []))
  {
    var s := [island];
    forall k, d | 0 <= k < |s| ensures Link(s[k], d) == NeighbourOf(Positions(s), k, d) {
      assert k == 0;
    }
    ReachableSelf([], 0);
  }

  /**
    The default count is drawn from [min(columns, rows), columns * rows / 5 + 1).
    The lower bound never passes the upper one, and the range stays within the
    area. On a 4 x 4 field the range is empty and `Random.Next` returns its lower
    bound 4.
  */
  lemma DefaultCountRange(columns: int, rows: int)
    requires 4 <= columns && 4 <= rows
    ensures Min(columns, rows) <= columns * rows / 5 + 1 <= columns * rows
  {
    var m, n := Min(columns, rows), Max(columns, rows);
    var area := columns * rows;
    assert area == m * n;
    MulAtLeast(m, n, m);
    MulAtLeast(m, n, 4);
    MulAtLeast(m, m, 4);
    assert area >= 5 * m - 5 by {
      if m <= 5 {
        assert area >= 4 * m;
      } else {
        MulAtLeast(m, m, 6);
      }
    }
  }

  /** `m * n` is at least `m * k` when `n` is at least `k`, for `m` not negative. */
  lemma MulAtLeast(m: int, n: int, k: int)
    requires m >= 0 && n >= k
    ensures m * n >= m * k
  {
    assert m * n - m * k == m * (n - k);
  }

  /** With at most one island per cell, the longest allowed bridge is at least 1. */
  lemma BridgeLengthBound(columns: int, rows: int, count: int)
    requires 1 <= count <= columns * rows
    ensures SetDimensions(columns, rows, count).maxBridgeLength >= 1
  {
  }

  /**
    `CreateGame` up to its last loop: resolve the default dimensions and
    count, place the first island, and grow the board. The result is the
    board with every bridge drawn (the solution); `loopCount` is the number of
    passes the debug output reports.
  */
  method Generate(columns: int, rows: int, count: int, draw: nat -> nat) returns (solution: Board, loopCount: int)
    requires columns == -1 <==> rows == -1
    requires columns != -1 ==> 4 <= columns <= 25 && 4 <= rows <= 25
    requires columns == -1 ==> count == -1
    requires count != -1 ==> 1 <= count <= columns * rows
    ensures WellFormed(solution) && InField(solution) && Connected(solution)
    ensures 4 <= solution.dims.columns <= 25 && 4 <= solution.dims.rows <= 25
    ensures columns != -1 ==> solution.dims.columns == columns && solution.dims.rows == rows
    ensures count != -1 ==> solution.dims.count == count
    ensures solution.dims == SetDimensions(solution.dims.columns, solution.dims.rows, solution.dims.count)
    ensures 1 <= |solution.islands| <= solution.dims.count
    ensures 0 <= loopCount <= 5000
    ensures loopCount < 5000 ==> |solution.islands| == solution.dims.count
  {
    var c, r, n, t := columns, rows, count, 0;
    if c == -1 {
      c := NextBetween(draw(t), 4, 25 + 1);
      t := t + 1;
    }
    if r == -1 {
      r := NextBetween(draw(t), 4, 25 + 1);
      t := t + 1;
    }
    DefaultCountRange(c, r);
    if n == -1 {
      n := NextBetween(draw(t), Min(c, r), c * r / 5 + 1);
      t := t + 1;
    }
    BridgeLengthBound(c, r, n);
    var dims := SetDimensions(c, r, n);
    var first := MakeIsland(NextBelow(draw(t), c), NextBelow(draw(t + 1), r), 0);
    t := t + 2;
    var start := Board(dims, [first], []);
    SingleIslandBoard(dims, first);
    assert Inside(dims, IslandKey(first));
    var last;
    solution, loopCount, last := Populate(start, n - 1, draw, t);
  }

  // ------------------------------------------------------------ the puzzle

  /** The last loop of `CreateGame` and `Bridges.Clear()`: every target becomes the bridge count, every count 0, no bridges. */
  function Puzzle(solution: Board): (r: Board)
    ensures r.dims == solution.dims && r.bridges == [] && |r.islands| == |solution.islands|
    ensures forall k :: 0 <= k < |r.islands| ==>
      r.islands[k] == solution.islands[k].(target := solution.islands[k].current, current := 0)
  {
    var s := solution.islands;
    solution.(islands := seq(|s|, k requires 0 <= k < |s| => s[k].(target := s[k].current, current := 0)), bridges := [])
  }

  /** The puzzle's islands with the drawn bridges put back: every count back at its target. */
  function Restored(puzzle: Board, bridges: seq<Bridge>): (r: Board)
    ensures r.dims == puzzle.dims && r.bridges == bridges && |r.islands| == |puzzle.islands|
    ensures forall k :: 0 <= k < |r.islands| ==> r.islands[k] == puzzle.islands[k].(current := puzzle.islands[k].target)
  {
    var s := puzzle.islands;
    puzzle.(islands := seq(|s|, k requires 0 <= k < |s| => s[k].(current := s[k].target)), bridges := bridges)
  }

  /** Two island lists that agree on positions and links. */
  predicate SameSites(s: seq<Island>, t: seq<Island>) {
    |t| == |s| && forall k :: 0 <= k < |s| ==> t[k] == s[k].(target := t[k].target, current := t[k].current)
  }

  lemma SameSitesKeep(s: seq<Island>, t: seq<Island>)
    requires SameSites(s, t)
    ensures Positions(t) == Positions(s)
    ensures StrictlySorted(s, IslandKey) ==> StrictlySorted(t, IslandKey)
    ensures LinksCorrect(s) ==> LinksCorrect(t)
  {
    assert forall k :: 0 <= k < |s| ==> IslandKey(t[k]) == IslandKey(s[k]);
    assert Positions(t) == Positions(s);
    assert forall k, d :: 0 <= k < |s| ==> Link(t[k], d) == Link(s[k], d);
  }

  /**
    The generated game has a solution: the puzzle is a well-formed board with
    no bridges, every island a target equal to the bridges the generator
    drew at it, and putting those bridges back gives a well-formed board on
    which every target is met and which is solved when the bridges connect
    the islands.
  */
  lemma PuzzleIsSolvable(solution: Board)
    requires WellFormed(solution)
    ensures WellFormed(Puzzle(solution))
    ensures forall k :: 0 <= k < |solution.islands| ==>
      Puzzle(solution).islands[k].target == Degree(solution.bridges, k) && IslandKey(Puzzle(solution).islands[k]) == IslandKey(solution.islands[k])
    ensures var done := Restored(Puzzle(solution), solution.bridges);
      && WellFormed(done) && AllTargetNumber(done.islands)
      && LinksValid(done.islands)
      && (|solution.islands| > 0 && Connected(solution) ==> StatusOf(done) == Solved)
  {
    var p := Puzzle(solution);
    var done := Restored(p, solution.bridges);
    assert SameSites(solution.islands, p.islands);
    SameSitesKeep(solution.islands, p.islands);
    FitsOnSamePositions(solution.(bridges := []), p);
    assert SameSites(solution.islands, done.islands);
    SameSitesKeep(solution.islands, done.islands);
    FitsOnSamePositions(solution, done);
    LinksCorrectValid(done.islands);
  }
}
