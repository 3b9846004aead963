/**
  The bridge legality checker (both `BridgeInfo` overloads) and the
  island-placement check `IslandOK`, with the check's limit test also as the
  source computes it in 32-bit arithmetic (`IslandOKAsWritten`).
*/
module Legality {
  import opened Sorting
  import opened IslandModel
  import opened BridgeModel
  import opened BoardModel
  import Lists

  /** The string tag of `BridgeInfo`: "notOK", "OK", "single", "double". */
  datatype Kind = NotOK | OK | Single | Double

  /** The `(int, string)` pair `BridgeInfo` returns. */
  datatype Info = Info(index: int, kind: Kind)

  type Segment = (int, int, int, int)

  /** The endpoints swapped so that the left (upper) end comes first on a row (column). */
  function Canonical(startColumn: int, startRow: int, endColumn: int, endRow: int): Segment {
    if (endColumn < startColumn && endRow == startRow) || (endColumn == startColumn && endRow < startRow)
    then (endColumn, endRow, startColumn, startRow)
    else (startColumn, startRow, endColumn, endRow)
  }

  ghost predicate Exists(bs: seq<Bridge>, g: Segment) {
    exists k :: 0 <= k < |bs| && Geometry(bs[k]) == g
  }

  /**
    The creation rule for a segment no bridge occupies yet: horizontal or
    vertical, two to `maxLen` cells long, and not crossed at a right angle by
    any existing bridge.
  */
  ghost predicate Creatable(bs: seq<Bridge>, maxLen: int, g: Segment) {
    (g.1 == g.3 && 2 <= g.2 - g.0 <= maxLen &&
     forall k :: 0 <= k < |bs| ==> !BlocksRow(bs[k], g.1, g.0, g.2)) ||
    (g.1 != g.3 && g.0 == g.2 && 2 <= g.3 - g.1 <= maxLen &&
     forall k :: 0 <= k < |bs| ==> !BlocksColumn(bs[k], g.0, g.1, g.3))
  }

  /** The `Bridges.FindIndex` lookup of the bridge on segment `g`, or -1. */
  function Occupant(bs: seq<Bridge>, g: Segment): (r: int)
    ensures r == -1 <==> !Exists(bs, g)
    ensures r != -1 ==> 0 <= r < |bs| && Geometry(bs[r]) == g
    ensures r != -1 ==> forall k :: 0 <= k < r ==> Geometry(bs[k]) != g
  {
    if bs == [] then -1
    else if Geometry(bs[0]) == g then 0
    else
      var r := Occupant(bs[1..], g);
      if r == -1 then -1 else r + 1
  }

  /** The `Bridges.FindIndex` lookup of a vertical bridge crossing row `row` strictly between two columns. */
  function RowCrossed(bs: seq<Bridge>, row: int, fromColumn: int, toColumn: int): (r: bool)
    ensures r <==> exists k :: 0 <= k < |bs| && BlocksRow(bs[k], row, fromColumn, toColumn)
  {
    if bs == [] then false
    else BlocksRow(bs[0], row, fromColumn, toColumn) || RowCrossed(bs[1..], row, fromColumn, toColumn)
  }

  /** The `Bridges.FindIndex` lookup of a horizontal bridge crossing column `column` strictly between two rows. */
  function ColumnCrossed(bs: seq<Bridge>, column: int, fromRow: int, toRow: int): (r: bool)
    ensures r <==> exists k :: 0 <= k < |bs| && BlocksColumn(bs[k], column, fromRow, toRow)
  {
    if bs == [] then false
    else BlocksColumn(bs[0], column, fromRow, toRow) || ColumnCrossed(bs[1..], column, fromRow, toRow)
  }

  /** `BridgeInfo(startColumn, startRow, endColumn, endRow)`. */
  function BridgeInfoAt(bs: seq<Bridge>, maxLen: int,
                        startColumn: int, startRow: int, endColumn: int, endRow: int): (r: Info)
    ensures var g := Canonical(startColumn, startRow, endColumn, endRow);
      && (r.index != -1 <==> Exists(bs, g))
      && (r.index != -1 ==>
            0 <= r.index < |bs| && Geometry(bs[r.index]) == g &&
            r.kind == (if bs[r.index].doubleBridge then Double else Single))
      && (r.index != -1 ==> forall k :: 0 <= k < r.index ==> Geometry(bs[k]) != g)
      && (r.index == -1 ==> (r.kind == OK <==> Creatable(bs, maxLen, g)) && r.kind in {OK, NotOK})
  {
    var g := Canonical(startColumn, startRow, endColumn, endRow);
    var sc, sr, ec, er := g.0, g.1, g.2, g.3;
    var bridgeIndex := Occupant(bs, g);
    if bridgeIndex != -1 then
      if bs[bridgeIndex].doubleBridge then Info(bridgeIndex, Double) else Info(bridgeIndex, Single)
    else if sr == er then
      if ec - sc > maxLen || ec - sc < 2 || RowCrossed(bs, sr, sc, ec)
      then Info(bridgeIndex, NotOK)
      else Info(bridgeIndex, OK)
    else if sc == ec then
      if er - sr > maxLen || er - sr < 2 || ColumnCrossed(bs, sc, sr, er)
      then Info(bridgeIndex, NotOK)
      else Info(bridgeIndex, OK)
    else Info(bridgeIndex, NotOK)
  }

  /** For a horizontal or vertical pair, the order of the two ends does not matter. */
  lemma BridgeInfoAtSymmetric(bs: seq<Bridge>, maxLen: int, c1: int, r1: int, c2: int, r2: int)
    requires r1 == r2 || c1 == c2
    ensures BridgeInfoAt(bs, maxLen, c1, r1, c2, r2) == BridgeInfoAt(bs, maxLen, c2, r2, c1, r1)
  {
    assert Canonical(c1, r1, c2, r2) == Canonical(c2, r2, c1, r1);
  }

  /** A diagonal pair no bridge occupies is never creatable. */
  lemma DiagonalNotOK(bs: seq<Bridge>, maxLen: int, c1: int, r1: int, c2: int, r2: int)
    requires r1 != r2 && c1 != c2
    ensures BridgeInfoAt(bs, maxLen, c1, r1, c2, r2).kind != OK
  {
  }

  predicate IndexOrNone(b: Board, i: int) {
    i == -1 || 0 <= i < |b.islands|
  }

  /** `BridgeInfo(startIndex, endIndex)`: -1 stands for a missing neighbour. */
  function BridgeInfo(b: Board, i: int, j: int): (r: Info)
    requires IndexOrNone(b, i) && IndexOrNone(b, j)
    ensures i == -1 || j == -1 ==> r == Info(-1, NotOK)
    ensures i != -1 && j != -1 ==>
      r == BridgeInfoAt(b.bridges, b.dims.maxBridgeLength,
                        b.islands[i].column, b.islands[i].row, b.islands[j].column, b.islands[j].row)
  {
    if i == -1 || j == -1 then Info(-1, NotOK)
    else
      var startColumn := b.islands[i].column;
      var startRow := b.islands[i].row;
      var endColumn := b.islands[j].column;
      var endRow := b.islands[j].row;
      BridgeInfoAt(b.bridges, b.dims.maxBridgeLength, startColumn, startRow, endColumn, endRow)
  }

  /** The segment between islands `i` and `j`, in index order. */
  function SegmentOf(b: Board, i: int, j: int): Segment
    requires 0 <= i < |b.islands| && 0 <= j < |b.islands|
  {
    var lo, hi := Wrappers.Min(i, j), Wrappers.Max(i, j);
    (b.islands[lo].column, b.islands[lo].row, b.islands[hi].column, b.islands[hi].row)
  }

  /** On a sorted island list, canonicalising the ends of a horizontal or vertical pair puts the lower index first. */
  lemma CanonicalIsIndexOrder(b: Board, i: int, j: int)
    requires StrictlySorted(b.islands, IslandKey)
    requires 0 <= i < |b.islands| && 0 <= j < |b.islands|
    requires b.islands[i].row == b.islands[j].row || b.islands[i].column == b.islands[j].column
    ensures Canonical(b.islands[i].column, b.islands[i].row, b.islands[j].column, b.islands[j].row) == SegmentOf(b, i, j)
  {
    if i < j {
      assert KeyLt(IslandKey(b.islands[i]), IslandKey(b.islands[j]));
    } else if j < i {
      assert KeyLt(IslandKey(b.islands[j]), IslandKey(b.islands[i]));
    }
  }

  /** On a well-formed board a bridge has the segment of a pair exactly when it joins that pair. */
  lemma SegmentIdentifiesPair(b: Board, i: int, j: int, k: int)
    requires WellFormed(b)
    requires 0 <= i < |b.islands| && 0 <= j < |b.islands| && 0 <= k < |b.bridges|
    ensures Geometry(b.bridges[k]) == SegmentOf(b, i, j) <==>
      BridgeKey(b.bridges[k]) == (Wrappers.Min(i, j), Wrappers.Max(i, j))
  {
    var br := b.bridges[k];
    assert BridgeFits(b, br);
    var lo, hi := Wrappers.Min(i, j), Wrappers.Max(i, j);
    if Geometry(br) == SegmentOf(b, i, j) {
      KeyIdentifies(b.islands, IslandKey, br.startIndex, lo);
      KeyIdentifies(b.islands, IslandKey, br.endIndex, hi);
    }
  }

  /** Bridge `br` joins islands `i` and `j`, in either order. */
  predicate Joins(br: Bridge, i: int, j: int) {
    BridgeKey(br) == (Wrappers.Min(i, j), Wrappers.Max(i, j))
  }

  /**
    On a well-formed board, `BridgeInfo(i, j)` for two islands finds the bridge
    that joins them, if any, and otherwise reports whether one can be created.
  */
  lemma BridgeInfoOnBoard(b: Board, i: int, j: int)
    requires WellFormed(b)
    requires 0 <= i < |b.islands| && 0 <= j < |b.islands|
    ensures var r := BridgeInfo(b, i, j);
      && (r.index != -1 <==> exists k :: 0 <= k < |b.bridges| && Joins(b.bridges[k], i, j))
      && (r.index != -1 ==> 0 <= r.index < |b.bridges| && Joins(b.bridges[r.index], i, j))
      && (r.kind == OK ==> i != j && Creatable(b.bridges, b.dims.maxBridgeLength, SegmentOf(b, i, j)) &&
                           (b.islands[i].row == b.islands[j].row || b.islands[i].column == b.islands[j].column))
  {
    var r := BridgeInfo(b, i, j);
    var ci, ri, cj, rj := b.islands[i].column, b.islands[i].row, b.islands[j].column, b.islands[j].row;
    var g := Canonical(ci, ri, cj, rj);
    if ri == rj || ci == cj {
      CanonicalIsIndexOrder(b, i, j);
      forall k | 0 <= k < |b.bridges|
        ensures Geometry(b.bridges[k]) == g <==> Joins(b.bridges[k], i, j)
      {
        SegmentIdentifiesPair(b, i, j, k);
      }
    } else {
      assert g == (ci, ri, cj, rj);
      forall k | 0 <= k < |b.bridges| ensures !Joins(b.bridges[k], i, j) && Geometry(b.bridges[k]) != g {
        var br := b.bridges[k];
        assert BridgeFits(b, br);
      }
    }
  }

  // ---------------------------------------------------------------- IslandOK

  /** A vertical bridge passes over cell (column, row), strictly between its ends. */
  predicate InsideVertical(br: Bridge, column: int, row: int) {
    br.startColumn == br.endColumn && column == br.startColumn && row > br.startRow && row < br.endRow
  }

  /** A horizontal bridge passes over cell (column, row), strictly between its ends. */
  predicate InsideHorizontal(br: Bridge, column: int, row: int) {
    br.startRow == br.endRow && row == br.startRow && column > br.startColumn && column < br.endColumn
  }

  /** `IslandOK(column, row)`: may a new island be placed on this cell? */
  function IslandOK(b: Board, column: int, row: int): (r: bool)
    ensures r <==>
      (forall k :: 0 <= k < |b.islands| ==> IslandKey(b.islands[k]) != (column, row)) &&
      column < b.dims.columns && row < b.dims.rows &&
      column != -1 && row != -1 &&
      (forall k :: 0 <= k < |b.bridges| ==>
         !InsideVertical(b.bridges[k], column, row) && !InsideHorizontal(b.bridges[k], column, row))
  {
    var islandIndex := FindIsland(b.islands, column, row);
    if islandIndex != -1 then false
    else if column + 1 > b.dims.columns || row + 1 > b.dims.rows then false
    else if Lists.FindIndex(b.bridges, (br: Bridge) => InsideVertical(br, column, row)) != -1 ||
            Lists.FindIndex(b.bridges, (br: Bridge) => InsideHorizontal(br, column, row)) != -1 ||
            column == -1 || row == -1 then false
    else true
  }

  // ------------------------------------------------------ IslandOK as written

  const Int32Min: int := -0x8000_0000
  const Int32Max: int := 0x7FFF_FFFF

  /** `x + 1` on a 32-bit `int` in unchecked arithmetic: `int.MaxValue + 1` wraps to `int.MinValue`. */
  function Inc32(x: int): (r: int)
    requires Int32Min <= x <= Int32Max
    ensures Int32Min <= r <= Int32Max
    ensures x < Int32Max ==> r == x + 1
    ensures x == Int32Max ==> r == Int32Min
  {
    (x + 1 - Int32Min) % 0x1_0000_0000 + Int32Min
  }

  /**
    `IslandOK` with the limit test `column + 1 > Item1 || row + 1 > Item2` in
    the 32-bit arithmetic the source uses. It agrees with `IslandOK` except on
    a coordinate equal to `int.MaxValue`.
  */
  function IslandOKAsWritten(b: Board, column: int, row: int): (r: bool)
    requires Int32Min <= column <= Int32Max && Int32Min <= row <= Int32Max
    ensures column != Int32Max && row != Int32Max ==> (r <==> IslandOK(b, column, row))
  {
    var islandIndex := FindIsland(b.islands, column, row);
    if islandIndex != -1 then false
    else if Inc32(column) > b.dims.columns || Inc32(row) > b.dims.rows then false
    else if Lists.FindIndex(b.bridges, (br: Bridge) => InsideVertical(br, column, row)) != -1 ||
            Lists.FindIndex(b.bridges, (br: Bridge) => InsideHorizontal(br, column, row)) != -1 ||
            column == -1 || row == -1 then false
    else true
  }

  /**
    The wrapped limit test lets column `int.MaxValue` through: a free cell in
    that column, with its row inside the field, is accepted as written although
    it lies outside any field whose width is a 32-bit `int`; `IslandOK` refuses it.
  */
  lemma MaxColumnLetThrough(b: Board, row: int)
    requires Int32Min <= b.dims.columns <= Int32Max
    requires 0 <= row < b.dims.rows && row <= Int32Max
    requires forall k :: 0 <= k < |b.islands| ==> IslandKey(b.islands[k]) != (Int32Max, row)
    requires forall k :: 0 <= k < |b.bridges| ==>
      !InsideVertical(b.bridges[k], Int32Max, row) && !InsideHorizontal(b.bridges[k], Int32Max, row)
    ensures IslandOKAsWritten(b, Int32Max, row)
    ensures !IslandOK(b, Int32Max, row)
  {
    assert Inc32(Int32Max) <= b.dims.columns;
    assert Inc32(row) <= b.dims.rows;
  }
}
