/**
  A bridge between two islands, stored by the islands' list indices
  (`startIndex < endIndex`) and by the geometry of its two ends, which never
  changes after construction. `doubleBridge` tells a double bridge from a
  single one.
*/
module BridgeModel {
  import opened Wrappers
  import opened Sorting

  datatype Bridge = Bridge(
    startIndex: int, endIndex: int,
    startColumn: int, startRow: int, endColumn: int, endRow: int,
    doubleBridge: bool)

  /** The pair by which bridges are sorted. */
  function BridgeKey(b: Bridge): Key {
    (b.startIndex, b.endIndex)
  }

  /** The get-only part of a bridge. */
  function Geometry(b: Bridge): (int, int, int, int) {
    (b.startColumn, b.startRow, b.endColumn, b.endRow)
  }

  /** The number of bridges the record stands for. */
  function Multiplicity(b: Bridge): nat {
    if b.doubleBridge then 2 else 1
  }

  predicate Incident(b: Bridge, island: int) {
    b.startIndex == island || b.endIndex == island
  }

  /** `Bridge.CompareTo`; `None` is a null argument. */
  function CompareTo(a: Bridge, other: Option<Bridge>): (r: int)
    ensures -1 <= r <= 1
    ensures r == 0 <==> other.None? || BridgeKey(a) == BridgeKey(other.value)
    ensures r < 0 <==> other.Some? && KeyLt(BridgeKey(a), BridgeKey(other.value))
    ensures r > 0 <==> other.Some? && KeyLt(BridgeKey(other.value), BridgeKey(a))
  {
    if other.None? then 0
    else if a.startIndex < other.value.startIndex then -1
    else if a.startIndex > other.value.startIndex then 1
    else if a.endIndex < other.value.endIndex then -1
    else if a.endIndex > other.value.endIndex then 1
    else 0
  }

  lemma CompareToAntisymmetric(a: Bridge, b: Bridge)
    ensures CompareTo(a, Some(b)) == -CompareTo(b, Some(a))
  {
  }

  /**
    `b` blocks a horizontal segment on `row` from `fromColumn` to `toColumn`:
    it straddles the row strictly, at a column strictly between the ends.
  */
  predicate BlocksRow(b: Bridge, row: int, fromColumn: int, toColumn: int) {
    b.startRow < row < b.endRow && fromColumn < b.startColumn < toColumn
  }

  /** The same for a vertical segment on `column`. */
  predicate BlocksColumn(b: Bridge, column: int, fromRow: int, toRow: int) {
    b.startColumn < column < b.endColumn && fromRow < b.startRow < toRow
  }

  /** Bridge `a` crosses bridge `b` at a right angle. */
  predicate Crosses(a: Bridge, b: Bridge) {
    (a.startRow == a.endRow && BlocksRow(b, a.startRow, a.startColumn, a.endColumn)) ||
    (a.startColumn == a.endColumn && BlocksColumn(b, a.startColumn, a.startRow, a.endRow))
  }

  predicate AxisAligned(b: Bridge) {
    b.startRow == b.endRow || b.startColumn == b.endColumn
  }

  /** For axis-aligned bridges, crossing is symmetric. */
  lemma CrossesSymmetric(a: Bridge, b: Bridge)
    requires AxisAligned(a) && AxisAligned(b)
    ensures Crosses(a, b) <==> Crosses(b, a)
  {
  }
}
