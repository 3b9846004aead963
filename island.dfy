/**
  An island of the puzzle: a fixed cell, the number of bridges it must end up
  with (`target`), the number it has now (`current`) and the cached indices of
  its nearest neighbour in each direction (-1 when there is none).
*/
module IslandModel {
  import opened Wrappers
  import opened Sorting

  datatype Island = Island(
    column: int, row: int,
    target: int, current: int,
    north: int, east: int, south: int, west: int)

  datatype Direction = North | East | South | West

  /** `new Island(column, row, target)`; the C# default for `target` is 0. */
  function MakeIsland(column: int, row: int, target: int): (r: Island)
    ensures r.column == column && r.row == row && r.target == target
    ensures r.current == 0 && UnderTarget(r) == target
    ensures forall d :: Link(r, d) == -1
  {
    Island(column, row, target, 0, -1, -1, -1, -1)
  }

  /** The deficit: how many bridges the island still misses (negative when it has too many). */
  function UnderTarget(i: Island): int {
    i.target - i.current
  }

  /** The neighbour link in direction `d`. */
  function Link(i: Island, d: Direction): int {
    match d
    case North => i.north
    case East => i.east
    case South => i.south
    case West => i.west
  }

  /** The pair by which islands are sorted. */
  function IslandKey(i: Island): Key {
    (i.column, i.row)
  }

  /** `Island.CompareTo`; `None` is a null argument. */
  function CompareTo(a: Island, other: Option<Island>): (r: int)
    ensures -1 <= r <= 1
    ensures r == 0 <==> other.None? || IslandKey(a) == IslandKey(other.value)
    ensures r < 0 <==> other.Some? && KeyLt(IslandKey(a), IslandKey(other.value))
    ensures r > 0 <==> other.Some? && KeyLt(IslandKey(other.value), IslandKey(a))
  {
    if other.None? then 0
    else if a.column < other.value.column then -1
    else if a.column > other.value.column then 1
    else if a.row < other.value.row then -1
    else if a.row > other.value.row then 1
    else 0
  }

  lemma CompareToAntisymmetric(a: Island, b: Island)
    ensures CompareTo(a, Some(b)) == -CompareTo(b, Some(a))
  {
  }

  lemma CompareToTransitive(a: Island, b: Island, c: Island)
    requires CompareTo(a, Some(b)) < 0 && CompareTo(b, Some(c)) < 0
    ensures CompareTo(a, Some(c)) < 0
  {
  }
}
