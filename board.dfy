/**
  The board: the field dimensions, the island list and the bridge list, with
  the invariants the engine keeps between operations.
*/
module BoardModel {
  import opened Sorting
  import opened IslandModel
  import opened BridgeModel
  import Lists

  /** `GetDimensions`: columns, rows, requested island count and the longest allowed bridge. */
  datatype Dimensions = Dimensions(columns: int, rows: int, count: int, maxBridgeLength: int)

  datatype Board = Board(dims: Dimensions, islands: seq<Island>, bridges: seq<Bridge>)

  /**
    `SetDimensions = (columns, rows, count)`: the longest allowed bridge is
    derived from the field area and the island count, and is -1 when there
    is no positive count.
  */
  function SetDimensions(columns: int, rows: int, count: int): (r: Dimensions)
    ensures r.columns == columns && r.rows == rows && r.count == count
    ensures count > 0 && columns * rows >= 0 ==> r.maxBridgeLength * count <= columns * rows < (r.maxBridgeLength + 1) * count
    ensures count <= 0 ==> r.maxBridgeLength == -1
  {
    Dimensions(columns, rows, count, if count > 0 then columns * rows / count else -1)
  }

  // ---------------------------------------------------------------- positions

  function Positions(s: seq<Island>): (ps: seq<Key>)
    ensures |ps| == |s|
    ensures forall k :: 0 <= k < |s| ==> ps[k] == IslandKey(s[k])
  {
    seq(|s|, k requires 0 <= k < |s| => IslandKey(s[k]))
  }

  /** `Islands.FindIndex(island => island.Column == column && island.Row == row)`. */
  function FindIsland(s: seq<Island>, column: int, row: int): (r: int)
    ensures r == -1 <==> forall k :: 0 <= k < |s| ==> IslandKey(s[k]) != (column, row)
    ensures r != -1 ==> 0 <= r < |s| && IslandKey(s[r]) == (column, row)
    ensures r != -1 ==> forall k :: 0 <= k < r ==> IslandKey(s[k]) != (column, row)
  {
    Lists.FindIndex(s, (island: Island) => island.column == column && island.row == row)
  }

  /** In a list of distinct positions, the island found at a position is the only one there. */
  lemma FindIslandUnique(s: seq<Island>, k: int)
    requires StrictlySorted(s, IslandKey)
    requires 0 <= k < |s|
    ensures FindIsland(s, s[k].column, s[k].row) == k
  {
  }

  // ----------------------------------------------------------- neighbour links

  datatype Axis = ColumnAxis | RowAxis

  predicate Aligned(ps: seq<Key>, i: int, j: int, axis: Axis)
    requires 0 <= i < |ps| && 0 <= j < |ps|
  {
    if axis == ColumnAxis then ps[i].0 == ps[j].0 else ps[i].1 == ps[j].1
  }

  /** The first index from `j` upwards on the same column (row) as `i`, or -1. */
  function FirstAfter(ps: seq<Key>, i: int, j: int, axis: Axis): (r: int)
    requires 0 <= i < |ps| && 0 <= j <= |ps|
    decreases |ps| - j
    ensures r == -1 <==> forall m :: j <= m < |ps| ==> !Aligned(ps, i, m, axis)
    ensures r != -1 ==> j <= r < |ps| && Aligned(ps, i, r, axis)
    ensures r != -1 ==> forall m :: j <= m < r ==> !Aligned(ps, i, m, axis)
  {
    if j == |ps| then -1
    else if Aligned(ps, i, j, axis) then j
    else FirstAfter(ps, i, j + 1, axis)
  }

  /** The first index from `j` downwards on the same column (row) as `i`, or -1. */
  function LastBefore(ps: seq<Key>, i: int, j: int, axis: Axis): (r: int)
    requires 0 <= i < |ps| && -1 <= j < |ps|
    decreases j + 1
    ensures r == -1 <==> forall m :: 0 <= m <= j ==> !Aligned(ps, i, m, axis)
    ensures r != -1 ==> 0 <= r <= j && Aligned(ps, i, r, axis)
    ensures r != -1 ==> forall m :: r < m <= j ==> !Aligned(ps, i, m, axis)
  {
    if j == -1 then -1
    else if Aligned(ps, i, j, axis) then j
    else LastBefore(ps, i, j - 1, axis)
  }

  /** The link FindNeighbours computes for island `i` in direction `d`. */
  function NeighbourOf(ps: seq<Key>, i: int, d: Direction): int
    requires 0 <= i < |ps|
  {
    match d
    case North => LastBefore(ps, i, i - 1, ColumnAxis)
    case West => LastBefore(ps, i, i - 1, RowAxis)
    case South => FirstAfter(ps, i, i + 1, ColumnAxis)
    case East => FirstAfter(ps, i, i + 1, RowAxis)
  }

  /** Island `k` of a list with positions `ps`, its four links recomputed. */
  function Relink(island: Island, ps: seq<Key>, k: int): (r: Island)
    requires 0 <= k < |ps|
    ensures IslandKey(r) == IslandKey(island) && r.target == island.target && r.current == island.current
  {
    island.(north := NeighbourOf(ps, k, North), east := NeighbourOf(ps, k, East),
            south := NeighbourOf(ps, k, South), west := NeighbourOf(ps, k, West))
  }

  lemma RelinkLinks(island: Island, ps: seq<Key>, k: int, d: Direction)
    requires 0 <= k < |ps|
    ensures Link(Relink(island, ps, k), d) == NeighbourOf(ps, k, d)
  {
  }

  /** The island list with every neighbour link recomputed. */
  function Linked(s: seq<Island>): (r: seq<Island>)
    ensures |r| == |s|
    ensures forall k :: 0 <= k < |s| ==> r[k] == Relink(s[k], Positions(s), k)
  {
    var ps := Positions(s);
    seq(|s|, k requires 0 <= k < |s| => Relink(s[k], ps, k))
  }

  ghost predicate LinksCorrect(s: seq<Island>) {
    forall k, d :: 0 <= k < |s| ==> Link(s[k], d) == NeighbourOf(Positions(s), k, d)
  }

  /** Relinking keeps every position, and the recomputed links are the ones the invariant asks for. */
  lemma LinkedIsLinked(s: seq<Island>)
    ensures Positions(Linked(s)) == Positions(s)
    ensures LinksCorrect(Linked(s))
  {
    var r := Linked(s);
    var ps := Positions(s);
    forall k | 0 <= k < |r| ensures Positions(r)[k] == ps[k] {
      assert IslandKey(r[k]) == IslandKey(s[k]);
    }
    assert Positions(r) == ps;
    forall k, d | 0 <= k < |r| ensures Link(r[k], d) == NeighbourOf(Positions(r), k, d) {
      assert r[k] == Relink(s[k], ps, k);
      RelinkLinks(s[k], ps, k, d);
    }
  }

  /** Every link is -1 or an island index. */
  lemma LinksInRange(s: seq<Island>, k: int, d: Direction)
    requires LinksCorrect(s) && 0 <= k < |s|
    ensures -1 <= Link(s[k], d) < |s|
    ensures Link(s[k], d) != -1 ==> Link(s[k], d) != k
  {
    assert Link(s[k], d) == NeighbourOf(Positions(s), k, d);
  }

  // --------------------------------------------------------------- degrees

  /** The number of bridges at island `m`, double bridges counting twice. */
  function Degree(bs: seq<Bridge>, m: int): nat {
    if bs == [] then 0
    else (if Incident(bs[0], m) then Multiplicity(bs[0]) else 0) + Degree(bs[1..], m)
  }

  lemma {:induction false} DegreeConcat(a: seq<Bridge>, b: seq<Bridge>, m: int)
    ensures Degree(a + b, m) == Degree(a, m) + Degree(b, m)
  {
    if a != [] {
      assert (a + b)[0] == a[0];
      assert (a + b)[1..] == a[1..] + b;
      DegreeConcat(a[1..], b, m);
    } else {
      assert a + b == b;
    }
  }

  function Contribution(b: Bridge, m: int): nat {
    if Incident(b, m) then Multiplicity(b) else 0
  }

  /** The degree after inserting `b` at position `p`. */
  lemma DegreeInsertAt(bs: seq<Bridge>, p: int, b: Bridge, m: int)
    requires 0 <= p <= |bs|
    ensures Degree(bs[..p] + [b] + bs[p..], m) == Degree(bs, m) + Contribution(b, m)
  {
    DegreeConcat(bs[..p] + [b], bs[p..], m);
    DegreeConcat(bs[..p], [b], m);
    DegreeConcat(bs[..p], bs[p..], m);
    assert bs[..p] + bs[p..] == bs;
  }

  /** The degree after replacing the bridge at position `p`. */
  lemma DegreeReplaceAt(bs: seq<Bridge>, p: int, b: Bridge, m: int)
    requires 0 <= p < |bs|
    ensures Degree(bs[p := b], m) == Degree(bs, m) - Contribution(bs[p], m) + Contribution(b, m)
  {
    assert bs == bs[..p] + [bs[p]] + bs[p + 1..];
    assert bs[p := b] == bs[..p] + [b] + bs[p + 1..];
    DegreeInsertAt(bs[..p] + bs[p + 1..], p, bs[p], m);
    DegreeInsertAt(bs[..p] + bs[p + 1..], p, b, m);
    assert (bs[..p] + bs[p + 1..])[..p] == bs[..p];
    assert (bs[..p] + bs[p + 1..])[p..] == bs[p + 1..];
  }

  /** The degree after removing the bridge at position `p`. */
  lemma DegreeRemoveAt(bs: seq<Bridge>, p: int, m: int)
    requires 0 <= p < |bs|
    ensures Degree(bs[..p] + bs[p + 1..], m) == Degree(bs, m) - Contribution(bs[p], m)
  {
    var rest := bs[..p] + bs[p + 1..];
    assert rest[..p] == bs[..p];
    assert rest[p..] == bs[p + 1..];
    assert rest[..p] + [bs[p]] + rest[p..] == bs;
    DegreeInsertAt(rest, p, bs[p], m);
  }

  // ------------------------------------------------------------- invariants

  /** A bridge that joins two islands of the board, horizontally or vertically, within the length limits. */
  predicate BridgeFits(b: Board, br: Bridge) {
    0 <= br.startIndex < br.endIndex < |b.islands| &&
    (br.startColumn, br.startRow) == IslandKey(b.islands[br.startIndex]) &&
    (br.endColumn, br.endRow) == IslandKey(b.islands[br.endIndex]) &&
    ((br.startRow == br.endRow && 2 <= br.endColumn - br.startColumn <= b.dims.maxBridgeLength) ||
     (br.startColumn == br.endColumn && 2 <= br.endRow - br.startRow <= b.dims.maxBridgeLength))
  }

  ghost predicate BridgesFit(b: Board) {
    forall k :: 0 <= k < |b.bridges| ==> BridgeFits(b, b.bridges[k])
  }

  ghost predicate NoCrossings(bs: seq<Bridge>) {
    forall i, j :: 0 <= i < |bs| && 0 <= j < |bs| ==> !Crosses(bs[i], bs[j])
  }

  ghost predicate CurrentsMatch(b: Board) {
    forall m :: 0 <= m < |b.islands| ==> b.islands[m].current == Degree(b.bridges, m)
  }

  /**
    The board invariant: islands strictly ascending by (column, row) with
    correct neighbour links; bridges join two islands in index order with the
    geometry of those islands, are strictly ascending by (startIndex,
    endIndex), never cross, and every island's `current` is the number of
    bridges at it.
  */
  ghost predicate WellFormed(b: Board) {
    StrictlySorted(b.islands, IslandKey) &&
    LinksCorrect(b.islands) &&
    BridgesFit(b) &&
    StrictlySorted(b.bridges, BridgeKey) &&
    NoCrossings(b.bridges) &&
    CurrentsMatch(b)
  }

  /** The deficit of an island on a well-formed board is its target minus the bridges at it. */
  lemma DeficitCountsBridges(b: Board, m: int)
    requires WellFormed(b) && 0 <= m < |b.islands|
    ensures UnderTarget(b.islands[m]) == b.islands[m].target - Degree(b.bridges, m)
  {
  }

  /** On a strictly ascending list, equal keys mean equal indices. */
  lemma KeyIdentifies<T>(s: seq<T>, key: T -> Key, i: int, j: int)
    requires StrictlySorted(s, key)
    requires 0 <= i < |s| && 0 <= j < |s| && key(s[i]) == key(s[j])
    ensures i == j
  {
  }

  /** Two bridges with the same geometry on a well-formed board are the same record. */
  lemma GeometryIdentifiesBridge(b: Board, p: int, q: int)
    requires WellFormed(b)
    requires 0 <= p < |b.bridges| && 0 <= q < |b.bridges|
    requires Geometry(b.bridges[p]) == Geometry(b.bridges[q])
    ensures p == q
  {
    var bp, bq := b.bridges[p], b.bridges[q];
    assert BridgeFits(b, bp) && BridgeFits(b, bq);
    KeyIdentifies(b.islands, IslandKey, bp.startIndex, bq.startIndex);
    KeyIdentifies(b.islands, IslandKey, bp.endIndex, bq.endIndex);
    KeyIdentifies(b.bridges, BridgeKey, p, q);
  }
}
