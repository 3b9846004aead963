/**
  The one-step assist `NextBridge`: per-direction potentials, the threshold
  rules that make a direction forced, and the first forced move in island
  order.
*/
module Assist {
  import opened Wrappers
  import opened IslandModel
  import opened BoardModel
  import opened Legality
  import opened Mutation
  import opened Status

  /**
    The potential of direction `d` at island `i`: 2 when a bridge to the
    neighbour can be created and the neighbour misses more than one, 1 when it
    can be created and the neighbour misses exactly one or when the existing
    single bridge can be doubled and the neighbour misses some, else 0.
  */
  function Potential(b: Board, i: int, d: Direction): (r: nat)
    requires LinksValid(b.islands) && 0 <= i < |b.islands|
    ensures r <= 2
  {
    var n := Link(b.islands[i], d);
    var info := BridgeInfo(b, i, n);
    if info.kind == OK && UnderTarget(b.islands[n]) > 1 then 2
    else if info.kind == OK && UnderTarget(b.islands[n]) == 1 then 1
    else if info.kind == Single && UnderTarget(b.islands[n]) > 0 then 1
    else 0
  }

  /** A direction has potential only towards a neighbour that misses bridges and can take one more bridge from `i`. */
  lemma PotentialMeaning(b: Board, i: int, d: Direction)
    requires LinksValid(b.islands) && 0 <= i < |b.islands|
    ensures Potential(b, i, d) > 0 ==> SettableLink(b, i, Link(b.islands[i], d)) && UnderTarget(b.islands[Link(b.islands[i], d)]) > 0
    ensures Potential(b, i, d) == 2 ==> BridgeInfo(b, i, Link(b.islands[i], d)).kind == OK
  {
  }

  /** `Math.Ceiling(d / 2.0)` on an integer deficit. */
  function CeilHalf(d: int): (r: int)
    ensures 2 * r >= d && 2 * r < d + 2
  {
    (d + 1) / 2
  }

  function Potentials(b: Board, i: int): (p: seq<nat>)
    requires LinksValid(b.islands) && 0 <= i < |b.islands|
  {
    [Potential(b, i, North), Potential(b, i, East), Potential(b, i, South), Potential(b, i, West)]
  }

  function Sum(p: seq<nat>): nat {
    if p == [] then 0 else p[0] + Sum(p[1..])
  }

  function CountPositive(p: seq<nat>): nat {
    if p == [] then 0 else (if p[0] > 0 then 1 else 0) + CountPositive(p[1..])
  }

  /**
    The potential a direction must reach to be forced: 1 when the available
    potential equals the deficit or when the number of open directions is
    `ceil(deficit / 2)`, 2 when the potential exceeds the deficit by one,
    and otherwise 3, which no direction reaches.
  */
  function Required(b: Board, i: int): (r: int)
    requires LinksValid(b.islands) && 0 <= i < |b.islands|
    ensures 1 <= r <= 3
  {
    var p := Potentials(b, i);
    var availablePotential := Sum(p);
    var availableNeighbours := CountPositive(p);
    var deficit := UnderTarget(b.islands[i]);
    if availablePotential - deficit == 0 then 1
    else if availableNeighbours == CeilHalf(deficit) then 1
    else if availablePotential - deficit == 1 then 2
    else 3
  }

  /** The position of a direction in the order North, East, South, West. */
  function Rank(d: Direction): nat {
    match d
    case North => 0
    case East => 1
    case South => 2
    case West => 3
  }

  /** The first direction, in the order North, East, South, West, whose potential in `p` meets `required`. */
  function FirstDirection(p: seq<nat>, required: int): (r: Option<Direction>)
    requires |p| == 4
    ensures r.Some? ==> p[Rank(r.value)] >= required
    ensures r.Some? ==> forall k :: 0 <= k < Rank(r.value) ==> p[k] < required
    ensures r.None? ==> forall k :: 0 <= k < 4 ==> p[k] < required
  {
    if p[0] >= required then Some(North)
    else if p[1] >= required then Some(East)
    else if p[2] >= required then Some(South)
    else if p[3] >= required then Some(West)
    else None
  }

  /** The direction `NextBridge` picks at island `i`, if any. */
  function MoveAt(b: Board, i: int): Option<Direction>
    requires LinksValid(b.islands) && 0 <= i < |b.islands|
  {
    FirstDirection(Potentials(b, i), Required(b, i))
  }

  lemma PotentialsByRank(b: Board, i: int)
    requires LinksValid(b.islands) && 0 <= i < |b.islands|
    ensures forall d :: Potential(b, i, d) == Potentials(b, i)[Rank(d)]
  {
    forall d ensures Potential(b, i, d) == Potentials(b, i)[Rank(d)] {
      match d
      case North =>
      case East =>
      case South =>
      case West =>
    }
  }

  /** What `NextBridge` finds at each island: a direction when the island still misses bridges and one is forced. */
  function Choices(b: Board): (cs: seq<Option<Direction>>)
    requires LinksValid(b.islands)
    ensures |cs| == |b.islands|
  {
    seq(|b.islands|, k requires 0 <= k < |b.islands| =>
      if UnderTarget(b.islands[k]) != 0 then MoveAt(b, k) else None)
  }

  /** The scan of `NextBridge` from island `from` on: the first island with a choice, and that choice. */
  function FirstChoice(cs: seq<Option<Direction>>, from: nat): (r: Option<(int, Direction)>)
    decreases |cs| - from
    ensures r.Some? ==> from <= r.value.0 < |cs| && cs[r.value.0] == Some(r.value.1)
    ensures forall k :: from <= k < |cs| && (r.None? || k < r.value.0) ==> cs[k].None?
  {
    if from >= |cs| then None
    else if cs[from].Some? then Some((from, cs[from].value))
    else FirstChoice(cs, from + 1)
  }

  /** The move `NextBridge` makes: the first island, in list order, with a forced direction. */
  function NextMove(b: Board): Option<(int, Direction)>
    requires LinksValid(b.islands)
  {
    FirstChoice(Choices(b), 0)
  }

  /** The neighbour the move `(i, d)` adds a bridge to. */
  function MoveTarget(b: Board, move: (int, Direction)): int
    requires LinksValid(b.islands) && 0 <= move.0 < |b.islands|
  {
    Link(b.islands[move.0], move.1)
  }

  /** Every move `NextBridge` makes is one that `CanSetAnyBridge` counts: so a move exists only while a bridge can be set. */
  lemma MoveIsSettable(b: Board)
    requires LinksValid(b.islands) && NextMove(b).Some?
    ensures Settable(b, NextMove(b).value.0, NextMove(b).value.1)
    ensures UnderTarget(b.islands[MoveTarget(b, NextMove(b).value)]) > 0
    ensures BridgeInfo(b, NextMove(b).value.0, MoveTarget(b, NextMove(b).value)).kind in {Single, OK}
    ensures CanSetAnyBridge(b)
  {
    var move := NextMove(b).value;
    var i, d := move.0, move.1;
    assert Choices(b)[i] == Some(d);
    assert MoveAt(b, i) == Some(d);
    PotentialsByRank(b, i);
    assert Potential(b, i, d) >= 1;
    PotentialMeaning(b, i, d);
    assert Settable(b, i, d);
  }

  /** No island misses a negative number of bridges. */
  predicate WithinTargets(s: seq<Island>) {
    forall k :: 0 <= k < |s| ==> UnderTarget(s[k]) >= 0
  }

  /**
    When no island has more bridges than its target, the move `NextBridge`
    makes keeps it that way: both islands it touches missed at least one
    bridge and get exactly one more.
  */
  lemma MoveStaysWithinTargets(b: Board)
    requires WellFormed(b) && WithinTargets(b.islands)
    requires LinksValid(b.islands) && NextMove(b).Some?
    ensures var move := NextMove(b).value;
      WithinTargets(Added(b, move.0, MoveTarget(b, move)).islands)
  {
    var move := NextMove(b).value;
    var i, n := move.0, MoveTarget(b, move);
    MoveIsSettable(b);
    LinksInRange(b.islands, i, move.1);
    AddedCounts(b, i, n);
    AddableAreDistinct(b, i, n);
    BumpWithinTargets(b.islands, i, n);
  }

  /** Adding one bridge between two different islands that both miss bridges keeps every count within its target. */
  lemma BumpWithinTargets(s: seq<Island>, i: int, j: int)
    requires WithinTargets(s) && 0 <= i < |s| && 0 <= j < |s| && i != j
    requires UnderTarget(s[i]) > 0 && UnderTarget(s[j]) > 0
    ensures WithinTargets(BumpBoth(s, i, j, 1))
  {
  }
}
