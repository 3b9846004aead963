/**
  What the mutators `NewBridge`, `AddBridge`, `RemoveBridge`, `NewIsland` and
  `RemoveAllBridges` do to a board, as functions on board values, with the
  invariants they keep and the inverse relation between adding and removing.
*/
module Mutation {
  import opened Wrappers
  import opened Sorting
  import opened IslandModel
  import opened BridgeModel
  import opened BoardModel
  import opened Legality
  import Splices

  // ------------------------------------------------------------ island counts

  /** Island `m` with its `current` changed by `delta` (`Current++`, `Current--`, `Current += 2`). */
  function Bump(s: seq<Island>, m: int, delta: int): (r: seq<Island>)
    requires 0 <= m < |s|
    ensures |r| == |s|
  {
    s[m := s[m].(current := s[m].current + delta)]
  }

  /** `t` differs from `s` at most in the `current` counts. */
  predicate SameButCounts(s: seq<Island>, t: seq<Island>) {
    |t| == |s| && forall k :: 0 <= k < |s| ==> t[k] == s[k].(current := t[k].current)
  }

  /** Both ends of a bridge change their counts by `delta`. */
  function BumpBoth(s: seq<Island>, i: int, j: int, delta: int): (r: seq<Island>)
    requires 0 <= i < |s| && 0 <= j < |s|
    ensures SameButCounts(s, r)
    ensures forall m :: 0 <= m < |s| ==>
      r[m].current == s[m].current + (if m == i then delta else 0) + (if m == j then delta else 0)
  {
    Bump(Bump(s, i, delta), j, delta)
  }

  /** Changing counts only keeps positions, order and links. */
  lemma SameButCountsKeeps(s: seq<Island>, t: seq<Island>)
    requires SameButCounts(s, t)
    ensures Positions(t) == Positions(s)
    ensures StrictlySorted(s, IslandKey) ==> StrictlySorted(t, IslandKey)
    ensures LinksCorrect(s) ==> LinksCorrect(t)
  {
    assert forall k :: 0 <= k < |s| ==> IslandKey(t[k]) == IslandKey(s[k]);
    assert Positions(t) == Positions(s);
    assert forall k, d :: 0 <= k < |s| ==> Link(t[k], d) == Link(s[k], d);
  }

  /** Whether a bridge fits depends only on the dimensions and the island positions. */
  lemma FitsOnSamePositions(b: Board, nb: Board)
    requires nb.dims == b.dims && nb.bridges == b.bridges
    requires Positions(nb.islands) == Positions(b.islands)
    ensures BridgesFit(nb) <==> BridgesFit(b)
  {
    forall m | 0 <= m < |b.islands| ensures IslandKey(nb.islands[m]) == IslandKey(b.islands[m]) {
      assert Positions(nb.islands)[m] == Positions(b.islands)[m];
    }
    assert forall br :: BridgeFits(nb, br) <==> BridgeFits(b, br);
  }

  // ----------------------------------------------------------- bridge lists

  lemma InsertedFit(b: Board, p: int, br: Bridge)
    requires BridgesFit(b) && BridgeFits(b, br) && 0 <= p <= |b.bridges|
    ensures BridgesFit(b.(bridges := b.bridges[..p] + [br] + b.bridges[p..]))
  {
    var nb := b.(bridges := b.bridges[..p] + [br] + b.bridges[p..]);
    forall k | 0 <= k < |nb.bridges| ensures BridgeFits(nb, nb.bridges[k]) {
      if k < p {
        assert nb.bridges[k] == b.bridges[k] && BridgeFits(b, b.bridges[k]);
      } else if k > p {
        assert nb.bridges[k] == b.bridges[k - 1] && BridgeFits(b, b.bridges[k - 1]);
      }
    }
  }

  lemma InsertedNoCrossings(bs: seq<Bridge>, p: int, br: Bridge)
    requires NoCrossings(bs) && 0 <= p <= |bs|
    requires forall k :: 0 <= k < |bs| ==> !Crosses(br, bs[k]) && !Crosses(bs[k], br)
    ensures NoCrossings(bs[..p] + [br] + bs[p..])
  {
    var t := bs[..p] + [br] + bs[p..];
    assert forall u :: 0 <= u < |t| && u != p ==> t[u] == bs[if u < p then u else u - 1];
  }

  lemma RemovedFit(b: Board, p: int)
    requires BridgesFit(b) && 0 <= p < |b.bridges|
    ensures BridgesFit(b.(bridges := b.bridges[..p] + b.bridges[p + 1..]))
  {
    var nb := b.(bridges := b.bridges[..p] + b.bridges[p + 1..]);
    forall k | 0 <= k < |nb.bridges| ensures BridgeFits(nb, nb.bridges[k]) {
      var q := if k < p then k else k + 1;
      assert nb.bridges[k] == b.bridges[q] && BridgeFits(b, b.bridges[q]);
    }
  }

  lemma RemovedOrdered(bs: seq<Bridge>, p: int)
    requires 0 <= p < |bs|
    ensures StrictlySorted(bs, BridgeKey) ==> StrictlySorted(bs[..p] + bs[p + 1..], BridgeKey)
    ensures NoCrossings(bs) ==> NoCrossings(bs[..p] + bs[p + 1..])
  {
    var t := bs[..p] + bs[p + 1..];
    assert forall u :: 0 <= u < |t| ==> t[u] == bs[if u < p then u else u + 1];
  }

  /** `t` differs from `bs` at most in the `doubleBridge` flags. */
  predicate SameShapes(bs: seq<Bridge>, t: seq<Bridge>) {
    |t| == |bs| && forall k :: 0 <= k < |bs| ==> t[k] == bs[k].(doubleBridge := t[k].doubleBridge)
  }

  lemma SameShapesKeep(b: Board, t: seq<Bridge>)
    requires SameShapes(b.bridges, t)
    ensures BridgesFit(b) ==> BridgesFit(b.(bridges := t))
    ensures StrictlySorted(b.bridges, BridgeKey) ==> StrictlySorted(t, BridgeKey)
    ensures NoCrossings(b.bridges) ==> NoCrossings(t)
  {
    assert forall k :: 0 <= k < |t| ==> BridgeKey(t[k]) == BridgeKey(b.bridges[k]);
    assert forall k :: 0 <= k < |t| ==> BridgeFits(b, t[k]) == BridgeFits(b, b.bridges[k]);
    assert forall u, v :: 0 <= u < |t| && 0 <= v < |t| ==> Crosses(t[u], t[v]) == Crosses(b.bridges[u], b.bridges[v]);
  }

  // -------------------------------------------------------------- NewBridge

  /** The bridge record `NewBridge(i, j, doubleBridge)` creates. */
  function NewBridgeRecord(b: Board, i: int, j: int, doubleBridge: bool): Bridge
    requires 0 <= i < |b.islands| && 0 <= j < |b.islands|
  {
    var lo, hi := Min(i, j), Max(i, j);
    Bridge(lo, hi, b.islands[lo].column, b.islands[lo].row, b.islands[hi].column, b.islands[hi].row, doubleBridge)
  }

  /** `NewBridge(i, j, doubleBridge)`: add the record, sort the bridges, raise both counts. */
  function WithNewBridge(b: Board, i: int, j: int, doubleBridge: bool): Board
    requires 0 <= i < |b.islands| && 0 <= j < |b.islands|
  {
    b.(bridges := Sort(b.bridges + [NewBridgeRecord(b, i, j, doubleBridge)], BridgeKey),
       islands := BumpBoth(b.islands, i, j, if doubleBridge then 2 else 1))
  }

  /** `NewBridge` keeps every bridge there was and adds its own record. */
  lemma NewBridgeKeepsBridges(b: Board, i: int, j: int, doubleBridge: bool)
    requires 0 <= i < |b.islands| && 0 <= j < |b.islands|
    ensures var nb := WithNewBridge(b, i, j, doubleBridge);
      && (forall q :: 0 <= q < |b.bridges| ==> b.bridges[q] in nb.bridges)
      && NewBridgeRecord(b, i, j, doubleBridge) in nb.bridges
      && |nb.islands| == |b.islands|
  {
    var nb := WithNewBridge(b, i, j, doubleBridge);
    var all := b.bridges + [NewBridgeRecord(b, i, j, doubleBridge)];
    assert multiset(nb.bridges) == multiset(all);
    forall q | 0 <= q < |b.bridges| ensures b.bridges[q] in nb.bridges {
      assert all[q] == b.bridges[q];
      assert b.bridges[q] in multiset(all);
    }
    assert all[|b.bridges|] in multiset(all);
  }

  /** `BridgeInfo(i, j)` classifies the pair of islands as creatable. */
  predicate CanCreate(b: Board, i: int, j: int) {
    0 <= i < |b.islands| && 0 <= j < |b.islands| && BridgeInfo(b, i, j).kind == OK
  }

  /** A creatable pair: a fitting record that crosses nothing and that no bridge already joins. */
  lemma NewRecordFits(b: Board, i: int, j: int, doubleBridge: bool)
    requires WellFormed(b) && CanCreate(b, i, j)
    ensures var br := NewBridgeRecord(b, i, j, doubleBridge);
      && i != j && BridgeFits(b, br)
      && (forall k :: 0 <= k < |b.bridges| ==> !Crosses(br, b.bridges[k]) && !Crosses(b.bridges[k], br))
      && (forall k :: 0 <= k < |b.bridges| ==> BridgeKey(b.bridges[k]) != BridgeKey(br))
  {
    var br := NewBridgeRecord(b, i, j, doubleBridge);
    BridgeInfoOnBoard(b, i, j);
    assert Geometry(br) == SegmentOf(b, i, j);
    forall k | 0 <= k < |b.bridges|
      ensures !Crosses(br, b.bridges[k]) && !Crosses(b.bridges[k], br)
    {
      assert BridgeFits(b, b.bridges[k]);
      CrossesSymmetric(br, b.bridges[k]);
    }
  }

  /** Sorting after appending a record with a new key inserts it at its sorted place. */
  lemma NewBridgePlacement(bs: seq<Bridge>, br: Bridge)
    requires StrictlySorted(bs, BridgeKey)
    requires forall k :: 0 <= k < |bs| ==> BridgeKey(bs[k]) != BridgeKey(br)
    ensures var p := InsertPos(bs, br, BridgeKey);
      && Sort(bs + [br], BridgeKey) == bs[..p] + [br] + bs[p..]
      && StrictlySorted(Sort(bs + [br], BridgeKey), BridgeKey)
  {
    AppendThenSort(bs, br, BridgeKey);
    InsertStrictlySorted(bs, br, BridgeKey);
  }

  /** The bridge list after `NewBridge` on a creatable pair: the record at its sorted place, all fitting, none crossing. */
  lemma NewBridgeBridges(b: Board, i: int, j: int, doubleBridge: bool)
    requires WellFormed(b) && CanCreate(b, i, j)
    ensures var br := NewBridgeRecord(b, i, j, doubleBridge);
            var p := InsertPos(b.bridges, br, BridgeKey);
            var nb := WithNewBridge(b, i, j, doubleBridge);
      && nb.bridges == b.bridges[..p] + [br] + b.bridges[p..]
      && BridgesFit(nb) && StrictlySorted(nb.bridges, BridgeKey) && NoCrossings(nb.bridges)
  {
    var br := NewBridgeRecord(b, i, j, doubleBridge);
    var p := InsertPos(b.bridges, br, BridgeKey);
    var bs := b.bridges[..p] + [br] + b.bridges[p..];
    var nb := WithNewBridge(b, i, j, doubleBridge);
    NewRecordFits(b, i, j, doubleBridge);
    NewBridgePlacement(b.bridges, br);
    SameButCountsKeeps(b.islands, nb.islands);
    InsertedFit(b, p, br);
    FitsOnSamePositions(b.(bridges := bs), nb);
    InsertedNoCrossings(b.bridges, p, br);
  }

  /** After `NewBridge` every count still equals the number of bridges at the island. */
  lemma NewBridgeCounts(b: Board, i: int, j: int, doubleBridge: bool)
    requires CurrentsMatch(b) && 0 <= i < |b.islands| && 0 <= j < |b.islands| && i != j
    requires var br := NewBridgeRecord(b, i, j, doubleBridge);
      WithNewBridge(b, i, j, doubleBridge).bridges ==
        b.bridges[..InsertPos(b.bridges, br, BridgeKey)] + [br] + b.bridges[InsertPos(b.bridges, br, BridgeKey)..]
    ensures CurrentsMatch(WithNewBridge(b, i, j, doubleBridge))
  {
    var br := NewBridgeRecord(b, i, j, doubleBridge);
    var p := InsertPos(b.bridges, br, BridgeKey);
    var nb := WithNewBridge(b, i, j, doubleBridge);
    forall m | 0 <= m < |nb.islands| ensures nb.islands[m].current == Degree(nb.bridges, m) {
      DegreeInsertAt(b.bridges, p, br, m);
    }
  }

  /** `NewBridge` on a creatable pair keeps the board invariant. */
  lemma NewBridgeKeepsWellFormed(b: Board, i: int, j: int, doubleBridge: bool)
    requires WellFormed(b) && CanCreate(b, i, j)
    ensures WellFormed(WithNewBridge(b, i, j, doubleBridge))
  {
    var nb := WithNewBridge(b, i, j, doubleBridge);
    NewRecordFits(b, i, j, doubleBridge);
    NewBridgeBridges(b, i, j, doubleBridge);
    NewBridgeCounts(b, i, j, doubleBridge);
    SameButCountsKeeps(b.islands, nb.islands);
  }

  // --------------------------------------------------- AddBridge, RemoveBridge

  /** `AddBridge(i, j)`: double an existing single bridge, create a new single one, or do nothing. */
  function Added(b: Board, i: int, j: int): Board
    requires IndexOrNone(b, i) && IndexOrNone(b, j)
  {
    var info := BridgeInfo(b, i, j);
    if info.kind == Single then
      b.(bridges := b.bridges[info.index := b.bridges[info.index].(doubleBridge := true)],
         islands := BumpBoth(b.islands, i, j, 1))
    else if info.kind == OK then WithNewBridge(b, i, j, false)
    else b
  }

  /** `RemoveBridge(i, j)`: make a double bridge single, delete a single one, or do nothing. */
  function Removed(b: Board, i: int, j: int): Board
    requires IndexOrNone(b, i) && IndexOrNone(b, j)
  {
    var info := BridgeInfo(b, i, j);
    if info.index != -1 then
      var bridges :=
        if info.kind == Double then b.bridges[info.index := b.bridges[info.index].(doubleBridge := false)]
        else b.bridges[..info.index] + b.bridges[info.index + 1..];
      b.(bridges := bridges, islands := BumpBoth(b.islands, i, j, -1))
    else b
  }

  /** `AddBridge` that acts raises both counts by one; one that does not act changes nothing. */
  lemma AddedCounts(b: Board, i: int, j: int)
    requires 0 <= i < |b.islands| && 0 <= j < |b.islands|
    ensures BridgeInfo(b, i, j).kind in {Single, OK} ==> Added(b, i, j).islands == BumpBoth(b.islands, i, j, 1)
    ensures BridgeInfo(b, i, j).kind !in {Single, OK} ==> Added(b, i, j) == b
  {
  }

  /** On a well-formed board, the two ends of a bridge `AddBridge` can set are different islands. */
  lemma AddableAreDistinct(b: Board, i: int, j: int)
    requires WellFormed(b) && 0 <= i < |b.islands| && 0 <= j < |b.islands|
    requires BridgeInfo(b, i, j).kind in {Single, OK}
    ensures i != j
  {
    BridgeInfoOnBoard(b, i, j);
    if BridgeInfo(b, i, j).kind == Single {
      JoinedAreDistinct(b, i, j, BridgeInfo(b, i, j).index);
    }
  }

  /** On a well-formed board, `BridgeInfo` of a joined pair names the joining bridge. */
  lemma InfoOfJoined(b: Board, i: int, j: int, p: int)
    requires WellFormed(b)
    requires 0 <= i < |b.islands| && 0 <= j < |b.islands| && 0 <= p < |b.bridges|
    requires Joins(b.bridges[p], i, j)
    ensures BridgeInfo(b, i, j) == Info(p, if b.bridges[p].doubleBridge then Double else Single)
  {
    BridgeInfoOnBoard(b, i, j);
    var r := BridgeInfo(b, i, j);
    KeyIdentifies(b.bridges, BridgeKey, r.index, p);
  }

  /** A bridge of a well-formed board joins two different islands. */
  lemma JoinedAreDistinct(b: Board, i: int, j: int, p: int)
    requires WellFormed(b) && 0 <= p < |b.bridges| && Joins(b.bridges[p], i, j)
    ensures i != j
  {
    assert BridgeFits(b, b.bridges[p]);
  }

  /** Changing only the flag of one bridge keeps the invariant when both counts move with it. */
  lemma FlagChangeKeepsWellFormed(b: Board, i: int, j: int, p: int, flag: bool)
    requires WellFormed(b)
    requires 0 <= i < |b.islands| && 0 <= j < |b.islands| && 0 <= p < |b.bridges|
    requires Joins(b.bridges[p], i, j)
    requires b.bridges[p].doubleBridge != flag
    ensures WellFormed(b.(bridges := b.bridges[p := b.bridges[p].(doubleBridge := flag)],
                          islands := BumpBoth(b.islands, i, j, if flag then 1 else -1)))
  {
    var t := b.bridges[p := b.bridges[p].(doubleBridge := flag)];
    var nb := b.(bridges := t, islands := BumpBoth(b.islands, i, j, if flag then 1 else -1));
    JoinedAreDistinct(b, i, j, p);
    SameButCountsKeeps(b.islands, nb.islands);
    SameShapesKeep(b, t);
    FitsOnSamePositions(b.(bridges := t), nb);
    forall m | 0 <= m < |nb.islands| ensures nb.islands[m].current == Degree(t, m) {
      DegreeReplaceAt(b.bridges, p, t[p], m);
    }
  }

  /** Deleting one single bridge keeps the invariant when both counts drop with it. */
  lemma DeleteKeepsWellFormed(b: Board, i: int, j: int, p: int)
    requires WellFormed(b)
    requires 0 <= i < |b.islands| && 0 <= j < |b.islands| && 0 <= p < |b.bridges|
    requires Joins(b.bridges[p], i, j) && !b.bridges[p].doubleBridge
    ensures WellFormed(b.(bridges := b.bridges[..p] + b.bridges[p + 1..],
                          islands := BumpBoth(b.islands, i, j, -1)))
  {
    var t := b.bridges[..p] + b.bridges[p + 1..];
    var nb := b.(bridges := t, islands := BumpBoth(b.islands, i, j, -1));
    JoinedAreDistinct(b, i, j, p);
    SameButCountsKeeps(b.islands, nb.islands);
    RemovedFit(b, p);
    RemovedOrdered(b.bridges, p);
    FitsOnSamePositions(b.(bridges := t), nb);
    forall m | 0 <= m < |nb.islands| ensures nb.islands[m].current == Degree(t, m) {
      DegreeRemoveAt(b.bridges, p, m);
    }
  }

  /** `AddBridge` keeps the board invariant. */
  lemma AddKeepsWellFormed(b: Board, i: int, j: int)
    requires WellFormed(b) && IndexOrNone(b, i) && IndexOrNone(b, j)
    ensures WellFormed(Added(b, i, j))
  {
    var info := BridgeInfo(b, i, j);
    if info.kind == Single {
      BridgeInfoOnBoard(b, i, j);
      FlagChangeKeepsWellFormed(b, i, j, info.index, true);
    } else if info.kind == OK {
      NewBridgeKeepsWellFormed(b, i, j, false);
    }
  }

  /** `RemoveBridge` keeps the board invariant. */
  lemma RemoveKeepsWellFormed(b: Board, i: int, j: int)
    requires WellFormed(b) && IndexOrNone(b, i) && IndexOrNone(b, j)
    ensures WellFormed(Removed(b, i, j))
  {
    var info := BridgeInfo(b, i, j);
    if info.index != -1 {
      BridgeInfoOnBoard(b, i, j);
      if info.kind == Double {
        FlagChangeKeepsWellFormed(b, i, j, info.index, false);
      } else {
        DeleteKeepsWellFormed(b, i, j, info.index);
      }
    }
  }

  lemma BumpBothInverse(s: seq<Island>, i: int, j: int, delta: int)
    requires 0 <= i < |s| && 0 <= j < |s|
    ensures BumpBoth(BumpBoth(s, i, j, delta), i, j, -delta) == s
  {
    var t := BumpBoth(BumpBoth(s, i, j, delta), i, j, -delta);
    assert forall k :: 0 <= k < |s| ==> t[k] == s[k];
  }

  /** `RemoveBridge` on a pair joined by the double bridge at `p` makes it single. */
  lemma RemovedDouble(b: Board, i: int, j: int, p: int)
    requires WellFormed(b)
    requires 0 <= i < |b.islands| && 0 <= j < |b.islands| && 0 <= p < |b.bridges|
    requires Joins(b.bridges[p], i, j) && b.bridges[p].doubleBridge
    ensures Removed(b, i, j) ==
      b.(bridges := b.bridges[p := b.bridges[p].(doubleBridge := false)], islands := BumpBoth(b.islands, i, j, -1))
  {
    InfoOfJoined(b, i, j, p);
  }

  /** `AddBridge` on a pair joined by the single bridge at `p` makes it double. */
  lemma AddedSingle(b: Board, i: int, j: int, p: int)
    requires WellFormed(b)
    requires 0 <= i < |b.islands| && 0 <= j < |b.islands| && 0 <= p < |b.bridges|
    requires Joins(b.bridges[p], i, j) && !b.bridges[p].doubleBridge
    ensures Added(b, i, j) ==
      b.(bridges := b.bridges[p := b.bridges[p].(doubleBridge := true)], islands := BumpBoth(b.islands, i, j, 1))
  {
    InfoOfJoined(b, i, j, p);
  }

  lemma DoubleThenRemoveAt(b: Board, i: int, j: int, p: int)
    requires WellFormed(b)
    requires 0 <= i < |b.islands| && 0 <= j < |b.islands| && 0 <= p < |b.bridges|
    requires Joins(b.bridges[p], i, j) && !b.bridges[p].doubleBridge
    ensures Removed(Added(b, i, j), i, j) == b
  {
    var a := b.(bridges := b.bridges[p := b.bridges[p].(doubleBridge := true)], islands := BumpBoth(b.islands, i, j, 1));
    AddedSingle(b, i, j, p);
    FlagChangeKeepsWellFormed(b, i, j, p, true);
    RemovedDouble(a, i, j, p);
    BumpBothInverse(b.islands, i, j, 1);
    assert a.bridges[p := a.bridges[p].(doubleBridge := false)] == b.bridges;
  }

  /** Removing a bridge that `AddBridge` just doubled restores the board. */
  lemma DoubleThenRemove(b: Board, i: int, j: int)
    requires WellFormed(b) && 0 <= i < |b.islands| && 0 <= j < |b.islands|
    requires BridgeInfo(b, i, j).kind == Single
    ensures Removed(Added(b, i, j), i, j) == b
  {
    BridgeInfoOnBoard(b, i, j);
    DoubleThenRemoveAt(b, i, j, BridgeInfo(b, i, j).index);
  }

  /** `RemoveBridge` on a pair joined by the single bridge at `p` deletes that bridge. */
  lemma RemovedSingle(b: Board, i: int, j: int, p: int)
    requires WellFormed(b)
    requires 0 <= i < |b.islands| && 0 <= j < |b.islands| && 0 <= p < |b.bridges|
    requires Joins(b.bridges[p], i, j) && !b.bridges[p].doubleBridge
    ensures Removed(b, i, j) ==
      b.(bridges := b.bridges[..p] + b.bridges[p + 1..], islands := BumpBoth(b.islands, i, j, -1))
  {
    InfoOfJoined(b, i, j, p);
  }

  /** Removing a bridge that `AddBridge` just created restores the board. */
  lemma CreateThenRemove(b: Board, i: int, j: int)
    requires WellFormed(b) && CanCreate(b, i, j)
    ensures Removed(Added(b, i, j), i, j) == b
  {
    var br := NewBridgeRecord(b, i, j, false);
    var p := InsertPos(b.bridges, br, BridgeKey);
    var a := WithNewBridge(b, i, j, false);
    assert Added(b, i, j) == a;
    NewBridgeBridges(b, i, j, false);
    NewBridgeKeepsWellFormed(b, i, j, false);
    Splices.SpliceThenRemove(b.bridges, p, br);
    RemovedSingle(a, i, j, p);
    BumpBothInverse(b.islands, i, j, 1);
  }

  /** Removing what `AddBridge` added restores the board. */
  lemma AddThenRemove(b: Board, i: int, j: int)
    requires WellFormed(b) && IndexOrNone(b, i) && IndexOrNone(b, j)
    requires BridgeInfo(b, i, j).kind in {Single, OK}
    ensures Removed(Added(b, i, j), i, j) == b
  {
    if BridgeInfo(b, i, j).kind == Single {
      DoubleThenRemove(b, i, j);
    } else {
      CreateThenRemove(b, i, j);
    }
  }

  lemma HalveThenAddAt(b: Board, i: int, j: int, p: int)
    requires WellFormed(b)
    requires 0 <= i < |b.islands| && 0 <= j < |b.islands| && 0 <= p < |b.bridges|
    requires Joins(b.bridges[p], i, j) && b.bridges[p].doubleBridge
    ensures Added(Removed(b, i, j), i, j) == b
  {
    var r := b.(bridges := b.bridges[p := b.bridges[p].(doubleBridge := false)], islands := BumpBoth(b.islands, i, j, -1));
    RemovedDouble(b, i, j, p);
    FlagChangeKeepsWellFormed(b, i, j, p, false);
    AddedSingle(r, i, j, p);
    FlagRestored(b, i, j, p);
  }

  /** Clearing the double flag of bridge `p` with both counts, then setting it again with both counts, gives back the board. */
  lemma FlagRestored(b: Board, i: int, j: int, p: int)
    requires 0 <= i < |b.islands| && 0 <= j < |b.islands| && 0 <= p < |b.bridges|
    requires b.bridges[p].doubleBridge
    ensures var r := b.(bridges := b.bridges[p := b.bridges[p].(doubleBridge := false)], islands := BumpBoth(b.islands, i, j, -1));
      r.(bridges := r.bridges[p := r.bridges[p].(doubleBridge := true)], islands := BumpBoth(r.islands, i, j, 1)) == b
  {
    var r := b.(bridges := b.bridges[p := b.bridges[p].(doubleBridge := false)], islands := BumpBoth(b.islands, i, j, -1));
    BumpBothInverse(b.islands, i, j, -1);
    assert r.bridges[p := r.bridges[p].(doubleBridge := true)] == b.bridges;
  }

  /** Doubling a bridge that `RemoveBridge` just made single restores the board. */
  lemma HalveThenAdd(b: Board, i: int, j: int)
    requires WellFormed(b) && 0 <= i < |b.islands| && 0 <= j < |b.islands|
    requires BridgeInfo(b, i, j).kind == Double
    ensures Added(Removed(b, i, j), i, j) == b
  {
    BridgeInfoOnBoard(b, i, j);
    HalveThenAddAt(b, i, j, BridgeInfo(b, i, j).index);
  }

  /** No bridge left after deleting bridge `p` of a strictly ascending list has its key. */
  lemma RestJoinsNothing(bs: seq<Bridge>, p: int)
    requires StrictlySorted(bs, BridgeKey) && 0 <= p < |bs|
    ensures var rest := bs[..p] + bs[p + 1..];
      forall k :: 0 <= k < |rest| ==> BridgeKey(rest[k]) != BridgeKey(bs[p])
  {
    var rest := bs[..p] + bs[p + 1..];
    forall k | 0 <= k < |rest| ensures BridgeKey(rest[k]) != BridgeKey(bs[p]) {
      var q := if k < p then k else k + 1;
      assert rest[k] == bs[q];
    }
  }

  /** No bridge left after deleting bridge `p` of a crossing-free list blocks the segment of `p`. */
  lemma RestBlocksNothing(bs: seq<Bridge>, p: int)
    requires NoCrossings(bs) && 0 <= p < |bs|
    ensures var g, rest := Geometry(bs[p]), bs[..p] + bs[p + 1..];
      forall k :: 0 <= k < |rest| ==>
        (g.1 == g.3 ==> !BlocksRow(rest[k], g.1, g.0, g.2)) &&
        (g.0 == g.2 ==> !BlocksColumn(rest[k], g.0, g.1, g.3))
  {
    var rest := bs[..p] + bs[p + 1..];
    forall k | 0 <= k < |rest| ensures rest[k] == bs[if k < p then k else k + 1] && !Crosses(bs[p], rest[k]) {
      assert !Crosses(bs[p], bs[if k < p then k else k + 1]);
    }
  }

  /** After deleting the only bridge between two islands, the pair is creatable again. */
  lemma DeletedIsCreatable(b: Board, i: int, j: int, p: int)
    requires WellFormed(b)
    requires 0 <= i < |b.islands| && 0 <= j < |b.islands| && 0 <= p < |b.bridges|
    requires Joins(b.bridges[p], i, j) && !b.bridges[p].doubleBridge
    ensures var r := b.(bridges := b.bridges[..p] + b.bridges[p + 1..],
                        islands := BumpBoth(b.islands, i, j, -1));
      CanCreate(r, i, j) && NewBridgeRecord(r, i, j, false) == b.bridges[p]
  {
    var br := b.bridges[p];
    var rest := b.bridges[..p] + b.bridges[p + 1..];
    var r := b.(bridges := rest, islands := BumpBoth(b.islands, i, j, -1));
    assert WellFormed(r) by {
      DeleteKeepsWellFormed(b, i, j, p);
    }
    assert BridgeFits(b, br);
    assert IslandKey(r.islands[i]) == IslandKey(b.islands[i]) && IslandKey(r.islands[j]) == IslandKey(b.islands[j]) by {
      SameButCountsKeeps(b.islands, r.islands);
      assert Positions(r.islands)[i] == Positions(b.islands)[i];
      assert Positions(r.islands)[j] == Positions(b.islands)[j];
    }
    var g := SegmentOf(r, i, j);
    assert Geometry(br) == g;
    assert forall k :: 0 <= k < |rest| ==> !Joins(rest[k], i, j) by {
      RestJoinsNothing(b.bridges, p);
    }
    assert Creatable(rest, r.dims.maxBridgeLength, g) by {
      RestBlocksNothing(b.bridges, p);
    }
    BridgeInfoOnBoard(r, i, j);
    CanonicalIsIndexOrder(r, i, j);
  }

  /** Taking a bridge out of a strictly ascending list and inserting it again puts it back in the same place. */
  lemma ReinsertPosition(bs: seq<Bridge>, p: int)
    requires StrictlySorted(bs, BridgeKey) && 0 <= p < |bs|
    ensures var rest := bs[..p] + bs[p + 1..];
      && StrictlySorted(rest, BridgeKey)
      && (forall k :: 0 <= k < |rest| ==> BridgeKey(rest[k]) != BridgeKey(bs[p]))
      && InsertPos(rest, bs[p], BridgeKey) == p
  {
    var rest := bs[..p] + bs[p + 1..];
    RemovedOrdered(bs, p);
    assert forall k :: 0 <= k < |rest| ==> rest[k] == bs[if k < p then k else k + 1];
    if p < |rest| {
      assert rest[p] == bs[p + 1];
    }
    InsertPosUnique(rest, bs[p], BridgeKey, p);
  }

  /** Creating again the single bridge that `RemoveBridge` just deleted restores the board. */
  lemma DeleteThenAdd(b: Board, i: int, j: int)
    requires WellFormed(b) && 0 <= i < |b.islands| && 0 <= j < |b.islands|
    requires BridgeInfo(b, i, j).kind == Single
    ensures Added(Removed(b, i, j), i, j) == b
  {
    var p := BridgeInfo(b, i, j).index;
    BridgeInfoOnBoard(b, i, j);
    var br := b.bridges[p];
    var rest := b.bridges[..p] + b.bridges[p + 1..];
    var r := b.(bridges := rest, islands := BumpBoth(b.islands, i, j, -1));
    assert Removed(b, i, j) == r;
    DeletedIsCreatable(b, i, j, p);
    assert Added(r, i, j) == WithNewBridge(r, i, j, false);
    ReinsertRestores(b.bridges, p);
    BumpBothInverse(b.islands, i, j, -1);
  }

  /** Taking bridge `p` out of a sorted list and adding it back with the sort of `NewBridge` gives the list back. */
  lemma ReinsertRestores(bs: seq<Bridge>, p: int)
    requires StrictlySorted(bs, BridgeKey) && 0 <= p < |bs|
    ensures Sort(bs[..p] + bs[p + 1..] + [bs[p]], BridgeKey) == bs
  {
    ReinsertPosition(bs, p);
    NewBridgePlacement(bs[..p] + bs[p + 1..], bs[p]);
    Splices.RemoveThenSplice(bs, p);
  }

  /** Adding back what `RemoveBridge` removed restores the board. */
  lemma RemoveThenAdd(b: Board, i: int, j: int)
    requires WellFormed(b) && IndexOrNone(b, i) && IndexOrNone(b, j)
    requires BridgeInfo(b, i, j).kind in {Single, Double}
    ensures Added(Removed(b, i, j), i, j) == b
  {
    if BridgeInfo(b, i, j).kind == Double {
      HalveThenAdd(b, i, j);
    } else {
      DeleteThenAdd(b, i, j);
    }
  }

  // ------------------------------------------------------------ RemoveAllBridges

  /** `RemoveAllBridges`: no bridges, every count back to zero. */
  function Reset(b: Board): (r: Board)
    ensures |r.islands| == |b.islands| && r.bridges == [] && r.dims == b.dims
    ensures forall k :: 0 <= k < |b.islands| ==> r.islands[k] == b.islands[k].(current := 0)
  {
    b.(bridges := [], islands := seq(|b.islands|, k requires 0 <= k < |b.islands| => b.islands[k].(current := 0)))
  }

  lemma ResetKeepsWellFormed(b: Board)
    requires WellFormed(b)
    ensures WellFormed(Reset(b))
  {
    SameButCountsKeeps(b.islands, Reset(b).islands);
  }

  // ------------------------------------------------------------------ NewIsland

  /** Bridge endpoint renumbering after an island was inserted at index `k`. */
  function ShiftIndex(m: int, k: int): int {
    if m >= k then m + 1 else m
  }

  function ShiftBridge(br: Bridge, k: int): Bridge {
    br.(startIndex := ShiftIndex(br.startIndex, k), endIndex := ShiftIndex(br.endIndex, k))
  }

  function ShiftAll(bs: seq<Bridge>, k: int): (r: seq<Bridge>)
    ensures |r| == |bs|
    ensures forall q :: 0 <= q < |bs| ==> r[q] == ShiftBridge(bs[q], k)
  {
    seq(|bs|, q requires 0 <= q < |bs| => ShiftBridge(bs[q], k))
  }

  lemma {:induction false} DegreeShift(bs: seq<Bridge>, k: int, m: int)
    ensures Degree(ShiftAll(bs, k), ShiftIndex(m, k)) == Degree(bs, m)
    ensures Degree(ShiftAll(bs, k), k) == 0
  {
    if bs != [] {
      assert ShiftAll(bs, k)[1..] == ShiftAll(bs[1..], k);
      DegreeShift(bs[1..], k, m);
    }
  }

  /** `NewIsland(column, row)`: add, sort, relink, renumber the bridges. */
  function InsertIsland(b: Board, column: int, row: int): Board {
    var islands := Linked(Sort(b.islands + [MakeIsland(column, row, 0)], IslandKey));
    b.(islands := islands, bridges := ShiftAll(b.bridges, FindIsland(islands, column, row)))
  }

  /** The index the new island gets: the number of islands sorted before it. */
  function NewIslandIndex(s: seq<Island>, column: int, row: int): (k: nat)
    ensures k <= |s|
  {
    InsertPos(s, MakeIsland(column, row, 0), IslandKey)
  }

  lemma SamePositionsSorted(s: seq<Island>, t: seq<Island>)
    requires Positions(s) == Positions(t)
    ensures StrictlySorted(s, IslandKey) <==> StrictlySorted(t, IslandKey)
  {
    assert forall k :: 0 <= k < |s| ==> IslandKey(s[k]) == Positions(s)[k] == IslandKey(t[k]);
  }

  /** Appending a fresh island and sorting puts it at its insertion index. */
  lemma SortedSplice(s: seq<Island>, x: Island)
    requires StrictlySorted(s, IslandKey)
    requires forall k :: 0 <= k < |s| ==> IslandKey(s[k]) != IslandKey(x)
    ensures var k := InsertPos(s, x, IslandKey);
      && Sort(s + [x], IslandKey) == s[..k] + [x] + s[k..]
      && StrictlySorted(s[..k] + [x] + s[k..], IslandKey)
  {
    AppendThenSort(s, x, IslandKey);
    InsertStrictlySorted(s, x, IslandKey);
  }

  /** Relinking changes only the links. */
  lemma LinkedKeepsIslands(u: seq<Island>)
    ensures forall m :: 0 <= m < |u| ==>
      Linked(u)[m].column == u[m].column && Linked(u)[m].row == u[m].row &&
      Linked(u)[m].target == u[m].target && Linked(u)[m].current == u[m].current
  {
  }

  lemma PositionsSplice(s: seq<Island>, k: int, x: Island)
    requires 0 <= k <= |s|
    ensures Positions(s[..k] + [x] + s[k..]) == Positions(s)[..k] + [IslandKey(x)] + Positions(s)[k..]
  {
    var u := s[..k] + [x] + s[k..];
    var ps := Positions(s)[..k] + [IslandKey(x)] + Positions(s)[k..];
    Splices.SpliceIndex(s, k, x);
    Splices.SpliceIndex(Positions(s), k, IslandKey(x));
    forall m | 0 <= m < |u| ensures Positions(u)[m] == ps[m] {
      if m < k {
        assert u[m] == s[m] && ps[m] == Positions(s)[m];
      } else if m > k {
        assert u[m] == s[m - 1] && ps[m] == Positions(s)[m - 1];
      }
    }
  }

  /** Relinking a list into which `x` was put at index `k`: order, links, lookup and positions. */
  lemma LinkedSplice(s: seq<Island>, k: int, x: Island)
    requires 0 <= k <= |s|
    requires StrictlySorted(s[..k] + [x] + s[k..], IslandKey)
    ensures var t := Linked(s[..k] + [x] + s[k..]);
      && |t| == |s| + 1
      && StrictlySorted(t, IslandKey) && LinksCorrect(t)
      && FindIsland(t, x.column, x.row) == k
      && Positions(t) == Positions(s)[..k] + [IslandKey(x)] + Positions(s)[k..]
  {
    var u := s[..k] + [x] + s[k..];
    var t := Linked(u);
    assert LinksCorrect(t) && Positions(t) == Positions(u) by {
      LinkedIsLinked(u);
    }
    assert StrictlySorted(t, IslandKey) by {
      SamePositionsSorted(t, u);
    }
    assert FindIsland(t, x.column, x.row) == k by {
      Splices.SpliceIndex(s, k, x);
      LinkedKeepsIslands(u);
      FindIslandUnique(t, k);
    }
    PositionsSplice(s, k, x);
  }

  /** Relinking a list into which `x` was put at index `k`: where each island went. */
  lemma LinkedSpliceIndices(s: seq<Island>, k: int, x: Island)
    requires 0 <= k <= |s|
    ensures var t := Linked(s[..k] + [x] + s[k..]);
      && |t| == |s| + 1
      && t[k].current == x.current && t[k].target == x.target
      && (forall m :: 0 <= m < |s| ==>
            IslandKey(t[ShiftIndex(m, k)]) == IslandKey(s[m]) &&
            t[ShiftIndex(m, k)].target == s[m].target &&
            t[ShiftIndex(m, k)].current == s[m].current)
  {
    var u := s[..k] + [x] + s[k..];
    var t := Linked(u);
    Splices.SpliceIndex(s, k, x);
    LinkedKeepsIslands(u);
    forall m | 0 <= m < |s|
      ensures IslandKey(t[ShiftIndex(m, k)]) == IslandKey(s[m])
      ensures t[ShiftIndex(m, k)].target == s[m].target && t[ShiftIndex(m, k)].current == s[m].current
    {
      assert u[ShiftIndex(m, k)] == s[m];
    }
  }

  /**
    The island list after `NewIsland` on a free cell: still ascending and
    linked, the new island at its sorted index `k`, every island at or after
    `k` moved up by one with its target and count.
  */
  lemma InsertedIslands(s: seq<Island>, column: int, row: int)
    requires StrictlySorted(s, IslandKey)
    requires FindIsland(s, column, row) == -1
    ensures var t := Linked(Sort(s + [MakeIsland(column, row, 0)], IslandKey));
            var k := NewIslandIndex(s, column, row);
      && |t| == |s| + 1
      && StrictlySorted(t, IslandKey) && LinksCorrect(t)
      && FindIsland(t, column, row) == k
      && Positions(t) == Positions(s)[..k] + [(column, row)] + Positions(s)[k..]
      && t[k].current == 0 && t[k].target == 0
      && (forall m :: 0 <= m < |s| ==>
            IslandKey(t[ShiftIndex(m, k)]) == IslandKey(s[m]) &&
            t[ShiftIndex(m, k)].target == s[m].target &&
            t[ShiftIndex(m, k)].current == s[m].current)
  {
    var x := MakeIsland(column, row, 0);
    var k := NewIslandIndex(s, column, row);
    assert Sort(s + [x], IslandKey) == s[..k] + [x] + s[k..] && StrictlySorted(s[..k] + [x] + s[k..], IslandKey) by {
      SortedSplice(s, x);
    }
    LinkedSplice(s, k, x);
    LinkedSpliceIndices(s, k, x);
  }

  lemma ShiftedFit(b: Board, nb: Board, k: int)
    requires BridgesFit(b) && 0 <= k <= |b.islands|
    requires nb.dims == b.dims && |nb.islands| == |b.islands| + 1
    requires nb.bridges == ShiftAll(b.bridges, k)
    requires forall m :: 0 <= m < |b.islands| ==> IslandKey(nb.islands[ShiftIndex(m, k)]) == IslandKey(b.islands[m])
    ensures BridgesFit(nb)
  {
    forall q | 0 <= q < |nb.bridges| ensures BridgeFits(nb, nb.bridges[q]) {
      assert BridgeFits(b, b.bridges[q]);
    }
  }

  lemma ShiftedOrdered(bs: seq<Bridge>, k: int)
    ensures StrictlySorted(bs, BridgeKey) ==> StrictlySorted(ShiftAll(bs, k), BridgeKey)
    ensures NoCrossings(bs) ==> NoCrossings(ShiftAll(bs, k))
  {
    var t := ShiftAll(bs, k);
    assert forall u, v :: 0 <= u < |bs| && 0 <= v < |bs| ==>
      KeyLt(BridgeKey(bs[u]), BridgeKey(bs[v])) ==> KeyLt(BridgeKey(t[u]), BridgeKey(t[v]));
    assert forall u, v :: 0 <= u < |bs| && 0 <= v < |bs| ==> Crosses(t[u], t[v]) == Crosses(bs[u], bs[v]);
  }

  lemma ShiftedCounts(b: Board, nb: Board, k: int)
    requires CurrentsMatch(b) && 0 <= k <= |b.islands|
    requires |nb.islands| == |b.islands| + 1 && nb.bridges == ShiftAll(b.bridges, k)
    requires nb.islands[k].current == 0
    requires forall m :: 0 <= m < |b.islands| ==> nb.islands[ShiftIndex(m, k)].current == b.islands[m].current
    ensures CurrentsMatch(nb)
  {
    forall m | 0 <= m < |nb.islands| ensures nb.islands[m].current == Degree(nb.bridges, m) {
      if m == k {
        DegreeShift(b.bridges, k, 0);
      } else {
        var old_m := if m < k then m else m - 1;
        assert ShiftIndex(old_m, k) == m;
        DegreeShift(b.bridges, k, old_m);
      }
    }
  }

  /**
    `nb` is `b` with a fresh island put in at index `k`: the islands still
    ascending and linked, every old island moved to its shifted index with its
    position, target and count, and every bridge renumbered.
  */
  ghost predicate InsertedAt(b: Board, nb: Board, k: int) {
    && 0 <= k <= |b.islands|
    && nb.dims == b.dims
    && |nb.islands| == |b.islands| + 1
    && StrictlySorted(nb.islands, IslandKey) && LinksCorrect(nb.islands)
    && nb.islands[k].current == 0 && nb.islands[k].target == 0
    && (forall m :: 0 <= m < |b.islands| ==>
          IslandKey(nb.islands[ShiftIndex(m, k)]) == IslandKey(b.islands[m]) &&
          nb.islands[ShiftIndex(m, k)].target == b.islands[m].target &&
          nb.islands[ShiftIndex(m, k)].current == b.islands[m].current)
    && nb.bridges == ShiftAll(b.bridges, k)
  }

  /**
    `NewIsland` on a free cell puts the island at its sorted index, moves every
    later island up by one with its target and count, and renumbers the
    bridges so that each still joins the same two cells.
  */
  lemma InsertIslandPlacement(b: Board, column: int, row: int)
    requires StrictlySorted(b.islands, IslandKey)
    requires FindIsland(b.islands, column, row) == -1
    ensures var nb := InsertIsland(b, column, row);
            var k := NewIslandIndex(b.islands, column, row);
      && InsertedAt(b, nb, k)
      && FindIsland(nb.islands, column, row) == k
      && Positions(nb.islands) == Positions(b.islands)[..k] + [(column, row)] + Positions(b.islands)[k..]
      && (forall q :: 0 <= q < |b.bridges| ==> Geometry(nb.bridges[q]) == Geometry(b.bridges[q]))
  {
    InsertedIslands(b.islands, column, row);
  }

  lemma InsertedAtKeepsWellFormed(b: Board, nb: Board, k: int)
    requires WellFormed(b) && InsertedAt(b, nb, k)
    ensures WellFormed(nb)
  {
    ShiftedFit(b, nb, k);
    ShiftedOrdered(b.bridges, k);
    ShiftedCounts(b, nb, k);
  }

  /** `NewIsland` on a free cell keeps the board invariant. */
  lemma InsertIslandKeepsWellFormed(b: Board, column: int, row: int)
    requires WellFormed(b)
    requires FindIsland(b.islands, column, row) == -1
    ensures WellFormed(InsertIsland(b, column, row))
  {
    InsertIslandPlacement(b, column, row);
    InsertedAtKeepsWellFormed(b, InsertIsland(b, column, row), NewIslandIndex(b.islands, column, row));
  }
}
