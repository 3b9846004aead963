/**
  The gating of `ProcessClick`: a click on an island cell towards a
  neighbour adds a bridge (left button, both islands still missing bridges)
  or removes one (right button). The cell and the direction are what the
  click resolves to on screen; the pixel geometry is not part of this model.
*/
module Clicks {
  import opened Wrappers
  import opened IslandModel
  import opened BoardModel
  import opened Legality
  import opened Mutation
  import opened Status
  import opened Assist

  /** The mouse button of a click: "left", "right", or any other string. */
  datatype Button = LeftButton | RightButton | OtherButton

  /**
    The island a click on cell (`column`, `row`) starts from and the
    neighbour in the clicked direction; -1 where there is none. `None` is a
    click too close to a diagonal to name a direction.
  */
  function ClickedPair(b: Board, column: int, row: int, direction: Option<Direction>): (r: (int, int))
    requires LinksValid(b.islands)
    ensures r.0 == -1 <==> forall k :: 0 <= k < |b.islands| ==> IslandKey(b.islands[k]) != (column, row)
    ensures r.0 != -1 ==> 0 <= r.0 < |b.islands| && IslandKey(b.islands[r.0]) == (column, row)
    ensures r.1 != -1 ==> r.0 != -1 && direction.Some? && r.1 == Link(b.islands[r.0], direction.value)
    ensures -1 <= r.1 < |b.islands|
  {
    var startIndex := FindIsland(b.islands, column, row);
    if startIndex < 0 || direction.None? then (startIndex, -1)
    else (startIndex, Link(b.islands[startIndex], direction.value))
  }

  /** The board after `ProcessClick`. */
  function Clicked(b: Board, column: int, row: int, direction: Option<Direction>, button: Button): Board
    requires LinksValid(b.islands)
  {
    if |b.islands| == 0 then b
    else
      var (startIndex, endIndex) := ClickedPair(b, column, row, direction);
      if startIndex < 0 || endIndex < 0 then b
      else if button == LeftButton && UnderTarget(b.islands[startIndex]) > 0 && UnderTarget(b.islands[endIndex]) > 0
      then Added(b, startIndex, endIndex)
      else if button == RightButton then Removed(b, startIndex, endIndex)
      else b
  }

  /** Adding or removing a bridge changes the counts only, so the click resolves to the same pair afterwards. */
  lemma SamePairAfterCounts(b: Board, nb: Board, column: int, row: int, direction: Option<Direction>)
    requires LinksValid(b.islands) && SameButCounts(b.islands, nb.islands)
    ensures LinksValid(nb.islands)
    ensures ClickedPair(nb, column, row, direction) == ClickedPair(b, column, row, direction)
  {
    assert forall k :: 0 <= k < |b.islands| ==> IslandKey(nb.islands[k]) == IslandKey(b.islands[k]);
    assert forall k, d :: 0 <= k < |b.islands| ==> Link(nb.islands[k], d) == Link(b.islands[k], d);
    var p, q := ClickedPair(nb, column, row, direction), ClickedPair(b, column, row, direction);
    if p.0 != -1 && q.0 != -1 {
      KeyIdentifiesFirst(b.islands, nb.islands, column, row, p.0, q.0);
    }
  }

  /** `AddBridge` and `RemoveBridge` change island counts and nothing else about the islands. */
  lemma CountsOnly(b: Board, i: int, j: int)
    requires IndexOrNone(b, i) && IndexOrNone(b, j)
    ensures SameButCounts(b.islands, Added(b, i, j).islands)
    ensures SameButCounts(b.islands, Removed(b, i, j).islands)
  {
  }

  /** The first island at a position is found at the same index in two lists with the same positions. */
  lemma KeyIdentifiesFirst(s: seq<Island>, t: seq<Island>, column: int, row: int, i: int, j: int)
    requires SameButCounts(s, t)
    requires i == FindIsland(t, column, row) && j == FindIsland(s, column, row) && i != -1 && j != -1
    ensures i == j
  {
    assert IslandKey(s[i]) == IslandKey(t[i]);
    assert IslandKey(t[j]) == IslandKey(s[j]);
  }

  /** What a left click adds can be the only change it makes: it acts exactly when `AddBridge` does on the clicked pair. */
  lemma LeftClickActs(b: Board, column: int, row: int, direction: Option<Direction>)
    requires WellFormed(b)
    ensures LinksValid(b.islands)
    ensures var (i, j) := ClickedPair(b, column, row, direction);
      Clicked(b, column, row, direction, LeftButton) != b ==>
        && 0 <= i < |b.islands| && 0 <= j < |b.islands| && i != j && direction.Some?
        && UnderTarget(b.islands[i]) > 0 && UnderTarget(b.islands[j]) > 0
        && BridgeInfo(b, i, j).kind in {Single, OK}
        && Clicked(b, column, row, direction, LeftButton) == Added(b, i, j)
  {
    LinksCorrectValid(b.islands);
    var (i, j) := ClickedPair(b, column, row, direction);
    if |b.islands| > 0 && i >= 0 && j >= 0 {
      LinksInRange(b.islands, i, direction.value);
    }
  }

  /**
    A left click never gives an island more bridges than its target: the
    click is refused unless both islands still miss at least one bridge, and
    it adds exactly one to each.
  */
  lemma LeftClickStaysWithinTargets(b: Board, column: int, row: int, direction: Option<Direction>)
    requires WellFormed(b) && WithinTargets(b.islands)
    ensures LinksValid(b.islands)
    ensures WithinTargets(Clicked(b, column, row, direction, LeftButton).islands)
  {
    LeftClickActs(b, column, row, direction);
    var (i, j) := ClickedPair(b, column, row, direction);
    var c := Clicked(b, column, row, direction, LeftButton);
    if c != b {
      assert c.islands == BumpBoth(b.islands, i, j, 1);
    }
  }

  /**
    A left click that changes the board needs a bridge that can be set: on a
    board that is solved or stuck, left clicks do nothing.
  */
  lemma LeftClickNeedsSettable(b: Board, column: int, row: int, direction: Option<Direction>)
    requires WellFormed(b)
    ensures LinksValid(b.islands)
    ensures Clicked(b, column, row, direction, LeftButton) != b ==> CanSetAnyBridge(b)
    ensures StatusOf(b) in {Solved, Stuck} ==> Clicked(b, column, row, direction, LeftButton) == b
  {
    LeftClickActs(b, column, row, direction);
    var (i, j) := ClickedPair(b, column, row, direction);
    if Clicked(b, column, row, direction, LeftButton) != b {
      assert Settable(b, i, direction.value);
    }
    StatusMeaning(b);
  }

  /** A right click on a cell with a neighbour in the clicked direction is `RemoveBridge` on that pair. */
  lemma RightClickRemoves(b: Board, column: int, row: int, direction: Option<Direction>)
    requires LinksValid(b.islands)
    requires ClickedPair(b, column, row, direction).0 >= 0 && ClickedPair(b, column, row, direction).1 >= 0
    ensures var (i, j) := ClickedPair(b, column, row, direction);
      Clicked(b, column, row, direction, RightButton) == Removed(b, i, j)
  {
  }

  /** A right click on the same cell and direction undoes a left click that changed the board. */
  lemma LeftThenRight(b: Board, column: int, row: int, direction: Option<Direction>)
    requires WellFormed(b)
    requires LinksValid(b.islands) && Clicked(b, column, row, direction, LeftButton) != b
    ensures var a := Clicked(b, column, row, direction, LeftButton);
      LinksValid(a.islands) && Clicked(a, column, row, direction, RightButton) == b
  {
    LeftClickActs(b, column, row, direction);
    var (i, j) := ClickedPair(b, column, row, direction);
    var a := Added(b, i, j);
    assert Clicked(b, column, row, direction, LeftButton) == a;
    CountsOnly(b, i, j);
    SamePairAfterCounts(b, a, column, row, direction);
    RightClickRemoves(a, column, row, direction);
    AddThenRemove(b, i, j);
  }

  /**
    A left click on the same cell and direction undoes a right click that
    changed the board, as long as no island had more bridges than its target.
  */
  lemma RightThenLeft(b: Board, column: int, row: int, direction: Option<Direction>)
    requires WellFormed(b) && WithinTargets(b.islands)
    requires LinksValid(b.islands) && Clicked(b, column, row, direction, RightButton) != b
    ensures var r := Clicked(b, column, row, direction, RightButton);
      LinksValid(r.islands) && Clicked(r, column, row, direction, LeftButton) == b
  {
    LinksCorrectValid(b.islands);
    var (i, j) := ClickedPair(b, column, row, direction);
    LinksInRange(b.islands, i, direction.value);
    var r := Removed(b, i, j);
    assert BridgeInfo(b, i, j).index != -1;
    assert r.islands == BumpBoth(b.islands, i, j, -1);
    CountsOnly(b, i, j);
    SamePairAfterCounts(b, r, column, row, direction);
    assert UnderTarget(r.islands[i]) > 0 && UnderTarget(r.islands[j]) > 0;
    RemoveThenAdd(b, i, j);
  }
}
