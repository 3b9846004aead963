/**
  `GameManager`: the live board (dimensions, island list, bridge list) and the
  status message, with the operations that change them in place. Every
  mutator is specified by the board function of the same operation in
  `Mutation`, and the status by `StatusOf`.
*/
module Game {
  import opened Wrappers
  import opened Sorting
  import opened IslandModel
  import opened BridgeModel
  import opened BoardModel
  import opened Legality
  import opened Mutation
  import opened Status
  import opened Assist
  import opened Engine
  import opened Clicks
  import opened Generator
  import opened Loading

  class GameManager {
    var dims: Dimensions
    var islands: seq<Island>
    var bridges: seq<Bridge>
    var status: GameStatus

    function State(): Board
      reads this
    {
      Board(dims, islands, bridges)
    }

    /** The board invariant holds for the live board. */
    ghost predicate Valid()
      reads this
    {
      WellFormed(State())
    }

    /** The status message is the one `CheckGameStatus` derives from the live board. */
    ghost predicate Synced()
      reads this
    {
      LinksValid(islands) && status == StatusOf(State())
    }

    /** The engine on an existing board; the constructor evaluates its status. */
    constructor(b: Board)
      requires WellFormed(b)
      ensures State() == b
      ensures Valid() && Synced()
    {
      dims := b.dims;
      islands := b.islands;
      bridges := b.bridges;
      status := NoGame;
      new;
      CheckGameStatus();
    }

    // ------------------------------------------------------------ status

    /** `CheckGameStatus`: solved, not solved yet, stuck, or no game. */
    method CheckGameStatus()
      modifies this
      requires Valid()
      ensures State() == old(State())
      ensures Synced()
    {
      LinksCorrectValid(islands);
      if |islands| > 0 {
        FitEndsInRange(State());
        var connected := AllConnected(bridges, |islands|);
        if connected && AllTargetNumber(islands) {
          status := Solved;
        } else if CanSetAnyBridge(State()) {
          status := NotSolvedYet;
        } else {
          status := Stuck;
        }
      } else {
        status := NoGame;
      }
    }

    // ---------------------------------------------------------- neighbours

    /** `FindNeighbours`: sort the islands, then record each island's nearest neighbour in every direction. */
    method FindNeighbours()
      modifies this
      ensures islands == Linked(Sort(old(islands), IslandKey))
      ensures dims == old(dims) && bridges == old(bridges) && status == old(status)
    {
      islands := FindNeighboursOn(islands);
    }

    // ------------------------------------------------------------ mutators

    /** `NewBridge`: add the bridge record, sort the bridges, raise both counts. */
    method NewBridge(startIndex: int, endIndex: int, doubleBridge: bool) returns (bridge: Bridge)
      modifies this
      requires 0 <= startIndex < |islands| && 0 <= endIndex < |islands|
      ensures State() == WithNewBridge(old(State()), startIndex, endIndex, doubleBridge)
      ensures bridge == NewBridgeRecord(old(State()), startIndex, endIndex, doubleBridge)
      ensures status == old(status)
    {
      var next;
      next, bridge := NewBridgeOn(State(), startIndex, endIndex, doubleBridge);
      islands, bridges := next.islands, next.bridges;
    }

    /** `AddBridge`: double a single bridge or create a single one; the status is re-evaluated when the board changed. */
    method AddBridge(startIndex: int, endIndex: int)
      modifies this
      requires Valid() && IndexOrNone(State(), startIndex) && IndexOrNone(State(), endIndex)
      ensures State() == Added(old(State()), startIndex, endIndex)
      ensures Valid()
      ensures BridgeInfo(old(State()), startIndex, endIndex).kind in {Single, OK} ==> Synced()
      ensures BridgeInfo(old(State()), startIndex, endIndex).kind !in {Single, OK} ==> status == old(status)
    {
      ghost var b := State();
      AddKeepsWellFormed(b, startIndex, endIndex);
      var next, changed := AddBridgeOn(State(), startIndex, endIndex);
      if changed {
        islands, bridges := next.islands, next.bridges;
        CheckGameStatus();
      }
    }

    /** `RemoveBridge`: make a double bridge single or delete a single one; the status is re-evaluated when the board changed. */
    method RemoveBridge(startIndex: int, endIndex: int)
      modifies this
      requires Valid() && IndexOrNone(State(), startIndex) && IndexOrNone(State(), endIndex)
      ensures State() == Removed(old(State()), startIndex, endIndex)
      ensures Valid()
      ensures BridgeInfo(old(State()), startIndex, endIndex).index != -1 ==> Synced()
      ensures BridgeInfo(old(State()), startIndex, endIndex).index == -1 ==> status == old(status)
    {
      ghost var b := State();
      RemoveKeepsWellFormed(b, startIndex, endIndex);
      var next, changed := RemoveBridgeOn(State(), startIndex, endIndex);
      if changed {
        islands, bridges := next.islands, next.bridges;
        CheckGameStatus();
      }
    }

    /**
      `NewIsland`: add an island on a free cell, re-sort and relink the
      islands, and renumber the bridge ends at or after its new index. Returns
      the new island as it now stands in the list.
    */
    method NewIsland(column: int, row: int) returns (island: Island)
      modifies this
      requires StrictlySorted(islands, IslandKey) && FindIsland(islands, column, row) == -1
      ensures State() == InsertIsland(old(State()), column, row)
      ensures island == islands[NewIslandIndex(old(islands), column, row)]
      ensures IslandKey(island) == (column, row) && island.target == 0 && island.current == 0
      ensures status == old(status)
    {
      var next;
      next, island := NewIslandOn(State(), column, row);
      islands, bridges := next.islands, next.bridges;
    }

    /** `RemoveAllBridges`: the puzzle back to its start, every count zero. */
    method RemoveAllBridges()
      modifies this
      requires Valid()
      ensures State() == Reset(old(State()))
      ensures Valid() && Synced()
    {
      ghost var b := State();
      ResetKeepsWellFormed(b);
      bridges := [];
      islands := ZeroCounts(islands);
      assert State() == Reset(b);
      CheckGameStatus();
    }

    // ---------------------------------------------------------- the player

    /**
      `ProcessClick` on the island cell (`column`, `row`) towards `direction`:
      a left click adds a bridge when both islands still miss bridges, a right
      click removes one.
    */
    method ProcessClick(column: int, row: int, direction: Option<Direction>, button: Button)
      modifies this
      requires Valid()
      ensures LinksValid(old(islands))
      ensures State() == Clicked(old(State()), column, row, direction, button)
      ensures Valid()
      ensures State() != old(State()) ==> Synced()
      ensures State() == old(State()) ==> status == old(status)
      ensures old(Synced()) ==> Synced()
    {
      LinksCorrectValid(islands);
      if |islands| > 0 {
        var (startIndex, endIndex) := ClickedPair(State(), column, row, direction);
        if startIndex >= 0 && endIndex >= 0 {
          if button == LeftButton && UnderTarget(islands[startIndex]) > 0 && UnderTarget(islands[endIndex]) > 0 {
            AddBridge(startIndex, endIndex);
          } else if button == RightButton {
            RemoveBridge(startIndex, endIndex);
          }
        }
      }
    }

    /**
      `NextBridge`: while the puzzle is "not solved yet", add the first forced
      bridge; true exactly when one was added.
    */
    method NextBridge() returns (r: bool)
      modifies this
      requires Valid()
      ensures LinksValid(old(islands))
      ensures r <==> old(status) == NotSolvedYet && NextMove(old(State())).Some?
      ensures r ==> var move := NextMove(old(State())).value;
        State() == Added(old(State()), move.0, MoveTarget(old(State()), move)) && Synced()
      ensures !r ==> State() == old(State()) && status == old(status)
      ensures Valid()
    {
      LinksCorrectValid(islands);
      if status != NotSolvedYet {
        return false;
      }
      var move := FindMove(State());
      if move.None? {
        return false;
      }
      var (i, d) := move.value;
      MoveIsSettable(State());
      AddBridge(i, Link(islands[i], d));
      r := true;
    }

    // ---------------------------------------------------------- new games

    /**
      `CreateGame(columns, rows, count)` with the random draws `draw`: grow a
      connected board and keep its islands, each with its bridge count as
      target, as the new puzzle. `solution` is the grown board; `loopCount`
      the number of passes the loop made.
    */
    method CreateGame(columns: int, rows: int, count: int, draw: nat -> nat) returns (ghost solution: Board, loopCount: int)
      modifies this
      requires columns == -1 <==> rows == -1
      requires columns != -1 ==> 4 <= columns <= 25 && 4 <= rows <= 25
      requires columns == -1 ==> count == -1
      requires count != -1 ==> 1 <= count <= columns * rows
      ensures State() == Puzzle(solution)
      ensures Valid() && Synced()
      ensures WellFormed(solution) && InField(solution) && Connected(solution)
      ensures 4 <= dims.columns <= 25 && 4 <= dims.rows <= 25
      ensures columns != -1 ==> dims.columns == columns && dims.rows == rows
      ensures count != -1 ==> dims.count == count
      ensures dims == SetDimensions(dims.columns, dims.rows, dims.count)
      ensures 1 <= |islands| <= dims.count
      ensures loopCount < 5000 ==> |islands| == dims.count
    {
      islands := [];
      bridges := [];
      var grown;
      grown, loopCount := Generate(columns, rows, count, draw);
      solution := grown;
      dims := grown.dims;
      islands := CountsToTargets(grown.islands);
      bridges := [];
      PuzzleIsSolvable(grown);
      assert State() == Puzzle(grown);
      CheckGameStatus();
    }

    /**
      `LoadGame` on the lines the file's patterns matched: the dimension
      rule, then the islands, `FindNeighbours`, the bridges and the status.
      A rejected island or bridge line clears the game.
    */
    method LoadGame(field: FieldLine, islandLines: seq<IslandLine>, bridgeLines: seq<BridgeLine>) returns (result: LoadResult)
      modifies this
      requires Valid()
      ensures (result, State()) == Load(old(State()), field, islandLines, bridgeLines)
      ensures Valid()
      ensures result == DimensionsRejected ==> status == old(status)
      ensures result != DimensionsRejected ==> LinksValid(islands)
      ensures result in {LoadOK, IslandsRejected, BridgesRejected} ==> Synced()
      ensures result == IndexFault ==> status == NoGame
    {
      ghost var current := State();
      if !DimensionsOK(field) {
        return DimensionsRejected;
      }
      ClearGame();
      dims := SetDimensions(field.columns, field.rows, field.count);
      var placed := LoadIslands(dims, islandLines);
      if placed.None? {
        ClearGame();
        return IslandsRejected;
      }
      PlaceIslandsMeaning(dims, [], islandLines);
      assert [] + Made(islandLines) == Made(islandLines);
      StartedWellFormed(dims, islandLines);
      islands := placed.value;
      FindNeighbours();
      var start := State();
      assert start == Started(dims, placed.value);
      var outcome := LoadBridges(start, bridgeLines);
      assert Load(current, field, islandLines, bridgeLines) == Finished(outcome);
      PlaceBridgesKeeps(start, bridgeLines);
      PlaceBridgesIslands(start, bridgeLines);
      match outcome {
        case Rejected =>
          ClearGame();
          result := BridgesRejected;
        case Faulted(b) =>
          islands, bridges := b.islands, b.bridges;
          assert State() == b;
          LinksCorrectValid(islands);
          result := IndexFault;
        case Placed(b) =>
          islands, bridges := b.islands, b.bridges;
          assert State() == b;
          CheckGameStatus();
          result := LoadOK;
      }
    }

    /** `ClearGame`: no islands, no bridges, dimensions (-1, -1, -1) and so no bridge length. */
    method ClearGame()
      modifies this
      ensures islands == [] && bridges == []
      ensures dims == SetDimensions(-1, -1, -1)
      ensures Valid() && Synced() && status == NoGame
    {
      islands := [];
      bridges := [];
      dims := SetDimensions(-1, -1, -1);
      CheckGameStatus();
    }
  }
}
