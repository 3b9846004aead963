# Bridges (Hashiwokakero) engine in Dafny

This project models the game engine of a Bridges puzzle app. The puzzle is played on a grid of
columns by rows. Some cells hold islands, and each island has a target number. The player joins
islands that share a row or a column with horizontal or vertical bridges:

- at most two bridges may join the same pair of islands;
- no bridge may cross another;
- the puzzle is solved when every island has as many bridges as its target and every island
  can be reached from every other one.

The engine (`GameManager`) keeps three things:

- the field dimensions;
- the island list, strictly ascending by (column, row), where each island knows the index of its
  nearest neighbour in each of the four directions;
- the bridge list, strictly ascending by (start index, end index), where every record is a
  single or double bridge between two islands in index order.

It offers these operations:

- the bridge operations `NewBridge`, `AddBridge` and `RemoveBridge`, which keep each island's
  bridge count in step with the list;
- `NewIsland`, which renumbers the bridge ends;
- `FindNeighbours`;
- the two `BridgeInfo` queries, which report whether a bridge exists, is single or double, or
  could be built;
- `IslandOK`;
- the status evaluation `CheckGameStatus`, built from `AllConnected`, `AllTargetNumber` and
  `CanSetAnyBridge`;
- the hint `NextBridge`;
- the random generator `CreateGame`;
- the checks that `LoadGame` applies to a saved game;
- the gating of a mouse click in `ProcessClick`.

The model is organised as follows:

- **Board invariant.** The live state is a `Board` value: dimensions, islands and bridges.
  `BoardModel.WellFormed` collects everything the engine keeps true:
  - the islands are sorted and correctly linked;
  - every bridge lies on its two islands' cells, horizontally or vertically, within the maximum
    length;
  - the bridges are sorted and do not cross;
  - every island's count equals the number of bridges at it.
- **Pure behaviour.** Each operation's behaviour is a function on `Board` values (modules
  `Legality`, `Mutation`, `Status`, `Assist`, `Clicks`, `Loading`).
- **Loops.** The source's loops are value methods. In `Engine` and `Loading` each one is proved
  equal to the function of the same operation. In `Generator` the `CreateGame` loop and its steps
  are specified by what they keep (a well-formed, connected board inside the field) and by bounds
  on the island count and the number of passes.
- **The engine object.** `Game.GameManager` is a class whose fields are updated in place by
  those methods, as the engine's lists are.

Random numbers in `CreateGame` are an input: `draw(t)` is the t-th number the generator returns.
Two things in the source come from outside the engine, the screen geometry and the saved file,
and the model takes both as inputs:

- A click enters as the island cell it hits plus the direction the click points to (or none, for
  a click too close to a diagonal).
- A saved game enters as the field line, island lines and bridge lines its patterns matched.

## Model

| member | source | states |
|---|---|---|
| IslandModel.MakeIsland | Bridges/Models/Island.cs:21-26 | A new island stands on its cell with its target, no bridges and no neighbours, so its deficit is its target |
| IslandModel.CompareTo | Bridges/Models/Island.cs:28-36 | Islands are ordered by column, then row; the result is -1, 0 or 1, negative exactly when this island comes first, zero for the same cell or a null argument |
| IslandModel.CompareToAntisymmetric | Bridges/Models/Island.cs:28-36 | Comparing two islands the other way round gives the opposite sign |
| IslandModel.CompareToTransitive | Bridges/Models/Island.cs:28-36 | The island order is transitive |
| IslandModel.UnderTarget | Bridges/Models/Island.cs:13-19 | The bridges an island still misses: target minus count, negative for an island over its target; `BoardModel.DeficitCountsBridges` ties it to the bridge list |
| BridgeModel.CompareTo | Bridges/Models/Bridge.cs:24-32 | Bridges are ordered by start index, then end index; -1, 0 or 1, zero for the same pair or a null argument |
| BridgeModel.CompareToAntisymmetric | Bridges/Models/Bridge.cs:24-32 | Comparing two bridges the other way round gives the opposite sign |
| BridgeModel.CrossesSymmetric | Bridges/Models/GameManager.cs:494-499 | For horizontal or vertical bridges, "a crosses b" holds exactly when "b crosses a" |
| Lists.FindIndex | Bridges/Models/GameManager.cs:484 | `List.FindIndex`: the first index whose element satisfies the predicate, or -1 exactly when none does |
| Sorting.Sort | Bridges/Models/GameManager.cs:359 | `List.Sort()` with `CompareTo` returns a permutation of its input |
| Sorting.SortSorted | Bridges/Models/GameManager.cs:359 | The result of sorting is ascending by key |
| Sorting.SortStrictlySorted | Bridges/Models/GameManager.cs:359 | Sorting elements with distinct keys gives a strictly ascending list |
| Sorting.SortOfStrictlySorted | Bridges/Models/GameManager.cs:359 | Sorting an already strictly ascending list leaves it unchanged |
| Sorting.AppendThenSort | Bridges/Models/GameManager.cs:409-410 | Appending to a strictly ascending list and sorting inserts the new element at its place |
| Sorting.InsertStrictlySorted | Bridges/Models/GameManager.cs:409-410 | Inserting an element with a new key into a strictly ascending list keeps it strictly ascending |
| Sorting.StrictlySortedUnique | Bridges/Models/GameManager.cs:359 | Two strictly ascending lists with the same elements are equal, so any correct `List.Sort` gives the list the model computes when the keys are distinct |
| BoardModel.SetDimensions | Bridges/Models/GameManager.cs:74 | The maximum bridge length is the integer quotient of cells by islands (-1 without islands) |
| BoardModel.FindIsland | Bridges/Models/GameManager.cs:484-485 | The index of the first island on a cell, or -1 exactly when no island is there |
| BoardModel.FindIslandUnique | Bridges/Models/GameManager.cs:484-485 | In a strictly ascending island list, looking up an island's cell finds that island |
| BoardModel.FirstAfter | Bridges/Models/GameManager.cs:366-370 | The nearest later island in the same column (or row), or -1 exactly when there is none |
| BoardModel.LastBefore | Bridges/Models/GameManager.cs:371-375 | The nearest earlier island in the same column (or row), or -1 exactly when there is none |
| BoardModel.NeighbourOf | Bridges/Models/GameManager.cs:360-376 | The link `FindNeighbours` computes in each direction: the nearest earlier island in the column (north) or row (west), the nearest later one in the column (south) or row (east); its meaning is given by `FirstAfter` and `LastBefore` |
| BoardModel.Linked | Bridges/Models/GameManager.cs:357-377 | Every island keeps its cell, target and count and gets the links `NeighbourOf` computes, as `LinkedIsLinked` states |
| BoardModel.RelinkLinks | Bridges/Models/GameManager.cs:357-377 | A relinked island's link in each direction is its nearest neighbour that way |
| BoardModel.LinkedIsLinked | Bridges/Models/GameManager.cs:357-377 | Relinking keeps every island's cell and makes all neighbour links correct |
| BoardModel.LinksInRange | Bridges/Models/GameManager.cs:357-377 | A correct link is -1 or the index of another island |
| BoardModel.Degree | Bridges/Models/GameManager.cs:387-388 | The number of bridges at an island, a double bridge counting twice; the board invariant requires every count to equal it, and `DegreeConcat`, `DegreeInsertAt`, `DegreeReplaceAt`, `DegreeRemoveAt` give its behaviour under the list edits |
| BoardModel.WellFormed | Bridges/Models/GameManager.cs:357-454 | The invariant the engine keeps: islands strictly ascending with correct links, bridges on their islands' cells within the length limit, strictly ascending, not crossing, and counts equal to degrees; every mutator is proved to keep it |
| BoardModel.DeficitCountsBridges | Bridges/Models/Island.cs:13-19 | On a well-formed board an island's deficit is its target minus the bridges at it |
| BoardModel.GeometryIdentifiesBridge | Bridges/Models/Bridge.cs:5-11 | On a well-formed board no two bridge records lie on the same segment |
| Legality.Occupant | Bridges/Models/GameManager.cs:484-489 | The first bridge on the segment, or -1 exactly when none lies on it |
| Legality.RowCrossed | Bridges/Models/GameManager.cs:494-496 | True exactly when some vertical bridge crosses the horizontal segment |
| Legality.ColumnCrossed | Bridges/Models/GameManager.cs:497-499 | True exactly when some horizontal bridge crosses the vertical segment |
| Legality.Canonical | Bridges/Models/GameManager.cs:474-482 | The segment with its ends swapped so that a horizontal one runs left to right and a vertical one top to bottom; `BridgeInfoAtSymmetric` and `CanonicalIsIndexOrder` state what it achieves |
| Legality.Creatable | Bridges/Models/GameManager.cs:491-502 | A new bridge may go on the segment exactly when it is horizontal or vertical, 2 up to the maximum length long, and no bridge crosses it; `BridgeInfoAt` returns OK exactly in this case |
| Legality.BridgeInfoAt | Bridges/Models/GameManager.cs:472-503 | After the ends are swapped into ascending order: the first bridge on the segment, single or double; or, when there is none, OK exactly when the segment is horizontal or vertical, from 2 up to the maximum length, and crosses no bridge, and NotOK otherwise |
| Legality.BridgeInfo | Bridges/Models/GameManager.cs:458-466 | A missing neighbour (-1) gives (-1, NotOK); otherwise the answer for the two islands' cells |
| Legality.BridgeInfoAtSymmetric | Bridges/Models/GameManager.cs:474-482 | For ends in one row or column, the answer does not depend on which end is named first |
| Legality.DiagonalNotOK | Bridges/Models/GameManager.cs:502 | Two cells in neither the same row nor the same column are never OK |
| Legality.SegmentIdentifiesPair | Bridges/Models/GameManager.cs:484-489 | On a well-formed board a bridge lies on the segment of two islands exactly when it joins them |
| Legality.BridgeInfoOnBoard | Bridges/Models/GameManager.cs:458-503 | A bridge is reported exactly when one joins the two islands; OK implies two distinct aligned islands and a segment on which a bridge may be built |
| Legality.IslandOK | Bridges/Models/GameManager.cs:507-515 | A cell accepts a new island exactly when it is free, below the column and row limits, neither coordinate is -1, and no bridge passes over it (the limit test without 32-bit wrap-around; see Findings) |
| Legality.Inc32 | Bridges/Models/GameManager.cs:511 | `x + 1` on a 32-bit `int`: stays in range, is `x + 1` below `int.MaxValue` and wraps to `int.MinValue` at it |
| Legality.IslandOKAsWritten | Bridges/Models/GameManager.cs:507-515 | The check with its limit test in 32-bit arithmetic; it agrees with `IslandOK` whenever neither coordinate is `int.MaxValue` |
| Legality.MaxColumnLetThrough | Bridges/Models/GameManager.cs:511 | A free cell in column `int.MaxValue` with its row in the field passes the check as written, though it lies outside the field; `IslandOK` refuses it |
| Mutation.BumpBoth | Bridges/Models/GameManager.cs:387-388 | Only the two islands' counts change, by the given amount each |
| Mutation.NewBridgeRecord | Bridges/Models/GameManager.cs:402-408 | The record `NewBridge` builds: the two indices in ascending order with those islands' cells; `NewRecordFits` states that it fits the board, crosses nothing and joins a new pair |
| Mutation.WithNewBridge | Bridges/Models/GameManager.cs:400-422 | `NewBridge`: add the record, sort, raise both counts by its multiplicity; `NewBridgeKeepsBridges`, `NewBridgeBridges`, `NewBridgeCounts` and `NewBridgeKeepsWellFormed` state its effect |
| Mutation.NewBridgeKeepsBridges | Bridges/Models/GameManager.cs:400-422 | `NewBridge` keeps every earlier bridge and adds its new record |
| Mutation.NewRecordFits | Bridges/Models/GameManager.cs:402-408 | A record created where `BridgeInfo` says OK fits its islands, crosses nothing and joins a new pair |
| Mutation.NewBridgeBridges | Bridges/Models/GameManager.cs:409-410 | Sorting after `NewBridge` inserts the record at its place, and the bridge list stays fitted, strictly ascending and free of crossings |
| Mutation.NewBridgeCounts | Bridges/Models/GameManager.cs:411-420 | After `NewBridge` both islands' counts again equal the bridges at them |
| Mutation.NewBridgeKeepsWellFormed | Bridges/Models/GameManager.cs:400-422 | `NewBridge` on an OK segment keeps the board invariant |
| Mutation.Added | Bridges/Models/GameManager.cs:381-397 | `AddBridge`: double a single bridge, create a single one where `BridgeInfo` says OK, otherwise nothing; `AddedCounts`, `AddedSingle`, `AddKeepsWellFormed` and the inverse lemmas with `Removed` state its effect |
| Mutation.Removed | Bridges/Models/GameManager.cs:425-437 | `RemoveBridge`: halve a double bridge or delete a single one and lower both counts, otherwise nothing; `RemovedDouble`, `RemovedSingle`, `RemoveKeepsWellFormed` and the inverse lemmas with `Added` state its effect |
| Mutation.AddedCounts | Bridges/Models/GameManager.cs:381-397 | `AddBridge` raises both counts by one when the pair has a single bridge or may get one, and otherwise changes nothing |
| Mutation.AddableAreDistinct | Bridges/Models/GameManager.cs:381-397 | `AddBridge` acts only on two distinct islands |
| Mutation.InfoOfJoined | Bridges/Models/GameManager.cs:458-466 | For two islands joined by a bridge, `BridgeInfo` names that bridge and its multiplicity |
| Mutation.FlagChangeKeepsWellFormed | Bridges/Models/GameManager.cs:384-388 | Doubling or halving a bridge while adjusting both counts keeps the board invariant |
| Mutation.DeleteKeepsWellFormed | Bridges/Models/GameManager.cs:431-433 | Deleting a single bridge while lowering both counts keeps the board invariant |
| Mutation.AddKeepsWellFormed | Bridges/Models/GameManager.cs:381-397 | `AddBridge` keeps the board invariant for any pair, including a missing neighbour |
| Mutation.RemoveKeepsWellFormed | Bridges/Models/GameManager.cs:425-437 | `RemoveBridge` keeps the board invariant for any pair |
| Mutation.BumpBothInverse | Bridges/Models/GameManager.cs:387-388 | Raising and then lowering the same two counts restores them |
| Mutation.RemovedDouble | Bridges/Models/GameManager.cs:430-433 | `RemoveBridge` on a double bridge makes it single and lowers both counts |
| Mutation.AddedSingle | Bridges/Models/GameManager.cs:384-388 | `AddBridge` on a single bridge makes it double and raises both counts |
| Mutation.RemovedSingle | Bridges/Models/GameManager.cs:431-433 | `RemoveBridge` on a single bridge deletes the record and lowers both counts |
| Mutation.DoubleThenRemove | Bridges/Models/GameManager.cs:381-437 | Doubling a single bridge and removing one restores the board |
| Mutation.CreateThenRemove | Bridges/Models/GameManager.cs:381-437 | Creating a bridge and removing it restores the board |
| Mutation.AddThenRemove | Bridges/Models/GameManager.cs:381-437 | Whenever `AddBridge` acts, `RemoveBridge` on the same pair undoes it |
| Mutation.HalveThenAdd | Bridges/Models/GameManager.cs:381-437 | Halving a double bridge and adding one restores the board |
| Mutation.DeleteThenAdd | Bridges/Models/GameManager.cs:381-437 | Deleting a single bridge and adding it again restores the board, record and position included |
| Mutation.RemoveThenAdd | Bridges/Models/GameManager.cs:381-437 | Whenever `RemoveBridge` acts, `AddBridge` on the same pair undoes it |
| Mutation.ReinsertRestores | Bridges/Models/GameManager.cs:409-410 | Taking a bridge out of a strictly ascending list, appending it and sorting gives the list back |
| Mutation.Reset | Bridges/Models/GameManager.cs:349-354 | No bridges; every island keeps its cell, target and links with count zero |
| Mutation.ResetKeepsWellFormed | Bridges/Models/GameManager.cs:349-354 | `RemoveAllBridges` keeps the board invariant |
| Mutation.ShiftAll | Bridges/Models/GameManager.cs:446-452 | Every bridge end at or after the new index moves up by one; nothing else changes |
| Mutation.DegreeShift | Bridges/Models/GameManager.cs:446-452 | After renumbering, each old island has as many bridges as before, and the new index has none |
| Mutation.NewIslandIndex | Bridges/Models/GameManager.cs:441-454 | The new island's index is at most the old island count |
| Mutation.InsertIsland | Bridges/Models/GameManager.cs:441-454 | `NewIsland`: add the island, sort and relink, shift the bridge ends at or after its index; `InsertIslandPlacement` and `InsertIslandKeepsWellFormed` state its effect |
| Mutation.InsertIslandPlacement | Bridges/Models/GameManager.cs:441-454 | `NewIsland` puts the island at its sorted place, keeps the other cells in order, and keeps every bridge's geometry |
| Mutation.InsertIslandKeepsWellFormed | Bridges/Models/GameManager.cs:441-454 | `NewIsland` on a free cell keeps the board invariant |
| Mutation.SameShapesKeep | Bridges/Models/Bridge.cs:5-11 | Changing only bridge multiplicities keeps fit, order and the absence of crossings |
| Status.ReachableSymmetric | Bridges/Models/GameManager.cs:518-536 | Reachability over bridges is symmetric |
| Status.ReachableTransitive | Bridges/Models/GameManager.cs:518-536 | Reachability over bridges is transitive |
| Status.ClosedKeepsReachable | Bridges/Models/GameManager.cs:518-536 | Nothing outside a set closed under bridges is reachable from inside it |
| Status.DistinctBound | Bridges/Models/GameManager.cs:534 | A list of distinct island indices has at most as many entries as there are islands |
| Status.AllTargetNumber | Bridges/Models/GameManager.cs:539-546 | True exactly when every island has as many bridges as its target, that is, no deficit |
| Status.CanSetFrom | Bridges/Models/GameManager.cs:549-564 | True exactly when some island from this index on has a neighbour that `BridgeInfo` reports single or OK, with the bridge counts of both islands different from their targets |
| Status.CanSetAnyBridge | Bridges/Models/GameManager.cs:549-564 | True exactly when some bridge can still be set between two neighbours whose bridge counts both differ from their targets (an island over its target counts too) |
| Status.TargetsMetLeaveNothingToSet | Bridges/Models/GameManager.cs:539-564 | When every target is met, no bridge can be set |
| Status.StatusOf | Bridges/Models/GameManager.cs:334-346 | The status `CheckGameStatus` assigns: no game without islands, solved when connected with every target met, not solved yet while a bridge can be set, otherwise stuck; `StatusMeaning` states what each status implies |
| Status.StatusMeaning | Bridges/Models/GameManager.cs:334-346 | "No game" exactly without islands; "solved" exactly when connected and all targets met; "not solved yet" implies a bridge can be set; "stuck" and "solved" imply none can |
| Assist.Potential | Bridges/Models/GameManager.cs:301-312 | A direction's potential is 0, 1 or 2 |
| Assist.Potentials | Bridges/Models/GameManager.cs:294-312 | The four potentials in the order north, east, south, west; `PotentialsByRank` ties each entry to its direction |
| Assist.Sum | Bridges/Models/GameManager.cs:314 | The available potential: the sum of the four potentials |
| Assist.CountPositive | Bridges/Models/GameManager.cs:315 | The available neighbours: the number of directions with a positive potential |
| Assist.PotentialMeaning | Bridges/Models/GameManager.cs:301-312 | A positive potential means a bridge can be set towards a neighbour that still misses bridges; 2 means a new one can be built |
| Assist.CeilHalf | Bridges/Models/GameManager.cs:319 | `Math.Ceiling(d / 2.0)`: the least r with 2r at least d |
| Assist.Required | Bridges/Models/GameManager.cs:314-320 | The potential a forced direction must reach is 1, 2, or 3, which no direction reaches |
| Assist.FirstDirection | Bridges/Models/GameManager.cs:322-325 | The first direction, North, East, South, West, whose potential meets the requirement, or none when none does |
| Assist.MoveAt | Bridges/Models/GameManager.cs:288-325 | The direction `NextBridge` picks at one island: the first one, in the order north, east, south, west, whose potential reaches the required level, as `FirstDirection` states |
| Assist.Choices | Bridges/Models/GameManager.cs:285-326 | One entry per island: the picked direction for an island whose count differs from its target, none otherwise |
| Assist.FirstChoice | Bridges/Models/GameManager.cs:285-327 | The first island with a forced direction, or none when no island has one |
| Assist.NextMove | Bridges/Models/GameManager.cs:282-329 | The bridge `NextBridge` adds: the first island in list order with a picked direction; `MoveIsSettable` and `MoveStaysWithinTargets` state what it guarantees |
| Assist.MoveTarget | Bridges/Models/GameManager.cs:322-325 | The neighbour a hint joins: the picked island's link in the picked direction |
| Assist.MoveIsSettable | Bridges/Models/GameManager.cs:282-329 | A hint is always a bridge that `CanSetAnyBridge` counts, towards a neighbour that still misses bridges and that `AddBridge` accepts, so a hint exists only while a bridge can be set |
| Assist.MoveStaysWithinTargets | Bridges/Models/GameManager.cs:282-329 | Following a hint never gives an island more bridges than its target |
| Clicks.ClickedPair | Bridges/Models/GameManager.cs:29-48 | The clicked island is the first on the cell, or -1 when none is; the partner is that island's neighbour in the clicked direction, or -1 |
| Clicks.Clicked | Bridges/Models/GameManager.cs:27-56 | The board after a click: unchanged without islands, off an island or without a neighbour in the direction; `AddBridge` for a left click when both islands miss bridges; `RemoveBridge` for a right click; `LeftClickActs`, `RightClickRemoves`, `LeftThenRight` and `RightThenLeft` state its behaviour |
| Clicks.LeftClickActs | Bridges/Models/GameManager.cs:49-51 | A left click changes the board only for two distinct neighbours that both miss bridges and a bridge `AddBridge` accepts, and then it is exactly `AddBridge` |
| Clicks.LeftClickStaysWithinTargets | Bridges/Models/GameManager.cs:49-51 | Left clicks never give an island more bridges than its target |
| Clicks.LeftClickNeedsSettable | Bridges/Models/GameManager.cs:49-51 | A left click acts only while a bridge can be set; on a solved or stuck board it does nothing |
| Clicks.RightClickRemoves | Bridges/Models/GameManager.cs:52 | A right click on an island towards a neighbour is `RemoveBridge` on that pair |
| Clicks.LeftThenRight | Bridges/Models/GameManager.cs:27-56 | A right click on the same cell and direction undoes a left click that acted |
| Clicks.RightThenLeft | Bridges/Models/GameManager.cs:27-56 | A left click undoes a right click that acted, as long as no island was over its target |
| Engine.ScanForward | Bridges/Models/GameManager.cs:366-370 | The scan over later islands finds the south and east neighbours |
| Engine.ScanBackward | Bridges/Models/GameManager.cs:371-375 | The scan over earlier islands finds the north and west neighbours |
| Engine.LinkNeighbours | Bridges/Models/GameManager.cs:357-377 | The loop gives every island its correct neighbour links |
| Engine.FindNeighboursOn | Bridges/Models/GameManager.cs:357-377 | The islands sorted by cell, each with its correct neighbour links |
| Engine.AllConnected | Bridges/Models/GameManager.cs:518-536 | The search returns true exactly when there are islands and every island can be reached from island 0 over bridges |
| Engine.ZeroCounts | Bridges/Models/GameManager.cs:352 | Every island keeps everything but its count, which becomes zero |
| Engine.CountsToTargets | Bridges/Models/GameManager.cs:149-153 | Every island's count becomes its target and its count is reset to zero |
| Engine.ShiftBridges | Bridges/Models/GameManager.cs:446-452 | The renumbering loop shifts every bridge end at or after the new index |
| Engine.FindMove | Bridges/Models/GameManager.cs:285-325 | The loop returns the first forced island and direction |
| Engine.NewBridgeOn | Bridges/Models/GameManager.cs:400-422 | The loop-free `NewBridge` on a board value returns the new record and board |
| Engine.AddBridgeOn | Bridges/Models/GameManager.cs:381-397 | Reports a change exactly when the pair's bridge is single or may be built |
| Engine.RemoveBridgeOn | Bridges/Models/GameManager.cs:425-437 | Reports a change exactly when a bridge joins the pair |
| Engine.NewIslandOn | Bridges/Models/GameManager.cs:441-454 | The new island stands on its cell with target and count zero |
| Generator.NextBelow | Bridges/Models/GameManager.cs:80-83 | `Random.Next(n)`: a number from 0 to n-1, and 0 for n = 0 |
| Generator.NextBetween | Bridges/Models/GameManager.cs:71-73 | `Random.Next(a, b)`: a number from a to b-1, and a for a = b |
| Generator.Reach | Bridges/Models/GameManager.cs:87-109 | The neighbour in the drawn direction and the room before it or the border |
| Generator.StepInside | Bridges/Models/GameManager.cs:110-136 | A drawn step short of the neighbour, or within the room to the border, stays inside the field |
| Generator.ConnectedAfterNewBridge | Bridges/Models/GameManager.cs:113-116 | Adding a bridge to a connected board leaves it connected |
| Generator.ConnectedAfterExtend | Bridges/Models/GameManager.cs:137-142 | A new island bridged to an existing one keeps a connected board connected after renumbering |
| Generator.Extend | Bridges/Models/GameManager.cs:137-142 | Placing a new island at the end of a legal bridge and joining it keeps the invariant, the island cells in order, and connectedness |
| Generator.Join | Bridges/Models/GameManager.cs:113-116 | Joining to an existing island keeps the invariant and the island count, and keeps a connected board connected |
| Generator.Branch | Bridges/Models/GameManager.cs:110-143 | One growth step keeps the invariant, the field and connectedness, and adds at most one island |
| Generator.Attempt | Bridges/Models/GameManager.cs:80-145 | One loop pass consumes three or four draws and keeps the invariant, the field and connectedness |
| Generator.Populate | Bridges/Models/GameManager.cs:78-146 | The loop keeps a connected well-formed board, runs at most 5000 passes, and reaches the island count unless it hits that limit |
| Generator.Generate | Bridges/Models/GameManager.cs:66-148 | The grown solution is connected and well formed with the requested or default dimensions, between 1 and `count` islands, exactly `count` unless the pass limit was hit |
| Generator.DefaultCountRange | Bridges/Models/GameManager.cs:73 | The default island count range's lower bound never passes its upper bound, and both lie within the field's cell count |
| Generator.BridgeLengthBound | Bridges/Models/GameManager.cs:74 | With 1 to columns x rows islands the maximum bridge length is at least 1 |
| Generator.SingleIslandBoard | Bridges/Models/GameManager.cs:75-76 | A board with one fresh island and no bridges is well formed and connected |
| Generator.Puzzle | Bridges/Models/GameManager.cs:149-154 | The puzzle keeps the solution's islands in order with their counts as targets, zero counts and no bridges |
| Generator.Restored | Bridges/Models/GameManager.cs:149-154 | Putting the solution's bridges back gives every island its target count |
| Generator.PuzzleIsSolvable | Bridges/Models/GameManager.cs:66-156 | A generated puzzle is well formed, and its solution's bridges meet every target and give the status "solved" |
| Loading.Made | Bridges/Models/GameManager.cs:226-233 | One island per island line, with that line's cell and target |
| Loading.DimensionsOK | Bridges/Models/GameManager.cs:218 | The dimension rule: 4 to 25 columns and rows, and at least min(columns, rows) and at most columns x rows / 5 islands |
| Loading.Cleared | Bridges/Models/GameManager.cs:581-587 | The board `ClearGame` leaves: dimensions (-1, -1, -1), no islands, no bridges |
| Loading.PlaceIslands | Bridges/Models/GameManager.cs:226-233 | The island loop: each line is added when `IslandOK` accepts its cell, and the first refused line stops the load; `PlaceIslandsMeaning` states its outcome |
| Loading.PlaceBridges | Bridges/Models/GameManager.cs:236-243 | The bridge loop: `NewBridge` for each line `BridgeInfo` reports OK, a rejection at the first other line, and a fault at an index past the island list; `PlaceBridgesKeeps`, `PlaceBridgesGrows` and `PlaceBridgesHolds` state its outcome |
| Loading.PlaceIslandsMeaning | Bridges/Models/GameManager.cs:226-233 | The island loop accepts exactly when each line passes `IslandOK` against the islands before it, and then yields the islands in file order |
| Loading.StartedWellFormed | Bridges/Models/GameManager.cs:226-234 | Accepted islands, sorted and linked by `FindNeighbours`, form a well-formed board |
| Loading.StartedHasIslands | Bridges/Models/GameManager.cs:226-234 | The loaded board has one island for each line, on its cell with its target |
| Loading.PlaceBridgesKeeps | Bridges/Models/GameManager.cs:236-243 | The bridge loop keeps the board invariant whether it completes or faults |
| Loading.PlaceBridgesHolds | Bridges/Models/GameManager.cs:236-243 | When every bridge line is accepted, each line's bridge is on the board |
| Loading.PlaceBridgesGrows | Bridges/Models/GameManager.cs:236-243 | Accepted bridge lines add one record each and keep every earlier record |
| Loading.LoadIslands | Bridges/Models/GameManager.cs:226-233 | The island loop as written computes the island outcome |
| Loading.LoadBridges | Bridges/Models/GameManager.cs:236-243 | The bridge loop as written computes the bridge outcome |
| Loading.Finished | Bridges/Models/GameManager.cs:236-246 | The result of the bridge loop: loaded, rejected with the game cleared, or faulted with the board built so far |
| Loading.Load | Bridges/Models/GameManager.cs:163-246 | `LoadGame` on the matched lines: refused unchanged by the dimension rule, otherwise cleared, islands placed, `FindNeighbours`, bridges placed; `DimensionsRule`, `LoadRejections` and `LoadAccepted` state its outcome |
| Loading.DimensionsRule | Bridges/Models/GameManager.cs:218-223 | A saved game is refused before anything changes exactly when the dimension rule fails |
| Loading.LoadRejections | Bridges/Models/GameManager.cs:163-243 | The islands are refused exactly when some island line fails `IslandOK`; a refused island or bridge line leaves a cleared game |
| Loading.LoadAccepted | Bridges/Models/GameManager.cs:163-246 | A loaded game is well formed with one island per line on its cell and target; when it loads completely, every bridge line is on the board |
| Game.GameManager.constructor | Bridges/Models/GameManager.cs:16-22 | The engine on a well-formed board, with its status evaluated |
| Game.GameManager.CheckGameStatus | Bridges/Models/GameManager.cs:334-346 | The board is unchanged and the status is the one `Status.StatusOf` assigns to it |
| Game.GameManager.FindNeighbours | Bridges/Models/GameManager.cs:357-377 | The islands become sorted by cell, with correct neighbour links; nothing else changes |
| Game.GameManager.NewBridge | Bridges/Models/GameManager.cs:400-422 | The board becomes the one with the new bridge inserted and both counts raised |
| Game.GameManager.AddBridge | Bridges/Models/GameManager.cs:381-397 | The board becomes `Added`, the invariant holds, and the status is re-evaluated exactly when the board changed |
| Game.GameManager.RemoveBridge | Bridges/Models/GameManager.cs:425-437 | The board becomes `Removed`, the invariant holds, and the status is re-evaluated exactly when a bridge was found |
| Game.GameManager.NewIsland | Bridges/Models/GameManager.cs:441-454 | The island is inserted at its sorted place with target and count zero, and the bridges are renumbered |
| Game.GameManager.RemoveAllBridges | Bridges/Models/GameManager.cs:349-354 | No bridges, every count zero, invariant and status kept |
| Game.GameManager.ProcessClick | Bridges/Models/GameManager.cs:27-56 | The board becomes the clicked one and the invariant holds; a click that changes the board re-evaluates the status, and one that changes nothing leaves the status as it was |
| Game.GameManager.NextBridge | Bridges/Models/GameManager.cs:282-329 | Acts exactly when the status is "not solved yet" and a forced bridge exists; then it adds that bridge and re-evaluates the status; otherwise nothing changes |
| Game.GameManager.CreateGame | Bridges/Models/GameManager.cs:66-156 | The new puzzle comes from a connected, well-formed solution inside the field, with the requested or default dimensions and island count |
| Game.GameManager.LoadGame | Bridges/Models/GameManager.cs:163-246 | The outcome and new board are those of `Loading.Load`; the invariant always holds; a file refused by the dimension rule leaves the status as it was, a fault leaves "no game" from the earlier `ClearGame`, and every other outcome re-evaluates it |
| Game.GameManager.ClearGame | Bridges/Models/GameManager.cs:581-587 | No islands, no bridges, dimensions (-1, -1, -1) and the status "no game" |

## Left out

- Drawing is not modelled: pixel geometry (`Field.Box`, `Field.Center`), `FieldUpdate`, `GraphicsView`,
  property notifications and debug output. A click enters as the cell it hits and the direction it points
  to. The direction test at GameManager.cs:36-40 is therefore not modelled; only its result is.
- File access is not modelled: the file picker, `SaveGame`, and reading and regex-matching the file. `LoadGame`
  starts from the matched lines. A value too large for `int.Parse` is not modelled.
- The `showMissing` setting, and the handler that redraws when it changes, are not modelled; `CreateGame`
  never reads its `showMissing` parameter.
- `Random` is not modelled: each number it returns is the next value of the `draw` input.
- The island and bridge lists are rebuilt as values, and each class keeps its own copy. The source
  shares `Island` and `Bridge` objects between lists, and that aliasing is not modelled; neither is
  `LastBridge`, which only the drawing code reads.
- An exception from an out-of-range bridge index in a saved game is not thrown. The bridge loop stops
  there with the outcome `IndexFault` and keeps what was built so far; the status stays "no game", as `ClearGame` left it.
- `SharedData` is not part of this model. The maximum bridge length that `SetDimensions` derives from
  columns, rows and island count is modelled as `BoardModel.SetDimensions`.
- Game.GameManager.CreateGame: it returns the grown solution as a ghost value. It requires 4 to 25
  columns and rows and an island count from 1 up to columns x rows. The creation dialog checks the
  count against columns x rows / 5 only when the count is edited, so a count left over from larger
  dimensions can exceed that bound, and such calls are modelled. A count above columns x rows makes
  `Random.Next(2, 1)` at GameManager.cs:112 throw; that case is not modelled.
- Legality.IslandOK: the model uses the limit test without 32-bit wrap-around (see Findings). So
  `Loading.Load` refuses the island line (2147483647, 0 | 1) on a 5 x 5 field with count 5, while the
  source accepts that island outside the field and answers "OK". `PlaceIslandsMeaning` and
  `LoadRejections` describe the corrected check.

## Findings

| source | as written | input that shows it | evidently intended | confidence | as-written member | corrected member |
|---|---|---|---|---|---|---|
| Bridges/Models/GameManager.cs:511 | `column + 1 > Item1 \|\| row + 1 > Item2` in unchecked 32-bit arithmetic, where `int.MaxValue + 1` wraps to `int.MinValue` and passes the test | a saved 5 x 5 game with count 5 whose only island line is (2147483647, 0 \| 1): the island is placed outside the field and `LoadGame` answers "OK" | a cell is accepted only when both coordinates lie inside the field | not executed | Legality.MaxColumnLetThrough | Legality.IslandOK |
