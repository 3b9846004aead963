/**
  The status evaluator: connectivity over the bridges, the target check
  `AllTargetNumber`, the scan `CanSetAnyBridge`, and the game status that
  `CheckGameStatus` combines them into.
*/
module Status {
  import opened IslandModel
  import opened BridgeModel
  import opened BoardModel
  import opened Legality

  // ------------------------------------------------------------- connectivity

  /** Bridge `br` has islands `x` and `y` as its two ends. */
  predicate Connects(br: Bridge, x: int, y: int) {
    (br.startIndex == x && br.endIndex == y) || (br.startIndex == y && br.endIndex == x)
  }

  ghost predicate Adjacent(bs: seq<Bridge>, x: int, y: int) {
    exists q :: 0 <= q < |bs| && Connects(bs[q], x, y)
  }

  /** A walk along bridges, one island after the other. */
  ghost predicate IsPath(bs: seq<Bridge>, path: seq<int>) {
    |path| > 0 && forall t :: 0 <= t < |path| - 1 ==> Adjacent(bs, path[t], path[t + 1])
  }

  ghost predicate Reachable(bs: seq<Bridge>, x: int, y: int) {
    exists path :: IsPath(bs, path) && path[0] == x && path[|path| - 1] == y
  }

  /** Every island can be reached from island 0 over bridges. */
  ghost predicate Connected(b: Board) {
    forall k :: 0 <= k < |b.islands| ==> Reachable(b.bridges, 0, k)
  }

  lemma ReachableSelf(bs: seq<Bridge>, x: int)
    ensures Reachable(bs, x, x)
  {
    assert IsPath(bs, [x]);
  }

  /** A walk to `y` extends over a bridge from `y` to `z`. */
  lemma ReachableStep(bs: seq<Bridge>, x: int, y: int, z: int)
    requires Reachable(bs, x, y) && Adjacent(bs, y, z)
    ensures Reachable(bs, x, z)
  {
    var path :| IsPath(bs, path) && path[0] == x && path[|path| - 1] == y;
    var longer := path + [z];
    forall t | 0 <= t < |longer| - 1 ensures Adjacent(bs, longer[t], longer[t + 1]) {
      if t < |path| - 1 {
        assert longer[t] == path[t] && longer[t + 1] == path[t + 1];
      }
    }
    assert IsPath(bs, longer);
  }

  /** A walk read backwards is a walk: reachability is symmetric. */
  lemma ReachableSymmetric(bs: seq<Bridge>, x: int, y: int)
    requires Reachable(bs, x, y)
    ensures Reachable(bs, y, x)
  {
    var path :| IsPath(bs, path) && path[0] == x && path[|path| - 1] == y;
    var back := seq(|path|, t requires 0 <= t < |path| => path[|path| - 1 - t]);
    forall t | 0 <= t < |back| - 1 ensures Adjacent(bs, back[t], back[t + 1]) {
      var u := |path| - 2 - t;
      assert Adjacent(bs, path[u], path[u + 1]);
      var q :| 0 <= q < |bs| && Connects(bs[q], path[u], path[u + 1]);
      assert Connects(bs[q], back[t], back[t + 1]);
    }
    assert IsPath(bs, back);
  }

  /** Two walks that meet join into one: reachability is transitive. */
  lemma ReachableTransitive(bs: seq<Bridge>, x: int, y: int, z: int)
    requires Reachable(bs, x, y) && Reachable(bs, y, z)
    ensures Reachable(bs, x, z)
  {
    var p1 :| IsPath(bs, p1) && p1[0] == x && p1[|p1| - 1] == y;
    var p2 :| IsPath(bs, p2) && p2[0] == y && p2[|p2| - 1] == z;
    var path := p1 + p2[1..];
    forall t | 0 <= t < |path| - 1 ensures Adjacent(bs, path[t], path[t + 1]) {
      if t < |p1| - 1 {
        assert path[t] == p1[t] && path[t + 1] == p1[t + 1];
      } else {
        var u := t - |p1| + 1;
        assert path[t] == p2[u] && path[t + 1] == p2[u + 1];
      }
    }
    assert IsPath(bs, path);
  }

  /** Adding bridges never disconnects: a walk over `bs` is a walk over any list holding every bridge of `bs`. */
  lemma ReachableInSuperset(bs: seq<Bridge>, cs: seq<Bridge>, x: int, y: int)
    requires forall q :: 0 <= q < |bs| ==> bs[q] in cs
    requires Reachable(bs, x, y)
    ensures Reachable(cs, x, y)
  {
    var path :| IsPath(bs, path) && path[0] == x && path[|path| - 1] == y;
    forall t | 0 <= t < |path| - 1 ensures Adjacent(cs, path[t], path[t + 1]) {
      assert Adjacent(bs, path[t], path[t + 1]);
      var q :| 0 <= q < |bs| && Connects(bs[q], path[t], path[t + 1]);
      var p :| 0 <= p < |cs| && cs[p] == bs[q];
      assert Connects(cs[p], path[t], path[t + 1]);
    }
    assert IsPath(cs, path);
  }

  /** Every bridge touching an island of `s` has both ends in `s`. */
  ghost predicate Closed(bs: seq<Bridge>, s: seq<int>) {
    forall a, q :: 0 <= a < |s| && 0 <= q < |bs| && Incident(bs[q], s[a]) ==>
      bs[q].startIndex in s && bs[q].endIndex in s
  }

  /** A walk that starts inside a closed set of islands never leaves it. */
  lemma {:induction false} ClosedKeepsPath(bs: seq<Bridge>, s: seq<int>, path: seq<int>)
    requires Closed(bs, s) && IsPath(bs, path) && path[0] in s
    ensures path[|path| - 1] in s
  {
    var n := |path|;
    if n > 1 {
      var prefix := path[..n - 1];
      forall t | 0 <= t < |prefix| - 1 ensures Adjacent(bs, prefix[t], prefix[t + 1]) {
        assert prefix[t] == path[t] && prefix[t + 1] == path[t + 1];
      }
      assert IsPath(bs, prefix);
      ClosedKeepsPath(bs, s, prefix);
      assert Adjacent(bs, path[n - 2], path[n - 1]);
      var q :| 0 <= q < |bs| && Connects(bs[q], path[n - 2], path[n - 1]);
      var a :| 0 <= a < |s| && s[a] == path[n - 2];
      assert Incident(bs[q], s[a]);
    }
  }

  /** Everything reachable from a member of a closed set is in the set. */
  lemma ClosedKeepsReachable(bs: seq<Bridge>, s: seq<int>, x: int, y: int)
    requires Closed(bs, s) && x in s && Reachable(bs, x, y)
    ensures y in s
  {
    var path :| IsPath(bs, path) && path[0] == x && path[|path| - 1] == y;
    ClosedKeepsPath(bs, s, path);
  }

  // ---------------------------------------------------- counting island lists

  predicate Distinct(s: seq<int>) {
    forall a, c :: 0 <= a < c < |s| ==> s[a] != s[c]
  }

  predicate InRange(s: seq<int>, n: int) {
    forall a :: 0 <= a < |s| ==> 0 <= s[a] < n
  }

  /** A list of distinct indices below `n` has at most `n` entries. */
  lemma {:induction false} DistinctBound(s: seq<int>, n: nat)
    requires Distinct(s) && InRange(s, n)
    ensures |s| <= n
  {
    if s != [] {
      assert 0 <= s[0] < n;
      if p :| 0 <= p < |s| && s[p] == n - 1 {
        var t := s[..p] + s[p + 1..];
        assert forall a :: 0 <= a < |t| ==> t[a] == s[if a < p then a else a + 1];
        assert Distinct(t) && InRange(t, n - 1);
        DistinctBound(t, n - 1);
      } else {
        assert InRange(s, n - 1);
        DistinctBound(s, n - 1);
      }
    }
  }

  /** A list of distinct indices below `n` that misses one of them has fewer than `n` entries. */
  lemma MissingBound(s: seq<int>, n: nat, x: int)
    requires Distinct(s) && InRange(s, n) && 0 <= x < n && x !in s
    ensures |s| < n
  {
    var u := seq(|s|, a requires 0 <= a < |s| => if s[a] == n - 1 then x else s[a]);
    assert InRange(u, n - 1);
    DistinctBound(u, n - 1);
  }

  /** `n` distinct indices below `n` are all of them. */
  lemma FullContainsAll(s: seq<int>, n: nat)
    requires Distinct(s) && InRange(s, n) && |s| == n
    ensures forall x :: 0 <= x < n ==> x in s
  {
    forall x | 0 <= x < n ensures x in s {
      if x !in s {
        MissingBound(s, n, x);
      }
    }
  }

  /** A list holding every index below `n` has at least `n` entries. */
  lemma {:induction false} CoverBound(s: seq<int>, n: nat)
    requires forall x :: 0 <= x < n ==> x in s
    ensures |s| >= n
  {
    if n > 0 {
      assert n - 1 in s;
      var p :| 0 <= p < |s| && s[p] == n - 1;
      var t := s[..p] + s[p + 1..];
      forall x | 0 <= x < n - 1 ensures x in t {
        assert x in s;
        var a :| 0 <= a < |s| && s[a] == x;
        assert t[if a < p then a else a - 1] == x;
      }
      CoverBound(t, n - 1);
    }
  }

  // ---------------------------------------------------------- AllTargetNumber

  /** `AllTargetNumber`: every island has exactly its target number of bridges. */
  function AllTargetNumber(s: seq<Island>): (r: bool)
    ensures r <==> forall k :: 0 <= k < |s| ==> s[k].current == s[k].target
    ensures r <==> forall k :: 0 <= k < |s| ==> UnderTarget(s[k]) == 0
  {
    if s == [] then true
    else if s[0].current != s[0].target then false
    else AllTargetNumber(s[1..])
  }

  // ---------------------------------------------------------- CanSetAnyBridge

  /** Every neighbour link is -1 or an island index. */
  predicate LinksValid(s: seq<Island>) {
    forall k, d :: 0 <= k < |s| ==> -1 <= Link(s[k], d) < |s|
  }

  lemma LinksCorrectValid(s: seq<Island>)
    requires LinksCorrect(s)
    ensures LinksValid(s)
  {
    forall k, d | 0 <= k < |s| ensures -1 <= Link(s[k], d) < |s| {
      LinksInRange(s, k, d);
    }
  }

  /** The test applied to one neighbour `n` of island `index`. */
  predicate SettableLink(b: Board, index: int, n: int)
    requires 0 <= index < |b.islands| && -1 <= n < |b.islands|
  {
    n != -1 && UnderTarget(b.islands[n]) != 0 && BridgeInfo(b, index, n).kind in {Single, OK}
  }

  /**
    A bridge can still be set between island `index` and its neighbour in
    direction `d`: both have a nonzero deficit and the pair is an existing
    single bridge or a creatable one.
  */
  predicate Settable(b: Board, index: int, d: Direction)
    requires LinksValid(b.islands) && 0 <= index < |b.islands|
  {
    UnderTarget(b.islands[index]) != 0 && SettableLink(b, index, Link(b.islands[index], d))
  }

  /** The scan of `CanSetAnyBridge` from island `index` on. */
  function CanSetFrom(b: Board, index: nat): (r: bool)
    requires LinksValid(b.islands)
    decreases |b.islands| - index
    ensures r <==> exists k, d :: index <= k < |b.islands| && Settable(b, k, d)
  {
    if index >= |b.islands| then false
    else
      var island := b.islands[index];
      assert island.north == Link(island, North) && island.east == Link(island, East);
      assert island.south == Link(island, South) && island.west == Link(island, West);
      if UnderTarget(island) != 0 &&
         (SettableLink(b, index, island.north) || SettableLink(b, index, island.east) ||
          SettableLink(b, index, island.south) || SettableLink(b, index, island.west))
      then
        assert Settable(b, index, North) || Settable(b, index, East) ||
               Settable(b, index, South) || Settable(b, index, West);
        true
      else
        var r := CanSetFrom(b, index + 1);
        assert forall d :: !Settable(b, index, d);
        r
  }

  /** `CanSetAnyBridge`: is there any pair between which a bridge could still be set? */
  function CanSetAnyBridge(b: Board): (r: bool)
    requires LinksValid(b.islands)
    ensures r <==> exists k, d :: 0 <= k < |b.islands| && Settable(b, k, d)
  {
    CanSetFrom(b, 0)
  }

  /** When every island meets its target, no bridge can be set anywhere. */
  lemma TargetsMetLeaveNothingToSet(b: Board)
    requires LinksValid(b.islands) && AllTargetNumber(b.islands)
    ensures !CanSetAnyBridge(b)
  {
    forall k, d | 0 <= k < |b.islands| ensures !Settable(b, k, d) {
      assert UnderTarget(b.islands[k]) == 0;
    }
  }

  // ------------------------------------------------------------ game status

  /** The four status messages `CheckGameStatus` shows. */
  datatype GameStatus = NoGame | Solved | NotSolvedYet | Stuck

  /** The status `CheckGameStatus` derives from a board. */
  ghost function StatusOf(b: Board): GameStatus
    requires LinksValid(b.islands)
  {
    if |b.islands| == 0 then NoGame
    else if Connected(b) && AllTargetNumber(b.islands) then Solved
    else if CanSetAnyBridge(b) then NotSolvedYet
    else Stuck
  }

  /**
    The status names the situation exactly: solved means connected with every
    target met, and a board that is not solved is "not solved yet" precisely
    when some bridge can still be set.
  */
  lemma StatusMeaning(b: Board)
    requires LinksValid(b.islands)
    ensures StatusOf(b) == NoGame <==> |b.islands| == 0
    ensures StatusOf(b) == Solved <==>
      |b.islands| > 0 && Connected(b) && forall k :: 0 <= k < |b.islands| ==> UnderTarget(b.islands[k]) == 0
    ensures StatusOf(b) == NotSolvedYet ==> exists k, d :: 0 <= k < |b.islands| && Settable(b, k, d)
    ensures StatusOf(b) == Stuck ==> forall k, d :: 0 <= k < |b.islands| ==> !Settable(b, k, d)
    ensures StatusOf(b) == Solved ==> forall k, d :: 0 <= k < |b.islands| ==> !Settable(b, k, d)
  {
    if StatusOf(b) == Solved {
      TargetsMetLeaveNothingToSet(b);
    }
  }
}
