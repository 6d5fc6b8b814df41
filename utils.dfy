/** Grid geometry, the breadth-first path finder and the clock formatter
    (colony-mvp/src/utils.js). */
module Utils {
  import opened Constants

  datatype Option<T> = None | Some(value: T)

  /** A tile coordinate. */
  datatype Point = Point(x: int, y: int)

  /** A value Math.random() may return. */
  predicate IsDraw(r: real)
  {
    0.0 <= r < 1.0
  }

  /** randInt(lo, hi) on the draw `r`: the draw scaled to the hi - lo + 1
      integers from lo and floored. */
  function RandInt(lo: int, hi: int, r: real): (n: int)
    ensures lo <= hi && IsDraw(r) ==> lo <= n <= hi
  {
    var width := (hi - lo + 1) as real;
    assert lo <= hi && IsDraw(r) ==> 0.0 <= r * width < width by {
      if lo <= hi && IsDraw(r) {
        assert r * width < 1.0 * width;
      }
    }
    (r * width).Floor + lo
  }

  predicate InBounds(x: int, y: int)
  {
    x >= 0 && y >= 0 && x < MAP_WIDTH && y < MAP_HEIGHT
  }

  function Abs(n: int): nat
  {
    if n < 0 then -n else n
  }

  /** Taxicab distance; zero exactly on the same tile. */
  function Manhattan(a: Point, b: Point): (d: nat)
    ensures d == 0 <==> a == b
  {
    Abs(a.x - b.x) + Abs(a.y - b.y)
  }

  lemma ManhattanSymmetric(a: Point, b: Point)
    ensures Manhattan(a, b) == Manhattan(b, a)
  {
  }

  lemma ManhattanTriangle(a: Point, b: Point, c: Point)
    ensures Manhattan(a, c) <= Manhattan(a, b) + Manhattan(b, c)
  {
  }

  /** The four orthogonal neighbours, in the fixed order +x, -x, +y, -y that
      decides how the path finder breaks ties. */
  function Neighbors4(x: int, y: int): (r: seq<Point>)
    ensures |r| == 4
    ensures r[0].x > x && r[1].x < x && r[2].y > y && r[3].y < y
    ensures forall q :: q in r <==> Manhattan(Point(x, y), q) == 1
  {
    [Point(x + 1, y), Point(x - 1, y), Point(x, y + 1), Point(x, y - 1)]
  }

  // ---------------------------------------------------------------------------
  // Routes

  /** `route` walks from `start` to `goal` in 4-connected steps, and every cell
      after the first lies on the map and is walkable. */
  ghost predicate IsRoute(route: seq<Point>, start: Point, goal: Point, walkable: Point -> bool)
  {
    && |route| >= 1
    && route[0] == start
    && route[|route| - 1] == goal
    && (forall k :: 0 < k < |route| ==> Manhattan(route[k - 1], route[k]) == 1)
    && (forall k :: 0 < k < |route| ==> InBounds(route[k].x, route[k].y) && walkable(route[k]))
  }

  ghost predicate Distinct<T>(s: seq<T>)
  {
    forall a, b :: 0 <= a < b < |s| ==> s[a] != s[b]
  }

  /** A route no other route from `start` to `goal` beats in number of cells. */
  ghost predicate IsShortestRoute(route: seq<Point>, start: Point, goal: Point, walkable: Point -> bool)
  {
    && IsRoute(route, start, goal, walkable)
    && Distinct(route)
    && forall other :: IsRoute(other, start, goal, walkable) ==> |route| <= |other|
  }

  ghost predicate Reachable(start: Point, goal: Point, walkable: Point -> bool)
  {
    exists route :: IsRoute(route, start, goal, walkable)
  }

  /** A route needs at least as many steps as the Manhattan distance it covers. */
  lemma {:induction false} RouteAtLeastManhattan(route: seq<Point>, start: Point, goal: Point, walkable: Point -> bool)
    requires IsRoute(route, start, goal, walkable)
    ensures Manhattan(start, goal) <= |route| - 1
  {
    if |route| > 1 {
      var prefix := route[..|route| - 1];
      assert IsRoute(prefix, start, route[|route| - 2], walkable);
      RouteAtLeastManhattan(prefix, start, route[|route| - 2], walkable);
      ManhattanTriangle(start, route[|route| - 2], goal);
    }
  }

  // ---------------------------------------------------------------------------
  // Breadth-first search

  /** All tiles of the map, plus the start tile (which the search never checks). */
  ghost function Universe(start: Point): set<Point>
  {
    (set x: int, y: int | 0 <= x < MAP_WIDTH && 0 <= y < MAP_HEIGHT :: Point(x, y)) + {start}
  }

  ghost predicate Eligible(q: Point, walkable: Point -> bool)
  {
    InBounds(q.x, q.y) && walkable(q)
  }

  /** Every eligible neighbour of `u` has been discovered, at most one layer further out. */
  ghost predicate ExpandedAt(u: Point, dist: map<Point, nat>, walkable: Point -> bool)
    requires u in dist
  {
    forall k :: 0 <= k < 4 ==>
      var v := Neighbors4(u.x, u.y)[k];
      Eligible(v, walkable) ==> v in dist && dist[v] <= dist[u] + 1
  }

  /** The discovery tree: the start is its root, every other discovered tile
      hangs off an adjacent discovered parent one layer closer to the start. */
  ghost predicate TreeInv(cameFrom: map<Point, Option<Point>>, dist: map<Point, nat>, start: Point, walkable: Point -> bool)
  {
    && cameFrom.Keys == dist.Keys
    && start in cameFrom && cameFrom[start] == None && dist[start] == 0
    && forall p {:trigger cameFrom[p]} :: p in cameFrom && p != start ==>
         && cameFrom[p].Some?
         && cameFrom[p].value in cameFrom
         && Manhattan(cameFrom[p].value, p) == 1
         && dist[p] == dist[cameFrom[p].value] + 1
         && Eligible(p, walkable)
  }

  /** Every tile reachable within `bound` steps has been discovered, at no greater depth. */
  lemma {:induction false} RouteDiscovered(route: seq<Point>, start: Point, walkable: Point -> bool,
                                           dist: map<Point, nat>, done: set<Point>, bound: int)
    requires |route| >= 1 && IsRoute(route, start, route[|route| - 1], walkable)
    requires |route| - 1 <= bound
    requires start in dist && dist[start] == 0
    requires forall p :: p in dist && dist[p] < bound ==> p in done
    requires forall u :: u in done ==> u in dist && ExpandedAt(u, dist, walkable)
    ensures route[|route| - 1] in dist && dist[route[|route| - 1]] <= |route| - 1
  {
    if |route| > 1 {
      var prefix := route[..|route| - 1];
      var u, v := route[|route| - 2], route[|route| - 1];
      assert IsRoute(prefix, start, u, walkable);
      RouteDiscovered(prefix, start, walkable, dist, done, bound);
      assert u in done;
      assert v in Neighbors4(u.x, u.y);
      var k :| 0 <= k < 4 && Neighbors4(u.x, u.y)[k] == v;
      assert Eligible(v, walkable);
    }
  }

  /** Breadth-first search from `start` to `goal` over 4-connected tiles that
      are on the map and `walkable`; the start tile itself is never tested.
      Returns the route with both ends included, or None when none exists. */
  method BfsPath(start: Point, goal: Point, walkable: Point -> bool) returns (path: Option<seq<Point>>)
    ensures path.Some? ==> IsShortestRoute(path.value, start, goal, walkable)
    ensures path.None? <==> !Reachable(start, goal, walkable)
    ensures start == goal ==> path == Some([start])
  {
    var queue := [start];
    var cameFrom: map<Point, Option<Point>> := map[start := None];
    // The queue holds `split` tiles of depth `layer` followed by tiles of depth `layer + 1`.
    ghost var dist: map<Point, nat> := map[start := 0];
    ghost var done: set<Point> := {};
    ghost var layer: nat, split: nat := 0, 1;
    while |queue| > 0
      invariant TreeInv(cameFrom, dist, start, walkable)
      invariant Layered(queue, dist, done, split, layer)
      invariant forall p :: p in cameFrom && p !in done ==> p in queue
      invariant DoneInv(done, dist, layer, walkable)
      invariant goal !in done
      invariant done <= Universe(start)
      invariant start == goal ==> queue == [start]
      decreases |Universe(start) - done|
    {
      var cur := queue[0];
      if cur == goal {
        var route := ReconstructPath(cameFrom, goal, start, dist, walkable);
        GoalAtShallowest(queue, cameFrom, dist, done, split, layer, start, walkable, route);
        return Some(route);
      }
      ghost var layer', split' := if split == 0 then layer + 1 else layer, if split == 0 then |queue| - 1 else split - 1;
      PopFront(queue, cameFrom, dist, done, split, layer, walkable, split', layer');
      queue, layer, split := queue[1..], layer', split';
      queue, cameFrom, dist := Expand(cur, queue, cameFrom, walkable, start, dist, done, split);
      FinishExpand(queue, cameFrom, dist, done, cur, split, layer, walkable);
      UniverseShrinks(start, done, cur);
      done := done + {cur};
    }
    Exhausted(cameFrom, dist, done, start, goal, walkable);
    return None;
  }

  /** The queue of the search: distinct, discovered, unfinished tiles, `split`
      of them at depth `d` followed by the rest at depth `d + 1`. */
  ghost predicate Layered(queue: seq<Point>, dist: map<Point, nat>, done: set<Point>, split: nat, d: nat)
  {
    && split <= |queue|
    && (forall k :: 0 <= k < |queue| ==>
          queue[k] in dist && queue[k] !in done && dist[queue[k]] == if k < split then d else d + 1)
    && Distinct(queue)
  }

  /** The first tile of the queue is as shallow as any unfinished tile, so when
      it is the goal no route to it is shorter than its tree route. */
  lemma GoalAtShallowest(queue: seq<Point>, cameFrom: map<Point, Option<Point>>, dist: map<Point, nat>,
                         done: set<Point>, split: nat, layer: nat, start: Point, walkable: Point -> bool,
                         route: seq<Point>)
    requires TreeInv(cameFrom, dist, start, walkable)
    requires |queue| > 0 && Layered(queue, dist, done, split, layer)
    requires forall p :: p in cameFrom && p !in done ==> p in queue
    requires DoneInv(done, dist, layer, walkable)
    requires IsRoute(route, start, queue[0], walkable) && Distinct(route) && |route| == dist[queue[0]] + 1
    ensures IsShortestRoute(route, start, queue[0], walkable)
    ensures Reachable(start, queue[0], walkable)
    ensures start == queue[0] ==> route == [start]
  {
    var goal := queue[0];
    forall other | IsRoute(other, start, goal, walkable)
      ensures dist[goal] + 1 <= |other|
    {
      if |other| - 1 < dist[goal] {
        forall p | p in dist && dist[p] < dist[goal]
          ensures p in done
        {
        }
        RouteDiscovered(other, start, walkable, dist, done, dist[goal]);
      }
    }
    if start == goal {
      assert |route| == 1;
    }
  }

  /** When the queue runs dry every discovered tile is finished, so the goal,
      never finished, is unreachable. */
  lemma Exhausted(cameFrom: map<Point, Option<Point>>, dist: map<Point, nat>, done: set<Point>,
                  start: Point, goal: Point, walkable: Point -> bool)
    requires TreeInv(cameFrom, dist, start, walkable)
    requires forall p :: p in cameFrom ==> p in done
    requires forall u :: u in done ==> u in dist && ExpandedAt(u, dist, walkable)
    requires goal !in done
    ensures !Reachable(start, goal, walkable)
  {
    forall route | IsRoute(route, start, goal, walkable)
      ensures false
    {
      RouteDiscovered(route, start, walkable, dist, done, |route|);
    }
  }

  /** Taking the head off the queue: the head lies at depth `layer'`, the rest
      of the queue is laid out as Expand expects, and moving to the next
      layer keeps the finished tiles within depth. */
  lemma PopFront(queue: seq<Point>, cameFrom: map<Point, Option<Point>>, dist: map<Point, nat>, done: set<Point>,
                 split: nat, layer: nat, walkable: Point -> bool, split': nat, layer': nat)
    requires |queue| > 0 && Layered(queue, dist, done, split, layer)
    requires forall p :: p in cameFrom && p !in done ==> p in queue
    requires DoneInv(done, dist, layer, walkable)
    requires if split == 0 then layer' == layer + 1 && split' == |queue| - 1 else layer' == layer && split' == split - 1
    ensures queue[0] in dist && queue[0] !in done && dist[queue[0]] == layer'
    ensures QueueInv(queue[1..], dist, done, queue[0], split', layer')
    ensures Covers(cameFrom, done, queue[0], queue[1..])
    ensures DoneInv(done, dist, layer', walkable)
  {
    forall p | p in cameFrom && p !in done && p != queue[0]
      ensures p in queue[1..]
    {
      var k :| 0 <= k < |queue| && queue[k] == p;
      assert queue[1..][k - 1] == p;
    }
  }

  /** After expanding `cur`, it joins the finished tiles. */
  lemma FinishExpand(queue: seq<Point>, cameFrom: map<Point, Option<Point>>, dist: map<Point, nat>, done: set<Point>,
                     cur: Point, split: nat, layer: nat, walkable: Point -> bool)
    requires QueueInv(queue, dist, done, cur, split, layer)
    requires Covers(cameFrom, done, cur, queue)
    requires DoneInv(done, dist, layer, walkable)
    requires cur in dist && dist[cur] == layer && ExpandedAt(cur, dist, walkable)
    ensures Layered(queue, dist, done + {cur}, split, layer)
    ensures forall p :: p in cameFrom && p !in done + {cur} ==> p in queue
    ensures DoneInv(done + {cur}, dist, layer, walkable)
  {
  }

  lemma UniverseShrinks(start: Point, done: set<Point>, cur: Point)
    requires cur !in done
    requires cur == start || InBounds(cur.x, cur.y)
    ensures |Universe(start) - (done + {cur})| < |Universe(start) - done|
  {
    assert cur in Universe(start) by {
      if cur != start {
        assert Point(cur.x, cur.y) == cur;
      }
    }
    assert Universe(start) - (done + {cur}) == (Universe(start) - done) - {cur};
  }

  /** The neighbour loop of the search: offers each neighbour of `cur`, in
      Neighbors4 order, and enqueues those on the map, undiscovered and walkable. */
  method Expand(cur: Point, queue: seq<Point>, cameFrom: map<Point, Option<Point>>, walkable: Point -> bool,
                ghost start: Point, ghost dist: map<Point, nat>, ghost done: set<Point>, ghost split: nat)
    returns (queue': seq<Point>, cameFrom': map<Point, Option<Point>>, ghost dist': map<Point, nat>)
    requires TreeInv(cameFrom, dist, start, walkable)
    requires cur in dist && cur !in done
    requires QueueInv(queue, dist, done, cur, split, dist[cur])
    requires Covers(cameFrom, done, cur, queue)
    requires DoneInv(done, dist, dist[cur], walkable)
    ensures TreeInv(cameFrom', dist', start, walkable)
    ensures cur in dist' && dist'[cur] == dist[cur]
    ensures QueueInv(queue', dist', done, cur, split, dist[cur])
    ensures Covers(cameFrom', done, cur, queue')
    ensures DoneInv(done, dist', dist[cur], walkable)
    ensures ExpandedAt(cur, dist', walkable)
  {
    queue', cameFrom', dist' := queue, cameFrom, dist;
    var nbrs := Neighbors4(cur.x, cur.y);
    for j := 0 to 4
      invariant ExpandInv(cur, nbrs, j, queue', cameFrom', dist', walkable, start, dist, done, split)
    {
      var n := nbrs[j];
      if InBounds(n.x, n.y) && n !in cameFrom' && walkable(n) {
        OfferAdded(cur, nbrs, j, queue', cameFrom', dist', walkable, start, dist, done, split);
        cameFrom' := cameFrom'[n := Some(cur)];
        dist' := dist'[n := dist[cur] + 1];
        queue' := queue' + [n];
      } else {
        OfferSkipped(cur, nbrs, j, queue', cameFrom', dist', walkable, start, dist, done, split);
      }
    }
    DoneGrows(done, dist, dist', dist[cur], walkable);
  }

  /** The state of the neighbour loop after offering the first `j` neighbours. */
  ghost predicate ExpandInv(cur: Point, nbrs: seq<Point>, j: nat, queue: seq<Point>, cameFrom: map<Point, Option<Point>>,
                            dist: map<Point, nat>, walkable: Point -> bool,
                            start: Point, dist0: map<Point, nat>, done: set<Point>, split: nat)
  {
    && cur in dist0 && j <= 4 && nbrs == Neighbors4(cur.x, cur.y)
    && TreeInv(cameFrom, dist, start, walkable)
    && Grows(dist0, dist)
    && QueueInv(queue, dist, done, cur, split, dist0[cur])
    && Covers(cameFrom, done, cur, queue)
    && OfferedUpTo(nbrs, j, dist, dist0[cur], walkable)
  }

  lemma OfferAdded(cur: Point, nbrs: seq<Point>, j: nat, queue: seq<Point>, cameFrom: map<Point, Option<Point>>,
                   dist: map<Point, nat>, walkable: Point -> bool,
                   start: Point, dist0: map<Point, nat>, done: set<Point>, split: nat)
    requires ExpandInv(cur, nbrs, j, queue, cameFrom, dist, walkable, start, dist0, done, split) && j < 4
    requires cur !in done && DoneInv(done, dist0, dist0[cur], walkable)
    requires InBounds(nbrs[j].x, nbrs[j].y) && nbrs[j] !in cameFrom && walkable(nbrs[j])
    ensures ExpandInv(cur, nbrs, j + 1, queue + [nbrs[j]], cameFrom[nbrs[j] := Some(cur)],
                      dist[nbrs[j] := dist0[cur] + 1], walkable, start, dist0, done, split)
  {
    var n := nbrs[j];
    assert dist[cur] == dist0[cur];
    TreeExtend(cameFrom, dist, start, walkable, cur, n);
    assert n !in dist0 by {
      assert n !in dist.Keys;
    }
    QueueExtend(queue, dist, done, cur, split, dist0[cur], n);
    OfferedStep(nbrs, j, dist, dist[n := dist0[cur] + 1], dist0[cur], walkable);
  }

  lemma OfferSkipped(cur: Point, nbrs: seq<Point>, j: nat, queue: seq<Point>, cameFrom: map<Point, Option<Point>>,
                     dist: map<Point, nat>, walkable: Point -> bool,
                     start: Point, dist0: map<Point, nat>, done: set<Point>, split: nat)
    requires ExpandInv(cur, nbrs, j, queue, cameFrom, dist, walkable, start, dist0, done, split) && j < 4
    requires DoneInv(done, dist0, dist0[cur], walkable)
    requires !(InBounds(nbrs[j].x, nbrs[j].y) && nbrs[j] !in cameFrom && walkable(nbrs[j]))
    ensures ExpandInv(cur, nbrs, j + 1, queue, cameFrom, dist, walkable, start, dist0, done, split)
  {
    var n := nbrs[j];
    if Eligible(n, walkable) {
      assert n in cameFrom;
      if n in done {
        assert dist[n] == dist0[n];
      } else if n != cur {
        assert n in queue;
        var k :| 0 <= k < |queue| && queue[k] == n;
      }
    }
    OfferedStep(nbrs, j, dist, dist, dist0[cur], walkable);
  }

  // Invariants of the search, named so that each step's proof stays small.

  /** The first `j` neighbours, when eligible, are discovered at most one layer below `d`. */
  ghost predicate OfferedUpTo(nbrs: seq<Point>, j: nat, dist: map<Point, nat>, d: nat, walkable: Point -> bool)
    requires j <= |nbrs|
  {
    forall k :: 0 <= k < j ==> Eligible(nbrs[k], walkable) ==> nbrs[k] in dist && dist[nbrs[k]] <= d + 1
  }

  lemma OfferedStep(nbrs: seq<Point>, j: nat, dist: map<Point, nat>, dist': map<Point, nat>, d: nat, walkable: Point -> bool)
    requires j < |nbrs| && OfferedUpTo(nbrs, j, dist, d, walkable) && Grows(dist, dist')
    requires Eligible(nbrs[j], walkable) ==> nbrs[j] in dist' && dist'[nbrs[j]] <= d + 1
    ensures OfferedUpTo(nbrs, j + 1, dist', d, walkable)
  {
  }

  ghost predicate Grows(dist: map<Point, nat>, dist': map<Point, nat>)
  {
    dist.Keys <= dist'.Keys && forall p :: p in dist ==> dist'[p] == dist[p]
  }

  /** The waiting tiles are distinct, discovered and unfinished: `split` of
      them at depth `d`, the rest at depth `d + 1`. */
  ghost predicate QueueInv(queue: seq<Point>, dist: map<Point, nat>, done: set<Point>, cur: Point, split: nat, d: nat)
  {
    && split <= |queue|
    && (forall k :: 0 <= k < |queue| ==>
          queue[k] in dist && queue[k] !in done && queue[k] != cur &&
          dist[queue[k]] == if k < split then d else d + 1)
    && Distinct(queue)
  }

  /** Every discovered tile is finished, being expanded, or waiting. */
  ghost predicate Covers(cameFrom: map<Point, Option<Point>>, done: set<Point>, cur: Point, queue: seq<Point>)
  {
    forall p :: p in cameFrom && p !in done && p != cur ==> p in queue
  }

  /** Finished tiles lie no deeper than `d` and have all their neighbours discovered. */
  ghost predicate DoneInv(done: set<Point>, dist: map<Point, nat>, d: nat, walkable: Point -> bool)
  {
    forall u :: u in done ==> u in dist && dist[u] <= d && ExpandedAt(u, dist, walkable)
  }

  lemma TreeExtend(cameFrom: map<Point, Option<Point>>, dist: map<Point, nat>, start: Point,
                   walkable: Point -> bool, cur: Point, n: Point)
    requires TreeInv(cameFrom, dist, start, walkable)
    requires cur in cameFrom && n !in cameFrom && Eligible(n, walkable) && Manhattan(cur, n) == 1
    ensures TreeInv(cameFrom[n := Some(cur)], dist[n := dist[cur] + 1], start, walkable)
  {
  }

  lemma QueueExtend(queue: seq<Point>, dist: map<Point, nat>, done: set<Point>, cur: Point, split: nat, d: nat, n: Point)
    requires QueueInv(queue, dist, done, cur, split, d)
    requires n !in dist && n != cur && n !in done
    ensures QueueInv(queue + [n], dist[n := d + 1], done, cur, split, d)
  {
  }

  lemma DoneGrows(done: set<Point>, dist: map<Point, nat>, dist': map<Point, nat>, d: nat, walkable: Point -> bool)
    requires DoneInv(done, dist, d, walkable) && Grows(dist, dist')
    ensures DoneInv(done, dist', d, walkable)
  {
    forall u | u in done
      ensures u in dist' && dist'[u] <= d && ExpandedAt(u, dist', walkable)
    {
      assert ExpandedAt(u, dist, walkable);
    }
  }

  /** The tree path from the start down to a discovered tile. */
  ghost function TreeRoute(cameFrom: map<Point, Option<Point>>, dist: map<Point, nat>, start: Point,
                           walkable: Point -> bool, p: Point): seq<Point>
    requires TreeInv(cameFrom, dist, start, walkable) && p in cameFrom
    decreases dist[p]
  {
    if p == start then [p] else TreeRoute(cameFrom, dist, start, walkable, cameFrom[p].value) + [p]
  }

  /** The tree path is a route whose k-th cell lies at depth k. */
  lemma {:induction false} TreeRouteIsRoute(cameFrom: map<Point, Option<Point>>, dist: map<Point, nat>, start: Point,
                                            walkable: Point -> bool, p: Point)
    requires TreeInv(cameFrom, dist, start, walkable) && p in cameFrom
    ensures var r := TreeRoute(cameFrom, dist, start, walkable, p);
      && IsRoute(r, start, p, walkable)
      && |r| == dist[p] + 1
      && (forall k :: 0 <= k < |r| ==> r[k] in dist && dist[r[k]] == k)
      && Distinct(r)
    decreases dist[p]
  {
    if p != start {
      var q := cameFrom[p].value;
      TreeRouteIsRoute(cameFrom, dist, start, walkable, q);
      var r := TreeRoute(cameFrom, dist, start, walkable, q);
      assert TreeRoute(cameFrom, dist, start, walkable, p) == r + [p];
    }
  }

  /** One step back along the discovery tree: the parent's route, then the
      tile, then what has been collected so far. */
  lemma BackStep(cameFrom: map<Point, Option<Point>>, dist: map<Point, nat>, start: Point,
                 walkable: Point -> bool, p: Point, path: seq<Point>, full: seq<Point>)
    requires TreeInv(cameFrom, dist, start, walkable) && p in cameFrom
    requires TreeRoute(cameFrom, dist, start, walkable, p) + path == full
    ensures cameFrom[p].None? ==> [p] + path == full
    ensures cameFrom[p].Some? ==>
      && cameFrom[p].value in cameFrom && dist[cameFrom[p].value] < dist[p]
      && TreeRoute(cameFrom, dist, start, walkable, cameFrom[p].value) + ([p] + path) == full
  {
    if p != start {
      var q := cameFrom[p].value;
      assert TreeRoute(cameFrom, dist, start, walkable, p) == TreeRoute(cameFrom, dist, start, walkable, q) + [p];
      assert TreeRoute(cameFrom, dist, start, walkable, q) + [p] + path == TreeRoute(cameFrom, dist, start, walkable, q) + ([p] + path);
    }
  }

  /** Walks the discovery tree back from `goal` to the start. */
  method ReconstructPath(cameFrom: map<Point, Option<Point>>, goal: Point,
                         ghost start: Point, ghost dist: map<Point, nat>, ghost walkable: Point -> bool)
    returns (path: seq<Point>)
    requires TreeInv(cameFrom, dist, start, walkable)
    requires goal in cameFrom
    ensures IsRoute(path, start, goal, walkable)
    ensures |path| == dist[goal] + 1
    ensures forall k :: 0 <= k < |path| ==> path[k] in dist && dist[path[k]] == k
    ensures Distinct(path)
  {
    ghost var full := TreeRoute(cameFrom, dist, start, walkable, goal);
    path := [];
    var k: Option<Point> := Some(goal);
    while k.Some?
      invariant k.Some? ==> k.value in cameFrom && TreeRoute(cameFrom, dist, start, walkable, k.value) + path == full
      invariant k.None? ==> path == full
      decreases if k.Some? then dist[k.value] + 1 else 0
    {
      var p := k.value;
      BackStep(cameFrom, dist, start, walkable, p, path, full);
      path := [p] + path;
      k := cameFrom[p];
    }
    TreeRouteIsRoute(cameFrom, dist, start, walkable, goal);
  }

  // ---------------------------------------------------------------------------
  // Clock text

  /** Day number and "h:mm" text shown for a simulated time. */
  datatype Clock = Clock(day: int, timeStr: string)

  predicate IsDigits(s: string)
  {
    forall k :: 0 <= k < |s| ==> '0' <= s[k] <= '9'
  }

  /** The number a string of decimal digits spells. */
  function DecimalValue(s: string): nat
    requires IsDigits(s)
  {
    if |s| == 0 then 0 else DecimalValue(s[..|s| - 1]) * 10 + (s[|s| - 1] as int - '0' as int)
  }

  /** Decimal text of a number, as Number.prototype.toString gives it. */
  function Decimal(n: nat): (s: string)
    ensures |s| >= 1 && IsDigits(s)
  {
    var d := ('0' as int + n % 10) as char;
    if n < 10 then [d] else Decimal(n / 10) + [d]
  }

  lemma {:induction false} DecimalRoundTrip(n: nat)
    ensures DecimalValue(Decimal(n)) == n
  {
    var s := Decimal(n);
    if n >= 10 {
      DecimalRoundTrip(n / 10);
      assert s[..|s| - 1] == Decimal(n / 10);
    }
  }

  /** String.prototype.padStart(2, '0'). */
  function PadStart2(s: string): (r: string)
    ensures |r| == if |s| < 2 then 2 else |s|
    ensures IsDigits(s) ==> IsDigits(r) && DecimalValue(r) == DecimalValue(s)
    decreases 2 - |s|
  {
    if |s| < 2 then
      if IsDigits(s) then LeadingZero(s); PadStart2("0" + s) else PadStart2("0" + s)
    else s
  }

  lemma {:induction false} LeadingZero(s: string)
    requires IsDigits(s)
    ensures IsDigits("0" + s) && DecimalValue("0" + s) == DecimalValue(s)
  {
    if |s| > 0 {
      LeadingZero(s[..|s| - 1]);
      assert ("0" + s)[..|s|] == "0" + s[..|s| - 1];
    }
  }

  /** Formats whole minutes as (day, "h:mm"). Reading the text back gives the
      hour of the day and the minute of the hour, which together with the day
      recover the (floored) time. */
  function FormatTime(totalMinutes: real): (c: Clock)
    requires totalMinutes >= 0.0
    ensures c.day == (totalMinutes / 1440.0).Floor + 1 && c.day >= 1
    ensures |c.timeStr| >= 4 && c.timeStr[|c.timeStr| - 3] == ':'
    ensures var hs, ms := c.timeStr[..|c.timeStr| - 3], c.timeStr[|c.timeStr| - 2..];
      && IsDigits(hs) && IsDigits(ms)
      && DecimalValue(hs) <= 23 && DecimalValue(ms) <= 59
      && (c.day - 1) * 1440 + DecimalValue(hs) * 60 + DecimalValue(ms) == totalMinutes.Floor
  {
    var dayIndex := (totalMinutes / 1440.0).Floor;
    var minutesToday := (totalMinutes - 1440.0 * dayIndex as real).Floor;
    assert 0 <= minutesToday < 1440 && dayIndex * 1440 + minutesToday == totalMinutes.Floor;
    var hours := minutesToday / 60;
    var mins := minutesToday % 60;
    assert |Decimal(mins)| <= 2;
    var hs, ms := Decimal(hours), PadStart2(Decimal(mins));
    DecimalRoundTrip(hours);
    DecimalRoundTrip(mins);
    var text := hs + ":" + ms;
    assert text[..|text| - 3] == hs && text[|text| - 2..] == ms;
    Clock(dayIndex + 1, text)
  }
}
