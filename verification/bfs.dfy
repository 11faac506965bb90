/**
 * The two breadth-first searches of the shortest-path programs, over the
 * adjacency map their edge lists build. Both keep a FIFO queue, a visited set
 * and a parent map whose start entry is the sentinel `-1`, and read the path
 * off the parent map from the end vertex back to the start.
 */
module Bfs {
  import opened Seqs
  import opened Graph

  /** No vertex id can be mistaken for the `-1` parent sentinel. */
  ghost predicate NoSentinel(adj: Adjacency) {
    forall u, w | Edge(adj, u, w) :: w != -1
  }

  /**
   * The parent map is a BFS tree rooted at `start`: every other recorded
   * vertex was discovered from a recorded neighbour one level closer.
   * `dist` is the level, kept only for the proof.
   */
  ghost predicate ParentTree(adj: Adjacency, start: int, parents: map<int, int>, dist: map<int, nat>) {
    && start in parents && parents[start] == -1
    && parents.Keys == dist.Keys && dist[start] == 0
    && (forall v | v in parents :: v != -1)
    && (forall v | v in parents && v != start ::
          && parents[v] in parents
          && Edge(adj, parents[v], v)
          && dist[v] == dist[parents[v]] + 1)
  }

  /** `v` has been expanded: all its neighbours are recorded, at most one level deeper. */
  ghost predicate Settled(adj: Adjacency, dist: map<int, nat>, v: int) {
    v in adj && v in dist && forall w | w in adj[v] :: w in dist && dist[w] <= dist[v] + 1
  }

  /**
   * The BFS frontier argument. If every recorded vertex outside `open` is
   * settled and the open ones are at level `d` or deeper, then a walk from the
   * start either ends at a recorded vertex no deeper than its own length, or
   * is longer than `d` steps.
   */
  lemma {:induction false} Frontier(adj: Adjacency, start: int, dist: map<int, nat>, open: set<int>, d: int, p: seq<int>)
    requires start in dist && dist[start] == 0
    requires forall v | v in dist && v !in open :: Settled(adj, dist, v)
    requires forall v | v in open :: v in dist && dist[v] >= d
    requires IsWalk(adj, p) && p[0] == start
    ensures (p[|p| - 1] in dist && dist[p[|p| - 1]] <= |p| - 1) || |p| - 1 >= d + 1
    decreases |p|
  {
    if |p| > 1 {
      var q := p[..|p| - 1];
      assert IsWalk(adj, q);
      Frontier(adj, start, dist, open, d, q);
      var x := p[|p| - 2];
      assert Edge(adj, x, p[|p| - 1]);
    }
  }

  /**
   * Follows parent links from `end` until the sentinel, pushing each vertex:
   * the result runs from `end` back to `start`, each vertex discovered from
   * the next, one vertex per level.
   */
  method TraceBack(ghost adj: Adjacency, parents: map<int, int>, ghost dist: map<int, nat>, start: int, end: int)
    returns (rev: seq<int>)
    requires ParentTree(adj, start, parents, dist) && end in parents
    ensures |rev| == dist[end] + 1
    ensures rev[0] == end && rev[|rev| - 1] == start
    ensures forall i | 0 <= i < |rev| - 1 :: Edge(adj, rev[i + 1], rev[i])
    ensures Distinct(rev)
  {
    rev := [];
    var v := end;
    while v != -1
      invariant forall i | 0 <= i < |rev| :: rev[i] in parents && dist[rev[i]] + i == dist[end]
      invariant v != -1 ==> v in parents && dist[v] + |rev| == dist[end]
      invariant v != -1 ==> (if |rev| == 0 then v == end else v == parents[rev[|rev| - 1]])
      invariant v == -1 ==> |rev| == dist[end] + 1 && rev[|rev| - 1] == start
      invariant |rev| > 0 ==> rev[0] == end
      invariant forall i | 0 <= i < |rev| - 1 :: rev[i] != start && rev[i + 1] == parents[rev[i]]
      decreases if v == -1 then 0 else dist[v] + 1
    {
      ghost var front := rev;
      rev := rev + [v];
      forall i | 0 <= i < |rev| - 1
        ensures rev[i] != start && rev[i + 1] == parents[rev[i]]
      {
        assert rev[i] == front[i];
        if i + 1 < |front| {
          assert rev[i + 1] == front[i + 1];
        } else {
          assert rev[i + 1] == v && v == parents[front[i]];
        }
      }
      v := parents[v];
    }
  }

  /**
   * The state both searches keep between two dequeues: a BFS tree over the
   * visited vertices, a duplicate-free queue of visited vertices whose levels
   * never decrease, and no visited vertex more than one level below the head.
   */
  ghost predicate Layered(adj: Adjacency, start: int, parents: map<int, int>, dist: map<int, nat>,
                          visited: set<int>, queue: seq<int>) {
    && ParentTree(adj, start, parents, dist) && visited == parents.Keys && visited <= adj.Keys
    && (forall i | 0 <= i < |queue| :: queue[i] in visited)
    && Distinct(queue)
    && (forall i, j | 0 <= i <= j < |queue| :: dist[queue[i]] <= dist[queue[j]])
    && (|queue| > 0 ==> forall v | v in visited :: dist[v] <= dist[queue[0]] + 1)
  }

  /**
   * The state inside the neighbour loop of a dequeued vertex `u` at level `d`:
   * the vertices `pushed` so far are exactly the newly visited ones, all one
   * level below `u`, queued behind the original queue `queue0`.
   */
  ghost predicate Expanding(adj: Adjacency, start: int, u: int, d: nat, parents: map<int, int>, dist: map<int, nat>,
                            visited: set<int>, visited0: set<int>, queue0: seq<int>, pushed: seq<int>) {
    && TreeSoFar(adj, start, u, d, parents, dist, visited, visited0, pushed)
    && QueueSoFar(adj, u, d, dist, visited, queue0 + pushed)
  }

  /** The tree half of `Expanding`: what the parent map and the levels record. */
  ghost predicate TreeSoFar(adj: Adjacency, start: int, u: int, d: nat, parents: map<int, int>, dist: map<int, nat>,
                            visited: set<int>, visited0: set<int>, pushed: seq<int>) {
    && ParentTree(adj, start, parents, dist) && visited == parents.Keys && visited <= adj.Keys
    && visited0 <= visited
    && (forall x | x in pushed :: x in visited && x !in visited0 && dist[x] == d + 1)
    && (forall x | x in visited && x !in visited0 :: x in pushed)
    && u in visited && dist[u] == d
    && (forall v | v in visited :: dist[v] <= d + 1)
  }

  /** The queue half of `Expanding`: the queue's order and which visited vertices are settled. */
  ghost predicate QueueSoFar(adj: Adjacency, u: int, d: nat, dist: map<int, nat>, visited: set<int>, queue: seq<int>)
    requires visited <= dist.Keys
  {
    && Distinct(queue)
    && u !in queue
    && (forall j | 0 <= j < |queue| :: queue[j] in visited)
    && (forall j, k | 0 <= j <= k < |queue| :: dist[queue[j]] <= dist[queue[k]])
    && (forall x | x in queue :: d <= dist[x] <= d + 1)
    && (forall v | v in visited && v !in queue && v != u :: Settled(adj, dist, v))
  }

  /** Recording `u` as the parent of a new vertex `w` one level below keeps the BFS tree. */
  lemma TreeGrows(adj: Adjacency, start: int, parents: map<int, int>, dist: map<int, nat>, u: int, w: int)
    requires ParentTree(adj, start, parents, dist)
    requires u in parents && Edge(adj, u, w) && w !in parents && w != -1
    ensures ParentTree(adj, start, parents[w := u], dist[w := dist[u] + 1])
  {
    var parents', dist' := parents[w := u], dist[w := dist[u] + 1];
    forall v | v in parents' && v != start
      ensures parents'[v] in parents' && Edge(adj, parents'[v], v) && dist'[v] == dist'[parents'[v]] + 1
    {
      if v != w {
        assert parents'[v] == parents[v] && parents[v] in parents;
      }
    }
  }

  /** Queueing a new vertex one level below `d` keeps the queue's levels nondecreasing within `[d, d + 1]`. */
  lemma QueueGrows(dist: map<int, nat>, queue: seq<int>, d: nat, w: int)
    requires forall j | 0 <= j < |queue| :: queue[j] in dist && queue[j] != w
    requires forall j, k | 0 <= j <= k < |queue| :: dist[queue[j]] <= dist[queue[k]]
    requires forall x | x in queue :: d <= dist[x] <= d + 1
    ensures forall j, k | 0 <= j <= k < |queue| + 1 ::
      dist[w := d + 1][(queue + [w])[j]] <= dist[w := d + 1][(queue + [w])[k]]
    ensures forall x | x in queue + [w] :: d <= dist[w := d + 1][x] <= d + 1
  {
    var dist', queue' := dist[w := d + 1], queue + [w];
    forall j, k | 0 <= j <= k < |queue'|
      ensures dist'[queue'[j]] <= dist'[queue'[k]]
    {
      if k < |queue| {
        assert queue'[j] == queue[j] && queue'[k] == queue[k];
      } else if j < |queue| {
        assert queue'[j] == queue[j] && queue[j] in queue;
      }
    }
    forall x | x in queue'
      ensures d <= dist'[x] <= d + 1
    {
      if x != w {
        assert x in queue;
      }
    }
  }

  /** Discovering an unvisited neighbour `w` of `u` keeps the loop state. */
  lemma Discover(adj: Adjacency, start: int, u: int, d: nat, parents: map<int, int>, dist: map<int, nat>,
                 visited: set<int>, visited0: set<int>, queue0: seq<int>, pushed: seq<int>, w: int)
    requires NoSentinel(adj) && Closed(adj)
    requires Expanding(adj, start, u, d, parents, dist, visited, visited0, queue0, pushed)
    requires Edge(adj, u, w) && w !in visited
    ensures Expanding(adj, start, u, d, parents[w := u], dist[w := d + 1], visited + {w}, visited0, queue0, pushed + [w])
  {
    DiscoverTree(adj, start, u, d, parents, dist, visited, visited0, pushed, w);
    assert queue0 + (pushed + [w]) == (queue0 + pushed) + [w];
    DiscoverQueue(adj, u, d, dist, visited, queue0 + pushed, w);
  }

  /** Discovering `w` keeps the tree half. */
  lemma DiscoverTree(adj: Adjacency, start: int, u: int, d: nat, parents: map<int, int>, dist: map<int, nat>,
                     visited: set<int>, visited0: set<int>, pushed: seq<int>, w: int)
    requires NoSentinel(adj) && Closed(adj)
    requires TreeSoFar(adj, start, u, d, parents, dist, visited, visited0, pushed)
    requires Edge(adj, u, w) && w !in visited
    ensures TreeSoFar(adj, start, u, d, parents[w := u], dist[w := d + 1], visited + {w}, visited0, pushed + [w])
  {
    assert w != -1;
    TreeGrows(adj, start, parents, dist, u, w);
  }

  /** Discovering `w` keeps the queue half. */
  lemma DiscoverQueue(adj: Adjacency, u: int, d: nat, dist: map<int, nat>, visited: set<int>, queue: seq<int>, w: int)
    requires visited == dist.Keys && QueueSoFar(adj, u, d, dist, visited, queue)
    requires u in visited && w !in visited
    ensures QueueSoFar(adj, u, d, dist[w := d + 1], visited + {w}, queue + [w])
  {
    var dist', visited', queue' := dist[w := d + 1], visited + {w}, queue + [w];
    assert w !in queue;
    QueueGrows(dist, queue, d, w);
    assert forall j | 0 <= j < |queue'| :: queue'[j] in visited';
    forall v | v in visited' && v !in queue' && v != u
      ensures Settled(adj, dist', v)
    {
      assert v in visited && v !in queue;
      assert Settled(adj, dist, v) && w !in dist;
    }
  }

  /** When the newly pushed `end` is found, the level recorded for it is its distance. */
  lemma EndFound(adj: Adjacency, start: int, u: int, d: nat, parents: map<int, int>, dist: map<int, nat>,
                 visited: set<int>, visited0: set<int>, queue0: seq<int>, pushed: seq<int>, end: int)
    requires Expanding(adj, start, u, d, parents, dist, visited, visited0, queue0, pushed)
    requires end in pushed
    ensures forall q | IsWalk(adj, q) && q[0] == start && q[|q| - 1] == end :: dist[end] + 1 <= |q|
  {
    var open := (set x | x in queue0 + pushed) + {u};
    forall q | IsWalk(adj, q) && q[0] == start && q[|q| - 1] == end
      ensures dist[end] + 1 <= |q|
    {
      Frontier(adj, start, dist, open, d, q);
    }
  }

  /** Leaving the neighbour loop: the extended queue is layered, and `u` is settled if all its neighbours were seen. */
  lemma Expanded(adj: Adjacency, start: int, u: int, d: nat, parents: map<int, int>, dist: map<int, nat>,
                 visited: set<int>, visited0: set<int>, queue0: seq<int>, pushed: seq<int>)
    requires Expanding(adj, start, u, d, parents, dist, visited, visited0, queue0, pushed)
    ensures Layered(adj, start, parents, dist, visited, queue0 + pushed)
    ensures (forall w | w in adj[u] :: w in visited) ==>
      forall v | v in visited && v !in queue0 + pushed :: Settled(adj, dist, v)
    ensures visited == visited0 ==> pushed == []
    ensures visited0 <= visited
    ensures visited != visited0 ==> adj.Keys - visited < adj.Keys - visited0
  {
    var queue := queue0 + pushed;
    assert forall x | x in pushed :: x in visited && x !in visited0;
    assert forall x | x in queue :: d <= dist[x];
    if |queue| > 0 {
      assert queue[0] in queue;
    }
    if |pushed| > 0 {
      var x := pushed[0];
      assert x in pushed;
      assert x in adj.Keys - visited0 && x !in adj.Keys - visited;
    } else {
      assert forall y | y in visited :: y in visited0;
      assert visited == visited0;
    }
  }

  /**
   * The neighbour loop run for a dequeued vertex `u`: every neighbour not yet
   * visited is marked, given `u` as parent and queued. With `stopAtEnd` the
   * loop stops right after discovering `end` (the lenient program's early exit).
   */
  method Expand(adj: Adjacency, start: int, end: int, stopAtEnd: bool, u: int,
                parents0: map<int, int>, visited0: set<int>, queue0: seq<int>, ghost dist0: map<int, nat>)
    returns (parents: map<int, int>, visited: set<int>, queue: seq<int>, ghost dist: map<int, nat>, found: bool)
    requires Closed(adj) && NoSentinel(adj)
    requires ParentTree(adj, start, parents0, dist0) && visited0 == parents0.Keys && visited0 <= adj.Keys
    requires u in visited0 && u !in queue0
    requires forall j | 0 <= j < |queue0| :: queue0[j] in visited0
    requires Distinct(queue0)
    requires forall j, k | 0 <= j <= k < |queue0| :: dist0[queue0[j]] <= dist0[queue0[k]]
    requires forall x | x in queue0 :: dist0[u] <= dist0[x] <= dist0[u] + 1
    requires forall v | v in visited0 :: dist0[v] <= dist0[u] + 1
    requires forall v | v in visited0 && v !in queue0 && v != u :: Settled(adj, dist0, v)
    ensures Layered(adj, start, parents, dist, visited, queue)
    ensures visited0 <= visited
    ensures |queue0| <= |queue| && queue[..|queue0|] == queue0
    ensures visited == visited0 ==> queue == queue0
    ensures visited != visited0 ==> adj.Keys - visited < adj.Keys - visited0
    ensures forall x | x in visited && x !in visited0 :: x in queue
    ensures !found ==> forall v | v in visited && v !in queue :: Settled(adj, dist, v)
    ensures found ==> stopAtEnd && end in visited && end !in visited0
    ensures found ==> forall q | IsWalk(adj, q) && q[0] == start && q[|q| - 1] == end :: dist[end] + 1 <= |q|
    ensures stopAtEnd && !found && end !in visited0 ==> end !in visited
  {
    parents, visited, queue, dist, found := parents0, visited0, queue0, dist0, false;
    ghost var d := dist0[u];
    var ns := adj[u];
    ghost var pushed: seq<int> := [];
    assert queue0 + pushed == queue0;
    var i := 0;
    while i < |ns| && !found
      invariant 0 <= i <= |ns|
      invariant Expanding(adj, start, u, d, parents, dist, visited, visited0, queue0, pushed)
      invariant queue == queue0 + pushed
      invariant !found ==> forall j | 0 <= j < i :: ns[j] in visited
      invariant found ==> stopAtEnd && end in pushed
      invariant found ==> forall q | IsWalk(adj, q) && q[0] == start && q[|q| - 1] == end :: dist[end] + 1 <= |q|
      invariant stopAtEnd && !found ==> end !in pushed
    {
      var w := ns[i];
      assert Edge(adj, u, w);
      if w !in visited {
        Discover(adj, start, u, d, parents, dist, visited, visited0, queue0, pushed, w);
        visited := visited + {w};
        parents := parents[w := u];
        dist := dist[w := d + 1];
        queue := queue + [w];
        pushed := pushed + [w];
        if stopAtEnd && w == end {
          found := true;
          EndFound(adj, start, u, d, parents, dist, visited, visited0, queue0, pushed, end);
        }
      }
      i := i + 1;
    }
    Expanded(adj, start, u, d, parents, dist, visited, visited0, queue0, pushed);
  }

  /**
   * `findShortestPathBFS` of the strict shortest-path program: stops when the
   * end vertex is taken off the queue, and returns the traced path reversed
   * (start first), or the empty path when the queue runs dry.
   */
  method ShortestPathOnDequeue(adj: Adjacency, start: int, end: int) returns (path: seq<int>)
    requires Closed(adj) && NoSentinel(adj)
    requires start in adj && start != -1
    ensures |path| > 0 ==> IsShortestWalk(adj, start, end, path) && Distinct(path)
    ensures |path| == 0 <==> !Reachable(adj, start, end)
  {
    var parents: map<int, int> := map[start := -1];
    var visited: set<int> := {start};
    var queue: seq<int> := [start];
    ghost var dist: map<int, nat> := map[start := 0];
    while |queue| > 0
      invariant Layered(adj, start, parents, dist, visited, queue)
      invariant forall v | v in visited && v !in queue :: Settled(adj, dist, v)
      invariant end in visited ==> end in queue
      decreases adj.Keys - visited, |queue|
    {
      var u := queue[0];
      ghost var d := dist[u];
      ghost var open := set x | x in queue;
      queue := queue[1..];
      if u == end {
        forall q | IsWalk(adj, q) && q[0] == start && q[|q| - 1] == end
          ensures dist[end] + 1 <= |q|
        {
          Frontier(adj, start, dist, open, d, q);
        }
        var rev := TraceBack(adj, parents, dist, start, end);
        path := Reverse(rev);
        ReversedTrace(adj, rev, path);
        return;
      }
      if end in visited {
        assert end in queue;
      }
      var found;
      ghost var rest := queue;
      parents, visited, queue, dist, found := Expand(adj, start, end, false, u, parents, visited, queue, dist);
      if end in rest {
        var k :| 0 <= k < |rest| && rest[k] == end;
        assert queue[k] == end;
      }
    }
    forall q | IsWalk(adj, q) && q[0] == start
      ensures q[|q| - 1] != end
    {
      Frontier(adj, start, dist, {}, |q|, q);
    }
    path := [];
  }

  /** Reversing a traced parent chain gives a walk from the start. */
  lemma ReversedTrace(adj: Adjacency, rev: seq<int>, path: seq<int>)
    requires |rev| > 0
    requires forall i | 0 <= i < |rev| - 1 :: Edge(adj, rev[i + 1], rev[i])
    requires Distinct(rev)
    requires path == Reverse(rev)
    ensures IsWalk(adj, path) && Distinct(path)
    ensures path[0] == rev[|rev| - 1] && path[|path| - 1] == rev[0]
  {
    forall i | 0 <= i < |path| - 1
      ensures Edge(adj, path[i], path[i + 1])
    {
      var j := |rev| - 2 - i;
      assert path[i] == rev[j + 1] && path[i + 1] == rev[j];
    }
    ReverseDistinct(rev);
  }

  /**
   * `findShortestPath` of the lenient shortest-path program: checks each
   * newly discovered neighbour against the end vertex and stops at once, and
   * returns the traced path as is (end first). A start equal to the end is
   * never discovered, so that search comes back empty.
   */
  method ShortestPathOnDiscovery(adj: Adjacency, start: int, end: int) returns (rev: seq<int>)
    requires Closed(adj) && NoSentinel(adj)
    requires start in adj && start != -1
    ensures |rev| > 0 ==> rev[0] == end && rev[|rev| - 1] == start
    ensures |rev| > 0 ==> forall i | 0 <= i < |rev| - 1 :: Edge(adj, rev[i + 1], rev[i])
    ensures |rev| > 0 ==> IsShortestWalk(adj, start, end, Reverse(rev)) && Distinct(rev)
    ensures start != end ==> (|rev| == 0 <==> !Reachable(adj, start, end))
    ensures start == end ==> rev == []
  {
    var parents: map<int, int> := map[start := -1];
    var visited: set<int> := {start};
    var queue: seq<int> := [start];
    ghost var dist: map<int, nat> := map[start := 0];
    var found := false;
    while |queue| > 0 && !found
      invariant Layered(adj, start, parents, dist, visited, queue)
      invariant !found ==> forall v | v in visited && v !in queue :: Settled(adj, dist, v)
      invariant !found && start != end ==> end !in visited
      invariant found ==> start != end && end in visited
      invariant found ==> forall q | IsWalk(adj, q) && q[0] == start && q[|q| - 1] == end :: dist[end] + 1 <= |q|
      decreases adj.Keys - visited, |queue|
    {
      var u := queue[0];
      queue := queue[1..];
      parents, visited, queue, dist, found := Expand(adj, start, end, true, u, parents, visited, queue, dist);
    }
    if !found {
      forall q | IsWalk(adj, q) && q[0] == start
        ensures start != end ==> q[|q| - 1] != end
      {
        Frontier(adj, start, dist, {}, |q|, q);
      }
      rev := [];
      return;
    }
    rev := TraceBack(adj, parents, dist, start, end);
    ReversedTrace(adj, rev, Reverse(rev));
  }
}
