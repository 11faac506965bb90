/**
 * Undirected graphs as the C++ programs hold them: a vector of vertex pairs
 * and an adjacency map from a vertex to the neighbours pushed for it, in the
 * order the pairs were listed.
 */
module Graph {

  type Pair = (int, int)

  /** `{min(a, b), max(a, b)}`: the stored form of an undirected edge. */
  function Canonical(a: int, b: int): (e: Pair)
    ensures e.0 <= e.1
    ensures (e.0 == a && e.1 == b) || (e.0 == b && e.1 == a)
  {
    if a <= b then (a, b) else (b, a)
  }

  /** Every pair is canonical, non-looping, within `[1, n]`, and none occurs twice. */
  predicate ValidEdges(edges: seq<Pair>, n: int) {
    && (forall i | 0 <= i < |edges| :: 1 <= edges[i].0 < edges[i].1 <= n)
    && (forall i, j | 0 <= i < j < |edges| :: edges[i] != edges[j])
  }

  type Adjacency = map<int, seq<int>>

  /** `w` was pushed onto `u`'s neighbour list. */
  predicate Edge(adj: Adjacency, u: int, w: int) {
    u in adj && w in adj[u]
  }

  ghost predicate Symmetric(adj: Adjacency) {
    forall u, w | Edge(adj, u, w) :: Edge(adj, w, u)
  }

  /** Every neighbour has an entry of its own, so `at` succeeds on it. */
  ghost predicate Closed(adj: Adjacency) {
    forall u, w | Edge(adj, u, w) :: w in adj
  }

  predicate IsEndpoint(edges: seq<Pair>, u: int) {
    exists i | 0 <= i < |edges| :: edges[i].0 == u || edges[i].1 == u
  }

  /** Some listed pair joins `u` and `w`, in either orientation. */
  predicate Joins(edges: seq<Pair>, u: int, w: int) {
    exists i | 0 <= i < |edges| :: edges[i] == (u, w) || edges[i] == (w, u)
  }

  /** `adj[a].push_back(b)`, creating the entry when `a` has none. */
  function Push(adj: Adjacency, a: int, b: int): (r: Adjacency)
    ensures forall u :: u in r <==> u in adj || u == a
    ensures forall u, w :: Edge(r, u, w) <==> Edge(adj, u, w) || (u == a && w == b)
  {
    adj[a := (if a in adj then adj[a] else []) + [b]]
  }

  /**
   * The adjacency loop run after an accepted edge list: for every pair, push
   * each endpoint onto the other's list. Its entries are exactly the endpoints,
   * and `w` is a neighbour of `u` exactly when some pair joins them.
   */
  function BuildAdjacency(edges: seq<Pair>): (adj: Adjacency)
    ensures forall u :: u in adj <==> IsEndpoint(edges, u)
    ensures forall u, w :: Edge(adj, u, w) <==> Joins(edges, u, w)
  {
    if |edges| == 0 then map[]
    else
      var front := edges[..|edges| - 1];
      var e := edges[|edges| - 1];
      LastPair(edges);
      Push(Push(BuildAdjacency(front), e.0, e.1), e.1, e.0)
  }

  /** How endpoints and joins of a list relate to those of the list without its last pair. */
  lemma LastPair(edges: seq<Pair>)
    requires |edges| > 0
    ensures forall u :: IsEndpoint(edges, u) <==>
      IsEndpoint(edges[..|edges| - 1], u) || u == edges[|edges| - 1].0 || u == edges[|edges| - 1].1
    ensures forall u, w :: Joins(edges, u, w) <==>
      Joins(edges[..|edges| - 1], u, w) || (u, w) == edges[|edges| - 1] || (w, u) == edges[|edges| - 1]
  {
    var front := edges[..|edges| - 1];
    var e := edges[|edges| - 1];
    forall u ensures IsEndpoint(edges, u) <==> IsEndpoint(front, u) || u == e.0 || u == e.1 {
      if IsEndpoint(front, u) {
        var i :| 0 <= i < |front| && (front[i].0 == u || front[i].1 == u);
        assert edges[i] == front[i];
      }
      if IsEndpoint(edges, u) {
        var i :| 0 <= i < |edges| && (edges[i].0 == u || edges[i].1 == u);
        if i < |front| {
          assert front[i] == edges[i];
        }
      }
      assert edges[|edges| - 1] == e;
    }
    forall u, w ensures Joins(edges, u, w) <==> Joins(front, u, w) || (u, w) == e || (w, u) == e {
      if Joins(front, u, w) {
        var i :| 0 <= i < |front| && (front[i] == (u, w) || front[i] == (w, u));
        assert edges[i] == front[i];
      }
      if Joins(edges, u, w) {
        var i :| 0 <= i < |edges| && (edges[i] == (u, w) || edges[i] == (w, u));
        if i < |front| {
          assert front[i] == edges[i];
        }
      }
      assert edges[|edges| - 1] == e;
    }
  }

  lemma BuiltAdjacencyIsSymmetric(edges: seq<Pair>)
    ensures Symmetric(BuildAdjacency(edges))
    ensures Closed(BuildAdjacency(edges))
  {
    var adj := BuildAdjacency(edges);
    forall u, w | Edge(adj, u, w) ensures Edge(adj, w, u) && w in adj {
      var i :| 0 <= i < |edges| && (edges[i] == (u, w) || edges[i] == (w, u));
      assert Joins(edges, w, u);
      assert IsEndpoint(edges, w);
    }
  }

  /** Consecutive vertices of `p` are adjacent (a walk of `|p| - 1` steps). */
  predicate IsWalk(adj: Adjacency, p: seq<int>) {
    |p| >= 1 && forall i | 0 <= i < |p| - 1 :: Edge(adj, p[i], p[i + 1])
  }

  ghost predicate Reachable(adj: Adjacency, s: int, t: int) {
    exists p :: IsWalk(adj, p) && p[0] == s && p[|p| - 1] == t
  }

  /** A walk from `s` to `t` with the fewest vertices. */
  ghost predicate IsShortestWalk(adj: Adjacency, s: int, t: int, p: seq<int>) {
    && IsWalk(adj, p) && p[0] == s && p[|p| - 1] == t
    && forall q | IsWalk(adj, q) && q[0] == s && q[|q| - 1] == t :: |p| <= |q|
  }
}
