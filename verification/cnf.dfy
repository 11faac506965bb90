/**
 * The formula `findVertexCover` hands to MiniSat for one cover size `k`: a
 * variable for every (vertex, position) pair, and four clause families,
 * built in the order of the program's loops.
 */
module Cnf {
  import opened Seqs
  import opened Graph

  /** `literals_2d[vertex][slot]`: `vertex` is the cover's member in position `slot`. */
  datatype Var = Var(vertex: int, slot: int)

  datatype Lit = Pos(x: Var) | Neg(x: Var)

  type Clause = seq<Lit>

  type Formula = seq<Clause>

  /** A model as the solver reports it: the variables whose value is `l_True`. */
  type Assignment = set<Var>

  predicate LitHolds(a: Assignment, l: Lit) {
    match l
    case Pos(x) => x in a
    case Neg(x) => x !in a
  }

  predicate ClauseHolds(a: Assignment, c: Clause) {
    exists i | 0 <= i < |c| :: LitHolds(a, c[i])
  }

  predicate Satisfies(a: Assignment, f: Formula) {
    forall i | 0 <= i < |f| :: ClauseHolds(a, f[i])
  }

  ghost predicate Satisfiable(f: Formula) {
    exists a :: Satisfies(a, f)
  }

  /** Number of two-element subsets of an `n`-element set. */
  function Choose2(n: int): nat {
    if n < 2 then 0 else n * (n - 1) / 2
  }

  /**
   * The index pairs `(p, q)` with `lo <= p < q <= hi` that two nested loops
   * `for p in lo..hi, for q in p+1..hi` visit, in that order.
   */
  function PairsFrom(lo: int, hi: int): seq<(int, int)>
    decreases hi - lo
  {
    if lo >= hi then [] else seq(hi - lo, j => (lo, lo + 1 + j)) + PairsFrom(lo + 1, hi)
  }

  lemma {:induction false} PairsFromCount(lo: int, hi: int)
    ensures |PairsFrom(lo, hi)| == Choose2(hi - lo + 1)
    decreases hi - lo
  {
    if lo < hi {
      PairsFromCount(lo + 1, hi);
      var t := hi - lo;
      assert (t + 1) * t == t * (t - 1) + 2 * t;
    }
  }

  lemma {:induction false} PairsFromMember(lo: int, hi: int, pr: (int, int))
    ensures pr in PairsFrom(lo, hi) <==> lo <= pr.0 < pr.1 <= hi
    decreases hi - lo
  {
    if lo < hi {
      PairsFromMember(lo + 1, hi, pr);
      var row := seq(hi - lo, j => (lo, lo + 1 + j));
      if pr.0 == lo && lo < pr.1 <= hi {
        assert row[pr.1 - lo - 1] == pr;
      }
    }
  }

  /** Family 1 for position `slot`: `literals_2d[1][slot] ∨ … ∨ literals_2d[v][slot]`. */
  function SlotClause(v: nat, slot: int): Clause {
    seq(v, n => Pos(Var(n + 1, slot)))
  }

  function SlotsFilled(v: nat, k: nat): Formula {
    seq(k, j => SlotClause(v, j + 1))
  }

  /** Family 2 for vertex `n`: `¬literals_2d[n][p] ∨ ¬literals_2d[n][q]` for positions `p < q`. */
  function NotTwice(n: int, k: nat): Formula {
    var ps := PairsFrom(1, k);
    seq(|ps|, i requires 0 <= i < |ps| => [Neg(Var(n, ps[i].0)), Neg(Var(n, ps[i].1))])
  }

  /** Family 2, emitted only when `k > 1`, vertex by vertex. */
  function NoRepeats(v: nat, k: nat): Formula {
    if k > 1 then Concat(seq(v, n => NotTwice(n + 1, k))) else []
  }

  /** Family 3 for position `slot`: `¬literals_2d[m][slot] ∨ ¬literals_2d[n][slot]` for vertices `m < n`. */
  function NotShared(slot: int, v: nat): Formula {
    var ps := PairsFrom(1, v);
    seq(|ps|, i requires 0 <= i < |ps| => [Neg(Var(ps[i].0, slot)), Neg(Var(ps[i].1, slot))])
  }

  function NoSharing(v: nat, k: nat): Formula {
    Concat(seq(k, j => NotShared(j + 1, v)))
  }

  /** Family 4 for edge `e`: some position holds one of its endpoints, pushed position by position. */
  function Touches(e: Pair, k: nat): Clause {
    Concat(seq(k, j => [Pos(Var(e.0, j + 1)), Pos(Var(e.1, j + 1))]))
  }

  function EdgesTouched(edges: seq<Pair>, k: nat): Formula {
    seq(|edges|, i requires 0 <= i < |edges| => Touches(edges[i], k))
  }

  /** Everything added to the fresh solver for cover size `k`. */
  function CoverFormula(v: nat, k: nat, edges: seq<Pair>): Formula {
    SlotsFilled(v, k) + NoRepeats(v, k) + NoSharing(v, k) + EdgesTouched(edges, k)
  }

  // What each family says about an assignment, stated without clauses.

  /** Some vertex in `1..v` holds position `j`. */
  predicate Filled(a: Assignment, v: nat, j: int) {
    exists n | 1 <= n <= v :: Var(n, j) in a
  }

  predicate EverySlotFilled(a: Assignment, v: nat, k: nat) {
    forall j | 1 <= j <= k :: Filled(a, v, j)
  }

  /** Vertex `n` holds at most one of the positions `1..k`. */
  predicate AtMostOnce(a: Assignment, n: int, k: nat) {
    forall p, q | 1 <= p < q <= k :: !(Var(n, p) in a && Var(n, q) in a)
  }

  predicate NoVertexTwice(a: Assignment, v: nat, k: nat) {
    forall n | 1 <= n <= v :: AtMostOnce(a, n, k)
  }

  /** At most one of the vertices `1..v` holds position `j`. */
  predicate AtMostOneHolder(a: Assignment, j: int, v: nat) {
    forall m, n | 1 <= m < n <= v :: !(Var(m, j) in a && Var(n, j) in a)
  }

  predicate NoSlotShared(a: Assignment, v: nat, k: nat) {
    forall j | 1 <= j <= k :: AtMostOneHolder(a, j, v)
  }

  /** Some position among `1..k` holds an endpoint of `e`. */
  predicate Touched(a: Assignment, k: nat, e: Pair) {
    exists j | 1 <= j <= k :: Var(e.0, j) in a || Var(e.1, j) in a
  }

  predicate EveryEdgeTouched(a: Assignment, k: nat, edges: seq<Pair>) {
    forall i | 0 <= i < |edges| :: Touched(a, k, edges[i])
  }

  /** The meaning of the formula: an assignment satisfies it exactly when it meets all four conditions. */
  lemma FormulaMeaning(a: Assignment, v: nat, k: nat, edges: seq<Pair>)
    ensures Satisfies(a, CoverFormula(v, k, edges)) <==>
      && EverySlotFilled(a, v, k) && NoVertexTwice(a, v, k)
      && NoSlotShared(a, v, k) && EveryEdgeTouched(a, k, edges)
  {
    SlotsFilledMeaning(a, v, k);
    NoRepeatsMeaning(a, v, k);
    NoSharingMeaning(a, v, k);
    EdgesTouchedMeaning(a, k, edges);
    AppendSatisfies(a, SlotsFilled(v, k), NoRepeats(v, k));
    AppendSatisfies(a, SlotsFilled(v, k) + NoRepeats(v, k), NoSharing(v, k));
    AppendSatisfies(a, SlotsFilled(v, k) + NoRepeats(v, k) + NoSharing(v, k), EdgesTouched(edges, k));
  }

  lemma AppendSatisfies(a: Assignment, f: Formula, g: Formula)
    ensures Satisfies(a, f + g) <==> Satisfies(a, f) && Satisfies(a, g)
  {
    if Satisfies(a, f) && Satisfies(a, g) {
      forall i | 0 <= i < |f + g|
        ensures ClauseHolds(a, (f + g)[i])
      {
        if i >= |f| {
          assert (f + g)[i] == g[i - |f|];
        }
      }
    }
    if Satisfies(a, f + g) {
      forall i | 0 <= i < |f|
        ensures ClauseHolds(a, f[i])
      {
        assert (f + g)[i] == f[i];
      }
      forall i | 0 <= i < |g|
        ensures ClauseHolds(a, g[i])
      {
        assert (f + g)[|f| + i] == g[i];
      }
    }
  }

  /** A formula built block by block holds exactly when every block holds. */
  lemma ConcatSatisfies(a: Assignment, fs: seq<Formula>)
    ensures Satisfies(a, Concat(fs)) <==> forall i | 0 <= i < |fs| :: Satisfies(a, fs[i])
  {
    if Satisfies(a, Concat(fs)) {
      forall i, c | 0 <= i < |fs| && c in fs[i]
        ensures ClauseHolds(a, c)
      {
        ConcatMember(fs, c);
        var x :| 0 <= x < |Concat(fs)| && Concat(fs)[x] == c;
      }
    }
    if forall i | 0 <= i < |fs| :: Satisfies(a, fs[i]) {
      forall x | 0 <= x < |Concat(fs)|
        ensures ClauseHolds(a, Concat(fs)[x])
      {
        var c := Concat(fs)[x];
        ConcatMember(fs, c);
        var i :| 0 <= i < |fs| && c in fs[i];
        var y :| 0 <= y < |fs[i]| && fs[i][y] == c;
      }
    }
  }

  lemma SlotsFilledMeaning(a: Assignment, v: nat, k: nat)
    ensures Satisfies(a, SlotsFilled(v, k)) <==> EverySlotFilled(a, v, k)
  {
    var f := SlotsFilled(v, k);
    if Satisfies(a, f) {
      forall j | 1 <= j <= k
        ensures Filled(a, v, j)
      {
        assert ClauseHolds(a, f[j - 1]);
        var i :| 0 <= i < v && LitHolds(a, SlotClause(v, j)[i]);
        assert Var(i + 1, j) in a;
      }
    }
    if EverySlotFilled(a, v, k) {
      forall j | 0 <= j < k
        ensures ClauseHolds(a, f[j])
      {
        assert Filled(a, v, j + 1);
        var n :| 1 <= n <= v && Var(n, j + 1) in a;
        assert LitHolds(a, f[j][n - 1]);
      }
    }
  }

  /** A binary clause `¬x ∨ ¬y` holds exactly when `x` and `y` are not both true. */
  lemma NotBothHolds(a: Assignment, x: Var, y: Var)
    ensures ClauseHolds(a, [Neg(x), Neg(y)]) <==> !(x in a && y in a)
  {
    var c := [Neg(x), Neg(y)];
    if !(x in a && y in a) {
      if x !in a {
        assert LitHolds(a, c[0]);
      } else {
        assert LitHolds(a, c[1]);
      }
    }
  }

  lemma NotTwiceMeaning(a: Assignment, n: int, k: nat)
    ensures Satisfies(a, NotTwice(n, k)) <==> AtMostOnce(a, n, k)
  {
    var ps := PairsFrom(1, k);
    var f := NotTwice(n, k);
    if Satisfies(a, f) {
      forall p, q | 1 <= p < q <= k
        ensures !(Var(n, p) in a && Var(n, q) in a)
      {
        PairsFromMember(1, k, (p, q));
        var i :| 0 <= i < |ps| && ps[i] == (p, q);
        assert ClauseHolds(a, f[i]);
        NotBothHolds(a, Var(n, p), Var(n, q));
      }
    }
    if AtMostOnce(a, n, k) {
      forall i | 0 <= i < |f|
        ensures ClauseHolds(a, f[i])
      {
        PairsFromMember(1, k, ps[i]);
        NotBothHolds(a, Var(n, ps[i].0), Var(n, ps[i].1));
      }
    }
  }

  lemma NoRepeatsMeaning(a: Assignment, v: nat, k: nat)
    ensures Satisfies(a, NoRepeats(v, k)) <==> NoVertexTwice(a, v, k)
  {
    if k > 1 {
      var blocks := seq(v, n => NotTwice(n + 1, k));
      ConcatSatisfies(a, blocks);
      forall i | 0 <= i < v
        ensures Satisfies(a, blocks[i]) <==> AtMostOnce(a, i + 1, k)
      {
        NotTwiceMeaning(a, i + 1, k);
      }
      if Satisfies(a, NoRepeats(v, k)) {
        forall n | 1 <= n <= v
          ensures AtMostOnce(a, n, k)
        {
          assert Satisfies(a, blocks[n - 1]);
        }
      }
    }
  }

  lemma NotSharedMeaning(a: Assignment, slot: int, v: nat)
    ensures Satisfies(a, NotShared(slot, v)) <==> AtMostOneHolder(a, slot, v)
  {
    var ps := PairsFrom(1, v);
    var f := NotShared(slot, v);
    if Satisfies(a, f) {
      forall m, n | 1 <= m < n <= v
        ensures !(Var(m, slot) in a && Var(n, slot) in a)
      {
        PairsFromMember(1, v, (m, n));
        var i :| 0 <= i < |ps| && ps[i] == (m, n);
        assert ClauseHolds(a, f[i]);
        NotBothHolds(a, Var(m, slot), Var(n, slot));
      }
    }
    if AtMostOneHolder(a, slot, v) {
      forall i | 0 <= i < |f|
        ensures ClauseHolds(a, f[i])
      {
        PairsFromMember(1, v, ps[i]);
        NotBothHolds(a, Var(ps[i].0, slot), Var(ps[i].1, slot));
      }
    }
  }

  lemma NoSharingMeaning(a: Assignment, v: nat, k: nat)
    ensures Satisfies(a, NoSharing(v, k)) <==> NoSlotShared(a, v, k)
  {
    var blocks := seq(k, j => NotShared(j + 1, v));
    ConcatSatisfies(a, blocks);
    forall i | 0 <= i < k
      ensures Satisfies(a, blocks[i]) <==> AtMostOneHolder(a, i + 1, v)
    {
      NotSharedMeaning(a, i + 1, v);
    }
    if Satisfies(a, NoSharing(v, k)) {
      forall j | 1 <= j <= k
        ensures AtMostOneHolder(a, j, v)
      {
        assert Satisfies(a, blocks[j - 1]);
      }
    }
  }

  /** The clause for edge `e` holds exactly when some position holds one of its endpoints. */
  lemma TouchesMeaning(a: Assignment, e: Pair, k: nat)
    ensures ClauseHolds(a, Touches(e, k)) <==> Touched(a, k, e)
  {
    var blocks := seq(k, j => [Pos(Var(e.0, j + 1)), Pos(Var(e.1, j + 1))]);
    var c := Touches(e, k);
    if ClauseHolds(a, c) {
      var x :| 0 <= x < |c| && LitHolds(a, c[x]);
      ConcatMember(blocks, c[x]);
      var j :| 0 <= j < k && c[x] in blocks[j];
      assert Var(e.0, j + 1) in a || Var(e.1, j + 1) in a;
    }
    if Touched(a, k, e) {
      var j :| 1 <= j <= k && (Var(e.0, j) in a || Var(e.1, j) in a);
      var l := if Var(e.0, j) in a then Pos(Var(e.0, j)) else Pos(Var(e.1, j));
      assert l in blocks[j - 1];
      ConcatMember(blocks, l);
      var x :| 0 <= x < |c| && c[x] == l;
      assert LitHolds(a, c[x]);
    }
  }

  lemma EdgesTouchedMeaning(a: Assignment, k: nat, edges: seq<Pair>)
    ensures Satisfies(a, EdgesTouched(edges, k)) <==> EveryEdgeTouched(a, k, edges)
  {
    forall i | 0 <= i < |edges|
      ensures ClauseHolds(a, EdgesTouched(edges, k)[i]) <==> Touched(a, k, edges[i])
    {
      TouchesMeaning(a, edges[i], k);
    }
  }

  /**
   * The size of the formula: `k` clauses of width `v`, `v·C(k,2)` and
   * `k·C(v,2)` binary clauses, and one clause of width `2k` per edge.
   */
  lemma ClauseCounts(v: nat, k: nat, edges: seq<Pair>)
    ensures |SlotsFilled(v, k)| == k && forall i | 0 <= i < k :: |SlotsFilled(v, k)[i]| == v
    ensures |NoRepeats(v, k)| == v * Choose2(k) && forall c | c in NoRepeats(v, k) :: |c| == 2
    ensures |NoSharing(v, k)| == k * Choose2(v) && forall c | c in NoSharing(v, k) :: |c| == 2
    ensures |EdgesTouched(edges, k)| == |edges| && forall i | 0 <= i < |edges| :: |EdgesTouched(edges, k)[i]| == 2 * k
    ensures |CoverFormula(v, k, edges)| == k + v * Choose2(k) + k * Choose2(v) + |edges|
  {
    NoRepeatsCount(v, k);
    NoSharingCount(v, k);
    EdgesTouchedCount(edges, k);
  }

  lemma NoRepeatsCount(v: nat, k: nat)
    ensures |NoRepeats(v, k)| == v * Choose2(k) && forall c | c in NoRepeats(v, k) :: |c| == 2
  {
    if k > 1 {
      PairsFromCount(1, k);
      var blocks := seq(v, n => NotTwice(n + 1, k));
      ConcatUniform(blocks, Choose2(k));
      forall c | c in NoRepeats(v, k)
        ensures |c| == 2
      {
        ConcatMember(blocks, c);
      }
    }
  }

  lemma NoSharingCount(v: nat, k: nat)
    ensures |NoSharing(v, k)| == k * Choose2(v) && forall c | c in NoSharing(v, k) :: |c| == 2
  {
    PairsFromCount(1, v);
    var blocks := seq(k, j => NotShared(j + 1, v));
    ConcatUniform(blocks, Choose2(v));
    forall c | c in NoSharing(v, k)
      ensures |c| == 2
    {
      ConcatMember(blocks, c);
    }
  }

  lemma EdgesTouchedCount(edges: seq<Pair>, k: nat)
    ensures |EdgesTouched(edges, k)| == |edges| && forall i | 0 <= i < |edges| :: |EdgesTouched(edges, k)[i]| == 2 * k
  {
    forall i | 0 <= i < |edges|
      ensures |EdgesTouched(edges, k)[i]| == 2 * k
    {
      ConcatUniform(seq(k, j => [Pos(Var(edges[i].0, j + 1)), Pos(Var(edges[i].1, j + 1))]), 2);
    }
  }
}
