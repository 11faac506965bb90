/**
 * `findVertexCover`: the search over cover sizes `k = 1..v`, the extraction
 * of the cover from the solver's model, and the printed line. The solver is a
 * parameter; what the model proves about the search assumes only that it
 * answers correctly for the formulas it is given.
 */
module Cover {
  import opened Options
  import opened Seqs
  import opened Text
  import opened Graph
  import opened Cnf

  /** Every edge has an endpoint in `c`. */
  predicate IsCover(edges: seq<Pair>, c: set<int>) {
    forall i | 0 <= i < |edges| :: edges[i].0 in c || edges[i].1 in c
  }

  /** Every endpoint is a vertex `1..v`: the rows of `literals_2d` the edge clauses index exist. */
  predicate Within(edges: seq<Pair>, v: int) {
    forall i | 0 <= i < |edges| :: 1 <= edges[i].0 <= v && 1 <= edges[i].1 <= v
  }

  /** The vertices `1..v`. */
  function Vertices(v: int): (vs: set<int>)
    ensures forall x :: x in vs <==> 1 <= x <= v
    decreases if v < 0 then 0 else v
  {
    if v < 1 then {} else Vertices(v - 1) + {v}
  }

  /** Some cover of at most `k` vertices among `1..v` exists. */
  ghost predicate HasCover(edges: seq<Pair>, v: int, k: int) {
    exists c: set<int> :: c <= Vertices(v) && |c| <= k && IsCover(edges, c)
  }

  /** Vertex `n` is true in some position `1..k`: the inner extraction loop finds it and breaks. */
  predicate Chosen(a: Assignment, n: int, k: nat) {
    exists j | 1 <= j <= k :: Var(n, j) in a
  }

  /**
   * The extraction loop over `i = 1..v`: the vertices true in some position,
   * in the order pushed. They come out ascending, so the `sort` that follows
   * leaves them as they are.
   */
  function Extract(a: Assignment, v: nat, k: nat): (c: seq<int>)
    ensures StrictlyIncreasing(c)
    ensures forall x :: x in c <==> 1 <= x <= v && Chosen(a, x, k)
  {
    if v == 0 then []
    else
      var front := Extract(a, v - 1, k);
      assert forall i | 0 <= i < |front| :: front[i] in front;
      front + (if Chosen(a, v, k) then [v] else [])
  }

  /** For each position `1..k`, a vertex that holds it. */
  ghost function Holders(a: Assignment, v: nat, k: nat): (hs: seq<int>)
    requires EverySlotFilled(a, v, k)
    ensures |hs| == k
    ensures forall j | 0 <= j < k :: 1 <= hs[j] <= v && Var(hs[j], j + 1) in a
  {
    if k == 0 then []
    else
      assert Filled(a, v, k);
      var n :| 1 <= n <= v && Var(n, k) in a;
      Holders(a, v, k - 1) + [n]
  }

  /**
   * Soundness of the encoding: a model of the formula for `k` yields exactly
   * `k` distinct vertices, ascending, that touch every edge.
   */
  lemma Decoded(a: Assignment, v: nat, k: nat, edges: seq<Pair>)
    requires Within(edges, v)
    requires Satisfies(a, CoverFormula(v, k, edges))
    ensures |Extract(a, v, k)| == k
    ensures IsCover(edges, Elements(Extract(a, v, k)))
  {
    FormulaMeaning(a, v, k, edges);
    var c := Extract(a, v, k);
    var hs := Holders(a, v, k);
    forall i, j | 0 <= i < j < k
      ensures hs[i] != hs[j]
    {
      assert AtMostOnce(a, hs[i], k);
    }
    forall x
      ensures x in c <==> x in hs
    {
      if x in c {
        var j :| 1 <= j <= k && Var(x, j) in a;
        var h := hs[j - 1];
        assert AtMostOneHolder(a, j, v);
        assert !(x < h) && !(h < x);
      }
      if x in hs {
        var j :| 0 <= j < k && hs[j] == x;
        assert Var(x, j + 1) in a;
      }
    }
    assert Elements(c) == Elements(hs);
    SameElementsSameLength(c, hs);
    forall i | 0 <= i < |edges|
      ensures edges[i].0 in Elements(c) || edges[i].1 in Elements(c)
    {
      assert Touched(a, k, edges[i]);
      var j :| 1 <= j <= k && (Var(edges[i].0, j) in a || Var(edges[i].1, j) in a);
    }
  }

  /** The model that places `c[j]` in position `j + 1`. */
  function Placement(c: seq<int>): Assignment {
    set j | 0 <= j < |c| :: Var(c[j], j + 1)
  }

  lemma InPlacement(c: seq<int>, x: Var)
    ensures x in Placement(c) <==> 1 <= x.slot <= |c| && c[x.slot - 1] == x.vertex
  {
    if 1 <= x.slot <= |c| && c[x.slot - 1] == x.vertex {
      var j := x.slot - 1;
      assert Var(c[j], j + 1) == x;
    }
  }

  /**
   * Completeness of the encoding: `k` distinct vertices among `1..v` that
   * touch every edge, placed one per position, satisfy the formula for `k`.
   */
  lemma Encoded(c: seq<int>, v: nat, k: nat, edges: seq<Pair>)
    requires |c| == k && Distinct(c)
    requires forall i | 0 <= i < |c| :: 1 <= c[i] <= v
    requires IsCover(edges, Elements(c))
    ensures Satisfies(Placement(c), CoverFormula(v, k, edges))
  {
    var a := Placement(c);
    forall x: Var
      ensures x in a <==> 1 <= x.slot <= |c| && c[x.slot - 1] == x.vertex
    {
      InPlacement(c, x);
    }
    forall j | 1 <= j <= k
      ensures Filled(a, v, j)
    {
      assert Var(c[j - 1], j) in a;
    }
    forall n | 1 <= n <= v
      ensures AtMostOnce(a, n, k)
    {
    }
    forall j | 1 <= j <= k
      ensures AtMostOneHolder(a, j, v)
    {
    }
    forall i | 0 <= i < |edges|
      ensures Touched(a, k, edges[i])
    {
      var e := edges[i];
      var w := if e.0 in Elements(c) then e.0 else e.1;
      var j :| 0 <= j < |c| && c[j] == w;
      assert Var(w, j + 1) in a;
    }
    FormulaMeaning(a, v, k, edges);
  }

  /** The members of `c` among the vertices `1..v`, ascending. */
  function Ascending(c: set<int>, v: nat): (s: seq<int>)
    ensures StrictlyIncreasing(s)
    ensures forall x :: x in s <==> 1 <= x <= v && x in c
  {
    if v == 0 then []
    else
      var front := Ascending(c, v - 1);
      assert forall i | 0 <= i < |front| :: front[i] in front;
      front + (if v in c then [v] else [])
  }

  lemma {:induction false} VerticesCard(v: int)
    ensures |Vertices(v)| == if v < 0 then 0 else v
    decreases if v < 0 then 0 else v
  {
    if v > 0 {
      VerticesCard(v - 1);
    }
  }

  /** A duplicate-free sequence of vertices shorter than `v` leaves some vertex out. */
  lemma Unused(s: seq<int>, v: int) returns (x: int)
    requires Distinct(s) && |s| < v
    requires forall i | 0 <= i < |s| :: 1 <= s[i] <= v
    ensures 1 <= x <= v && x !in s
  {
    DistinctCard(s);
    VerticesCard(v);
    var used := Elements(s);
    assert used <= Vertices(v);
    var free := Vertices(v) - used;
    assert Vertices(v) == used + free;
    assert |free| > 0;
    x :| x in free;
  }

  /** Any duplicate-free sequence of vertices extends to `k` of them, for `k <= v`. */
  lemma {:induction false} Padded(s: seq<int>, v: int, k: int) returns (t: seq<int>)
    requires Distinct(s) && |s| <= k <= v
    requires forall i | 0 <= i < |s| :: 1 <= s[i] <= v
    ensures |t| == k && Distinct(t) && s <= t
    ensures forall i | 0 <= i < |t| :: 1 <= t[i] <= v
    decreases k - |s|
  {
    if |s| == k {
      t := s;
    } else {
      var x := Unused(s, v);
      t := Padded(s + [x], v, k);
      assert s <= s + [x];
    }
  }

  /** The formula for `k <= v` is satisfiable exactly when a cover of at most `k` vertices exists. */
  lemma SatisfiableIffCover(v: nat, k: nat, edges: seq<Pair>)
    requires k <= v && Within(edges, v)
    ensures Satisfiable(CoverFormula(v, k, edges)) <==> HasCover(edges, v, k)
  {
    var f := CoverFormula(v, k, edges);
    if Satisfiable(f) {
      var a :| Satisfies(a, f);
      Decoded(a, v, k, edges);
      var c := Extract(a, v, k);
      StrictlyIncreasingIsDistinct(c);
      DistinctCard(c);
      assert Elements(c) <= Vertices(v);
    }
    if HasCover(edges, v, k) {
      var c :| c <= Vertices(v) && |c| <= k && IsCover(edges, c);
      var s := Ascending(c, v);
      StrictlyIncreasingIsDistinct(s);
      assert Elements(s) == c;
      DistinctCard(s);
      forall i | 0 <= i < |s|
        ensures 1 <= s[i] <= v
      {
        assert s[i] in Elements(s);
      }
      var t := Padded(s, v, k);
      assert Elements(s) <= Elements(t);
      Encoded(t, v, k, edges);
    }
  }

  /** Dropping the vertices outside `1..v` from a cover of edges within `1..v` leaves a cover. */
  lemma Restricted(edges: seq<Pair>, v: int, c: set<int>)
    requires Within(edges, v) && IsCover(edges, c)
    ensures IsCover(edges, c * Vertices(v)) && |c * Vertices(v)| <= |c|
  {
    var r := c * Vertices(v);
    assert c == r + (c - r);
  }

  /** MiniSat's `solve` and model: a model of the formula, or nothing. */
  type Solver = Formula -> Option<Assignment>

  /** The solver answers correctly for `f`: a returned model satisfies it, and none is returned only when none exists. */
  ghost predicate SolverCorrect(solve: Solver, f: Formula) {
    match solve(f)
    case Some(a) => Satisfies(a, f)
    case None => !Satisfiable(f)
  }

  /** The loop over `k` from `k` on: the first size whose formula the solver satisfies decides the cover. */
  function SearchFrom(v: int, edges: seq<Pair>, solve: Solver, k: int): Option<seq<int>>
    requires 1 <= k
    decreases v - k
  {
    if k > v then None
    else
      match solve(CoverFormula(v, k, edges))
      case Some(a) => Some(Extract(a, v, k))
      case None => SearchFrom(v, edges, solve, k + 1)
  }

  /**
   * The cover `findVertexCover` prints, if any. Its defined behaviour needs
   * `v < 1` (the loop never runs) or every endpoint a row of `literals_2d`,
   * with `v + 1` still an `int`.
   */
  function FindVertexCover(v: int, edges: seq<Pair>, solve: Solver): (r: Option<seq<int>>)
    requires v < 1 || (v < 0x7FFF_FFFF && Within(edges, v))
    ensures v < 1 ==> r.None?
  {
    SearchFrom(v, edges, solve, 1)
  }

  /** Every cover has at least `k` vertices. */
  ghost predicate NoCoverBelow(edges: seq<Pair>, k: int) {
    forall c: set<int> | IsCover(edges, c) :: k <= |c|
  }

  /** An ascending list of vertices `1..v` that covers every edge with as few vertices as any cover. */
  ghost predicate MinimumCover(edges: seq<Pair>, v: int, cover: seq<int>) {
    && StrictlyIncreasing(cover)
    && (forall i | 0 <= i < |cover| :: 1 <= cover[i] <= v)
    && IsCover(edges, Elements(cover))
    && NoCoverBelow(edges, |cover|)
  }

  /**
   * With a correct solver, the search from `k` on, when no cover is smaller
   * than `k`, stops at the least size that has a cover, and prints a minimum
   * cover.
   */
  lemma {:induction false} SearchMinimum(v: int, edges: seq<Pair>, solve: Solver, k: int)
    requires 1 <= k <= v && Within(edges, v)
    requires forall j | k <= j <= v :: SolverCorrect(solve, CoverFormula(v, j, edges))
    requires NoCoverBelow(edges, k)
    ensures var r := SearchFrom(v, edges, solve, k); r.Some? && MinimumCover(edges, v, r.value)
    decreases v - k
  {
    var f := CoverFormula(v, k, edges);
    assert SolverCorrect(solve, f);
    match solve(f)
    case Some(a) =>
      SearchHit(a, v, k, edges);
    case None =>
      SearchMiss(v, k, edges);
      SearchMinimum(v, edges, solve, k + 1);
  }

  /** A model for the least size with a cover decodes to a minimum cover. */
  lemma SearchHit(a: Assignment, v: nat, k: nat, edges: seq<Pair>)
    requires Within(edges, v) && Satisfies(a, CoverFormula(v, k, edges))
    requires NoCoverBelow(edges, k)
    ensures MinimumCover(edges, v, Extract(a, v, k))
  {
    Decoded(a, v, k, edges);
    var c := Extract(a, v, k);
    forall i | 0 <= i < |c|
      ensures 1 <= c[i] <= v
    {
      assert c[i] in c;
    }
  }

  /** An unsatisfiable size below `v` rules out covers of that size; at `v` itself every vertex is a cover. */
  lemma SearchMiss(v: nat, k: nat, edges: seq<Pair>)
    requires 1 <= k <= v && Within(edges, v)
    requires !Satisfiable(CoverFormula(v, k, edges))
    requires NoCoverBelow(edges, k)
    ensures k < v && NoCoverBelow(edges, k + 1)
  {
    SatisfiableIffCover(v, k, edges);
    forall c: set<int> | IsCover(edges, c)
      ensures k + 1 <= |c|
    {
      Restricted(edges, v, c);
    }
    if k == v {
      VerticesCard(v);
      assert IsCover(edges, Vertices(v));
    }
  }

  lemma NonEmptyCover(edges: seq<Pair>, c: set<int>)
    requires |edges| > 0 && IsCover(edges, c)
    ensures 1 <= |c|
  {
    assert edges[0].0 in c || edges[0].1 in c;
  }

  /** `findVertexCover` on a non-empty edge list with a correct solver prints a minimum cover. */
  lemma FindsMinimumCover(v: int, edges: seq<Pair>, solve: Solver)
    requires |edges| > 0 && Within(edges, v) && v < 0x7FFF_FFFF
    requires forall k | 1 <= k <= v :: SolverCorrect(solve, CoverFormula(v, k, edges))
    ensures var r := FindVertexCover(v, edges, solve); r.Some? && MinimumCover(edges, v, r.value)
  {
    assert 1 <= edges[0].0 <= v;
    forall c: set<int> | IsCover(edges, c)
      ensures 1 <= |c|
    {
      NonEmptyCover(edges, c);
    }
    SearchMinimum(v, edges, solve, 1);
  }

  /** The printed line: the vertices separated by single spaces, then the newline `endl` writes. */
  function CoverLine(cover: seq<int>): string {
    Join(cover, ' ') + "\n"
  }

  /** Splitting the printed line (without its newline) at the spaces reads the cover back. */
  lemma CoverLineReadBack(cover: seq<int>)
    requires |cover| >= 1 && forall i | 0 <= i < |cover| :: cover[i] >= 0
    ensures var line := CoverLine(cover);
      line[|line| - 1] == '\n' &&
      var parts := Split(line[..|line| - 1], ' ');
      |parts| == |cover| && forall i | 0 <= i < |cover| :: AllDigits(parts[i]) && DigitsValue(parts[i]) == cover[i]
  {
    var line := CoverLine(cover);
    assert line[..|line| - 1] == Join(cover, ' ');
    JoinReadBack(cover, ' ');
  }
}
