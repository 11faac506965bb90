/**
 * The lenient shortest-path program of assignment 3: it echoes every line
 * that does not start with 's', keeps the edges in the orientation and order
 * they were typed, reports errors and goes on. A query prints the path found
 * by the breadth-first search that stops as soon as the end vertex is
 * discovered.
 */
module LenientPaths {
  import opened Options
  import opened Seqs
  import opened Text
  import opened Stream
  import opened Graph
  import opened Items
  import opened EdgeList
  import opened Bfs
  import opened Commands

  /** `vertexCount`, `edgeList`, `graphAdjList` and `isEmptyGraph` of `main`. */
  datatype State = State(vertexCount: int, edges: seq<Pair>, adj: Adjacency, emptyGraph: bool)

  /** Before the first line. */
  const Initial: State := State(0, [], map[], false)

  /** What a line prints, one constructor per message of the program. */
  datatype Message =
    | Echo(line: string)          // the input line itself, on standard output
    | MissingVertices             // "Error: Missing vertices Input", on standard output
    | SecondEdgeList              // the same words, on the error stream, for an edge list while one is stored
    | InvalidVertices             // "Error: Invalid input for vertices"
    | InvalidEdges                // an endpoint outside [1, count], or a loop
    | RepeatedEdges               // the same edge twice, in either orientation
    | MissingVertexInfo           // "Error: Missing vertices information"
    | MissingEdgeInfo             // "Error: Missing Edges information"
    | InvalidFormat               // "Error: Invalid format of command"
    | InvalidQuery                // "Error: Vertex input invalid for command s"
    | NoPath                      // "Error: Path does not exist", from main
    | EmptyPath                   // "Error: Path does not exist", from displayPath
    | PathPrinted(text: string)   // displayPath's output and main's newline after it
    | InvalidCommand              // "Error: Invalid Command"

  /** After a line: the program goes on with a new state, or the line reads an uninitialised variable. */
  datatype Outcome = Next(state: State, out: seq<Message>) | Stuck

  /**
   * What the program keeps between lines: positive endpoints, and an
   * adjacency map built from the edges whenever there are any (a new vertex
   * count clears the edges but not the map).
   */
  ghost predicate Coherent(st: State) {
    && (forall i | 0 <= i < |st.edges| :: 1 <= st.edges[i].0 && 1 <= st.edges[i].1)
    && (|st.edges| > 0 ==> st.adj == BuildAdjacency(st.edges))
  }

  // ---------------------------------------------------------------- V

  /**
   * `while (!eof) { >> vertexCount; if (fail) ... break; }`: the count last
   * stored and whether every extraction succeeded.
   */
  function ReadCounts(s: Stream, count: int): (r: (int, bool))
    requires s.Valid()
    ensures InIntRange(count) ==> InIntRange(r.0)
    decreases |s.line| - s.pos
  {
    if s.eof then (count, true)
    else
      var read := ReadInt(s);
      var stored := if read.stored.Some? then read.stored.value else count;
      if read.rest.fail then (stored, false) else ReadCounts(read.rest, stored)
  }

  /**
   * The `V` branch: an unreadable count keeps what the failing extraction
   * stored and reports it; a count of at most 1 becomes 0 silently; any other
   * count clears the edges (but not the adjacency map).
   */
  function HandleVertex(line: string, st: State): (r: Outcome)
    ensures r.Next? && (r.out == [] || r.out == [InvalidVertices])
    ensures InIntRange(st.vertexCount) ==> InIntRange(r.state.vertexCount)
    ensures r.out == [InvalidVertices] ==> r.state == st.(vertexCount := r.state.vertexCount)
    ensures r.out == [] && r.state.vertexCount == 0 ==> r.state == st.(vertexCount := 0)
    ensures r.out == [] && r.state.vertexCount != 0 ==>
      r.state.vertexCount > 1 && r.state == st.(vertexCount := r.state.vertexCount, edges := [], emptyGraph := false)
  {
    var (n, ok) := ReadCounts(AfterCommand(line), st.vertexCount);
    if !ok then Next(st.(vertexCount := n), [InvalidVertices])
    else if n <= 1 then Next(st.(vertexCount := 0), [])
    else Next(st.(vertexCount := n, edges := [], emptyGraph := false), [])
  }

  /** A typed `V n` sets the count to `n` and clears the edges when `n > 1`, and sets it to 0 otherwise. */
  lemma VertexCommandEffect(n: int, st: State)
    requires InIntRange(n)
    ensures HandleVertex(VertexCommand(n), st) ==
      if n <= 1 then Next(st.(vertexCount := 0), [])
      else Next(st.(vertexCount := n, edges := [], emptyGraph := false), [])
  {
    var line := VertexCommand(n);
    VertexCommandRead(n);
    assert ReadCounts(AfterCommand(line), st.vertexCount) == (n, true);
  }

  /**
   * A blank after the count makes the loop try one more extraction, which
   * fails: the count is stored and reported as invalid, and the edges stay.
   */
  lemma TrailingBlankAfterCount(n: int, st: State)
    requires InIntRange(n)
    ensures HandleVertex(VertexCommand(n) + " ", st) == Next(st.(vertexCount := n), [InvalidVertices])
  {
    TrailingBlankCounts(n, st.vertexCount);
  }

  lemma TrailingBlankCounts(n: int, count: int)
    requires InIntRange(n)
    ensures ReadCounts(AfterCommand(VertexCommand(n) + " "), count) == (n, false)
  {
    var line := VertexCommand(n) + " ";
    var e := |line| - 1;
    assert line[0] == 'V' && line[1] == ' ' && line[e] == ' ';
    assert line[2..e] == IntToString(n);
    CountThenBlank(line, n, e, count);
  }

  /** A count in decimal after `V `, then one final blank: the count is stored and the next read fails. */
  lemma CountThenBlank(line: string, n: int, e: nat, count: int)
    requires InIntRange(n) && e == 2 + |IntToString(n)| && e + 1 == |line|
    requires line[0] == 'V' && line[1] == ' ' && line[e] == ' ' && line[2..e] == IntToString(n)
    ensures ReadCounts(AfterCommand(line), count) == (n, false)
  {
    assert SkipSpaces(line, 0) == 0;
    var s := AfterCommand(line);
    assert s == Stream(line, 1, false, false);
    ReadIntAfterSpace(line, 1);
    ReadsIntAt(line, 2, n, e);
    assert ReadInt(s) == IntRead(Stream(line, e, false, false), Some(n));
    BlankEndsCounts(line, e, n);
  }

  /** A last blank after a count: the next read finds nothing and fails, keeping the count. */
  lemma BlankEndsCounts(line: string, e: nat, n: int)
    requires e + 1 == |line| && line[e] == ' '
    ensures ReadCounts(Stream(line, e, false, false), n) == (n, false)
  {
    assert SkipSpaces(line, e) == |line|;
  }

  // ---------------------------------------------------------------- E

  /**
   * What the edge loop leaves behind: the pairs pushed, whether it stopped at a
   * `}` where a pair should start (`isEmptyGraph = true`), whether it broke
   * on an invalid pair, and whether an exact repeat was seen; or it compared a
   * character or number that no extraction stored.
   */
  datatype PairScan = Scanned(edges: seq<Pair>, closedEmpty: bool, invalid: bool, repeated: bool) | Indeterminate

  /** What the four extractions `>> vertex1 >> delimiter >> vertex2 >> pairEnd` store. */
  datatype PairRead = PairRead(first: Option<int>, second: Option<int>, rest: Stream)

  /** `>> v >> c`: a number and the character after it; the character is never looked at. */
  datatype HalfRead = HalfRead(value: Option<int>, rest: Stream)

  function ReadHalf(s: Stream): (r: HalfRead)
    requires s.Valid()
    ensures r.rest.Valid() && r.rest.line == s.line && r.rest.pos >= s.pos
  {
    var number := ReadInt(s);
    HalfRead(number.stored, ReadChar(number.rest).rest)
  }

  function ReadPair(s: Stream): (r: PairRead)
    requires s.Valid()
    ensures r.rest.Valid() && r.rest.line == s.line && r.rest.pos >= s.pos
  {
    var first := ReadHalf(s);
    var second := ReadHalf(first.rest);
    PairRead(first.value, second.value, second.rest)
  }

  /** An endpoint outside `[1, n]`, or a loop. */
  predicate OutOfRange(a: int, b: int, n: int) {
    a < 1 || a > n || b < 1 || b > n || a == b
  }

  /** `while (!eof)` over the pairs, from just after the opening brace. */
  function PairLoop(s: Stream, n: int, acc: seq<Pair>, dup: bool): (r: PairScan)
    requires s.Valid()
    ensures r.Scanned? ==> acc <= r.edges
    decreases |s.line| - s.pos, 1
  {
    if s.eof then Scanned(acc, false, false, dup)
    else
      var start := ReadChar(s);
      if start.ch.None? then Indeterminate
      else if start.ch.value == '}' then Scanned(acc, true, false, dup)
      else AfterPair(ReadPair(start.rest), n, acc, dup)
  }

  /**
   * The rest of one turn: the range check (which looks at `vertex2` only when
   * `vertex1` passed), the exact-repeat check, the push, and `>> nextChar`.
   */
  function AfterPair(h: PairRead, n: int, acc: seq<Pair>, dup: bool): (r: PairScan)
    requires h.rest.Valid()
    ensures r.Scanned? ==> acc <= r.edges
    decreases |h.rest.line| - h.rest.pos, 0
  {
    if h.first.None? then Indeterminate
    else if h.first.value < 1 || h.first.value > n then Scanned(acc, false, true, dup)
    else if h.second.None? then Indeterminate
    else
      var p := (h.first.value, h.second.value);
      if OutOfRange(p.0, p.1, n) then Scanned(acc, false, true, dup)
      else
        var next := ReadChar(h.rest);
        if next.ch.None? then Indeterminate
        else if next.ch.value == '}' then Scanned(acc + [p], false, false, dup || p in acc)
        else PairLoop(next.rest, n, acc + [p], dup || p in acc)
  }

  /** Two stored pairs that are each other's reverse. */
  predicate HasReversedPair(es: seq<Pair>) {
    exists i, j | 0 <= i < |es| && 0 <= j < |es| :: es[i].0 == es[j].1 && es[i].1 == es[j].0
  }

  /**
   * After the loop: invalid pairs and repeated edges clear the list and the
   * count; a good list is built. The mark the loop set on a `}` where a pair
   * should start stays set whatever follows.
   */
  function Conclude(st: State, scan: PairScan): (r: Outcome)
    ensures r.Next? <==> scan.Scanned?
    ensures r.Next? ==> r.out == [] || r.out == [InvalidEdges] || r.out == [RepeatedEdges]
    ensures r.Next? ==> r.state.emptyGraph == (st.emptyGraph || scan.closedEmpty)
    ensures r.Next? && r.out != [] ==> r.state == st.(edges := [], vertexCount := 0, emptyGraph := r.state.emptyGraph)
    ensures r.Next? && r.out == [] ==> r.state.edges == scan.edges
    ensures r.Next? && r.out == [] ==> r.state == st.(edges := r.state.edges, adj := BuildAdjacency(r.state.edges), emptyGraph := r.state.emptyGraph)
  {
    match scan
    case Indeterminate => Stuck
    case Scanned(es, closedEmpty, invalid, repeated) =>
      var mark := st.emptyGraph || closedEmpty;
      if invalid then Next(st.(edges := [], vertexCount := 0, emptyGraph := mark), [InvalidEdges])
      else if repeated || (|es| > 1 && HasReversedPair(es)) then
        Next(st.(edges := [], vertexCount := 0, emptyGraph := mark), [RepeatedEdges])
      else Next(st.(edges := es, adj := BuildAdjacency(es), emptyGraph := mark), [])
  }

  /** The edge loop over an `E` line, from after the opening brace. */
  function EdgeScan(line: string, n: int): PairScan {
    PairLoop(ReadChar(AfterCommand(line)).rest, n, [], false)
  }

  /**
   * The `E` branch. An empty graph recorded earlier zeroes the count first;
   * with no count the line is refused on standard output, and a second list
   * is refused and zeroes the count. `>> bracketStart` is not checked.
   */
  function HandleEdge(line: string, st: State): (r: Outcome)
    ensures st.emptyGraph || st.vertexCount == 0 ==> r == Next(st.(vertexCount := 0), [MissingVertices])
    ensures !st.emptyGraph && st.vertexCount != 0 && |st.edges| > 0 ==> r == Next(st.(vertexCount := 0), [SecondEdgeList])
    ensures r.Next? ==> r.state.vertexCount == 0 || r.state.vertexCount == st.vertexCount
    ensures r.Next? && r.out == [] ==>
      && r.state.adj == BuildAdjacency(r.state.edges)
      && (forall i | 0 <= i < |r.state.edges| :: !OutOfRange(r.state.edges[i].0, r.state.edges[i].1, st.vertexCount))
    ensures r.Next? && r.out != [] ==>
      && r.state.adj == st.adj
      && (r.state.edges == st.edges || r.state.edges == [])
      && (r.out == [MissingVertices] || r.out == [SecondEdgeList] || r.out == [InvalidEdges] || r.out == [RepeatedEdges])
    ensures r.Next? && r.out != [MissingVertices] && r.out != [SecondEdgeList] ==>
      && EdgeScan(line, st.vertexCount).Scanned?
      && r.state.emptyGraph == EdgeScan(line, st.vertexCount).closedEmpty
    ensures r.Next? && (r.out == [MissingVertices] || r.out == [SecondEdgeList]) ==> r.state.emptyGraph == st.emptyGraph
  {
    var n := if st.emptyGraph then 0 else st.vertexCount;
    if n == 0 then Next(st.(vertexCount := 0), [MissingVertices])
    else if |st.edges| > 0 then Next(st.(vertexCount := 0), [SecondEdgeList])
    else ReadEdgeList(line, st)
  }

  /** The pair loop and its verdict, for a count in force and no list stored yet. */
  function ReadEdgeList(line: string, st: State): (r: Outcome)
    ensures r.Next? ==> r.out == [] || r.out == [InvalidEdges] || r.out == [RepeatedEdges]
    ensures r.Next? ==> EdgeScan(line, st.vertexCount).Scanned? && r.state.emptyGraph == (st.emptyGraph || EdgeScan(line, st.vertexCount).closedEmpty)
    ensures r.Next? && r.out != [] ==> r.state == st.(edges := [], vertexCount := 0, emptyGraph := r.state.emptyGraph)
    ensures r.Next? && r.out == [] ==> r.state.vertexCount == st.vertexCount && r.state.adj == BuildAdjacency(r.state.edges)
    ensures r.Next? && r.out == [] ==> forall i | 0 <= i < |r.state.edges| :: !OutOfRange(r.state.edges[i].0, r.state.edges[i].1, st.vertexCount)
  {
    PairLoopInRange(ReadChar(AfterCommand(line)).rest, st.vertexCount, [], false);
    Conclude(st, EdgeScan(line, st.vertexCount))
  }

  /** Every pair the loop pushes passed the range check. */
  lemma {:induction false} PairLoopInRange(s: Stream, n: int, acc: seq<Pair>, dup: bool)
    requires s.Valid()
    requires forall i | 0 <= i < |acc| :: !OutOfRange(acc[i].0, acc[i].1, n)
    ensures var r := PairLoop(s, n, acc, dup);
      r.Scanned? ==> forall i | 0 <= i < |r.edges| :: !OutOfRange(r.edges[i].0, r.edges[i].1, n)
    decreases |s.line| - s.pos, 1
  {
    if !s.eof {
      var start := ReadChar(s);
      if start.ch.Some? && start.ch.value != '}' {
        AfterPairInRange(ReadPair(start.rest), n, acc, dup);
      }
    }
  }

  lemma {:induction false} AfterPairInRange(h: PairRead, n: int, acc: seq<Pair>, dup: bool)
    requires h.rest.Valid()
    requires forall i | 0 <= i < |acc| :: !OutOfRange(acc[i].0, acc[i].1, n)
    ensures var r := AfterPair(h, n, acc, dup);
      r.Scanned? ==> forall i | 0 <= i < |r.edges| :: !OutOfRange(r.edges[i].0, r.edges[i].1, n)
    decreases |h.rest.line| - h.rest.pos, 0
  {
    if h.first.Some? && 1 <= h.first.value <= n && h.second.Some? {
      var p := (h.first.value, h.second.value);
      var next := ReadChar(h.rest);
      if !OutOfRange(p.0, p.1, n) {
        var acc' := acc + [p];
        forall i | 0 <= i < |acc'| ensures !OutOfRange(acc'[i].0, acc'[i].1, n) {
          if i < |acc| { assert acc'[i] == acc[i]; }
        }
        if next.ch.Some? && next.ch.value != '}' {
          PairLoopInRange(next.rest, n, acc', dup || p in acc);
          var r := PairLoop(next.rest, n, acc', dup || p in acc);
          assert r.Scanned? ==> forall i | 0 <= i < |r.edges| :: !OutOfRange(r.edges[i].0, r.edges[i].1, n);
          assert AfterPair(h, n, acc, dup) == r;
        } else if next.ch.Some? {
          assert AfterPair(h, n, acc, dup) == Scanned(acc', false, false, dup || p in acc);
        }
      }
    }
  }

  // ------------------------------------------------ E on a typed list

  /** Every pair has both endpoints in `[1, n]` and is not a loop. */
  predicate InBounds(ps: seq<Pair>, n: int) {
    forall i | 0 <= i < |ps| :: !OutOfRange(ps[i].0, ps[i].1, n)
  }

  /** The same pair, in the same orientation, appears twice. */
  predicate Repeats(ps: seq<Pair>) {
    exists i, j | 0 <= i < j < |ps| :: ps[i] == ps[j]
  }

  /** What the edge loop does with a list of pairs read as typed. */
  function Admit(ps: seq<Pair>, n: int, acc: seq<Pair>, dup: bool): (r: PairScan)
    ensures r.Scanned? && !r.closedEmpty
    decreases |ps|
  {
    if |ps| == 0 then Scanned(acc, false, false, dup)
    else if OutOfRange(ps[0].0, ps[0].1, n) then Scanned(acc, false, true, dup)
    else Admit(ps[1..], n, acc + [ps[0]], dup || ps[0] in acc)
  }

  /**
   * The loop breaks exactly when some pair is out of range; otherwise it keeps
   * every pair as typed and has seen an exact repeat exactly when there is one.
   */
  lemma {:induction false} AdmitVerdict(ps: seq<Pair>, n: int, acc: seq<Pair>, dup: bool)
    requires dup <==> Repeats(acc)
    ensures var r := Admit(ps, n, acc, dup);
      && (r.invalid <==> !InBounds(ps, n))
      && (!r.invalid ==> r.edges == acc + ps && (r.repeated <==> Repeats(acc + ps)))
    decreases |ps|
  {
    if |ps| == 0 {
      assert acc + ps == acc;
    } else if OutOfRange(ps[0].0, ps[0].1, n) {
    } else {
      var acc' := acc + [ps[0]];
      RepeatsSnoc(acc, ps[0]);
      AdmitVerdict(ps[1..], n, acc', dup || ps[0] in acc);
      assert acc' + ps[1..] == acc + ps;
      assert InBounds(ps, n) <==> InBounds(ps[1..], n) by {
        if InBounds(ps[1..], n) {
          forall i | 0 <= i < |ps| ensures !OutOfRange(ps[i].0, ps[i].1, n) {
            if i > 0 { assert ps[i] == ps[1..][i - 1]; }
          }
        }
      }
    }
  }

  /** Appending `x` creates a repeat exactly when `x` was already there. */
  lemma RepeatsSnoc(xs: seq<Pair>, x: Pair)
    ensures Repeats(xs + [x]) <==> Repeats(xs) || x in xs
  {
    var ys := xs + [x];
    if Repeats(ys) && !Repeats(xs) {
      var i, j :| 0 <= i < j < |ys| && ys[i] == ys[j];
      assert j == |xs| && ys[i] == xs[i];
    }
    if Repeats(xs) {
      var i, j :| 0 <= i < j < |xs| && xs[i] == xs[j];
      assert ys[i] == ys[j];
    }
    if x in xs {
      var i :| 0 <= i < |xs| && xs[i] == x;
      assert ys[i] == ys[|xs|];
    }
  }

  /**
   * Among pairs with endpoints in range and no loops, those with no exact
   * repeat and no reversed pair are exactly the ones whose canonical forms
   * are valid edges: the lenient program accepts the lists the strict one
   * accepts.
   */
  lemma AcceptsValidEdges(ps: seq<Pair>, n: int)
    requires InBounds(ps, n)
    ensures !Repeats(ps) && !(|ps| > 1 && HasReversedPair(ps)) <==> ValidEdges(CanonAll(ps), n)
  {
    if Repeats(ps) {
      RepeatNotValid(ps, n);
    }
    if |ps| > 1 && HasReversedPair(ps) {
      ReversedNotValid(ps, n);
    }
    if !ValidEdges(CanonAll(ps), n) {
      InvalidMeansRepeat(ps, n);
    }
  }

  lemma RepeatNotValid(ps: seq<Pair>, n: int)
    requires Repeats(ps)
    ensures !ValidEdges(CanonAll(ps), n)
  {
    var i, j :| 0 <= i < j < |ps| && ps[i] == ps[j];
    assert CanonAll(ps)[i] == CanonAll(ps)[j];
  }

  lemma ReversedNotValid(ps: seq<Pair>, n: int)
    requires InBounds(ps, n) && HasReversedPair(ps)
    ensures !ValidEdges(CanonAll(ps), n)
  {
    var cs := CanonAll(ps);
    var i, j :| 0 <= i < |ps| && 0 <= j < |ps| && ps[i].0 == ps[j].1 && ps[i].1 == ps[j].0;
    assert !OutOfRange(ps[i].0, ps[i].1, n);
    assert i != j && cs[i] == cs[j];
    var lo, hi := if i < j then i else j, if i < j then j else i;
    assert lo < hi && cs[lo] == cs[hi];
  }

  lemma InvalidMeansRepeat(ps: seq<Pair>, n: int)
    requires InBounds(ps, n) && !ValidEdges(CanonAll(ps), n)
    ensures Repeats(ps) || (|ps| > 1 && HasReversedPair(ps))
  {
    var i, j := ClashAt(ps, n);
    SameCanonical(ps[i], ps[j]);
    if ps[i] == ps[j] {
      assert Repeats(ps);
    } else {
      assert HasReversedPair(ps);
    }
  }

  /** Two items whose canonical forms coincide, when those forms are not valid edges. */
  lemma ClashAt(ps: seq<Pair>, n: int) returns (i: nat, j: nat)
    requires InBounds(ps, n) && !ValidEdges(CanonAll(ps), n)
    ensures i < j < |ps| && Canonical(ps[i].0, ps[i].1) == Canonical(ps[j].0, ps[j].1)
  {
    var cs := CanonAll(ps);
    CanonWithin(ps, n);
    i, j := RepeatIn(cs, n);
  }

  /** A list within `[1, n]`, smaller endpoint first, that is not valid holds a repeat. */
  lemma RepeatIn(cs: seq<Pair>, n: int) returns (i: nat, j: nat)
    requires forall k | 0 <= k < |cs| :: 1 <= cs[k].0 < cs[k].1 <= n
    requires !ValidEdges(cs, n)
    ensures i < j < |cs| && cs[i] == cs[j]
  {
    i, j :| 0 <= i < j < |cs| && cs[i] == cs[j];
  }

  /** The canonical forms of pairs in bounds lie within `[1, n]`, smaller endpoint first. */
  lemma CanonWithin(ps: seq<Pair>, n: int)
    requires InBounds(ps, n)
    ensures forall i | 0 <= i < |ps| :: 1 <= CanonAll(ps)[i].0 < CanonAll(ps)[i].1 <= n
  {
    forall i | 0 <= i < |ps| ensures 1 <= CanonAll(ps)[i].0 < CanonAll(ps)[i].1 <= n {
      assert !OutOfRange(ps[i].0, ps[i].1, n);
    }
  }

  /** Two pairs with the same canonical form are equal or each other's reverse. */
  lemma SameCanonical(p: Pair, q: Pair)
    requires Canonical(p.0, p.1) == Canonical(q.0, q.1)
    ensures p == q || (p.0 == q.1 && p.1 == q.0)
  {
  }

  /** `>> v >> c` over a number that ends at `e` and the character there. */
  lemma HalfAt(line: string, q: nat, v: int, e: nat, c: char)
    requires IntAt(line, q, v, e) && CharAt(line, e, c)
    ensures ReadHalf(Stream(line, q, false, false)) == HalfRead(Some(v), Stream(line, e + 1, false, false))
  {
  }

  /** The four extractions over the item in slot `t` store its two numbers and stop after its '>'. */
  lemma PairAt(line: string, t: Slot, p: Pair, c: char)
    requires TextAt(line, t, p, c)
    ensures ReadPair(Stream(line, t.open + 1, false, false)) ==
      PairRead(Some(p.0), Some(p.1), Stream(line, t.close + 1, false, false))
  {
    FirstNumber(line, t, p, c);
    SecondNumber(line, t, p, c);
    HalfAt(line, t.open + 1, p.0, t.comma, ',');
    HalfAt(line, t.comma + 1, p.1, t.close, '>');
  }

  /** One turn of the loop over the item in slot `t`, followed by `c`. */
  lemma TurnAt(line: string, t: Slot, p: Pair, c: char, n: int, acc: seq<Pair>, dup: bool)
    requires TextAt(line, t, p, c)
    ensures PairLoop(Stream(line, t.open, false, false), n, acc, dup) ==
      if OutOfRange(p.0, p.1, n) then Scanned(acc, false, true, dup)
      else if c == '}' then Scanned(acc + [p], false, false, dup || p in acc)
      else PairLoop(Stream(line, t.close + 2, false, false), n, acc + [p], dup || p in acc)
  {
    ItemParts(line, t, p, c);
    ReadsCharAt(line, t.open, '<');
    PairAt(line, t, p, c);
    SeparatorRead(line, t, p, c);
  }

  /** The loop over the items in slots `ts` does what the reference loop does with the pairs. */
  lemma {:induction false} LoopOnRendered(line: string, ts: seq<Slot>, ps: seq<Pair>, n: int, acc: seq<Pair>, dup: bool)
    requires Every(TextOk(line), ts, ps)
    ensures PairLoop(Stream(line, ts[0].open, false, false), n, acc, dup) == Admit(ps, n, acc, dup)
    decreases |ps|
  {
    var t, p, c := ts[0], ps[0], Separator(|ps|);
    assert TextOk(line)(t, p, c);
    TurnAt(line, t, p, c, n, acc, dup);
    if !OutOfRange(p.0, p.1, n) {
      if |ps| == 1 {
        assert Admit(ps, n, acc, dup) == Admit([], n, acc + [p], dup || p in acc);
      } else {
        LoopOnRendered(line, ts[1..], ps[1..], n, acc + [p], dup || p in acc);
      }
    }
  }

  /** The reference loop's verdict on a typed list, or the empty-graph mark for `E {}`. */
  function TypedScan(ps: seq<Pair>, n: int): PairScan {
    if |ps| == 0 then Scanned([], true, false, false) else Admit(ps, n, [], false)
  }

  /** From the command to the end of the loop, a typed list reads back as typed. */
  lemma ScanOfRendered(ps: seq<Pair>, n: int)
    requires PairsInIntRange(ps)
    ensures PairLoop(ReadChar(AfterCommand(RenderEdgeCommand(ps))).rest, n, [], false) == TypedScan(ps, n)
  {
    var line := RenderEdgeCommand(ps);
    assert line[0] == 'E' && line[1] == ' ' && line[2] == '{' && line[3] == (if |ps| == 0 then '}' else '<');
    assert SkipSpaces(line, 0) == 0 && SkipSpaces(line, 1) == 2;
    assert AfterCommand(line) == Stream(line, 1, false, false);
    assert ReadChar(Stream(line, 1, false, false)) == CharRead(Stream(line, 3, false, false), Some('{'));
    if |ps| == 0 {
      ReadCharAt(Stream(line, 3, false, false), '}');
    } else {
      assert line[3..] == RenderItems(ps);
      RenderedTexts(line, 3, ps);
      LoopOnRendered(line, Slots(3, ps), ps, n, [], false);
    }
  }

  /**
   * A typed list, given a count, no stored list and no empty-graph mark: it is
   * kept exactly as typed when its canonical forms are valid edges (the
   * strict program's condition); a pair out of range or a loop gives one
   * message, a repeat in either orientation the other, and both zero the
   * count. `E {}` marks the graph empty.
   */
  lemma EdgeCommandEffect(ps: seq<Pair>, st: State)
    requires PairsInIntRange(ps)
    requires st.vertexCount != 0 && !st.emptyGraph && st.edges == []
    ensures var r := HandleEdge(RenderEdgeCommand(ps), st);
      && r.Next?
      && (r.out == [] <==> ValidEdges(CanonAll(ps), st.vertexCount))
      && (r.out == [] ==> r.state == st.(edges := ps, adj := BuildAdjacency(ps), emptyGraph := |ps| == 0))
      && (r.out == [InvalidEdges] <==> !InBounds(ps, st.vertexCount))
      && (r.out != [] ==> r.state == st.(vertexCount := 0))
  {
    ScanOfRendered(ps, st.vertexCount);
    ConcludeTyped(ps, st);
  }

  lemma ConcludeTyped(ps: seq<Pair>, st: State)
    requires st.vertexCount != 0 && !st.emptyGraph && st.edges == []
    ensures var r := Conclude(st, TypedScan(ps, st.vertexCount));
      && r.Next?
      && (r.out == [] <==> ValidEdges(CanonAll(ps), st.vertexCount))
      && (r.out == [] ==> r.state == st.(edges := ps, adj := BuildAdjacency(ps), emptyGraph := |ps| == 0))
      && (r.out == [InvalidEdges] <==> !InBounds(ps, st.vertexCount))
      && (r.out != [] ==> r.state == st.(vertexCount := 0))
  {
    var n := st.vertexCount;
    if |ps| == 0 {
      assert CanonAll(ps) == [];
    } else {
      AdmitVerdict(ps, n, [], false);
      assert [] + ps == ps;
      if InBounds(ps, n) {
        AcceptsValidEdges(ps, n);
      } else {
        OutOfBoundsNotValid(ps, n);
      }
    }
  }

  lemma OutOfBoundsNotValid(ps: seq<Pair>, n: int)
    requires !InBounds(ps, n)
    ensures !ValidEdges(CanonAll(ps), n)
  {
    var i :| 0 <= i < |ps| && OutOfRange(ps[i].0, ps[i].1, n);
    assert !(1 <= CanonAll(ps)[i].0 < CanonAll(ps)[i].1 <= n);
  }

  /** An edge list with a comma after its last pair. */
  const TrailingComma: string := "E {<1,2>,}"

  /**
   * `E {<1,2>,}`: the '}' after the comma is read where a pair should start,
   * so the edge is stored and the graph is marked empty at the same time.
   */
  lemma TrailingCommaMarksEmpty(st: State)
    requires st.vertexCount >= 2 && !st.emptyGraph && st.edges == []
    ensures HandleEdge(TrailingComma, st) ==
      Next(st.(edges := [(1, 2)], adj := BuildAdjacency([(1, 2)]), emptyGraph := true), [])
  {
    TrailingCommaLoop(st.vertexCount);
    TrailingCommaBrace();
  }

  lemma TrailingCommaBrace()
    ensures ReadChar(AfterCommand(TrailingComma)).rest == Stream(TrailingComma, 3, false, false)
  {
    EdgeBrace(TrailingComma);
  }

  lemma TrailingCommaLoop(n: int)
    requires n >= 2
    ensures PairLoop(Stream(TrailingComma, 3, false, false), n, [], false) == Scanned([(1, 2)], true, false, false)
  {
    var line := TrailingComma;
    TrailingCommaText();
    TurnAt(line, Slot(3, 5, 7), (1, 2), ',', n, [], false);
    ReadCharAt(Stream(line, 9, false, false), '}');
  }

  lemma TrailingCommaText()
    ensures TextAt(TrailingComma, Slot(3, 5, 7), (1, 2), ',')
  {
    assert IntToString(1) == "1" && IntToString(2) == "2";
    assert SlotOf(3, (1, 2)) == Slot(3, 5, 7);
    assert TrailingComma[3..9] == RenderPair((1, 2)) + [','];
  }

  /** On a line starting `E {` the loop starts right after the brace. */
  lemma EdgeBrace(line: string)
    requires |line| > 3 && line[0] == 'E' && line[1] == ' ' && line[2] == '{'
    ensures ReadChar(AfterCommand(line)).rest == Stream(line, 3, false, false)
  {
    assert SkipSpaces(line, 0) == 0 && SkipSpaces(line, 1) == 2;
    assert AfterCommand(line) == Stream(line, 1, false, false);
    assert ReadChar(Stream(line, 1, false, false)) == CharRead(Stream(line, 3, false, false), Some('{'));
  }

  /** A repeated edge list with a comma after its last pair. */
  const RepeatedTrailingComma: string := "E {<1,2>,<1,2>,}"

  /**
   * `E {<1,2>,<1,2>,}`: the repeat clears the list and the count, yet the
   * '}' read where a third pair should start has already marked the graph
   * empty, and the refusal leaves the mark set.
   */
  lemma RepeatRefusalKeepsMark(st: State)
    requires st.vertexCount >= 2 && !st.emptyGraph && st.edges == []
    ensures HandleEdge(RepeatedTrailingComma, st) == Next(st.(vertexCount := 0, emptyGraph := true), [RepeatedEdges])
  {
    RepeatedTrailingCommaScan(st.vertexCount);
    RepeatRefusalAt(RepeatedTrailingComma, st);
  }

  /**
   * After that refusal, `V 3 ` stores the count but reports an error, so the
   * mark survives; the next `E` line then has its count zeroed and is refused.
   */
  lemma StaleMarkRefusesEdges(st: State, line: string)
    requires st.vertexCount >= 2 && !st.emptyGraph && st.edges == []
    ensures var s1 := st.(vertexCount := 0, emptyGraph := true);
      var s2 := s1.(vertexCount := 3);
      && HandleEdge(RepeatedTrailingComma, st) == Next(s1, [RepeatedEdges])
      && HandleVertex(VertexCommand(3) + " ", s1) == Next(s2, [InvalidVertices])
      && HandleEdge(line, s2) == Next(s2.(vertexCount := 0), [MissingVertices])
  {
    RepeatRefusalKeepsMark(st);
    TrailingBlankAfterCount(3, st.(vertexCount := 0, emptyGraph := true));
  }

  /** An edge line whose loop pushes a repeat and then meets '}' at a pair start is refused with the mark set. */
  lemma RepeatRefusalAt(line: string, st: State)
    requires st.vertexCount >= 2 && !st.emptyGraph && st.edges == []
    requires EdgeScan(line, st.vertexCount) == Scanned([(1, 2), (1, 2)], true, false, true)
    ensures HandleEdge(line, st) == Next(st.(vertexCount := 0, emptyGraph := true), [RepeatedEdges])
  {
  }

  lemma RepeatedTrailingCommaScan(n: int)
    requires n >= 2
    ensures EdgeScan(RepeatedTrailingComma, n) == Scanned([(1, 2), (1, 2)], true, false, true)
  {
    var line := RepeatedTrailingComma;
    RepeatedTrailingCommaText();
    EdgeBrace(line);
    RepeatedLoopAt(line, n);
  }

  /** Two items `<1,2>` each followed by a comma, then '}'. */
  lemma RepeatedLoopAt(line: string, n: int)
    requires n >= 2 && |line| == 16 && line[15] == '}'
    requires TextAt(line, Slot(3, 5, 7), (1, 2), ',') && TextAt(line, Slot(9, 11, 13), (1, 2), ',')
    ensures PairLoop(Stream(line, 3, false, false), n, [], false) == Scanned([(1, 2), (1, 2)], true, false, true)
  {
    assert !OutOfRange(1, 2, n);
    TurnAt(line, Slot(3, 5, 7), (1, 2), ',', n, [], false);
    assert [] + [(1, 2)] == [(1, 2)] && (1, 2) !in [];
    TurnAt(line, Slot(9, 11, 13), (1, 2), ',', n, [(1, 2)], false);
    assert [(1, 2)] + [(1, 2)] == [(1, 2), (1, 2)] && (1, 2) in [(1, 2)];
    ClosingBraceAt(line, 15, n, [(1, 2), (1, 2)], true);
  }

  /** A '}' where a pair should start ends the loop and marks the graph empty. */
  lemma ClosingBraceAt(line: string, i: nat, n: int, acc: seq<Pair>, dup: bool)
    requires i < |line| && line[i] == '}'
    ensures PairLoop(Stream(line, i, false, false), n, acc, dup) == Scanned(acc, true, false, dup)
  {
    ReadCharAt(Stream(line, i, false, false), '}');
  }

  lemma RepeatedTrailingCommaText()
    ensures |RepeatedTrailingComma| == 16 && RepeatedTrailingComma[15] == '}'
    ensures RepeatedTrailingComma[0] == 'E' && RepeatedTrailingComma[1] == ' ' && RepeatedTrailingComma[2] == '{'
    ensures TextAt(RepeatedTrailingComma, Slot(3, 5, 7), (1, 2), ',')
    ensures TextAt(RepeatedTrailingComma, Slot(9, 11, 13), (1, 2), ',')
  {
    assert IntToString(1) == "1" && IntToString(2) == "2";
    assert SlotOf(3, (1, 2)) == Slot(3, 5, 7);
    assert SlotOf(9, (1, 2)) == Slot(9, 11, 13);
    assert RepeatedTrailingComma[3..9] == RenderPair((1, 2)) + [','];
    assert RepeatedTrailingComma[9..15] == RenderPair((1, 2)) + [','];
  }

  // ---------------------------------------------------------------- s

  /** What the `s` branch decides before the search: a reply, or the two vertices to search between. */
  datatype Query = Reply(outcome: Outcome) | Search(a: int, b: int)

  /**
   * The checks of the `s` branch in order: a count, a list or the empty-graph
   * mark, two readable numbers, distinct vertices in range, a graph not
   * marked empty, and both vertices used by some edge.
   */
  function QueryVerdict(line: string, st: State): (q: Query)
    ensures q.Reply? ==> q.outcome.Next? && |q.outcome.out| == 1 && q.outcome.state.edges == st.edges && q.outcome.state.adj == st.adj
    ensures st.vertexCount == 0 ==> q == Reply(Next(st.(emptyGraph := false), [MissingVertexInfo]))
    ensures st.vertexCount != 0 && |st.edges| == 0 && !st.emptyGraph ==> q == Reply(Next(st.(vertexCount := 0), [MissingEdgeInfo]))
    ensures q.Search? <==>
      && st.vertexCount != 0 && !st.emptyGraph && |st.edges| > 0
      && QueryArgs(line).Some?
      && Endpoints(QueryArgs(line).value.0, QueryArgs(line).value.1, st.vertexCount)
      && IsEndpoint(st.edges, QueryArgs(line).value.0) && IsEndpoint(st.edges, QueryArgs(line).value.1)
    ensures q.Search? ==> QueryArgs(line) == Some((q.a, q.b))
    ensures st.vertexCount != 0 && st.emptyGraph && QueryArgs(line).Some? &&
            Endpoints(QueryArgs(line).value.0, QueryArgs(line).value.1, st.vertexCount) ==>
      q == Reply(Next(st.(vertexCount := 0), [NoPath]))
  {
    if st.vertexCount == 0 then Reply(Next(st.(emptyGraph := false), [MissingVertexInfo]))
    else if |st.edges| == 0 && !st.emptyGraph then Reply(Next(st.(vertexCount := 0), [MissingEdgeInfo]))
    else match QueryArgs(line)
      case None => Reply(Next(st.(emptyGraph := false), [InvalidFormat]))
      case Some((a, b)) =>
        if !Endpoints(a, b, st.vertexCount) then Reply(Next(st, [InvalidQuery]))
        else if st.emptyGraph then Reply(Next(st.(vertexCount := 0), [NoPath]))
        else if !IsEndpoint(st.edges, a) || !IsEndpoint(st.edges, b) then Reply(Next(st, [NoPath]))
        else Search(a, b)
  }

  /** An adjacency map built from pairs of positive vertices has no parent sentinel and no dangling neighbour. */
  lemma PositiveNoSentinel(edges: seq<Pair>)
    requires forall i | 0 <= i < |edges| :: 1 <= edges[i].0 && 1 <= edges[i].1
    ensures NoSentinel(BuildAdjacency(edges)) && Closed(BuildAdjacency(edges))
  {
    var adj := BuildAdjacency(edges);
    BuiltAdjacencyIsSymmetric(edges);
    forall u, w | Edge(adj, u, w)
      ensures w != -1
    {
      assert Joins(edges, u, w);
    }
  }

  /** What the `s` branch prints and keeps, as `HandleQuery` promises it. */
  ghost predicate Answers(line: string, st: State, r: Outcome) {
    match QueryVerdict(line, st)
    case Reply(outcome) => r == outcome
    case Search(a, b) =>
      && r.Next? && r.state == st
      && (r.out == [EmptyPath, PathPrinted("\n")] <==> !Reachable(st.adj, a, b))
      && (Reachable(st.adj, a, b) ==>
            exists path :: IsShortestWalk(st.adj, a, b, path) && r.out == [PathPrinted(PathLine(path))])
  }

  /**
   * The `s` branch: after the checks, the search that stops when the end
   * vertex is discovered; `displayPath` prints the traced path from the start.
   */
  method HandleQuery(line: string, st: State) returns (r: Outcome)
    requires Coherent(st)
    ensures Answers(line, st, r)
  {
    var q := QueryVerdict(line, st);
    if q.Reply? {
      return q.outcome;
    }
    var a, b := q.a, q.b;
    PositiveNoSentinel(st.edges);
    var rev := ShortestPathOnDiscovery(st.adj, a, b);
    if |rev| == 0 {
      return Next(st, [EmptyPath, PathPrinted("\n")]);
    }
    r := Next(st, [PathPrinted(PathLine(Reverse(rev)))]);
    assert IsShortestWalk(st.adj, a, b, Reverse(rev));
  }

  // ---------------------------------------------------------------- main

  /** The echo: every line that does not start with 's' is printed back, the empty line included. */
  function EchoOf(line: string): seq<Message> {
    if |line| > 0 && line[0] == 's' then [] else [Echo(line)]
  }

  /** A line that is neither empty nor starts with a blank goes on to the command. */
  predicate Processed(line: string) {
    |line| > 0 && line[0] != ' '
  }

  /** A branch's outcome, after the echo. */
  function Then(pre: seq<Message>, r: Outcome): Outcome {
    if r.Stuck? then Stuck else Next(r.state, pre + r.out)
  }

  /** The echoed lines among the messages, in order. */
  function Echoes(out: seq<Message>): (e: seq<Message>)
    ensures |e| <= |out|
  {
    if |out| == 0 then [] else (if out[0].Echo? then [out[0]] else []) + Echoes(out[1..])
  }

  lemma {:induction false} EchoesAppend(a: seq<Message>, b: seq<Message>)
    ensures Echoes(a + b) == Echoes(a) + Echoes(b)
    decreases |a|
  {
    if |a| > 0 {
      assert (a + b)[1..] == a[1..] + b;
      EchoesAppend(a[1..], b);
    } else {
      assert a + b == b;
    }
  }

  /** One line of `main`'s loop. */
  method Step(st: State, line: string) returns (r: Outcome)
    requires Coherent(st)
    ensures r.Next? ==> Coherent(r.state) && Echoes(r.out) == EchoOf(line)
    ensures !Processed(line) ==> r == Next(st, [Echo(line)])
    ensures Processed(line) && CommandChar(line).None? ==> r.Stuck?
    ensures Processed(line) && CommandChar(line) == Some('V') ==> r == Then(EchoOf(line), HandleVertex(line, st))
    ensures Processed(line) && CommandChar(line) == Some('E') ==> r == Then(EchoOf(line), HandleEdge(line, st))
    ensures Processed(line) && CommandChar(line) == Some('s') ==>
      exists q :: Answers(line, st, q) && r == Then(EchoOf(line), q)
    ensures Processed(line) && CommandChar(line).Some? && CommandChar(line).value !in "VEs" ==>
      r == Next(st, EchoOf(line) + [InvalidCommand])
  {
    var echo := EchoOf(line);
    if !Processed(line) {
      return Next(st, [Echo(line)]);
    }
    var cmd := CommandChar(line);
    if cmd.None? {
      return Stuck;
    }
    var q: Outcome;
    match cmd.value {
      case 'V' => q := HandleVertex(line, st); VertexKeepsCoherent(line, st);
      case 'E' => q := HandleEdge(line, st); EdgeKeepsCoherent(line, st);
      case 's' => q := HandleQuery(line, st); QueryKeepsCoherent(line, st, q);
      case _ => q := Next(st, [InvalidCommand]); assert Echoes(q.out) == [];
    }
    r := Then(echo, q);
    if r.Next? {
      EchoesAppend(echo, q.out);
    }
  }

  /** The `V` branch keeps the edges or clears them, and echoes nothing. */
  lemma VertexKeepsCoherent(line: string, st: State)
    requires Coherent(st)
    ensures var r := HandleVertex(line, st); Coherent(r.state) && Echoes(r.out) == []
  {
    Quiet(HandleVertex(line, st).out);
  }

  /** The `E` branch builds the map from the edges it stores, and echoes nothing. */
  lemma EdgeKeepsCoherent(line: string, st: State)
    requires Coherent(st)
    ensures var r := HandleEdge(line, st); r.Next? ==> Coherent(r.state) && Echoes(r.out) == []
  {
    var r := HandleEdge(line, st);
    if r.Next? {
      if r.out == [] {
        assert forall i | 0 <= i < |r.state.edges| :: !OutOfRange(r.state.edges[i].0, r.state.edges[i].1, st.vertexCount);
      }
      Quiet(r.out);
    }
  }

  /** The `s` branch changes only the count and the empty-graph mark, and echoes nothing. */
  lemma QueryKeepsCoherent(line: string, st: State, r: Outcome)
    requires Coherent(st) && Answers(line, st, r)
    ensures r.Next? && Coherent(r.state) && Echoes(r.out) == []
  {
    var q := QueryVerdict(line, st);
    if q.Search? && Reachable(st.adj, q.a, q.b) {
      var path :| IsShortestWalk(st.adj, q.a, q.b, path) && r.out == [PathPrinted(PathLine(path))];
    }
    Quiet(r.out);
  }

  /** Messages that are not echoes leave nothing among the echoes. */
  lemma {:induction false} Quiet(out: seq<Message>)
    requires forall i | 0 <= i < |out| :: !out[i].Echo?
    ensures Echoes(out) == []
    decreases |out|
  {
    if |out| > 0 {
      Quiet(out[1..]);
    }
  }

  /** The echoes of a run's lines, in order. */
  function EchoedLines(lines: seq<string>): seq<Message> {
    if |lines| == 0 then [] else EchoedLines(lines[..|lines| - 1]) + EchoOf(lines[|lines| - 1])
  }

  /**
   * The `while (!std::cin.eof())` loop over the lines `getline` returns.
   * Every line not starting with 's' is echoed in order, whatever else is
   * printed between them; the run stops being defined at a line that reads an
   * uninitialised variable.
   */
  method Run(lines: seq<string>) returns (out: seq<Message>, defined: bool)
    ensures defined ==> Echoes(out) == EchoedLines(lines)
    ensures !defined ==> exists k | 0 <= k < |lines| :: Echoes(out) == EchoedLines(lines[..k])
  {
    var st := Initial;
    out := [];
    var i := 0;
    while i < |lines|
      invariant 0 <= i <= |lines|
      invariant Coherent(st)
      invariant Echoes(out) == EchoedLines(lines[..i])
    {
      var r := Step(st, lines[i]);
      if r.Stuck? {
        return out, false;
      }
      EchoesAppend(out, r.out);
      assert lines[..i + 1][..i] == lines[..i];
      st, out := r.state, out + r.out;
      i := i + 1;
    }
    assert lines[..i] == lines;
    return out, true;
  }
}
