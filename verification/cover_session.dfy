/**
 * The command loop of the vertex-cover program. `V <n>` sets the vertex
 * count; `E {...}` reads an edge list and, whenever edges are then stored,
 * prints a minimum vertex cover found through the SAT encoding. Errors are
 * reported and the loop carries on with the next line.
 */
module CoverSession {
  import opened Options
  import opened Seqs
  import opened Text
  import opened Stream
  import opened Graph
  import opened EdgeList
  import opened Cnf
  import opened Cover
  import opened Commands

  /** `vertexCount`, `edges` and `adjacencyList` of `main`. */
  datatype State = State(vertexCount: int, edges: seq<Pair>, adj: Adjacency)

  /** Before the first line. */
  const Initial: State := State(0, [], map[])

  /** What one line prints, one constructor per message of the program. */
  datatype Message =
    | BadCount                   // "Error: Invalid number of vertices. ..."
    | NoVertices                 // "Error: Define vertices first ..."
    | BraceMissing               // "Error: Edges should start with '{'."
    | ItemError(error: PairError) // the message for the refused item, with its pair where it has one
    | Unclosed                   // "Error: Edge list should end with '}'."
    | UnknownCommand             // "Error: Unrecognized command. ..."
    | PrintedCover(text: string) // the cover line

  /** The state after a line and what it printed, or `Stuck` for a line whose behaviour is undefined. */
  datatype Outcome = Next(state: State, out: seq<Message>) | Stuck

  /**
   * `handleVertexCommand`: the count is read straight into `vertexCount`, so a
   * rejected line still stores whatever the extraction stored. Only an
   * accepted count clears the graph.
   */
  function HandleVertex(line: string, st: State): (r: Outcome)
    ensures r.Next? && (r.out == [] || r.out == [BadCount])
    ensures r.out == [] ==> r.state.vertexCount > 1 && r.state.edges == [] && r.state.adj == map[]
    ensures r.out != [] ==> r.state.edges == st.edges && r.state.adj == st.adj
    ensures InIntRange(st.vertexCount) ==> InIntRange(r.state.vertexCount)
  {
    var count := ReadInt(AfterCommand(line));
    var n := if count.stored.Some? then count.stored.value else st.vertexCount;
    if count.rest.fail || n <= 1 then Next(st.(vertexCount := n), [BadCount])
    else Next(State(n, [], map[]), [])
  }

  /** A typed `V n` sets the count to `n`, and clears the graph exactly when `n > 1`. */
  lemma VertexCommandEffect(n: int, st: State)
    requires InIntRange(n)
    ensures HandleVertex(VertexCommand(n), st) ==
      if n > 1 then Next(State(n, [], map[]), []) else Next(st.(vertexCount := n), [BadCount])
  {
    VertexCommandRead(n);
  }

  /** `V x` stores 0 and fails: the count is reset, the old edges stay, and the next `E` is refused. */
  lemma NonNumericCount(st: State, line: string)
    requires st.vertexCount != 0
    ensures HandleVertex("V x", st) == Next(st.(vertexCount := 0), [BadCount])
    ensures HandleEdge(line, st.(vertexCount := 0)) == Next(st.(vertexCount := 0), [NoVertices])
  {
    var s := AfterCommand("V x");
    assert s.pos == 1 by { assert SkipSpaces("V x", 0) == 0; }
    assert SkipSpaces("V x", 1) == 2;
    assert DigitRunEnd("V x", 2) == 2;
  }

  /** A bare `V` stores nothing: the state is unchanged and the error is reported. */
  lemma BareVertexCommand(st: State)
    ensures HandleVertex("V", st) == Next(st, [BadCount])
  {
    assert SkipSpaces("V", 0) == 0;
    assert SkipSpaces("V", 1) == 1;
  }

  /**
   * `handleEdgeCommand`. A refused item leaves `edges` holding what was
   * accepted before it (the old list was cleared first) and the adjacency map
   * as it was; a list that ends without '}' is reported and still kept.
   */
  function HandleEdge(line: string, st: State): (r: Outcome)
    ensures r.Next? ==> r.state.vertexCount == st.vertexCount
    ensures r.Next? && (r.out == [NoVertices] || r.out == [BraceMissing]) ==> r.state == st
    ensures r.Next? && r.out != [NoVertices] && r.out != [BraceMissing] ==> ValidEdges(r.state.edges, st.vertexCount)
    ensures r.Next? && (r.out == [] || r.out == [Unclosed]) ==> r.state.adj == BuildAdjacency(r.state.edges)
    ensures r.Next? && r.out != [] && r.out != [Unclosed] ==> r.state.adj == st.adj
    ensures st.vertexCount == 0 ==> r == Next(st, [NoVertices])
  {
    if st.vertexCount == 0 then Next(st, [NoVertices])
    else Apply(st, ScanEdgeLine(line, st.vertexCount))
  }

  /** What the handler does with the result of the scan. */
  function Apply(st: State, scan: EdgeScan): (r: Outcome)
    ensures r.Stuck? <==> scan.Undefined?
    ensures scan.NoOpenBrace? ==> r == Next(st, [BraceMissing])
    ensures scan.Listed? ==> r.state == State(st.vertexCount, scan.edges, BuildAdjacency(scan.edges)) && (r.out == [] || r.out == [Unclosed])
    ensures scan.Rejected? ==> r.state == st.(edges := scan.edges) && r.out == [ItemError(scan.error)]
  {
    match scan
    case Undefined => Stuck
    case NoOpenBrace => Next(st, [BraceMissing])
    case Listed(es, closed) => Next(State(st.vertexCount, es, BuildAdjacency(es)), if closed then [] else [Unclosed])
    case Rejected(es, error) => Next(st.(edges := es), [ItemError(error)])
  }

  /**
   * A typed `E {...}` line: the list is stored, and the adjacency map rebuilt,
   * exactly when its canonical form is a valid edge list; otherwise `edges`
   * keeps the canonical pairs before the refused one and the map is untouched.
   */
  lemma EdgeCommandEffect(ps: seq<Pair>, st: State)
    requires st.vertexCount != 0 && PairsInIntRange(ps)
    ensures var r := HandleEdge(RenderEdgeCommand(ps), st);
      && r.Next?
      && (r.out == [] <==> ValidEdges(CanonAll(ps), st.vertexCount))
      && (r.out == [] ==> r.state == State(st.vertexCount, CanonAll(ps), BuildAdjacency(CanonAll(ps))))
      && (r.out != [] ==>
            var i := |r.state.edges|;
            && i < |ps|
            && r.state == st.(edges := CanonAll(ps[..i]))
            && (r.out == [ItemError(InvalidPair(ps[i].0, ps[i].1))] || r.out == [ItemError(Duplicate(ps[i].0, ps[i].1))]))
  {
    EdgeCommandScan(ps, st);
    ValidatedAccepted(ps, st);
    ValidatedRefused(ps, st);
  }

  lemma EdgeCommandScan(ps: seq<Pair>, st: State)
    requires st.vertexCount != 0 && PairsInIntRange(ps)
    ensures HandleEdge(RenderEdgeCommand(ps), st) == Apply(st, Validate(ps, st.vertexCount, []))
  {
    RenderedScan(ps, st.vertexCount);
  }

  /** A list the reference loop accepts is stored whole, with the adjacency map rebuilt; only such lists print nothing. */
  lemma ValidatedAccepted(ps: seq<Pair>, st: State)
    ensures var r := Apply(st, Validate(ps, st.vertexCount, []));
      && r.Next?
      && (r.out == [] <==> ValidEdges(CanonAll(ps), st.vertexCount))
      && (r.out == [] ==> r.state == State(st.vertexCount, CanonAll(ps), BuildAdjacency(CanonAll(ps))))
  {
    var n := st.vertexCount;
    var v := Validate(ps, n, []);
    ValidateAccepts(ps, n, []);
    if v.Listed? {
      var es := CanonAll(ps);
      assert v == Listed(es, true) by { assert [] + es == es; }
      ApplyListed(st, es);
    } else {
      ApplyRejected(st, v.edges, v.error);
    }
  }

  /** A list the reference loop refuses leaves the canonical pairs before the refused one, and names that pair. */
  lemma ValidatedRefused(ps: seq<Pair>, st: State)
    ensures var r := Apply(st, Validate(ps, st.vertexCount, []));
      r.Next? && r.out != [] ==>
        var i := |r.state.edges|;
        && i < |ps|
        && r.state == st.(edges := CanonAll(ps[..i]))
        && (r.out == [ItemError(InvalidPair(ps[i].0, ps[i].1))] || r.out == [ItemError(Duplicate(ps[i].0, ps[i].1))])
  {
    var n := st.vertexCount;
    var v := Validate(ps, n, []);
    if v.Listed? {
      ApplyListed(st, v.edges);
    } else {
      ValidateRejects(ps, n, []);
      var es := CanonAll(ps[..|v.edges|]);
      assert v == Rejected(es, v.error) by { assert [] + es == es; }
      ApplyRejected(st, es, v.error);
    }
  }

  lemma ApplyListed(st: State, es: seq<Pair>)
    ensures Apply(st, Listed(es, true)) == Next(State(st.vertexCount, es, BuildAdjacency(es)), [])
  {
  }

  lemma ApplyRejected(st: State, es: seq<Pair>, error: PairError)
    ensures Apply(st, Rejected(es, error)) == Next(st.(edges := es), [ItemError(error)])
  {
  }

  /** `<1,2>,<2,1>` names one undirected edge twice: the second pair is refused as a duplicate. */
  lemma ReversedPairRefused(st: State)
    requires st.vertexCount >= 2
    ensures HandleEdge("E {<1,2>,<2,1>}", st) == Next(st.(edges := [(1, 2)]), [ItemError(Duplicate(2, 1))])
  {
    var ps := [(1, 2), (2, 1)];
    ReversedPairText();
    ReversedPairScan(st.vertexCount);
    RenderedScan(ps, st.vertexCount);
  }

  lemma ReversedPairText()
    ensures RenderEdgeCommand([(1, 2), (2, 1)]) == "E {<1,2>,<2,1>}"
    ensures PairsInIntRange([(1, 2), (2, 1)])
  {
    assert IntToString(1) == "1" && IntToString(2) == "2";
    var ps := [(1, 2), (2, 1)];
    assert ps[1..] == [(2, 1)];
    assert RenderItems(ps[1..]) == "<2,1>}";
  }

  lemma ReversedPairScan(n: int)
    requires n >= 2
    ensures Validate([(1, 2), (2, 1)], n, []) == Rejected([(1, 2)], Duplicate(2, 1))
  {
    var ps := [(1, 2), (2, 1)];
    assert ps[1..] == [(2, 1)];
    assert [(2, 1)][1..] == [];
  }

  /**
   * `findVertexCover` indexes `literals_2d` within bounds, and sizes it with
   * `v + 1` still an `int`, only when no stored endpoint exceeds `v`; with
   * `v < 1` its loop never runs.
   */
  predicate CoverDefined(v: int, edges: seq<Pair>) {
    v < 1 || (v < IntMax && Within(edges, v))
  }

  /** What `findVertexCover` prints: the cover line, or nothing when no size up to `v` was satisfiable. */
  function CoverOutput(cover: Option<seq<int>>): seq<Message> {
    match cover
    case None => []
    case Some(c) => [PrintedCover(CoverLine(c))]
  }

  /**
   * One line of `main`: empty lines are skipped, a line with no command
   * character leaves `c` uninitialised, and after every `E` line that leaves
   * edges stored the cover is searched for those edges.
   */
  function Step(st: State, line: string, solve: Solver): Outcome {
    if |line| == 0 then Next(st, [])
    else
      match CommandChar(line)
      case None => Stuck
      case Some(c) =>
        if c == 'V' then HandleVertex(line, st)
        else if c == 'E' then CoverAfterEdge(HandleEdge(line, st), solve)
        else Next(st, [UnknownCommand])
  }

  /** After an `E` line, the cover search runs whenever the stored list is non-empty. */
  function CoverAfterEdge(h: Outcome, solve: Solver): Outcome {
    match h
    case Stuck => Stuck
    case Next(st', out) =>
      if |st'.edges| == 0 then Next(st', out)
      else if !CoverDefined(st'.vertexCount, st'.edges) then Stuck
      else Next(st', out + CoverOutput(FindVertexCover(st'.vertexCount, st'.edges, solve)))
  }

  /** The `while (!cin.eof())` loop over the input lines; the output is what every line printed, in order. */
  function Run(st: State, lines: seq<string>, solve: Solver): Outcome
    decreases |lines|
  {
    if |lines| == 0 then Next(st, [])
    else
      match Step(st, lines[0], solve)
      case Stuck => Stuck
      case Next(st', out) =>
        match Run(st', lines[1..], solve)
        case Stuck => Stuck
        case Next(st'', rest) => Next(st'', out + rest)
  }

  /**
   * An `E` line whose scan stores a non-empty list prints, after the scan's
   * own message, a minimum cover of the stored edges, provided the solver
   * answers every formula of the search correctly.
   */
  lemma EdgeLinePrintsMinimumCover(st: State, line: string, solve: Solver)
    requires CommandChar(line) == Some('E')
    requires 1 <= st.vertexCount < IntMax
    requires var scan := ScanEdgeLine(line, st.vertexCount); (scan.Listed? || scan.Rejected?) && |scan.edges| > 0
    requires forall k | 1 <= k <= st.vertexCount ::
      SolverCorrect(solve, CoverFormula(st.vertexCount, k, ScanEdgeLine(line, st.vertexCount).edges))
    ensures var r := Step(st, line, solve);
      && r.Next?
      && r.state.edges == ScanEdgeLine(line, st.vertexCount).edges
      && |r.out| >= 1 && r.out[..|r.out| - 1] == HandleEdge(line, st).out
      && r.out[|r.out| - 1].PrintedCover?
      && exists c :: r.out[|r.out| - 1] == PrintedCover(CoverLine(c)) && MinimumCover(r.state.edges, st.vertexCount, c)
  {
    var n := st.vertexCount;
    var scan := ScanEdgeLine(line, n);
    var es := scan.edges;
    assert Within(es, n);
    FindsMinimumCover(n, es, solve);
    var c := FindVertexCover(n, es, solve).value;
    var h := HandleEdge(line, st);
    assert h == Apply(st, scan);
    assert h.Next? && h.state.edges == es && h.state.vertexCount == n;
    assert |line| > 0;
    var r := Step(st, line, solve);
    assert r == CoverAfterEdge(h, solve);
    CoverPrinted(h, solve, c);
    assert r.out[..|r.out| - 1] == h.out;
  }

  /** A non-empty stored list whose search finds `c` appends exactly the line for `c`. */
  lemma CoverPrinted(h: Outcome, solve: Solver, c: seq<int>)
    requires h.Next? && |h.state.edges| > 0 && CoverDefined(h.state.vertexCount, h.state.edges)
    requires FindVertexCover(h.state.vertexCount, h.state.edges, solve) == Some(c)
    ensures CoverAfterEdge(h, solve) == Next(h.state, h.out + [PrintedCover(CoverLine(c))])
  {
  }

  /**
   * A stale list is a hazard: after `V 1` is refused the old edges stay, and an
   * `E` line without '{' keeps them, so the search would index past its
   * `v + 1` rows.
   */
  lemma StaleEdgesUndefined(solve: Solver)
    ensures Step(State(1, [(1, 5)], map[]), "E x", solve) == Stuck
  {
    assert SkipSpaces("E x", 0) == 0;
    assert SkipSpaces("E x", 1) == 2;
    assert ScanEdgeLine("E x", 1) == NoOpenBrace;
  }

  /**
   * What every reachable state satisfies: the count is an `int`, the stored
   * pairs are distinct canonical pairs of positive `int`s, and the adjacency
   * map is symmetric with an entry for every neighbour.
   */
  ghost predicate Consistent(st: State) {
    && InIntRange(st.vertexCount)
    && ValidEdges(st.edges, IntMax)
    && Symmetric(st.adj) && Closed(st.adj)
  }

  /** A valid list stays valid under a larger vertex bound. */
  lemma ValidEdgesWiden(edges: seq<Pair>, n: int, m: int)
    requires ValidEdges(edges, n) && n <= m
    ensures ValidEdges(edges, m)
  {
  }

  lemma StepConsistent(st: State, line: string, solve: Solver)
    requires Consistent(st)
    ensures Step(st, line, solve).Next? ==> Consistent(Step(st, line, solve).state)
  {
    var r := Step(st, line, solve);
    if r.Next? && |line| > 0 && CommandChar(line) == Some('E') {
      var h := HandleEdge(line, st);
      assert h.Next? && r.state == h.state;
      if h.state.edges != st.edges {
        ValidEdgesWiden(h.state.edges, st.vertexCount, IntMax);
      }
      if h.state.adj != st.adj {
        BuiltAdjacencyIsSymmetric(h.state.edges);
      }
    }
  }

  /** Every state a session reaches from a consistent one is consistent. */
  lemma {:induction false} RunConsistent(st: State, lines: seq<string>, solve: Solver)
    requires Consistent(st)
    ensures Run(st, lines, solve).Next? ==> Consistent(Run(st, lines, solve).state)
    decreases |lines|
  {
    if |lines| > 0 {
      StepConsistent(st, lines[0], solve);
      var r := Step(st, lines[0], solve);
      if r.Next? {
        RunConsistent(r.state, lines[1..], solve);
      }
    }
  }

  lemma InitialConsistent()
    ensures Consistent(Initial)
  {
  }
}
