/**
 * The strict shortest-path program: `V <n>`, `E {...}` and `s <a> <b>`
 * lines, where every error prints its message and ends the program. A query
 * prints a shortest path found by the breadth-first search that stops when the
 * end vertex is dequeued.
 */
module StrictPaths {
  import opened Options
  import opened Seqs
  import opened Text
  import opened Stream
  import opened Graph
  import opened EdgeList
  import opened Bfs
  import opened Commands

  /** `vertexCount`, `edges` and `adjacencyList` of `main`. */
  datatype State = State(vertexCount: int, edges: seq<Pair>, adj: Adjacency)

  /** Before the first line. */
  const Initial: State := State(0, [], map[])

  /** What a line prints, one constructor per message of the program. */
  datatype Message =
    | BadCount                    // "Error: Invalid number of vertices. ..."
    | NoVertices                  // "Error: Define vertices first ..."
    | BraceMissing                // "Error: Edges should start with '{'."
    | ItemError(error: PairError) // the message for the refused item, with its pair where it has one
    | Unclosed                    // "Error: Edge list should end with '}'."
    | UnknownCommand              // "Error: Unrecognized command. ..."
    | NoGraph                     // "Error: No graph defined. ..."
    | BadQuery                    // "Error: Invalid format for shortest path command. ..."
    | BadEndpoints                // "Error: Invalid source or destination. ..."
    | NoPath                      // "Error: No path exists between the specified vertices."
    | PrintedPath(text: string)   // a path line

  /**
   * After a line: the program goes on with a new state, or it has printed an
   * error and called `exit(0)`, or `at` threw on a vertex with no adjacency
   * entry (the exception is not caught), or the line reads an uninitialised
   * variable.
   */
  datatype Outcome = Next(state: State, out: seq<Message>) | Halt(out: seq<Message>) | Aborted | Stuck

  /** The state `main` keeps between lines: valid edges within the count, and the adjacency map built from them. */
  ghost predicate Consistent(st: State) {
    ValidEdges(st.edges, st.vertexCount) && st.adj == BuildAdjacency(st.edges)
  }

  /** `handleVertexCommand`: a count that is unreadable or at most 1 ends the program; any other clears the graph. */
  function HandleVertex(line: string, st: State): (r: Outcome)
    ensures r.Next? || r == Halt([BadCount])
    ensures r.Next? ==> r.out == [] && r.state.vertexCount > 1 && r.state.edges == [] && r.state.adj == map[]
  {
    var count := ReadInt(AfterCommand(line));
    if count.rest.fail || count.stored.value <= 1 then Halt([BadCount])
    else Next(State(count.stored.value, [], map[]), [])
  }

  /** A typed `V n` is accepted exactly when `n > 1`, and then sets the count to `n`. */
  lemma VertexCommandEffect(n: int, st: State)
    requires InIntRange(n)
    ensures HandleVertex(VertexCommand(n), st) == if n > 1 then Next(State(n, [], map[]), []) else Halt([BadCount])
  {
    VertexCommandRead(n);
  }

  /**
   * `handleEdgeCommand`: every grammar or validation error ends the program;
   * a list that is read to its '}' replaces the edges and the adjacency map.
   */
  function HandleEdge(line: string, st: State): (r: Outcome)
    ensures r.Next? ==> r.out == [] && r.state.vertexCount == st.vertexCount
    ensures r.Next? ==> ValidEdges(r.state.edges, st.vertexCount) && r.state.adj == BuildAdjacency(r.state.edges)
    ensures r.Halt? ==> |r.out| == 1
    ensures st.vertexCount == 0 ==> r == Halt([NoVertices])
  {
    if st.vertexCount == 0 then Halt([NoVertices])
    else Apply(st, ScanEdgeLine(line, st.vertexCount))
  }

  /** What the handler does with the result of the scan. */
  function Apply(st: State, scan: EdgeScan): Outcome {
    match scan
    case Undefined => Stuck
    case NoOpenBrace => Halt([BraceMissing])
    case Rejected(_, error) => Halt([ItemError(error)])
    case Listed(es, closed) => if closed then Next(State(st.vertexCount, es, BuildAdjacency(es)), []) else Halt([Unclosed])
  }

  /**
   * A typed `E {...}` line goes on exactly when its canonical form is a valid
   * edge list, and then stores that list; otherwise it halts naming the first
   * refused pair.
   */
  lemma EdgeCommandEffect(ps: seq<Pair>, st: State)
    requires st.vertexCount != 0 && PairsInIntRange(ps)
    ensures var r := HandleEdge(RenderEdgeCommand(ps), st);
      && (r.Next? <==> ValidEdges(CanonAll(ps), st.vertexCount))
      && (r.Next? ==> r.state == State(st.vertexCount, CanonAll(ps), BuildAdjacency(CanonAll(ps))))
      && (r.Halt? ==> exists i | 0 <= i < |ps| ::
            r.out == [ItemError(InvalidPair(ps[i].0, ps[i].1))] || r.out == [ItemError(Duplicate(ps[i].0, ps[i].1))])
  {
    EdgeCommandScan(ps, st);
    ValidatedAccepted(ps, st);
    ValidatedRefused(ps, st);
  }

  lemma EdgeCommandScan(ps: seq<Pair>, st: State)
    requires st.vertexCount != 0 && PairsInIntRange(ps)
    ensures HandleEdge(RenderEdgeCommand(ps), st) == Apply(st, Validate(ps, st.vertexCount, []))
  {
    RenderedScan(ps, st.vertexCount);
  }

  /** A list the reference loop accepts is stored whole; only such lists let the program go on. */
  lemma ValidatedAccepted(ps: seq<Pair>, st: State)
    ensures var r := Apply(st, Validate(ps, st.vertexCount, []));
      && (r.Next? <==> ValidEdges(CanonAll(ps), st.vertexCount))
      && (r.Next? ==> r.state == State(st.vertexCount, CanonAll(ps), BuildAdjacency(CanonAll(ps))))
  {
    var n := st.vertexCount;
    var v := Validate(ps, n, []);
    ValidateAccepts(ps, n, []);
    if v.Listed? {
      var es := CanonAll(ps);
      assert v == Listed(es, true) by { assert [] + es == es; }
      ApplyListed(st, es);
    } else {
      ApplyRejected(st, v.edges, v.error);
    }
  }

  /** A list the reference loop refuses halts with the message for the first refused pair. */
  lemma ValidatedRefused(ps: seq<Pair>, st: State)
    ensures var r := Apply(st, Validate(ps, st.vertexCount, []));
      r.Halt? ==> exists i | 0 <= i < |ps| ::
        r.out == [ItemError(InvalidPair(ps[i].0, ps[i].1))] || r.out == [ItemError(Duplicate(ps[i].0, ps[i].1))]
  {
    var n := st.vertexCount;
    var v := Validate(ps, n, []);
    if v.Listed? {
      ApplyListed(st, v.edges);
    } else {
      ValidateRejects(ps, n, []);
      ApplyRejected(st, v.edges, v.error);
      var i := |v.edges|;
      assert v.error == InvalidPair(ps[i].0, ps[i].1) || v.error == Duplicate(ps[i].0, ps[i].1);
    }
  }

  lemma ApplyListed(st: State, es: seq<Pair>)
    ensures Apply(st, Listed(es, true)) == Next(State(st.vertexCount, es, BuildAdjacency(es)), [])
  {
  }

  lemma ApplyRejected(st: State, es: seq<Pair>, error: PairError)
    ensures Apply(st, Rejected(es, error)) == Halt([ItemError(error)])
  {
  }

  /** `E {}` empties the adjacency map, so the next query reports that no graph is defined. */
  lemma EmptyListLeavesNoGraph(st: State)
    requires st.vertexCount != 0
    ensures HandleEdge("E {}", st) == Next(State(st.vertexCount, [], map[]), [])
  {
    assert RenderEdgeCommand([]) == "E {}";
    RenderedScan([], st.vertexCount);
  }

  /** No vertex of a built adjacency map is the parent sentinel when every endpoint is positive. */
  lemma BuiltNoSentinel(edges: seq<Pair>, n: int)
    requires ValidEdges(edges, n)
    ensures NoSentinel(BuildAdjacency(edges)) && Closed(BuildAdjacency(edges))
  {
    var adj := BuildAdjacency(edges);
    BuiltAdjacencyIsSymmetric(edges);
    forall u, w | Edge(adj, u, w)
      ensures w != -1
    {
      assert Joins(edges, u, w);
    }
  }

  /**
   * What `handleShortestPathCommand` does, with `findShortestPathBFS` and
   * `printPathResult`: the checks come in the program's order, a start
   * vertex no pair mentions makes `at` throw, and a query that passes every
   * check prints a shortest walk or reports that there is none.
   */
  ghost predicate Answers(line: string, st: State, r: Outcome) {
    && (r.Next? ==> r.state == st)
    && (r.Halt? ==> |r.out| == 1 && !r.out[0].PrintedPath?)
    && ((st.vertexCount == 0 || |st.adj| == 0) <==> r == Halt([NoGraph]))
    && (r == Halt([BadQuery]) <==> st.vertexCount != 0 && |st.adj| != 0 && QueryArgs(line).None?)
    && (r == Halt([BadEndpoints]) <==>
          && st.vertexCount != 0 && |st.adj| != 0 && QueryArgs(line).Some?
          && !Endpoints(QueryArgs(line).value.0, QueryArgs(line).value.1, st.vertexCount))
    && (r.Aborted? <==>
          && st.vertexCount != 0 && |st.adj| != 0 && QueryArgs(line).Some?
          && Endpoints(QueryArgs(line).value.0, QueryArgs(line).value.1, st.vertexCount)
          && QueryArgs(line).value.0 !in st.adj)
    && !r.Stuck?
    && (r.Next? || r == Halt([NoPath]) ==>
          && QueryArgs(line).Some?
          && var (a, b) := QueryArgs(line).value;
          && Endpoints(a, b, st.vertexCount) && a in st.adj
          && (r == Halt([NoPath]) <==> !Reachable(st.adj, a, b))
          && (r.Next? ==> exists path ::
                && r.out == [PrintedPath(PathLine(path))]
                && IsShortestWalk(st.adj, a, b, path) && Distinct(path)))
  }

  /** `handleShortestPathCommand`: one query line, answered as `Answers` states. */
  method HandleQuery(line: string, st: State) returns (r: Outcome)
    requires Consistent(st)
    ensures Answers(line, st, r)
  {
    if st.vertexCount == 0 || |st.adj| == 0 {
      return Halt([NoGraph]);
    }
    var args := QueryArgs(line);
    if args.None? {
      return Halt([BadQuery]);
    }
    var (a, b) := args.value;
    if !Endpoints(a, b, st.vertexCount) {
      return Halt([BadEndpoints]);
    }
    if a !in st.adj {
      return Aborted;
    }
    BuiltNoSentinel(st.edges, st.vertexCount);
    var path := ShortestPathOnDequeue(st.adj, a, b);
    if |path| == 0 {
      return Halt([NoPath]);
    }
    return Next(st, [PrintedPath(PathLine(path))]);
  }

  /** One line of `main`: empty lines are skipped and any other leading character halts. */
  method Step(st: State, line: string) returns (r: Outcome)
    requires Consistent(st)
    ensures r.Next? ==> Consistent(r.state)
    ensures r.Next? ==> forall i | 0 <= i < |r.out| :: r.out[i].PrintedPath?
    ensures r.Halt? ==> |r.out| == 1 && !r.out[0].PrintedPath?
    ensures |line| == 0 ==> r == Next(st, [])
    ensures CommandChar(line) == Some('V') ==> r == HandleVertex(line, st)
    ensures CommandChar(line) == Some('E') ==> r == HandleEdge(line, st)
    ensures CommandChar(line).Some? && CommandChar(line).value != 'V' && CommandChar(line).value != 'E' && !IsQuery(line) ==> r == Halt([UnknownCommand])
    ensures |line| > 0 && CommandChar(line).None? ==> r.Stuck?
    ensures CommandChar(line) == Some('s') ==> Answers(line, st, r)
    ensures r.Next? ==> |r.out| == (if IsQuery(line) then 1 else 0)
  {
    if |line| == 0 {
      return Next(st, []);
    }
    var c := CommandChar(line);
    if c.None? {
      return Stuck;
    }
    match c.value {
      case 'V' => r := HandleVertex(line, st);
      case 'E' => r := HandleEdge(line, st);
      case 's' =>
        r := HandleQuery(line, st);
        AnsweredPrintsOne(line, st, r);
      case _ => r := Halt([UnknownCommand]);
    }
  }

  /** A line `main` hands to the query handler. */
  predicate IsQuery(line: string) {
    CommandChar(line) == Some('s')
  }

  /** The number of query lines among `lines`. */
  function QueryLines(lines: seq<string>): (n: nat)
    ensures n <= |lines|
  {
    if |lines| == 0 then 0
    else QueryLines(lines[..|lines| - 1]) + (if IsQuery(lines[|lines| - 1]) then 1 else 0)
  }

  /** One turn of the loop, as the loop needs it: the state stays consistent and only a query prints, one path line. */
  method Turn(st: State, line: string) returns (r: Outcome)
    requires Consistent(st)
    ensures r.Next? ==> Consistent(r.state) && |r.out| == (if IsQuery(line) then 1 else 0)
    ensures r.Next? ==> forall i | 0 <= i < |r.out| :: r.out[i].PrintedPath?
    ensures r.Halt? ==> |r.out| == 1 && !r.out[0].PrintedPath?
  {
    r := Step(st, line);
  }

  /** One more line counts once more exactly when it is a query. */
  lemma QueryLinesNext(lines: seq<string>, i: nat)
    requires i < |lines|
    ensures QueryLines(lines[..i + 1]) == QueryLines(lines[..i]) + (if IsQuery(lines[i]) then 1 else 0)
  {
    assert lines[..i + 1][..i] == lines[..i];
  }

  /** A query that goes on prints one path line and keeps the state. */
  lemma AnsweredPrintsOne(line: string, st: State, r: Outcome)
    requires Answers(line, st, r)
    ensures r.Next? ==> r.state == st && |r.out| == 1 && r.out[0].PrintedPath?
    ensures r.Halt? ==> |r.out| == 1 && !r.out[0].PrintedPath?
    ensures !r.Stuck?
  {
    if r.Next? {
      var path :| r.out == [PrintedPath(PathLine(path))];
    }
  }

  /** How a run over the whole input ends. */
  datatype Ending = Finished | Exited | Crashed | Unspecified

  /**
   * The `while (!std::cin.eof())` loop. Every error ends the program, so all
   * it prints is path lines, followed by one error message when it exits.
   */
  method Run(lines: seq<string>) returns (out: seq<Message>, ending: Ending)
    ensures ending != Exited ==> forall i | 0 <= i < |out| :: out[i].PrintedPath?
    ensures ending == Exited ==>
      |out| >= 1 && !out[|out| - 1].PrintedPath? && forall i | 0 <= i < |out| - 1 :: out[i].PrintedPath?
    ensures ending == Finished ==> |out| == QueryLines(lines)
    ensures ending == Exited ==> exists k | 0 <= k < |lines| :: |out| == QueryLines(lines[..k]) + 1
    ensures ending == Crashed || ending == Unspecified ==> exists k | 0 <= k < |lines| :: |out| == QueryLines(lines[..k])
  {
    var st := Initial;
    out := [];
    var i := 0;
    while i < |lines|
      invariant 0 <= i <= |lines|
      invariant Consistent(st)
      invariant forall j | 0 <= j < |out| :: out[j].PrintedPath?
      invariant |out| == QueryLines(lines[..i])
    {
      var r := Turn(st, lines[i]);
      if r.Halt? {
        out := out + r.out;
        assert |out| == QueryLines(lines[..i]) + 1;
        return out, Exited;
      }
      if !r.Next? {
        assert |out| == QueryLines(lines[..i]);
        return out, if r.Aborted? then Crashed else Unspecified;
      }
      QueryLinesNext(lines, i);
      st := r.state;
      out := out + r.out;
      i := i + 1;
    }
    assert lines[..i] == lines;
    return out, Finished;
  }
}
