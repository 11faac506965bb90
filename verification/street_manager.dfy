/**
 * The street registry of the a3 Python front end: `add`, `mod` and `rm` over
 * an ordered list of named streets, segment construction, the edge set of
 * the street graph, the duplicate-free edge list it prints, and the checks
 * `main` makes before dispatching a matched line.
 */
module StreetManager {
  import opened Options
  import opened Text
  import Seqs
  import opened StreetInput

  /** A street; the name is stored lower-cased. */
  datatype Street = Street(name: string, segments: seq<Segment>)

  /** The errors the manager reports; each leaves the street list as it was. */
  datatype Failure = NameRequired | AlreadyExists | TooFewCoordinates | NoSuchStreet | Raised

  datatype Result = Done(streets: seq<Street>) | Failed(failure: Failure)

  /** What the manager keeps true of its list: lower-case, pairwise different names. */
  predicate Registry(streets: seq<Street>) {
    && (forall i | 0 <= i < |streets| :: IsLower(streets[i].name))
    && (forall i, j | 0 <= i < j < |streets| :: streets[i].name != streets[j].name)
  }

  predicate Known(streets: seq<Street>, name: string) {
    exists i | 0 <= i < |streets| :: streets[i].name == name
  }

  /** The position of the first street with this name. */
  function FirstIndex(streets: seq<Street>, name: string): (r: Option<nat>)
    ensures r.None? <==> !Known(streets, name)
    ensures r.Some? ==> r.value < |streets| && streets[r.value].name == name
    ensures r.Some? ==> forall j | 0 <= j < r.value :: streets[j].name != name
  {
    if |streets| == 0 then None
    else if streets[0].name == name then Some(0)
    else match FirstIndex(streets[1..], name)
      case None => None
      case Some(i) => Some(i + 1)
  }

  /**
   * `create_segments`: each pair of consecutive tokens read with `float()`
   * into a segment; an unreadable token raises.
   */
  function CreateSegments(tokens: seq<Token>): (r: Option<seq<Segment>>)
    ensures r.Some? <==> |tokens| < 2 || AllReadable(tokens)
    ensures r.Some? && |tokens| >= 2 ==> r.value == Chain(PointsOf(tokens))
    decreases |tokens|
  {
    if |tokens| < 2 then Some([])
    else if tokens[0].Unreadable? || tokens[1].Unreadable? then None
    else match CreateSegments(tokens[1..])
      case None => None
      case Some(rest) => Some([Segment(tokens[0].p, tokens[1].p)] + rest)
  }

  /** `m` readable coordinates give `m - 1` segments, each ending where the next begins. */
  lemma CreatedSegmentsChain(tokens: seq<Token>)
    requires |tokens| >= 2 && AllReadable(tokens)
    ensures |CreateSegments(tokens).value| == |tokens| - 1
    ensures Chained(CreateSegments(tokens).value)
  {
    ChainIsChained(PointsOf(tokens));
  }

  function NewStreet(name: string, tokens: seq<Token>): Street
    requires |tokens| >= 2 && AllReadable(tokens)
  {
    Street(Lower(name), Chain(PointsOf(tokens)))
  }

  /**
   * `add_street`: a blank name, a name already present (compared
   * lower-cased), fewer than two coordinates or an unreadable one fail;
   * otherwise exactly one street is appended.
   */
  function AddStreet(streets: seq<Street>, name: string, tokens: seq<Token>): (r: Result)
    ensures r.Failed? <==> Blank(name) || Known(streets, Lower(name)) || |tokens| < 2 || !AllReadable(tokens)
    ensures r.Done? ==> |tokens| >= 2 && AllReadable(tokens) && r.streets == streets + [NewStreet(name, tokens)]
    ensures r.Failed? && !Blank(name) ==> (r.failure == AlreadyExists <==> Known(streets, Lower(name)))
  {
    if Blank(name) then Failed(NameRequired)
    else
      var lower := Lower(name);
      if FirstIndex(streets, lower).Some? then Failed(AlreadyExists)
      else if |tokens| < 2 then Failed(TooFewCoordinates)
      else match CreateSegments(tokens)
        case None => Failed(Raised)
        case Some(segs) => Done(streets + [Street(lower, segs)])
  }

  /**
   * `modify_street`: a blank name or fewer than two coordinates fail; the
   * first street with the lower-cased name is replaced in place; with no
   * such street it fails.
   */
  function ModifyStreet(streets: seq<Street>, name: string, tokens: seq<Token>): (r: Result)
    ensures r.Failed? <==> Blank(name) || |tokens| < 2 || !Known(streets, Lower(name)) || !AllReadable(tokens)
    ensures r.Failed? && !Blank(name) && |tokens| >= 2 ==> (r.failure == NoSuchStreet <==> !Known(streets, Lower(name)))
    ensures r.Done? ==> |tokens| >= 2 && AllReadable(tokens) && |r.streets| == |streets|
    ensures r.Done? ==> forall j | 0 <= j < |streets| ::
      r.streets[j] == if j == FirstIndex(streets, Lower(name)).value then NewStreet(name, tokens) else streets[j]
  {
    if Blank(name) then Failed(NameRequired)
    else if |tokens| < 2 then Failed(TooFewCoordinates)
    else
      var lower := Lower(name);
      match FirstIndex(streets, lower)
      case None => Failed(NoSuchStreet)
      case Some(i) =>
        match CreateSegments(tokens)
        case None => Failed(Raised)
        case Some(segs) => Done(streets[i := Street(lower, segs)])
  }

  /** `remove_street`: a blank name fails; the first street with the lower-cased name is dropped, the rest keep their order. */
  function RemoveStreet(streets: seq<Street>, name: string): (r: Result)
    ensures r.Failed? <==> Blank(name) || !Known(streets, Lower(name))
    ensures r.Done? ==> |r.streets| == |streets| - 1
    ensures r.Done? ==> var i := FirstIndex(streets, Lower(name)).value;
      && (forall j | 0 <= j < i :: r.streets[j] == streets[j])
      && (forall j | i < j < |streets| :: r.streets[j - 1] == streets[j])
  {
    if Blank(name) then Failed(NameRequired)
    else match FirstIndex(streets, Lower(name))
      case None => Failed(NoSuchStreet)
      case Some(i) => Done(streets[..i] + streets[i + 1..])
  }

  lemma RegistryNames(streets: seq<Street>, name: string, i: nat)
    requires Registry(streets) && i < |streets| && streets[i].name == name
    ensures FirstIndex(streets, name) == Some(i)
  {
  }

  /** Adding keeps names lower-case and distinct. */
  lemma AddKeepsRegistry(streets: seq<Street>, name: string, tokens: seq<Token>)
    requires Registry(streets) && AddStreet(streets, name, tokens).Done?
    ensures Registry(AddStreet(streets, name, tokens).streets)
  {
    LowerIsLower(name);
  }

  /** Modifying keeps names lower-case and distinct, and the street keeps its name. */
  lemma ModifyKeepsRegistry(streets: seq<Street>, name: string, tokens: seq<Token>)
    requires Registry(streets) && ModifyStreet(streets, name, tokens).Done?
    ensures Registry(ModifyStreet(streets, name, tokens).streets)
    ensures forall j | 0 <= j < |streets| :: ModifyStreet(streets, name, tokens).streets[j].name == streets[j].name
  {
    var r := ModifyStreet(streets, name, tokens).streets;
    var i := FirstIndex(streets, Lower(name)).value;
    assert r[i].name == Lower(name) == streets[i].name;
  }

  /** In a registry, removing drops the one street with that name and keeps every other. */
  lemma RemoveDropsOnlyThatStreet(streets: seq<Street>, name: string)
    requires Registry(streets) && RemoveStreet(streets, name).Done?
    ensures Registry(RemoveStreet(streets, name).streets)
    ensures !Known(RemoveStreet(streets, name).streets, Lower(name))
    ensures forall s | s in streets && s.name != Lower(name) :: s in RemoveStreet(streets, name).streets
  {
    var r := RemoveStreet(streets, name).streets;
    var i := FirstIndex(streets, Lower(name)).value;
    DroppedRegistry(streets, i, r);
  }

  /** Dropping position `i` of a registry leaves a registry without its name, and keeps every other street. */
  lemma DroppedRegistry(streets: seq<Street>, i: nat, r: seq<Street>)
    requires Registry(streets) && i < |streets| && |r| == |streets| - 1
    requires forall j | 0 <= j < i :: r[j] == streets[j]
    requires forall j | i < j < |streets| :: r[j - 1] == streets[j]
    ensures Registry(r)
    ensures !Known(r, streets[i].name)
    ensures forall s | s in streets && s.name != streets[i].name :: s in r
  {
    DropAt(streets, i, r);
    forall j, k | 0 <= j < k < |r|
      ensures r[j].name != r[k].name
    {
      assert Skip(i, j) < Skip(i, k);
    }
    forall s | s in streets && s.name != streets[i].name
      ensures s in r
    {
      var j :| 0 <= j < |streets| && streets[j] == s;
      if j < i { assert r[j] == s; } else { assert r[j - 1] == s; }
    }
  }

  /** `r` is `streets` without position `i`, position by position. */
  lemma DropAt(streets: seq<Street>, i: nat, r: seq<Street>)
    requires i < |streets| && |r| == |streets| - 1
    requires forall j | 0 <= j < i :: r[j] == streets[j]
    requires forall j | i < j < |streets| :: r[j - 1] == streets[j]
    ensures forall j | 0 <= j < |r| :: r[j] == streets[Skip(i, j)] && Skip(i, j) != i
  {
    forall j | 0 <= j < |r|
      ensures r[j] == streets[Skip(i, j)]
    {
      if i <= j {
        assert r[(j + 1) - 1] == streets[j + 1];
      }
    }
  }

  /** The position in the list that position `j` of the list without position `i` came from. */
  function Skip(i: nat, j: nat): nat {
    if j < i then j else j + 1
  }

  // ---------------------------------------------------------------- the street graph

  /** The graph's vertex and edge sets; an edge is an ordered pair of points. */
  datatype Graph = Graph(vertices: set<Point>, edges: set<(Point, Point)>)

  predicate NoLoops(g: Graph) {
    forall e | e in g.edges :: e.0 != e.1
  }

  /** `Graph.add_edge`: records the pair unless both ends are the same point. */
  function AddEdge(g: Graph, p: Point, q: Point): (h: Graph)
    ensures h.vertices == g.vertices
    ensures forall e :: e in h.edges <==> e in g.edges || (e == (p, q) && p != q)
  {
    if p != q then g.(edges := g.edges + {(p, q)}) else g
  }

  /** Adding edges never creates a loop. */
  lemma AddEdgeKeepsNoLoops(g: Graph, p: Point, q: Point)
    requires NoLoops(g)
    ensures NoLoops(AddEdge(g, p, q))
  {
  }

  /** The `(x, y)` order `print_graph` sorts the two ends of an edge by. */
  predicate NotAfter(p: Point, q: Point) {
    p.x < q.x || (p.x == q.x && p.y <= q.y)
  }

  /** An edge with its ends in `(x, y)` order. */
  function Sorted(e: (Point, Point)): (Point, Point) {
    if NotAfter(e.0, e.1) then e else (e.1, e.0)
  }

  /** The edge set of `print_graph`, each edge with its ends sorted. */
  function UniqueEdges(edges: set<(Point, Point)>): set<(Point, Point)> {
    set e | e in edges :: Sorted(e)
  }

  /** An edge and its reversal sort to the same entry. */
  lemma SortedForgetsDirection(p: Point, q: Point)
    ensures Sorted((p, q)) == Sorted((q, p))
  {
  }

  /** Every edge is kept, as itself or reversed. */
  lemma UniqueEdgesKeepEvery(edges: set<(Point, Point)>, e: (Point, Point))
    requires e in edges
    ensures Sorted(e) in UniqueEdges(edges)
    ensures Sorted(e) == e || Sorted(e) == (e.1, e.0)
  {
  }

  /** No entry of the printed edge set sits next to its own reversal. */
  lemma UniqueEdgesNoReversal(edges: set<(Point, Point)>, e: (Point, Point))
    requires e in UniqueEdges(edges) && e.0 != e.1
    ensures (e.1, e.0) !in UniqueEdges(edges)
  {
    var d :| d in edges && Sorted(d) == e;
    assert NotAfter(e.0, e.1);
  }

  lemma UniqueEdgesEmpty(edges: set<(Point, Point)>)
    ensures |UniqueEdges(edges)| == 0 <==> |edges| == 0
  {
    if |edges| > 0 {
      var e :| e in edges;
      assert Sorted(e) in UniqueEdges(edges);
    }
  }

  /** What `print_graph` does: nothing, the vertex count and the numbered edges, or a missing key. */
  datatype Printout = Quiet | Shown(count: nat, pairs: seq<(int, int)>) | KeyMissing

  /** Each vertex's number: its position in the set's iteration order, from 1. */
  function Number(order: seq<Point>, v: Point): int
    requires v in order
  {
    Seqs.Position(order, v) + 1
  }

  /**
   * `print_graph`: nothing with fewer than two vertices or no edge;
   * otherwise the vertex count and each sorted edge as a pair of numbers.
   * `order` and `edgeOrder` are the iteration orders of the two sets.
   */
  function PrintGraph(g: Graph, order: seq<Point>, edgeOrder: seq<(Point, Point)>): (r: Printout)
    requires Seqs.Distinct(order) && Seqs.Elements(order) == g.vertices
    requires Seqs.Distinct(edgeOrder) && Seqs.Elements(edgeOrder) == UniqueEdges(g.edges)
    ensures r.Quiet? <==> |g.vertices| < 2 || |g.edges| == 0
    ensures r.KeyMissing? <==> !r.Quiet? && exists e | e in UniqueEdges(g.edges) :: e.0 !in g.vertices || e.1 !in g.vertices
    ensures r.Shown? ==> r.count == |g.vertices| && |r.pairs| == |UniqueEdges(g.edges)| == |edgeOrder|
    ensures r.Shown? ==> forall k | 0 <= k < |edgeOrder| :: edgeOrder[k].0 in order && edgeOrder[k].1 in order
    ensures r.Shown? ==> forall k | 0 <= k < |r.pairs| ::
      r.pairs[k] == (Number(order, edgeOrder[k].0), Number(order, edgeOrder[k].1))
  {
    UniqueEdgesEmpty(g.edges);
    Seqs.DistinctCard(order);
    Seqs.DistinctCard(edgeOrder);
    if |order| < 2 then Quiet
    else if |edgeOrder| == 0 then Quiet
    else if exists k | 0 <= k < |edgeOrder| :: edgeOrder[k].0 !in order || edgeOrder[k].1 !in order then KeyMissing
    else Shown(|order|, seq(|edgeOrder|, k requires 0 <= k < |edgeOrder| => (Number(order, edgeOrder[k].0), Number(order, edgeOrder[k].1))))
  }

  /** With no loop among the edges, no printed pair appears together with its reversal. */
  lemma PrintedPairsNotReversed(g: Graph, order: seq<Point>, edgeOrder: seq<(Point, Point)>)
    requires Seqs.Distinct(order) && Seqs.Elements(order) == g.vertices
    requires Seqs.Distinct(edgeOrder) && Seqs.Elements(edgeOrder) == UniqueEdges(g.edges)
    requires NoLoops(g) && PrintGraph(g, order, edgeOrder).Shown?
    ensures var pairs := PrintGraph(g, order, edgeOrder).pairs;
      forall k, l | 0 <= k < |pairs| && 0 <= l < |pairs| :: pairs[l] != (pairs[k].1, pairs[k].0)
  {
    var pairs := PrintGraph(g, order, edgeOrder).pairs;
    forall k, l | 0 <= k < |pairs| && 0 <= l < |pairs|
      ensures pairs[l] != (pairs[k].1, pairs[k].0)
    {
      var e, f := edgeOrder[k], edgeOrder[l];
      assert e in UniqueEdges(g.edges) && f in UniqueEdges(g.edges);
      var d :| d in g.edges && Sorted(d) == e;
      assert e.0 != e.1;
      UniqueEdgesNoReversal(g.edges, e);
      NumbersDiffer(order, f, (e.1, e.0));
    }
  }

  /** Different pairs of points get different pairs of numbers. */
  lemma NumbersDiffer(order: seq<Point>, e: (Point, Point), f: (Point, Point))
    requires e.0 in order && e.1 in order && f.0 in order && f.1 in order && e != f
    ensures (Number(order, e.0), Number(order, e.1)) != (Number(order, f.0), Number(order, f.1))
  {
    if e.0 != f.0 {
      assert Number(order, e.0) != Number(order, f.0);
    } else {
      assert Number(order, e.1) != Number(order, f.1);
    }
  }

  /** The text `print_graph` writes: `V n`, then the pairs in braces. */
  function GraphText(count: nat, pairs: seq<(int, int)>): string {
    "V " + IntToString(count) + "\nE {" + PairsText(pairs) + "}\n"
  }

  function PairsText(pairs: seq<(int, int)>): string {
    if |pairs| == 0 then ""
    else if |pairs| == 1 then "<" + IntToString(pairs[0].0) + "," + IntToString(pairs[0].1) + ">"
    else "<" + IntToString(pairs[0].0) + "," + IntToString(pairs[0].1) + ">," + PairsText(pairs[1..])
  }

  // ---------------------------------------------------------------- main

  /** A line the command pattern matched: its three groups, the whole line, and the tokens found in the coordinate group. */
  datatype Request = Request(op: Op, rawName: string, rawCoords: string, line: string, tokens: seq<Token>)

  /** What `main` reports for a line, besides the street list it leaves. */
  datatype Reply =
    | InvalidCommand
    | InvalidCoordinateFormat
    | RemoveTakesNoCoordinates
    | GenerateTakesNoArguments
    | Rejected(failure: Failure)
    | Accepted
    | Generate

  /** The name group's quoted text, or "" when the group is empty; `None` when `split` finds no quote. */
  function NameOf(rawName: string): Option<string> {
    if |rawName| == 0 then Some("") else QuotedPart(rawName)
  }

  function Apply(streets: seq<Street>, r: Result, ok: Reply): (seq<Street>, Reply) {
    match r
    case Done(s) => (s, ok)
    case Failed(f) => (streets, Rejected(f))
  }

  /**
   * One pass of `main`'s loop: an unmatched line, `)(` in the coordinates,
   * `"(` anywhere in the line, `rm` with coordinates and `gg` with any
   * argument are reported and change nothing; otherwise the command runs.
   */
  function Step(streets: seq<Street>, req: Option<Request>): (r: (seq<Street>, Reply))
    ensures req.None? ==> r == (streets, InvalidCommand)
    ensures req.Some? && (HasPair(req.value.rawCoords, ')', '(') || HasPair(req.value.line, '"', '(')) ==>
      r == (streets, InvalidCoordinateFormat)
    ensures r.1 !in {Accepted, Generate} ==> r.0 == streets
    ensures r.1 == Generate ==> req.Some? && req.value.op == Gg && req.value.rawName == "" && req.value.rawCoords == ""
  {
    match req
    case None => (streets, InvalidCommand)
    case Some(q) =>
      if HasPair(q.rawCoords, ')', '(') || HasPair(q.line, '"', '(') then (streets, InvalidCoordinateFormat)
      else match NameOf(q.rawName)
        case None => (streets, Rejected(Raised))
        case Some(name) =>
          match q.op
          case Add => Apply(streets, AddStreet(streets, name, q.tokens), Accepted)
          case Mod => Apply(streets, ModifyStreet(streets, name, q.tokens), Accepted)
          case Rm =>
            if |q.rawCoords| > 0 then (streets, RemoveTakesNoCoordinates)
            else Apply(streets, RemoveStreet(streets, name), Accepted)
          case Gg =>
            if |q.rawName| > 0 || |q.rawCoords| > 0 then (streets, GenerateTakesNoArguments)
            else (streets, Generate)
  }

  /** Every step keeps the list a registry: lower-case, pairwise different names. */
  lemma StepKeepsRegistry(streets: seq<Street>, req: Option<Request>)
    requires Registry(streets)
    ensures Registry(Step(streets, req).0)
  {
    if req.Some? && !(HasPair(req.value.rawCoords, ')', '(') || HasPair(req.value.line, '"', '(')) {
      var q := req.value;
      match NameOf(q.rawName)
      case None =>
      case Some(name) =>
        match q.op
        case Add => if AddStreet(streets, name, q.tokens).Done? { AddKeepsRegistry(streets, name, q.tokens); }
        case Mod => if ModifyStreet(streets, name, q.tokens).Done? { ModifyKeepsRegistry(streets, name, q.tokens); }
        case Rm => if |q.rawCoords| == 0 && RemoveStreet(streets, name).Done? { RemoveDropsOnlyThatStreet(streets, name); }
        case Gg =>
    }
  }
}
