# Graph command interpreters, modelled in Dafny

The repository holds six small line-oriented programs from a course
project on street maps and graphs:

- **a4/ece650-a4.cpp** reads `V n` and `E {<a,b>,...}` lines and prints a
  minimum vertex cover. It encodes "is there a cover of size k" as a CNF
  formula with one variable per (vertex, position) and hands it to a SAT
  solver for k = 1, 2, ... v.
- **a2/ece650-a2.cpp** reads the same `V`/`E` grammar plus `s a b` queries,
  answers each with a breadth-first search, and exits on the first error.
- **a3/ece650-a2.cpp** is a more lenient variant of the same interpreter. It
  echoes its input, resets the vertex count on errors, keeps pairs as typed,
  and stops its search as soon as the end vertex is discovered.
- **a3/rgen.cpp** generates random streets from `/dev/urandom`. It rejects
  sets of streets with degenerate, overlapping or repeated segments, parses
  `-s -n -l -c` options, and prints `rm`/`add`/`gg` commands.
- **a3/ece650-a1.py** and **a1/a1ece650.py** keep lists of named streets and
  edit them with `add`, `mod` and `rm` commands.

The model is functional throughout:

- States are immutable datatypes, and each command handler is a function
  from a line and a state to an outcome.
- Each `istringstream` is a cursor over the line (`Stream`), with the
  libstdc++ rules for `>> char` and `>> int`.
- The two breadth-first searches are the imperative core, written as
  methods with loop invariants.

A state change the program makes on its way to an error is kept:

- a rejected `V` still stores its count;
- a refused edge list leaves a partial list;
- a refused `mod` in the a1 program has already dropped its street.

Behaviour that is undefined in C++ is not given a value. This covers
comparing a character or number that no extraction stored, sizing the
cover search's table for endpoints beyond the vertex count, and the signed
`2 * c + 1` of the street generator for `-c` of 2^30 or more. The handlers
return a distinct outcome for it (`Stuck` or `Undefined`), and the lemmas
state when it cannot happen. One exception is named under "Left out": the
street check's cross products, which are exact in the model and overflow in
C++ only for `-c` above 23170. `adjacencyList.at` on a vertex with no entry
throws an exception that nothing catches. That is defined behaviour, and
it is modelled as `Aborted`.

Four behaviours of the vertex-cover program are easy to miss, and the model
keeps each of them:

- A rejected `V` still overwrites the vertex count, and it does not end the
  program.
- An `E` line clears the old edges before validating the new list, so a
  refused item leaves the pairs accepted before it.
- A list without its closing `}` only draws a warning and is still stored.
- The cover search runs after every `E` line that leaves edges stored,
  refused or not.

Layout, one module per file:

| module | file | what |
|---|---|---|
| `Options` | options.dfy | `Option<T>` |
| `Seqs` | seqs.dfy | distinctness, reversal, concatenation |
| `Text` | text.dfy | decimal rendering, `Join`, Python `split` |
| `Stream` | stream.dfy | `istringstream` extraction of characters and `int`s |
| `Items` | items.dfy | positions of the items of a rendered edge list |
| `Graph` | graph.dfy | canonical pairs, valid edge lists, adjacency maps, walks |
| `Commands` | commands.dfy | the command character, `s a b` arguments, path lines |
| `EdgeList` | edgelist.dfy | the `E {...}` scanner shared by a2 and a4 |
| `Cnf` | cnf.dfy | the four clause families and what they mean |
| `Cover` | cover.dfy | decoding, soundness and completeness, the k search |
| `CoverSession` | cover_session.dfy | a4 `main` and its handlers |
| `Bfs` | bfs.dfy | both breadth-first searches and the trace back |
| `StrictPaths` | strict_paths.dfy | a2 `main` and its handlers |
| `LenientPaths` | lenient_paths.dfy | a3/ece650-a2.cpp `main` |
| `StreetGeometry` | street_geometry.dfy | `isPointOnSegment`, `checkStreets` |
| `StreetGenerator` | street_generator.dfy | rgen ranges, generation, options, `printStreets` |
| `StreetInput` | street_input.dfy | points, tokens, names shared by the two Python programs |
| `StreetManager` | street_manager.dfy | a3/ece650-a1.py |
| `RoadMap` | street_map.dfy | a1/a1ece650.py |

## Model

| member | source | states |
|---|---|---|
| Cnf.FormulaMeaning | a4/ece650-a4.cpp:177-220 | An assignment satisfies the formula for k exactly when four things hold: every position 1..k holds some vertex, no vertex holds two positions, no position holds two vertices, and every edge has an endpoint in some position. |
| Cnf.SlotsFilledMeaning | a4/ece650-a4.cpp:177-184 | The first clause family holds exactly when every position is held by some vertex 1..v. |
| Cnf.NotTwiceMeaning | a4/ece650-a4.cpp:189-196 | The binary clauses for one vertex hold exactly when that vertex holds at most one position. |
| Cnf.NoRepeatsMeaning | a4/ece650-a4.cpp:186-198 | The second family, emitted only for k > 1, holds exactly when no vertex holds two positions. |
| Cnf.NotSharedMeaning | a4/ece650-a4.cpp:202-209 | The binary clauses for one position hold exactly when at most one vertex holds it. |
| Cnf.NoSharingMeaning | a4/ece650-a4.cpp:200-210 | The third family holds exactly when no position is shared by two vertices. |
| Cnf.TouchesMeaning | a4/ece650-a4.cpp:213-219 | An edge's clause holds exactly when some position holds one of the edge's endpoints. |
| Cnf.EdgesTouchedMeaning | a4/ece650-a4.cpp:212-220 | The fourth family holds exactly when every edge is touched. |
| Cnf.ClauseCounts | a4/ece650-a4.cpp:177-220 | The formula has k clauses of width v, v·C(k,2) and k·C(v,2) binary clauses, and one clause of width 2k per edge, and nothing else. |
| Cnf.PairsFromCount | a4/ece650-a4.cpp:189-190 | The nested `pos1 < pos2` loops visit C(n,2) index pairs. |
| Cnf.PairsFromMember | a4/ece650-a4.cpp:202-203 | The nested loops visit exactly the pairs lo <= p < q <= hi. |
| Cnf.NoRepeatsCount | a4/ece650-a4.cpp:186-198 | The second family has v·C(k,2) clauses, all binary. |
| Cnf.NoSharingCount | a4/ece650-a4.cpp:200-210 | The third family has k·C(v,2) clauses, all binary. |
| Cnf.EdgesTouchedCount | a4/ece650-a4.cpp:212-220 | The fourth family has one clause per edge, each of width 2k. |
| Cover.Extract | a4/ece650-a4.cpp:224-235 | The extraction loop yields a strictly ascending list. A vertex is in it exactly when it is true in some position, so the sort after it changes nothing. |
| Cover.Decoded | a4/ece650-a4.cpp:177-235 | Soundness: from any model of the formula for k, the extracted list has exactly k distinct vertices and touches every edge. |
| Cover.Encoded | a4/ece650-a4.cpp:177-220 | Completeness: k distinct vertices that touch every edge, placed one per position, satisfy the formula for k. |
| Cover.SatisfiableIffCover | a4/ece650-a4.cpp:166-220 | For k <= v, the formula is satisfiable exactly when some cover of at most k vertices exists. |
| Cover.Restricted | a4/ece650-a4.cpp:213-219 | A cover of edges within 1..v stays a cover, and gets no larger, when cut down to the vertices 1..v the formula can name. |
| Cover.FindVertexCover | a4/ece650-a4.cpp:154-251 | The search over k = 1..v with a solver oracle, which gets a fresh solver per k. With v < 1 the loop never runs and nothing is printed. |
| Cover.SearchMinimum | a4/ece650-a4.cpp:166-249 | With a correct solver, the search from k on, when no cover is smaller than k, stops and returns a minimum cover. |
| Cover.SearchHit | a4/ece650-a4.cpp:223-245 | The first satisfiable size decodes to a minimum cover: ascending, within 1..v, covering, with no smaller cover. |
| Cover.SearchMiss | a4/ece650-a4.cpp:166-249 | An unsatisfiable size rules out covers of that size. It never happens at k = v, so the loop always reaches a hit. |
| Cover.FindsMinimumCover | a4/ece650-a4.cpp:154-251 | On a non-empty edge list within 1..v, with a correct solver, the program prints a minimum, ascending, duplicate-free cover. |
| Cover.CoverLineReadBack | a4/ece650-a4.cpp:238-244 | The printed line ends in a newline. Splitting it at the blanks gives back each vertex of the cover, in order. |
| CoverSession.HandleVertex | a4/ece650-a4.cpp:57-69 | The line prints nothing or the count error. Printing nothing means a count above 1 with edges and adjacency cleared. The error keeps edges and adjacency. The count stays an `int` either way. |
| CoverSession.VertexCommandEffect | a4/ece650-a4.cpp:57-69 | A typed `V n` sets the count to n. It clears the graph exactly when n > 1; otherwise it reports the error and keeps the old edges. |
| CoverSession.NonNumericCount | a4/ece650-a4.cpp:61-75 | `V x` stores 0 and keeps the old edges. The next `E` is then refused for lack of vertices. |
| CoverSession.BareVertexCommand | a4/ece650-a4.cpp:60-64 | A bare `V` stores nothing: the state is unchanged and the error is reported. |
| CoverSession.HandleEdge | a4/ece650-a4.cpp:71-152 | With no count, or no `{`, the state is unchanged. Otherwise the stored edges are always a valid list. A completed scan rebuilds the adjacency map, even without `}`. A refused item leaves the map as it was. |
| CoverSession.EdgeCommandEffect | a4/ece650-a4.cpp:86-151 | A typed list is stored, with the map rebuilt, exactly when its canonical form is valid. Otherwise the edges are the canonical pairs before the refused item, and that item is named in the message. |
| CoverSession.EdgeCommandScan | a4/ece650-a4.cpp:77-145 | The handler on a typed list does what the reference loop `Validate` decides. |
| CoverSession.ValidatedAccepted | a4/ece650-a4.cpp:99-151 | A list the reference loop accepts is stored whole with its adjacency map. Only such lists print nothing. |
| CoverSession.ValidatedRefused | a4/ece650-a4.cpp:86-128 | A refused list keeps exactly the canonical prefix before the refused pair, which is named as typed. |
| CoverSession.ApplyListed | a4/ece650-a4.cpp:143-151 | A completed scan replaces edges and adjacency. |
| CoverSession.ApplyRejected | a4/ece650-a4.cpp:119-127 | A refused item keeps the partial list and the old adjacency map. |
| CoverSession.ReversedPairRefused | a4/ece650-a4.cpp:124-127 | `E {<1,2>,<2,1>}` keeps `(1,2)` and refuses `<2,1>` as a duplicate undirected edge. |
| CoverSession.EdgeLinePrintsMinimumCover | a4/ece650-a4.cpp:42-46 | An `E` line whose scan leaves edges stored, accepted or refused, prints a minimum cover of those edges after its own message. |
| CoverSession.StaleEdgesUndefined | a4/ece650-a4.cpp:44-46 | After a refused `V 1`, an `E` line without `{` keeps edges beyond the count. The cover search would then index outside its table. |
| CoverSession.StepConsistent | a4/ece650-a4.cpp:26-52 | Every line keeps the session consistent: an `int` count, distinct canonical positive pairs, and a symmetric, closed adjacency map. |
| CoverSession.RunConsistent | a4/ece650-a4.cpp:26-52 | Every state a session reaches is consistent. |
| CoverSession.InitialConsistent | a4/ece650-a4.cpp:22-24 | The start state is consistent. |
| CoverSession.ValidEdgesWiden | a4/ece650-a4.cpp:119 | Edges valid for a count stay valid for any larger one. |
| EdgeList.ScanEdgeLine | a4/ece650-a4.cpp:77-145 | The edge-line scanner stores only a valid list: canonical, in range, no loops, no repeats. |
| EdgeList.ScanPairs | a2/ece650-a2.cpp:98-140 | The pair loop ends with a list, a refused item or undefined behaviour. It only ever extends the list it started with. |
| EdgeList.LoopBody | a2/ece650-a2.cpp:102-139 | One turn of the loop only ever extends the list. |
| EdgeList.ScanKeepsValid | a2/ece650-a2.cpp:118-130 | Every pair the loop stores is a fresh, in-range, canonical non-loop, so the list stays valid. |
| EdgeList.ReadItem | a4/ece650-a4.cpp:103-131 | An accepted item is a fresh canonical pair within 1..n, and the stream moves past it. |
| EdgeList.ReadFirst | a4/ece650-a4.cpp:112-117 | After `<`, only a pair that passes every check is accepted. |
| EdgeList.ReadSecond | a4/ece650-a4.cpp:112-131 | After the comma, only a pair that passes every check is accepted. |
| EdgeList.Verdict | a4/ece650-a4.cpp:119-131 | A pair read correctly is accepted exactly when it is in range, not a loop and not already stored. It is then stored in canonical form. |
| EdgeList.DistinctAppend | a4/ece650-a4.cpp:124-131 | Appending a fresh, in-range canonical pair keeps a list valid. |
| EdgeList.CanonAll | a4/ece650-a4.cpp:124 | Each pair is turned into its canonical form, in order. |
| EdgeList.Validate | a2/ece650-a2.cpp:98-140 | Reference loop: accept all pairs, stored canonically, or stop at a refused pair with a range or duplicate error. |
| EdgeList.ValidateAccepts | a2/ece650-a2.cpp:118-130 | The reference loop accepts a list exactly when its canonical form is a valid edge list. |
| EdgeList.ValidateRejects | a2/ece650-a2.cpp:118-127 | A refusal keeps exactly the canonical prefix before the refused pair, and names that pair as typed. |
| EdgeList.RenderedScan | a2/ece650-a2.cpp:76-145 | Scanning a typed `E {<a,b>,...}` line gives exactly the reference loop's verdict, pair by pair. |
| EdgeList.ScanAfterBrace | a2/ece650-a2.cpp:88-96 | After `E {`, an immediate `}` gives the empty list. Otherwise the character is put back and the loop starts at it. |
| EdgeList.TokenPairs | a2/ece650-a2.cpp:98-140 | Over the items of a typed list, the loop agrees with the reference loop. |
| EdgeList.NotValidAt | a2/ece650-a2.cpp:118 | A list with a pair out of range or not increasing is invalid. |
| EdgeList.RepeatedNotValid | a2/ece650-a2.cpp:124 | A list that holds the same pair twice is invalid. |
| Graph.Canonical | a2/ece650-a2.cpp:123 | The stored pair is ordered and is the pair itself or its reversal. |
| Graph.Push | a2/ece650-a2.cpp:149-150 | `push_back` adds exactly one neighbour, creating the entry if needed. |
| Graph.BuildAdjacency | a2/ece650-a2.cpp:147-151 | The map has an entry exactly for each endpoint. `w` is a neighbour of `u` exactly when some pair joins them. |
| Graph.BuiltAdjacencyIsSymmetric | a4/ece650-a4.cpp:147-151 | The built map is symmetric, and every neighbour has an entry of its own. |
| Graph.LastPair | a2/ece650-a2.cpp:148-151 | Endpoints and joins of a list are those of its prefix plus its last pair. |
| Stream.ReadChar | a2/ece650-a2.cpp:78 | `>> c` stores a character exactly when the stream is good and a non-blank remains. It then stores that character and moves past it; otherwise it sets failbit. |
| Stream.ReadInt | a2/ece650-a2.cpp:60 | `>> n` stores nothing when the sentry fails. Otherwise it stores an `int`-range value. The stream stays good only after a successful read that moved forward. |
| Stream.CommandChar | a2/ece650-a2.cpp:32-34 | The command character exists exactly when the line has a non-blank, and it is one of them. |
| Stream.PutBack | a4/ece650-a4.cpp:96 | `putback` steps back by one on a good stream. |
| Stream.ReadIntOfRendered | a2/ece650-a2.cpp:60 | The decimal text of an `int` followed by a non-digit, or by the end, reads back as that `int`. It sets eofbit only at the end. |
| Stream.ReadsIntAtEnd | a2/ece650-a2.cpp:60 | A number that ends the line reads back with eofbit set and failbit clear. |
| Stream.ReadNonNegative | a2/ece650-a2.cpp:164 | A non-negative decimal reads back. |
| Stream.ReadNegative | a2/ece650-a2.cpp:164 | A `-` then digits reads back as the negative value. |
| Stream.SkippedSpaces | a2/ece650-a2.cpp:34 | Extraction skips exactly white space. |
| Commands.AfterCommand | a2/ece650-a2.cpp:32-34 | After `>> c`, the stream is good just past the first non-blank, or failed when there is none. |
| Commands.VertexCommandRead | a2/ece650-a2.cpp:56-61 | In `V n`, the count reads back as n, ending the line without failing. |
| Commands.QueryCommandRead | a2/ece650-a2.cpp:161-164 | In `s a b`, both numbers read back, and the first read leaves the stream good. |
| Commands.QueryArgs | a2/ece650-a2.cpp:161-169 | The two query numbers are `int`s whenever neither read failed. |
| Commands.QueryArgsOfRendered | a2/ece650-a2.cpp:161-169 | A typed `s a b` yields exactly (a, b). |
| Commands.PathLineReadBack | a2/ece650-a2.cpp:211-223 | A printed path ends in a newline. Splitting at `-` gives back each vertex in order. |
| StrictPaths.HandleVertex | a2/ece650-a2.cpp:55-68 | The program either exits with the count error or goes on with a count > 1 and an empty graph. |
| StrictPaths.VertexCommandEffect | a2/ece650-a2.cpp:55-68 | A typed `V n` goes on exactly when n > 1, with count n and an empty graph. |
| StrictPaths.HandleEdge | a2/ece650-a2.cpp:70-152 | With no count it exits. Going on means a valid list within the count and the adjacency map built from it. Every error exits with one message. |
| StrictPaths.EdgeCommandEffect | a2/ece650-a2.cpp:70-152 | A typed list goes on exactly when its canonical form is valid, and is then stored. Otherwise the program exits naming a typed pair. |
| StrictPaths.EdgeCommandScan | a2/ece650-a2.cpp:76-145 | The handler on a typed list does what the reference loop decides. |
| StrictPaths.ValidatedAccepted | a2/ece650-a2.cpp:98-151 | Only a list the reference loop accepts lets the program go on, and it is stored whole. |
| StrictPaths.ValidatedRefused | a2/ece650-a2.cpp:118-127 | A refused list exits with the message for a typed pair. |
| StrictPaths.ApplyListed | a2/ece650-a2.cpp:142-151 | A closed list replaces edges and adjacency. |
| StrictPaths.ApplyRejected | a2/ece650-a2.cpp:118-127 | A refused item exits. |
| StrictPaths.EmptyListLeavesNoGraph | a2/ece650-a2.cpp:91-94 | `E {}` leaves an empty edge list and an empty adjacency map, so the next query reports that no graph is defined. |
| StrictPaths.BuiltNoSentinel | a2/ece650-a2.cpp:147-151 | Built from valid pairs, the map never holds the parent sentinel -1, and every neighbour has an entry. |
| StrictPaths.HandleQuery | a2/ece650-a2.cpp:155-178 | `Answers`: the checks come in program order: no graph, an unreadable query, bad endpoints, then a start with no entry, which aborts. An empty result means unreachable. Otherwise the printed path is a shortest walk with no repeats, and the state is kept. |
| StrictPaths.Step | a2/ece650-a2.cpp:24-50 | Each line keeps the state consistent and prints only path lines, or exits with one error. An empty line changes nothing, V and E lines are their handlers, an `s` line is answered as `Answers` states, and an unknown command exits. A line that goes on prints one line if it is a query and nothing otherwise. |
| StrictPaths.Run | a2/ece650-a2.cpp:24-52 | All a run prints is path lines, followed by exactly one error when it exits. A run that reads every line prints one line per query line. One that exits at some line prints one line per earlier query line, plus the error. |
| Bfs.ShortestPathOnDequeue | a2/ece650-a2.cpp:180-209 | The search that checks the end on dequeue returns a start-first shortest walk with no repeated vertex. It returns the empty path exactly when the end is unreachable. |
| Bfs.TraceBack | a2/ece650-a2.cpp:193-196 | Following parents from the end gives one vertex per level, back to the start, each discovered from the next, with no repeats. |
| Bfs.ReversedTrace | a2/ece650-a2.cpp:197 | Reversing the traced chain gives a walk from the start to the end with no repeats. |
| Bfs.Expand | a2/ece650-a2.cpp:200-206 | The neighbour loop keeps the BFS layering and queues exactly the newly visited vertices. With early exit it stops right after discovering the end, at its true distance. |
| Bfs.Frontier | a2/ece650-a2.cpp:189-207 | A walk from the start reaches a recorded vertex no deeper than its own length, or goes past the frontier. |
| Bfs.TreeGrows | a2/ece650-a2.cpp:202-203 | Recording a newly discovered neighbour keeps the parent map a BFS tree. |
| Bfs.QueueGrows | a2/ece650-a2.cpp:204 | Queueing a vertex one level down keeps queue levels non-decreasing within two adjacent levels. |
| Bfs.Discover | a2/ece650-a2.cpp:201-205 | Discovering an unvisited neighbour keeps the loop state. |
| Bfs.DiscoverTree | a2/ece650-a2.cpp:202-203 | Discovering keeps the tree half of the loop state. |
| Bfs.DiscoverQueue | a2/ece650-a2.cpp:204 | Discovering keeps the queue half of the loop state. |
| Bfs.EndFound | a3/ece650-a2.cpp:269-272 | When the end is discovered, its recorded level is its distance from the start. |
| Bfs.Expanded | a2/ece650-a2.cpp:200-206 | After a vertex's neighbours, the queue is layered and that vertex is settled. |
| Bfs.ShortestPathOnDiscovery | a3/ece650-a2.cpp:240-291 | The search that checks on discovery returns the end-first chain back to the start. Reversed, it is a shortest walk. When start and end differ, it is empty exactly when the end is unreachable; when they are equal, it is always empty. |
| LenientPaths.ReadCounts | a3/ece650-a2.cpp:43-49 | The count loop keeps the last value stored, always an `int`, and reports whether every extraction succeeded. |
| LenientPaths.HandleVertex | a3/ece650-a2.cpp:40-63 | An unreadable count is reported and keeps what the read stored. A count of at most 1 silently becomes 0. Any other count clears the edges and the empty-graph mark, but not the adjacency map. |
| LenientPaths.VertexCommandEffect | a3/ece650-a2.cpp:40-63 | A typed `V n` with n <= 1 sets the count to 0 and keeps the edges. A larger n sets it and clears them. |
| LenientPaths.TrailingBlankAfterCount | a3/ece650-a2.cpp:43-54 | A blank after the count triggers one more, failing extraction. The count is stored anyway, the line is reported invalid, and the edges stay. |
| LenientPaths.TrailingBlankCounts | a3/ece650-a2.cpp:43-49 | With a trailing blank, the count loop reports a failure after storing n. |
| LenientPaths.ReadHalf | a3/ece650-a2.cpp:97-98 | `>> v >> c` moves forward within the line. |
| LenientPaths.ReadPair | a3/ece650-a2.cpp:97-100 | The four extractions move forward within the line. |
| LenientPaths.PairLoop | a3/ece650-a2.cpp:86-126 | The pair loop only appends to the list it started with. |
| LenientPaths.AfterPair | a3/ece650-a2.cpp:102-125 | The rest of a turn only appends. |
| LenientPaths.Conclude | a3/ece650-a2.cpp:128-160 | Invalid or repeated pairs clear the list and zero the count. An accepted list gets the map built from it. Every verdict sets the empty-graph mark when the old mark or the scan's `}` in item position set it. |
| LenientPaths.HandleEdge | a3/ece650-a2.cpp:65-161 | An empty-graph mark or no count refuses on stdout with the count zeroed. A second list is refused, also zeroing the count. An accepted list is in range with its map built. Any refusal keeps the map. Once the pair loop ran, the mark is the one its `}` in item position set, whatever the verdict. |
| LenientPaths.ReadEdgeList | a3/ece650-a2.cpp:80-160 | Once the pair loop runs, a verdict means the scan completed, and the mark is the old one or the scan's. A refusal clears the list and zeroes the count and changes nothing else. An accepted list keeps the count, is in range, and has its map built. |
| LenientPaths.RepeatRefusalKeepsMark | a3/ece650-a2.cpp:87-151 | `E {<1,2>,<1,2>,}` on a fresh count is refused as repeated, zeroes the count and leaves the empty-graph mark set by its trailing `,}`. |
| LenientPaths.StaleMarkRefusesEdges | a3/ece650-a2.cpp:43-71 | After that refusal, a `V 3 ` line fails to read its count but stores 3 and leaves the mark, so the next `E` zeroes the count and reports missing vertices. |
| LenientPaths.PairLoopInRange | a3/ece650-a2.cpp:102-118 | Every pair the loop pushes passed the range and loop check. |
| LenientPaths.AfterPairInRange | a3/ece650-a2.cpp:102-118 | Every pair a turn pushes passed the range and loop check. |
| LenientPaths.Admit | a3/ece650-a2.cpp:86-126 | Reference loop over typed pairs: it never marks the graph empty. |
| LenientPaths.AdmitVerdict | a3/ece650-a2.cpp:102-118 | The loop breaks exactly when some pair is out of range. Otherwise it keeps every pair as typed and has seen an exact repeat exactly when there is one. |
| LenientPaths.RepeatsSnoc | a3/ece650-a2.cpp:110-116 | Appending a pair creates an exact repeat exactly when it was already there. |
| LenientPaths.AcceptsValidEdges | a3/ece650-a2.cpp:102-151 | For in-range pairs, no exact and no reversed repeat holds exactly when the canonical forms are a valid list. So this program accepts the lists the strict one accepts. |
| LenientPaths.RepeatNotValid | a3/ece650-a2.cpp:110-116 | An exact repeat makes the canonical list invalid. |
| LenientPaths.ReversedNotValid | a3/ece650-a2.cpp:136-144 | A reversed pair makes the canonical list invalid. |
| LenientPaths.InvalidMeansRepeat | a3/ece650-a2.cpp:136-151 | An in-range list whose canonical form is invalid has an exact or a reversed repeat. |
| LenientPaths.LoopOnRendered | a3/ece650-a2.cpp:86-126 | Over the items of a typed list, the loop does what the reference loop does. |
| LenientPaths.ScanOfRendered | a3/ece650-a2.cpp:80-126 | From the command to the end of the loop, a typed list reads back as typed. |
| LenientPaths.EdgeCommandEffect | a3/ece650-a2.cpp:65-161 | Given a count and no stored list, a typed list is kept exactly as typed when it is valid. An out-of-range pair gives one message and a repeat the other, and both zero the count. `E {}` marks the graph empty. |
| LenientPaths.ConcludeTyped | a3/ece650-a2.cpp:128-160 | After the loop on a typed list, the same verdicts as `EdgeCommandEffect`. |
| LenientPaths.OutOfBoundsNotValid | a3/ece650-a2.cpp:102-107 | A pair out of range makes the canonical list invalid. |
| LenientPaths.TrailingCommaMarksEmpty | a3/ece650-a2.cpp:86-126 | In `E {<1,2>,}`, the `}` after the comma is read where a pair should start, so the edge is stored and the graph is marked empty at once. |
| LenientPaths.TrailingCommaLoop | a3/ece650-a2.cpp:86-93 | The loop on `<1,2>,}` stores (1,2) and then meets `}`. |
| LenientPaths.QueryVerdict | a3/ece650-a2.cpp:163-224 | The `s` checks in program order. The search runs exactly when there is a count and a list, the graph is not marked empty, both numbers read, they are distinct and in range, and both are endpoints. |
| LenientPaths.PositiveNoSentinel | a3/ece650-a2.cpp:154-160 | A map built from positive pairs has no -1 sentinel and no dangling neighbour. |
| LenientPaths.HandleQuery | a3/ece650-a2.cpp:163-232 | After the checks, an unreachable end prints the empty-path error. Otherwise one line with a shortest walk is printed start first, and the state is unchanged. |
| LenientPaths.Echoes | a3/ece650-a2.cpp:28-30 | The echoed lines are among the messages. |
| LenientPaths.EchoesAppend | a3/ece650-a2.cpp:28-30 | Echoes of concatenated output concatenate. |
| LenientPaths.Step | a3/ece650-a2.cpp:24-235 | Each line echoes exactly itself unless it starts with `s`. A line that is empty or starts with a blank does nothing else. Commands dispatch on `V`/`E`/`s`, and anything else is an invalid command. |
| LenientPaths.VertexKeepsCoherent | a3/ece650-a2.cpp:40-63 | `V` keeps pairs positive and the map built from them. |
| LenientPaths.EdgeKeepsCoherent | a3/ece650-a2.cpp:65-161 | `E` keeps pairs positive and the map built from them. |
| LenientPaths.QueryKeepsCoherent | a3/ece650-a2.cpp:163-232 | `s` changes only the count and the mark. |
| LenientPaths.Quiet | a3/ece650-a2.cpp:28-30 | Error messages add no echoes. |
| LenientPaths.Run | a3/ece650-a2.cpp:24-236 | The echoes in the output are exactly the lines not starting with `s`, in order. A run that reaches undefined behaviour has echoed exactly those lines before some point. |
| StreetGeometry.OnSegmentIsBetween | a3/rgen.cpp:70-80 | The bounding-box and cross-product test holds exactly when the point is `from + t·(to − from)` for some rational t in [0, 1]. |
| StreetGeometry.EndpointsOnSegment | a3/rgen.cpp:70-80 | Both endpoints of a segment pass the test. |
| StreetGeometry.Fraction | a3/rgen.cpp:70-80 | A point passing the test lies a fraction in [0, 1] along the segment. |
| StreetGeometry.ScaledIsOn | a3/rgen.cpp:70-80 | A point a fraction in [0, 1] along the segment passes the test. |
| StreetGeometry.CheckStreets | a3/rgen.cpp:132-232 | The check succeeds exactly when no segment is degenerate and no two segments clash, within one street or across two. A clash is cover, partial overlap, or equality in either direction. |
| StreetGeometry.CheckWithin | a3/rgen.cpp:145-184 | The within-street loops succeed exactly when no pair k < l clashes. |
| StreetGeometry.CheckAcross | a3/rgen.cpp:187-229 | The across-street loops succeed exactly when no pair clashes. |
| StreetGeometry.AcceptedNoCover | a3/rgen.cpp:148-182 | In accepted streets no segment lies on another, and none is repeated in either direction. |
| StreetGenerator.ToSigned | a3/rgen.cpp:65-66 | Storing an `unsigned` into an `int` gives an `int` that converts back to the same word. |
| StreetGenerator.Axis | a3/rgen.cpp:61-68 | For c up to 2^30 − 1, where `2c+1` fits in an `int`, the coordinate is `x mod (2c+1) − c` and lies in [−c, c]. The modulo-2^32 subtraction and the conversion cancel. |
| StreetGenerator.SignedRoundTrip | a3/rgen.cpp:65-66 | `int` to `unsigned` and back is the identity. |
| StreetGenerator.StreetCount | a3/rgen.cpp:102-103 | The street count lies in [2, s]. |
| StreetGenerator.SegmentCount | a3/rgen.cpp:106-107 | The segment count lies in [1, n]. |
| StreetGenerator.WaitTime | a3/rgen.cpp:366-368 | The wait lies in [5, l]. |
| StreetGenerator.Letter | a3/rgen.cpp:44-53 | A name letter is a capital. |
| StreetGenerator.CoordinatesExact | a3/rgen.cpp:65-66 | For c up to 2^30 − 1, the drawable coordinates are exactly [−c, c]. |
| StreetGenerator.StreetCountsExact | a3/rgen.cpp:102-103 | The drawable street counts are exactly [2, s]. |
| StreetGenerator.SegmentCountsExact | a3/rgen.cpp:106-107 | The drawable segment counts are exactly [1, n]. |
| StreetGenerator.WaitTimesExact | a3/rgen.cpp:368 | The drawable waits are exactly [5, l]. |
| StreetGenerator.DrawCoordinate | a3/rgen.cpp:61-68 | For c up to 2^30 − 1, a drawn point lies in the box [−c, c]². |
| StreetGenerator.DrawName | a3/rgen.cpp:44-59 | A name is ten capitals, one per word read. |
| StreetGenerator.DrawSegments | a3/rgen.cpp:109-121 | The count is as asked, the first segment starts at the given point, each segment starts where the previous ends, and all stay in the box. |
| StreetGenerator.DrawStreet | a3/rgen.cpp:105-127 | A street is well formed (1..n chained segments in the box, a ten-letter name) and uses 13 + 2·segments words. |
| StreetGenerator.DrawStreets | a3/rgen.cpp:105-128 | The given number of well-formed streets. |
| StreetGenerator.GenerateStreets | a3/rgen.cpp:98-130 | Between 2 and s well-formed streets. |
| StreetGenerator.FirstAccepted | a3/rgen.cpp:376-383 | The attempt loop finds the first acceptable set of streets, or reports that none is. |
| StreetGenerator.Round | a3/rgen.cpp:372-391 | A round is undefined exactly when `-c` is 2^30 or more, since every attempt computes `2c+1`. Otherwise it prints the first of 25 attempts that passes the check, and gives up exactly when none passes. |
| StreetGenerator.ProductsFit | a3/rgen.cpp:69-79 | For c up to 23170 and points in the box, both cross products of `isPointOnSegment` fit in an `int`, so the exact products are the ones C++ computes. |
| StreetGenerator.ProductOverflowsAbove | a3/rgen.cpp:69-79 | At c = 23171 a box point on the box's diagonal passes the bounding-box tests and its first cross product exceeds `INT_MAX`. |
| StreetGenerator.RoundStreetsWellFormed | a3/rgen.cpp:98-130 | Every attempt holds 2..s well-formed streets. |
| StreetGenerator.Stoi | a3/rgen.cpp:291 | `std::stoi` returns only `int` values and throws otherwise. |
| StreetGenerator.ParseFrom | a3/rgen.cpp:273-354 | Whatever the options, the arguments the parser returns meet every minimum and are `int`s. |
| StreetGenerator.ParseArgsAsWritten | a3/rgen.cpp:273-354 | With the integer test as written, parsed options meet every minimum. |
| StreetGenerator.ParseArgs | a3/rgen.cpp:273-354 | With the corrected integer test, parsed options meet every minimum. |
| StreetGenerator.SignOnlyThrows | a3/rgen.cpp:282-291 | `-s -` passes the integer test as written and makes `stoi` throw. The corrected test reports a non-integer instead. |
| StreetGenerator.IntegerConverts | a3/rgen.cpp:282-291 | Under the corrected test, a value converts exactly when it is in `int` range, to its decimal value. |
| StreetGenerator.StrictThrowsOnlyOutOfRange | a3/rgen.cpp:276-351 | With the corrected test, the parser throws only on a value outside the `int` range. |
| StreetGenerator.NoOptionsKeepsDefaults | a3/rgen.cpp:266-277 | Arguments naming no option leave the defaults 10/5/5/20. |
| StreetGenerator.IntToStringConverts | a3/rgen.cpp:282-291 | A decimal `int` passes the integer test and `stoi` reads it back. |
| StreetGenerator.OneOptionRoundTrip | a3/rgen.cpp:276-351 | One option with a decimal value either sets that option or reports the minimum error, exactly as v is below the minimum or not. |
| StreetGenerator.Start | a3/rgen.cpp:357-370 | `main` runs the parser as written: it aborts exactly when that parser throws, and otherwise launches or fails with what that parser returns. A launch has valid options and the wait drawn from the word, in [5, l]. Launch and failure agree with the corrected parser. |
| StreetGenerator.StartSignOnlyAborts | a3/rgen.cpp:357-358 | `rgen -s -` aborts: `main` uses the parser as written, whose `stoi` throws. |
| StreetGenerator.ParseAgrees | a3/rgen.cpp:282-291 | Wherever the parser as written does not throw, the corrected parser returns the same result. |
| StreetGenerator.Identifiers | a3/rgen.cpp:256 | One recorded name per street. |
| StreetGenerator.PrintStreets | a3/rgen.cpp:235-262 | Every call increments the print counter. |
| StreetGenerator.Points | a3/rgen.cpp:249-255 | A street of m segments prints m + 1 points. |
| StreetGenerator.SegmentsTextIsPoints | a3/rgen.cpp:249-255 | The segment loop prints each start and then the last end, separated by blanks and ended by a newline. |
| StreetGenerator.PointsRecoverSegments | a3/rgen.cpp:249-255 | For a chained street, consecutive printed points give back exactly its segments. |
| StreetGenerator.PrintedText | a3/rgen.cpp:235-261 | The text written is its command list, rendered line by line. |
| StreetGenerator.PrintBookkeeping | a3/rgen.cpp:235-261 | The first call removes nothing. Each later call removes, in order, every street the previous call added, then adds its own with all points, then ends with `gg`. |
| StreetGenerator.LaterCallLayout | a3/rgen.cpp:235-261 | When the recorded names are the previous streets', the commands are their `rm` lines in order, then one `add` per street, then `gg`. |
| StreetInput.Chain | a3/ece650-a1.py:184-194 | m points give m − 1 segments. |
| StreetInput.ChainIsChained | a3/ece650-a1.py:184-194 | Segment i runs from point i to point i + 1, so each starts where the previous ends. |
| StreetInput.PointsOf | a3/ece650-a1.py:190-191 | One point per readable token. |
| StreetInput.Lower | a3/ece650-a1.py:36 | `lower()` maps each character, keeping the length. |
| StreetInput.LowerIsLower | a3/ece650-a1.py:205 | Lower-cased names have no capitals, and lower-casing is idempotent. |
| StreetInput.StripStart | a1/a1ece650.py:275 | Leading strip removes exactly the leading white space. |
| StreetInput.StripEnd | a1/a1ece650.py:275 | Trailing strip removes exactly the trailing white space. |
| StreetInput.StripEmptyIffBlank | a1/a1ece650.py:346 | A string strips to nothing exactly when it is all white space. |
| StreetInput.QuotedPart | a3/ece650-a1.py:279 | `split('"')[1]` exists exactly when there is a quote. It is the text after the first quote, up to the next quote or the end. |
| StreetInput.QuotedPartIsSecondPiece | a3/ece650-a1.py:279 | The quoted text exists exactly when splitting at `"` gives at least two pieces, and it is the second piece. |
| Text.SplitHead | a1/a1ece650.py:274 | Python `split` with one character: the first piece runs up to the first separator, and the rest is the split of what follows. |
| StreetManager.FirstIndex | a3/ece650-a1.py:228-229 | The position of the first street with the name, and nothing exactly when no street has it. |
| StreetManager.CreateSegments | a3/ece650-a1.py:184-194 | Succeeds exactly when there are fewer than 2 tokens or all are readable. The segments then chain the points. |
| StreetManager.CreatedSegmentsChain | a3/ece650-a1.py:184-194 | m coordinates give m − 1 chained segments. |
| StreetManager.AddStreet | a3/ece650-a1.py:200-216 | Fails exactly on a blank name, a name present case-insensitively, fewer than 2 coordinates, or an unreadable one. Otherwise it appends exactly one street. |
| StreetManager.ModifyStreet | a3/ece650-a1.py:218-235 | Fails exactly on a blank name, too few coordinates, an absent name or an unreadable token. Otherwise it replaces the first match in place and keeps every other street. |
| StreetManager.RemoveStreet | a3/ece650-a1.py:237-249 | Fails exactly on a blank or absent name. Otherwise it drops the first match and keeps the rest in order. |
| StreetManager.AddKeepsRegistry | a3/ece650-a1.py:205-215 | Adding keeps names lower-case and distinct. |
| StreetManager.ModifyKeepsRegistry | a3/ece650-a1.py:227-232 | Modifying keeps names lower-case and distinct, and every position keeps its name. |
| StreetManager.RemoveDropsOnlyThatStreet | a3/ece650-a1.py:242-246 | In a registry, removing leaves no street of that name and keeps every other street. |
| StreetManager.RegistryNames | a3/ece650-a1.py:228-229 | In a registry, the first street with a name is the only one. |
| StreetManager.AddEdge | a3/ece650-a1.py:50-52 | Records (p, q) unless p = q, and changes nothing else. |
| StreetManager.AddEdgeKeepsNoLoops | a3/ece650-a1.py:50-52 | Adding edges never creates a loop. |
| StreetManager.SortedForgetsDirection | a3/ece650-a1.py:147-148 | An edge and its reversal sort to the same entry. |
| StreetManager.UniqueEdgesKeepEvery | a3/ece650-a1.py:147-148 | Every edge survives, as itself or reversed. |
| StreetManager.UniqueEdgesNoReversal | a3/ece650-a1.py:147-148 | No kept non-loop entry has its reversal kept. |
| StreetManager.UniqueEdgesEmpty | a3/ece650-a1.py:147-151 | The sorted set is empty exactly when there are no edges. |
| StreetManager.PrintGraph | a3/ece650-a1.py:139-158 | Prints nothing exactly with fewer than 2 vertices or no edges. A missing key (`KeyError`) happens exactly when an edge end is not a vertex. Otherwise it prints the count and one numbered pair per sorted edge. |
| StreetManager.PrintedPairsNotReversed | a3/ece650-a1.py:147-155 | With no loops, no printed pair appears together with its reversal. |
| StreetManager.Step | a3/ece650-a1.py:256-302 | An unmatched line, `)(` in the coordinates, `"(` in the line, `rm` with coordinates and `gg` with arguments change nothing. Only an accepted command changes the list, and `gg` runs only with no arguments. |
| StreetManager.StepKeepsRegistry | a3/ece650-a1.py:256-302 | Every line keeps names lower-case and distinct. |
| RoadMap.Name | a1/a1ece650.py:274-275 | A name exists exactly when the label has a quote. It is lower-case and has no white space at either end. |
| RoadMap.NameFromQuotes | a1/a1ece650.py:274-275 | A label `pre"t"post` names t, stripped and lower-cased. |
| RoadMap.ScanPairs | a1/a1ece650.py:293-303 | The pair loop builds the chained segments exactly when no pair is bad. Otherwise it stops at the first bad pair: `Raised` exactly for an unreadable token, `Duplicate` for two equal points. |
| RoadMap.AddStreet | a1/a1ece650.py:273-305 | Any error leaves the list unchanged. It succeeds exactly on a quoted, non-blank, absent name with at least 2 coordinates and no bad pair, and then appends one street. `Exists` exactly when the name is present. |
| RoadMap.AddNamed | a1/a1ece650.py:277-305 | With the name read, the same verdicts: success exactly on a non-blank, absent name with at least 2 coordinates and no bad pair; a `Duplicate` refusal names a pair of equal readable points. |
| RoadMap.Without | a1/a1ece650.py:326 | Keeps exactly the streets with other names. It is the identity when the name is absent and shorter when it is present. |
| RoadMap.ModifyStreet | a1/a1ece650.py:308-342 | Succeeds exactly on a good, present name with a good coordinate list. `Missing` exactly when the name is absent. A scan that stops leaves the street already dropped, and success appends it at the end. |
| RoadMap.ModifyNamed | a1/a1ece650.py:311-342 | With the name read: `Missing` exactly for an absent name; past the checks the street is dropped first, and only a full scan appends it again. |
| RoadMap.RemoveStreet | a1/a1ece650.py:345-363 | Any error leaves the list unchanged. It succeeds exactly on a non-blank label with a good, present name, and then drops every street of that name. |
| RoadMap.WithoutInRegistry | a1/a1ece650.py:326 | In a registry, dropping a present name removes exactly one street and keeps names distinct. |
| RoadMap.AddKeepsRegistry | a1/a1ece650.py:273-305 | Adding keeps names lower-case and distinct. |
| RoadMap.ModifyKeepsRegistry | a1/a1ece650.py:308-342 | Modifying keeps names lower-case and distinct, whether it is accepted or refused. |
| RoadMap.RemoveKeepsRegistry | a1/a1ece650.py:345-363 | Removing keeps names distinct and takes out exactly one street. |
| RoadMap.ModifyMovesToEnd | a1/a1ece650.py:326-342 | An accepted `mod` keeps the length, keeps the others in order, and puts the modified street last. |
| RoadMap.ModifyRejectedRemoves | a1/a1ece650.py:326-338 | A `mod` of a present street refused for equal consecutive points reports `Duplicate`, yet the street is gone. |
| RoadMap.FilterUniqueEdges | a1/a1ece650.py:265-271 | Keeps exactly the first edge of each edge/reversal pair. Every input edge survives as itself or reversed, and no kept non-loop has its reversal kept. |
| RoadMap.Within | a1/a1ece650.py:63-64 | q lies between p and r exactly when it is in the closed interval they span. The test is symmetric in p and r. |
| RoadMap.Step | a1/a1ece650.py:397-439 | `"(` and `)(` are reported and change nothing. A missing argument changes nothing. Only an accepted command, or a refused `mod` that already dropped its street, changes the list. `gg` runs exactly with no arguments and no format error. |
| RoadMap.StepKeepsRegistry | a1/a1ece650.py:397-439 | Every matched line keeps names lower-case and distinct. |
| RoadMap.Run | a1/a1ece650.py:385-445 | One reply per line up to the first blank line. |
| RoadMap.RunStopsAtBlank | a1/a1ece650.py:388-392 | Nothing after the first blank line is read. |
| RoadMap.RunKeepsRegistry | a1/a1ece650.py:385-445 | A whole run keeps names lower-case and distinct. |

## Left out

- The SAT solver (a4/ece650-a4.cpp:11-12, 163, 223, 227, 249) is a parameter `Solver` from formulas to an optional model. The cover guarantees assume it answers correctly. The unused `setVertices` (156-160) is not modelled.
- a3/ece650-a3.cpp is not part of this model: it is process plumbing (fork, pipes, signals).
- Floating-point street geometry is not modelled: a1/a1ece650.py:26-62 and 75-247, and a3/ece650-a1.py:54-137, including `generate_graph` and `generate_graph_and_output`. Only the interval test `Within` is modelled from it, over exact reals.
- `print_vertices` and `print_edges` in a1/a1ece650.py (238-263) print the float graph and are not modelled.
- Randomness: the words read from `/dev/urandom` are a function parameter `Source`. `sleep` and the endless outer loop are left out; one round is modelled.
- `std::stoi` throwing `out_of_range` is modelled as the `Thrown` outcome, with no message.
- Regular expressions are left out. The Python programs are modelled from the groups the command pattern yields, and the coordinate tokens it found.
- Standard input and output are modelled as a sequence of lines and a sequence of messages. The exact wording of messages is not kept.
- Python set iteration order in `print_graph` is a parameter. `list(set)` in `filter_unique_edges` is modelled as the set itself, since its order is unspecified.
- StreetInput.Lower: only ASCII capitals are lower-cased. The command pattern admits only ASCII letters and blanks in a name.
- StreetInput.StripStart: white space means the C locale's six characters, not Python's full Unicode set.
- StreetInput.StripEnd: white space means the C locale's six characters, not Python's full Unicode set.
- StreetGeometry.CheckStreets: `isPointOnSegment` multiplies two `int` differences. The model uses exact products. They agree with C++ for `-c` up to 23170 (`ProductsFit`). From 23171 on, a segment whose row and column extents are both large makes a product overflow, which is undefined in C++ (`ProductOverflowsAbove`); the model still gives the exact answer there.
- StreetGenerator.Axis: `2 * c + 1` is signed `int` arithmetic and overflows, undefined in C++, for c of 2^30 or more, which the parser admits. The drawing functions require c below 2^30; `Round` returns `Undefined` for larger c instead of drawing.
- RoadMap.ScanPairs: tokens are read as exact integers, while `Coordinate` stores `float()` values and compares those. Integers beyond 2^53 that round to the same double, and digit strings long enough to become `inf`, count as a repeated point in the program but not in the model.
- StreetManager.AddEdge: points are exact integers, while `Point` holds floats. Two points that differ only beyond 2^53 compare equal in the program and count as a loop there, but not in the model.
- StrictPaths.HandleQuery: `at` on a start with no entry is modelled as `Aborted`, without the exception's text.
- LenientPaths.Run: the loop's `eof` test is modelled by the sequence of lines `getline` returns. A final empty line that `getline` produces at end of input is one of those lines.
- Cover.FindVertexCover: its precondition excludes the undefined table indexing for endpoints beyond `v`. CoverSession.Step returns `Stuck` there instead of a value.

## Findings

| source | as written | input that shows it | evidently intended | confidence | as-written member | corrected member |
|---|---|---|---|---|---|---|
| a3/rgen.cpp:282-291 | The integer test accepts a lone `-` or `+`, because the `all_of` over the digits after the sign is true on an empty range. `std::stoi` then throws `invalid_argument`, which nothing catches. | `rgen -s -` | Report "Non-integer command line argument" and exit with status 1, as for any other non-integer. | high; not executed | StreetGenerator.ParseArgsAsWritten, StreetGenerator.SignOnlyThrows | StreetGenerator.ParseArgs, StreetGenerator.StrictThrowsOnlyOutOfRange |
