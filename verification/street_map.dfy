/**
 * The street list of the a1 Python program: `add`, `mod` and `rm` on named
 * streets, the pairwise scan that turns coordinates into segments, the
 * filter that keeps one edge of each edge/reversal pair, the "between" test
 * of the intersection code, and the checks `main` makes on each line.
 */
module RoadMap {
  import Seqs
  import opened Options
  import opened Text
  import opened StreetInput

  /** A street: its lower-cased name and its segments. */
  datatype Road = Road(name: string, lines: seq<Segment>)

  /** The errors the program prints for a command. */
  datatype Failure = NoName | Exists | TooFew | Duplicate | Missing | Raised

  /** The list a command leaves behind, and the error it printed, if any. */
  datatype Outcome = Outcome(roads: seq<Road>, error: Option<Failure>)

  predicate Known(roads: seq<Road>, name: string) {
    exists i | 0 <= i < |roads| :: roads[i].name == name
  }

  /** What the commands keep true of the list: lower-case, pairwise different names. */
  predicate Registry(roads: seq<Road>) {
    && (forall i | 0 <= i < |roads| :: IsLower(roads[i].name))
    && (forall i, j | 0 <= i < j < |roads| :: roads[i].name != roads[j].name)
  }

  // ---------------------------------------------------------------- names

  /**
   * The street name a label holds: the text after its first quote, stripped
   * and lower-cased; `None` when there is no quote (`IndexError`).
   */
  function Name(quoted: string): (r: Option<string>)
    ensures r.Some? <==> '"' in quoted
    ensures r.Some? ==> IsLower(r.value)
    ensures r.Some? && |r.value| > 0 ==> !IsSpace(r.value[0]) && !IsSpace(r.value[|r.value| - 1])
  {
    match QuotedPart(quoted)
    case None => None
    case Some(t) =>
      var n := Lower(Strip(t));
      LowerIsLower(Strip(t));
      Some(n)
  }

  /** A label written `pre"t"post`, with no quote in `pre` or `t`, names `t` stripped and lower-cased. */
  lemma {:induction false} NameFromQuotes(pre: string, t: string, post: string)
    requires '"' !in pre && '"' !in t
    ensures Name(pre + ['"'] + t + ['"'] + post) == Some(Lower(Strip(t)))
  {
    var quoted := pre + ['"'] + t + ['"'] + post;
    Seqs.PositionAt(quoted, '"', |pre|);
    assert QuotedAt(quoted, |pre|, t) by {
      assert quoted[|pre| + 1..|pre| + 1 + |t|] == t;
      assert quoted[|pre| + 1 + |t|] == '"';
    }
    QuotedAtUnique(quoted, |pre|, t, QuotedPart(quoted).value);
  }

  // ---------------------------------------------------------------- segments

  /** Pair `i` of the coordinates cannot become a segment: a token `float()` rejects, or two equal points. */
  predicate BadPair(tokens: seq<Token>, i: nat)
    requires i + 1 < |tokens|
  {
    tokens[i].Unreadable? || tokens[i + 1].Unreadable? || tokens[i].p == tokens[i + 1].p
  }

  /** The segments built, or the error and the index of the pair that stopped the scan. */
  datatype Scan = Built(segments: seq<Segment>) | Stopped(failure: Failure, at: nat)

  /**
   * The loop over consecutive coordinate pairs in `add_street` and
   * `modify_street`: it stops at the first pair with an unreadable token
   * (an exception) or with two equal points.
   */
  function ScanPairs(tokens: seq<Token>): (r: Scan)
    ensures r.Built? <==> forall i | 0 <= i < |tokens| - 1 :: !BadPair(tokens, i)
    ensures r.Built? && |tokens| >= 2 ==> AllReadable(tokens) && r.segments == Chain(PointsOf(tokens))
    ensures r.Stopped? ==> r.at + 1 < |tokens| && BadPair(tokens, r.at)
    ensures r.Stopped? ==> forall i | 0 <= i < r.at :: !BadPair(tokens, i)
    ensures r.Stopped? ==> (r.failure == Raised <==> tokens[r.at].Unreadable? || tokens[r.at + 1].Unreadable?)
    ensures r.Stopped? ==> r.failure in {Raised, Duplicate}
    decreases |tokens|
  {
    if |tokens| < 2 then Built([])
    else if BadPair(tokens, 0) then
      if tokens[0].Unreadable? || tokens[1].Unreadable? then Stopped(Raised, 0) else Stopped(Duplicate, 0)
    else
      assert forall i | 1 <= i < |tokens| - 1 :: BadPair(tokens, i) == BadPair(tokens[1..], i - 1);
      match ScanPairs(tokens[1..])
      case Stopped(f, at) =>
        assert BadPair(tokens, at + 1) == BadPair(tokens[1..], at);
        Stopped(f, at + 1)
      case Built(rest) => Built([Segment(tokens[0].p, tokens[1].p)] + rest)
  }

  /** Every pair can become a segment. */
  predicate Scannable(tokens: seq<Token>) {
    forall i | 0 <= i < |tokens| - 1 :: !BadPair(tokens, i)
  }

  /** The street a successful scan builds. */
  function NewRoad(name: string, tokens: seq<Token>): Road
    requires |tokens| >= 2 && AllReadable(tokens)
  {
    Road(name, Chain(PointsOf(tokens)))
  }

  // ---------------------------------------------------------------- the commands

  /**
   * `add_street`: no quote raises; a blank name, a name already present,
   * fewer than two coordinates, an unreadable coordinate or two equal
   * consecutive ones fail; otherwise one street is appended.
   */
  function AddStreet(roads: seq<Road>, quoted: string, tokens: seq<Token>): (r: Outcome)
    ensures r.error.Some? ==> r.roads == roads
    ensures r.error.None? <==>
      && Name(quoted).Some? && !Blank(Name(quoted).value) && !Known(roads, Name(quoted).value)
      && |tokens| >= 2 && Scannable(tokens)
    ensures r.error.None? ==> AllReadable(tokens) && r.roads == roads + [NewRoad(Name(quoted).value, tokens)]
    ensures r.error == Some(Exists) <==> Name(quoted).Some? && !Blank(Name(quoted).value) && Known(roads, Name(quoted).value)
    ensures r.error == Some(Duplicate) ==>
      exists i | 0 <= i < |tokens| - 1 :: tokens[i].Number? && tokens[i + 1].Number? && tokens[i].p == tokens[i + 1].p
  {
    match Name(quoted)
    case None => Outcome(roads, Some(Raised))
    case Some(name) => AddNamed(roads, name, tokens)
  }

  /** `add_street` once the name has been read from the label. */
  function AddNamed(roads: seq<Road>, name: string, tokens: seq<Token>): (r: Outcome)
    ensures r.error.Some? ==> r.roads == roads
    ensures r.error.None? <==> !Blank(name) && !Known(roads, name) && |tokens| >= 2 && Scannable(tokens)
    ensures r.error.None? ==> AllReadable(tokens) && r.roads == roads + [NewRoad(name, tokens)]
    ensures r.error == Some(Exists) <==> !Blank(name) && Known(roads, name)
    ensures r.error == Some(Duplicate) ==>
      exists i | 0 <= i < |tokens| - 1 :: tokens[i].Number? && tokens[i + 1].Number? && tokens[i].p == tokens[i + 1].p
  {
    if Blank(name) then Outcome(roads, Some(NoName))
    else if Known(roads, name) then Outcome(roads, Some(Exists))
    else if |tokens| < 2 then Outcome(roads, Some(TooFew))
    else match ScanPairs(tokens)
      case Stopped(f, at) =>
        assert f == Duplicate ==> tokens[at].Number? && tokens[at + 1].Number? && tokens[at].p == tokens[at + 1].p;
        Outcome(roads, Some(f))
      case Built(segs) => Outcome(roads + [Road(name, segs)], None)
  }

  /** The list with every street of that name dropped, the rest in order. */
  function Without(roads: seq<Road>, name: string): (r: seq<Road>)
    ensures forall x :: x in r <==> x in roads && x.name != name
    ensures !Known(roads, name) ==> r == roads
    ensures Known(roads, name) ==> |r| < |roads|
  {
    if |roads| == 0 then []
    else if roads[0].name == name then Without(roads[1..], name)
    else
      assert Known(roads, name) ==> Known(roads[1..], name) by {
        if Known(roads, name) {
          var i :| 0 <= i < |roads| && roads[i].name == name;
          assert roads[1..][i - 1].name == name;
        }
      }
      assert !Known(roads[1..], name) ==> [roads[0]] + roads[1..] == roads;
      [roads[0]] + Without(roads[1..], name)
  }

  /**
   * `modify_street` as written: after the name, count and existence checks
   * it drops the street before scanning the new coordinates, so a scan that
   * stops leaves the street removed; a successful one appends it at the end.
   */
  function ModifyStreet(roads: seq<Road>, quoted: string, tokens: seq<Token>): (r: Outcome)
    ensures r.error.None? <==>
      && Name(quoted).Some? && !Blank(Name(quoted).value) && Known(roads, Name(quoted).value)
      && |tokens| >= 2 && Scannable(tokens)
    ensures r.error == Some(Missing) <==>
      Name(quoted).Some? && !Blank(Name(quoted).value) && |tokens| >= 2 && !Known(roads, Name(quoted).value)
    ensures r.error.Some? && r.error.value !in {Duplicate, Raised} ==> r.roads == roads
    ensures Name(quoted).Some? && !Blank(Name(quoted).value) && |tokens| >= 2 && Known(roads, Name(quoted).value) ==>
      var name := Name(quoted).value;
      && (r.error.Some? ==> r.error.value in {Duplicate, Raised} && r.roads == Without(roads, name))
      && (r.error.None? ==> AllReadable(tokens) && r.roads == Without(roads, name) + [NewRoad(name, tokens)])
  {
    match Name(quoted)
    case None => Outcome(roads, Some(Raised))
    case Some(name) => ModifyNamed(roads, name, tokens)
  }

  /** `modify_street` once the name has been read from the label. */
  function ModifyNamed(roads: seq<Road>, name: string, tokens: seq<Token>): (r: Outcome)
    ensures r.error.None? <==> !Blank(name) && Known(roads, name) && |tokens| >= 2 && Scannable(tokens)
    ensures r.error == Some(Missing) <==> !Blank(name) && |tokens| >= 2 && !Known(roads, name)
    ensures r.error.Some? && r.error.value !in {Duplicate, Raised} ==> r.roads == roads
    ensures !Blank(name) && |tokens| >= 2 && Known(roads, name) ==>
      && (r.error.Some? ==> r.error.value in {Duplicate, Raised} && r.roads == Without(roads, name))
      && (r.error.None? ==> AllReadable(tokens) && r.roads == Without(roads, name) + [NewRoad(name, tokens)])
  {
    if Blank(name) then Outcome(roads, Some(NoName))
    else if |tokens| < 2 then Outcome(roads, Some(TooFew))
    else if !Known(roads, name) then Outcome(roads, Some(Missing))
    else
      var kept := Without(roads, name);
      match ScanPairs(tokens)
      case Stopped(f, _) => Outcome(kept, Some(f))
      case Built(segs) => Outcome(kept + [Road(name, segs)], None)
  }

  /**
   * `remove_street`: a blank quoted or name fails, no quote raises, an absent
   * name fails; otherwise every street with that name is dropped.
   */
  function RemoveStreet(roads: seq<Road>, quoted: string): (r: Outcome)
    ensures r.error.Some? ==> r.roads == roads
    ensures r.error.None? <==>
      !Blank(quoted) && Name(quoted).Some? && !Blank(Name(quoted).value) && Known(roads, Name(quoted).value)
    ensures r.error.None? ==> |r.roads| < |roads|
    ensures r.error.None? ==> forall x :: x in r.roads <==> x in roads && x.name != Name(quoted).value
  {
    StripEmptyIffBlank(quoted);
    if Strip(quoted) == "" then Outcome(roads, Some(NoName))
    else match Name(quoted)
      case None => Outcome(roads, Some(Raised))
      case Some(name) =>
        if Blank(name) then Outcome(roads, Some(NoName))
        else if !Known(roads, name) then Outcome(roads, Some(Missing))
        else Outcome(Without(roads, name), None)
  }

  /** In a list with distinct names, dropping a present name drops exactly one street and keeps the rest distinct. */
  lemma {:induction false} WithoutInRegistry(roads: seq<Road>, name: string)
    requires Registry(roads)
    ensures Registry(Without(roads, name))
    ensures Known(roads, name) ==> |Without(roads, name)| == |roads| - 1
  {
    if |roads| > 0 {
      var tail := roads[1..];
      TailRegistry(roads);
      WithoutInRegistry(tail, name);
      if roads[0].name == name {
        assert Without(roads, name) == tail;
      } else {
        var w := Without(tail, name);
        assert Without(roads, name) == [roads[0]] + w;
        FewerUnknown(w, tail, roads[0].name);
        ConsRegistry(roads[0], w);
        KnownInTail(roads, name);
      }
    }
  }

  /** The tail of a registry is one, and does not hold the first street's name. */
  lemma TailRegistry(roads: seq<Road>)
    requires Registry(roads) && |roads| > 0
    ensures Registry(roads[1..]) && !Known(roads[1..], roads[0].name)
  {
    var tail := roads[1..];
    forall i, j | 0 <= i < j < |tail| ensures tail[i].name != tail[j].name {
      assert tail[i] == roads[i + 1] && tail[j] == roads[j + 1];
    }
    forall i | 0 <= i < |tail| ensures tail[i].name != roads[0].name {
      assert tail[i] == roads[i + 1];
    }
  }

  /** A name absent from a list is absent from any list whose streets all come from it. */
  lemma FewerUnknown(w: seq<Road>, roads: seq<Road>, name: string)
    requires forall x | x in w :: x in roads
    requires !Known(roads, name)
    ensures !Known(w, name)
  {
    forall i | 0 <= i < |w| ensures w[i].name != name {
      assert w[i] in roads;
    }
  }

  /** A lower-case street whose name is not in a registry can be put in front of it. */
  lemma ConsRegistry(road: Road, w: seq<Road>)
    requires Registry(w) && IsLower(road.name) && !Known(w, road.name)
    ensures Registry([road] + w)
  {
    var r := [road] + w;
    forall i, j | 0 <= i < j < |r| ensures r[i].name != r[j].name {
      assert r[j] == w[j - 1];
      if i > 0 {
        assert r[i] == w[i - 1];
      }
    }
  }

  /** A name that is not the first street's is known in the list only if it is known in the tail. */
  lemma KnownInTail(roads: seq<Road>, name: string)
    requires |roads| > 0 && roads[0].name != name
    ensures Known(roads, name) ==> Known(roads[1..], name)
  {
    if Known(roads, name) {
      var i :| 0 <= i < |roads| && roads[i].name == name;
      assert roads[1..][i - 1].name == name;
    }
  }

  /** A lower-case street whose name is not yet in the list can be appended. */
  lemma AppendKeepsRegistry(roads: seq<Road>, road: Road)
    requires Registry(roads) && IsLower(road.name) && !Known(roads, road.name)
    ensures Registry(roads + [road])
  {
    var r := roads + [road];
    forall i, j | 0 <= i < j < |r| ensures r[i].name != r[j].name {
      if j == |roads| {
        assert r[i] == roads[i];
      } else {
        assert r[i] == roads[i] && r[j] == roads[j];
      }
    }
  }

  /** Adding keeps names lower-case and distinct. */
  lemma AddKeepsRegistry(roads: seq<Road>, quoted: string, tokens: seq<Token>)
    requires Registry(roads)
    ensures Registry(AddStreet(roads, quoted, tokens).roads)
  {
    var r := AddStreet(roads, quoted, tokens);
    if r.error.None? {
      var name := Name(quoted).value;
      AppendKeepsRegistry(roads, NewRoad(name, tokens));
    }
  }

  /** Modifying, accepted or not, keeps names lower-case and distinct. */
  lemma ModifyKeepsRegistry(roads: seq<Road>, quoted: string, tokens: seq<Token>)
    requires Registry(roads)
    ensures Registry(ModifyStreet(roads, quoted, tokens).roads)
  {
    var r := ModifyStreet(roads, quoted, tokens);
    match Name(quoted)
    case None =>
    case Some(name) =>
      if !Blank(name) && |tokens| >= 2 && Known(roads, name) {
        WithoutInRegistry(roads, name);
        var w := Without(roads, name);
        WithoutForgets(roads, name);
        match ScanPairs(tokens)
        case Stopped(_, _) =>
          assert r.roads == w;
        case Built(segs) =>
          assert r.roads == w + [Road(name, segs)];
          AppendKeepsRegistry(w, Road(name, segs));
      }
  }

  /** Removing keeps names lower-case and distinct, and takes out exactly one street. */
  lemma RemoveKeepsRegistry(roads: seq<Road>, quoted: string)
    requires Registry(roads)
    ensures Registry(RemoveStreet(roads, quoted).roads)
    ensures RemoveStreet(roads, quoted).error.None? ==> |RemoveStreet(roads, quoted).roads| == |roads| - 1
  {
    if Name(quoted).Some? {
      WithoutInRegistry(roads, Name(quoted).value);
    }
  }

  /**
   * An accepted `mod` moves the street to the end: in a list with distinct
   * names the others keep their order and the modified street comes last.
   */
  lemma ModifyMovesToEnd(roads: seq<Road>, quoted: string, tokens: seq<Token>)
    requires Registry(roads) && ModifyStreet(roads, quoted, tokens).error.None?
    ensures var r := ModifyStreet(roads, quoted, tokens).roads;
      && |r| == |roads|
      && r[|r| - 1].name == Name(quoted).value
      && r[..|r| - 1] == Without(roads, Name(quoted).value)
  {
    WithoutInRegistry(roads, Name(quoted).value);
  }

  /** A `mod` of an existing street rejected for two equal consecutive points still removes the street. */
  lemma ModifyRejectedRemoves(roads: seq<Road>, quoted: string, p: Point)
    requires Name(quoted).Some? && !Blank(Name(quoted).value) && Known(roads, Name(quoted).value)
    ensures var r := ModifyStreet(roads, quoted, [Number(p), Number(p)]);
      && r.error == Some(Duplicate)
      && |r.roads| < |roads|
      && !Known(r.roads, Name(quoted).value)
  {
    var name := Name(quoted).value;
    var tokens := [Number(p), Number(p)];
    assert BadPair(tokens, 0);
    var r := ModifyNamed(roads, name, tokens);
    assert r.error == Some(Duplicate) && r.roads == Without(roads, name);
    WithoutForgets(roads, name);
  }

  /** After dropping a name, no street has it. */
  lemma WithoutForgets(roads: seq<Road>, name: string)
    ensures !Known(Without(roads, name), name)
  {
    var w := Without(roads, name);
    forall i | 0 <= i < |w| ensures w[i].name != name {
      assert w[i] in w;
    }
  }

  // ---------------------------------------------------------------- edges

  function Reversed<T>(e: (T, T)): (T, T) {
    (e.1, e.0)
  }

  /** Edge `i` is the first in the list that equals it or its reversal. */
  predicate FirstOfPair<T(==)>(edges: seq<(T, T)>, i: nat)
    requires i < |edges|
  {
    forall j | 0 <= j < i :: edges[j] != edges[i] && edges[j] != Reversed(edges[i])
  }

  /**
   * `filter_unique_edges`: an edge is kept when neither it nor its reversal
   * is kept already. The result is exactly the first edge of each
   * edge/reversal pair, so every input edge survives as itself or reversed
   * and no kept edge has its reversal kept too.
   */
  method FilterUniqueEdges<T(==)>(edges: seq<(T, T)>) returns (unique: set<(T, T)>)
    ensures forall e | e in unique :: exists i | 0 <= i < |edges| :: edges[i] == e && FirstOfPair(edges, i)
    ensures forall i | 0 <= i < |edges| && FirstOfPair(edges, i) :: edges[i] in unique
    ensures forall i | 0 <= i < |edges| :: edges[i] in unique || Reversed(edges[i]) in unique
    ensures forall e | e in unique && e.0 != e.1 :: Reversed(e) !in unique
  {
    unique := {};
    for i := 0 to |edges|
      invariant forall e | e in unique :: exists j | 0 <= j < i :: edges[j] == e && FirstOfPair(edges, j)
      invariant forall j | 0 <= j < i && FirstOfPair(edges, j) :: edges[j] in unique
      invariant forall j | 0 <= j < i :: edges[j] in unique || Reversed(edges[j]) in unique
      invariant forall e | e in unique && e.0 != e.1 :: Reversed(e) !in unique
    {
      var e := edges[i];
      if e !in unique && Reversed(e) !in unique {
        assert FirstOfPair(edges, i);
        unique := unique + {e};
      }
    }
  }

  // ---------------------------------------------------------------- the between test

  function Lo(a: real, b: real): real {
    if a <= b then a else b
  }

  function Hi(a: real, b: real): real {
    if a <= b then b else a
  }

  /**
   * `check_if_lies_the_point_within_other_points(p, q, r)`: `q` lies in the
   * closed interval spanned by `p` and `r`, in whichever order they come.
   */
  function Within(p: real, q: real, r: real): (b: bool)
    ensures b <==> Lo(p, r) <= q <= Hi(p, r)
    ensures b <==> Lo(r, p) <= q <= Hi(r, p)
  {
    (p <= q <= r) || (r <= q <= p)
  }

  // ---------------------------------------------------------------- main

  /** A line the command pattern matched: the command, the stripped name and coordinate groups, the whole line, and the coordinate tokens found. */
  datatype Request = Request(op: Op, quoted: string, coords: string, line: string, tokens: seq<Token>)

  /** A line read: blank (or the end of input), not matching the pattern, or matching it. */
  datatype Input = BlankLine | Unmatched | Matched(request: Request)

  /** What `main` prints for a line. */
  datatype Reply =
    | IncorrectFormat
    | QuoteBeforeParenthesis
    | MissingSpace
    | NameRequired
    | CoordinatesMissing
    | NoArgumentsForGenerate
    | InvalidCoordinates
    | Rejected(failure: Failure)
    | Accepted
    | Generate

  function Report(o: Outcome): (seq<Road>, Reply) {
    (o.roads, if o.error.Some? then Rejected(o.error.value) else Accepted)
  }

  /** A request that breaks the argument rules: `add`/`mod` need a name and coordinates, `rm` a name, `gg` nothing. */
  predicate MissingArguments(q: Request) {
    || ((q.op == Add || q.op == Mod) && (q.quoted == "" || q.coords == ""))
    || (q.op == Rm && q.quoted == "")
    || (q.op == Gg && (q.quoted != "" || q.coords != ""))
  }

  /**
   * One matched line: the format checks, then the argument checks, then the
   * coordinate tokens, then the command. Only an accepted command, or a
   * rejected `mod` that had already dropped its street, changes the list.
   */
  function Step(roads: seq<Road>, q: Request): (r: (seq<Road>, Reply))
    ensures HasPair(q.line, '"', '(') ==> r == (roads, QuoteBeforeParenthesis)
    ensures !HasPair(q.line, '"', '(') && HasPair(q.coords, ')', '(') ==> r == (roads, MissingSpace)
    ensures MissingArguments(q) ==> r.0 == roads && r.1 in {QuoteBeforeParenthesis, MissingSpace, NameRequired, CoordinatesMissing, NoArgumentsForGenerate}
    ensures r.0 != roads ==> r.1 == Accepted || (q.op == Mod && r.1 in {Rejected(Duplicate), Rejected(Raised)})
    ensures r.1 == Generate <==>
      q.op == Gg && q.quoted == "" && q.coords == "" && !HasPair(q.line, '"', '(') && !HasPair(q.coords, ')', '(')
  {
    if HasPair(q.line, '"', '(') then (roads, QuoteBeforeParenthesis)
    else if HasPair(q.coords, ')', '(') then (roads, MissingSpace)
    else if (q.op == Add || q.op == Mod) && q.quoted == "" then (roads, NameRequired)
    else if (q.op == Add || q.op == Mod) && q.coords == "" then (roads, CoordinatesMissing)
    else if q.op == Rm && q.quoted == "" then (roads, NameRequired)
    else if q.op == Gg && (q.quoted != "" || q.coords != "") then (roads, NoArgumentsForGenerate)
    else if q.coords != "" && |q.tokens| == 0 then (roads, InvalidCoordinates)
    else Dispatch(roads, q)
  }

  /** The command itself, once every check on the line has passed. */
  function Dispatch(roads: seq<Road>, q: Request): (seq<Road>, Reply) {
    match q.op
    case Add => Report(AddStreet(roads, q.quoted, q.tokens))
    case Mod => Report(ModifyStreet(roads, q.quoted, q.tokens))
    case Rm => Report(RemoveStreet(roads, q.quoted))
    case Gg => (roads, Generate)
  }

  /** What one non-blank line does: an unmatched line is reported, a matched one is a step. */
  function Advance(roads: seq<Road>, input: Input): (seq<Road>, Reply)
    requires !input.BlankLine?
  {
    match input
    case Unmatched => (roads, IncorrectFormat)
    case Matched(q) => Step(roads, q)
  }

  /** `main`'s loop: one reply per line up to the first blank line, where it stops. */
  function Run(roads: seq<Road>, inputs: seq<Input>): (r: (seq<Road>, seq<Reply>))
    ensures |r.1| <= |inputs|
    ensures BlankLine !in inputs ==> |r.1| == |inputs|
    decreases |inputs|
  {
    if |inputs| == 0 || inputs[0].BlankLine? then (roads, [])
    else
      var (next, reply) := Advance(roads, inputs[0]);
      var rest := Run(next, inputs[1..]);
      (rest.0, [reply] + rest.1)
  }

  /** Nothing after the first blank line is read. */
  lemma {:induction false} RunStopsAtBlank(roads: seq<Road>, before: seq<Input>, after: seq<Input>)
    requires BlankLine !in before
    ensures Run(roads, before + [BlankLine] + after) == Run(roads, before)
    decreases |before|
  {
    if |before| > 0 {
      var all := before + [BlankLine] + after;
      assert all[0] == before[0];
      assert all[1..] == before[1..] + [BlankLine] + after;
      RunStopsAtBlank(Advance(roads, before[0]).0, before[1..], after);
    }
  }

  /** Every line keeps the list's names lower-case and distinct. */
  lemma {:induction false} RunKeepsRegistry(roads: seq<Road>, inputs: seq<Input>)
    requires Registry(roads)
    ensures Registry(Run(roads, inputs).0)
    decreases |inputs|
  {
    if |inputs| > 0 && !inputs[0].BlankLine? {
      if inputs[0].Matched? {
        StepKeepsRegistry(roads, inputs[0].request);
      }
      RunKeepsRegistry(Advance(roads, inputs[0]).0, inputs[1..]);
    }
  }

  lemma StepKeepsRegistry(roads: seq<Road>, q: Request)
    requires Registry(roads)
    ensures Registry(Step(roads, q).0)
  {
    var r := Step(roads, q);
    if r.0 != roads {
      assert r == Dispatch(roads, q);
      match q.op
      case Add => AddKeepsRegistry(roads, q.quoted, q.tokens);
      case Mod => ModifyKeepsRegistry(roads, q.quoted, q.tokens);
      case Rm => RemoveKeepsRegistry(roads, q.quoted);
      case Gg =>
    }
  }
}
