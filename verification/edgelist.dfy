/**
 * The `E {<a,b>,<c,d>,...}` scanner shared, line for line, by the strict
 * shortest-path program and the vertex-cover program. It reads the line with
 * formatted `char` and `int` extraction, keeps the accepted pairs in their
 * canonical `(min, max)` form, and stops at the first pair it refuses. What
 * happens next (exit, warning, adjacency rebuild) is up to the handler.
 */
module EdgeList {
  import opened Options
  import opened Seqs
  import opened Text
  import opened Stream
  import opened Graph
  import opened Items

  /** Why the scan stopped in the middle of the list. */
  datatype PairError =
    | MissingAngle                      // an item does not start with '<'
    | BadFormat                         // the comma or the closing '>' is wrong
    | InvalidPair(v1: int, v2: int)     // an endpoint outside [1, n], or a self-loop
    | Duplicate(v1: int, v2: int)       // the same undirected pair twice
    | MissingComma                      // after an item, neither ',' nor '}'

  datatype EdgeScan =
    | NoOpenBrace                                 // the list does not start with '{'
    | Listed(edges: seq<Pair>, closed: bool)      // the loop ended; `closed` when the last separator read was '}'
    | Rejected(edges: seq<Pair>, error: PairError) // refused an item; `edges` holds what was accepted before
    | Undefined                                   // the code would read an uninitialised variable

  /** Every scan that does not stop on a refused pair and is defined. */
  predicate Defined(r: EdgeScan) {
    !r.Undefined?
  }

  /** One item of the list: `input >> bracketStart`, then `>> v1 >> comma >> v2 >> bracketEnd` and the checks on them. */
  datatype Item =
    | ItemUndefined
    | ListEnd                                   // the item read is '}'
    | ItemRefused(error: PairError)
    | ItemAccepted(e: Pair, rest: Stream)       // a new pair, and the stream after its '>'

  function ReadItem(s: Stream, n: int, edges: seq<Pair>): (r: Item)
    requires s.Valid()
    ensures r.ItemAccepted? ==>
      && r.rest.Valid() && r.rest.Good() && r.rest.line == s.line && r.rest.pos > s.pos
      && r.e !in edges && 1 <= r.e.0 < r.e.1 <= n
    ensures r.ItemRefused? ==> !r.error.MissingComma?
  {
    var open := ReadChar(s);
    if open.ch.None? then ItemUndefined
    else if open.ch.value == '}' then ListEnd
    else if open.ch.value != '<' then ItemRefused(MissingAngle)
    else ReadFirst(open.rest, n, edges)
  }

  /** After the '<': `>> v1 >> comma`, and the comma check. */
  function ReadFirst(s: Stream, n: int, edges: seq<Pair>): (r: Item)
    requires s.Valid()
    ensures r.ItemAccepted? ==>
      && r.rest.Valid() && r.rest.Good() && r.rest.line == s.line && r.rest.pos > s.pos
      && r.e !in edges && 1 <= r.e.0 < r.e.1 <= n
    ensures r.ItemRefused? ==> !r.error.MissingComma?
  {
    var first := ReadInt(s);
    var comma := ReadChar(first.rest);
    if comma.ch.None? then ItemUndefined
    else if comma.ch.value != ',' then ItemRefused(BadFormat)
    else ReadSecond(first.stored.value, comma.rest, n, edges)
  }

  /** After the comma: `>> v2 >> bracketEnd`, the '>' check, and the checks on the pair. */
  function ReadSecond(v1: int, s: Stream, n: int, edges: seq<Pair>): (r: Item)
    requires s.Valid()
    ensures r.ItemAccepted? ==>
      && r.rest.Valid() && r.rest.Good() && r.rest.line == s.line && r.rest.pos > s.pos
      && r.e !in edges && 1 <= r.e.0 < r.e.1 <= n
    ensures r.ItemRefused? ==> !r.error.MissingComma?
  {
    var second := ReadInt(s);
    var close := ReadChar(second.rest);
    if close.ch.None? then ItemUndefined
    else if close.ch.value != '>' then ItemRefused(BadFormat)
    else Verdict((v1, second.stored.value), n, edges, close.rest)
  }

  /** The checks on a pair read correctly: range, self-loop, duplicate; `after` is the stream past its '>'. */
  function Verdict(p: Pair, n: int, acc: seq<Pair>, after: Stream): (r: Item)
    ensures r.ItemAccepted? <==> Accepts(p, n, acc)
    ensures r.ItemAccepted? ==> r.e == Canonical(p.0, p.1) && r.rest == after && r.e !in acc && 1 <= r.e.0 < r.e.1 <= n
    ensures r.ItemRefused? ==> !r.error.MissingComma?
  {
    if !(1 <= p.0 <= n && 1 <= p.1 <= n) || p.0 == p.1 then ItemRefused(InvalidPair(p.0, p.1))
    else if Canonical(p.0, p.1) in acc then ItemRefused(Duplicate(p.0, p.1))
    else ItemAccepted(Canonical(p.0, p.1), after)
  }

  /** The checks the loop body makes on a pair read correctly. */
  predicate Accepts(p: Pair, n: int, acc: seq<Pair>) {
    (1 <= p.0 <= n && 1 <= p.1 <= n) && p.0 != p.1 && Canonical(p.0, p.1) !in acc
  }

  /**
   * The `while (!input.eof())` loop, entered with the pairs accepted so far and
   * the last separator character read (`nextChar` lives outside the loop and
   * keeps its value when a later read fails).
   */
  function ScanPairs(s: Stream, n: int, edges: seq<Pair>, next: char): (r: EdgeScan)
    requires s.Valid()
    ensures r.Listed? || r.Rejected? || r.Undefined?
    ensures (r.Listed? || r.Rejected?) ==> edges <= r.edges
    decreases |s.line| - s.pos, 1
  {
    if s.eof then Listed(edges, next == '}') else LoopBody(s, n, edges, next)
  }

  /** One turn of the loop: an item, then the separator after an accepted pair. */
  function LoopBody(s: Stream, n: int, edges: seq<Pair>, next: char): (r: EdgeScan)
    requires s.Valid()
    ensures r.Listed? || r.Rejected? || r.Undefined?
    ensures (r.Listed? || r.Rejected?) ==> edges <= r.edges
    decreases |s.line| - s.pos, 0
  {
    match ReadItem(s, n, edges)
    case ItemUndefined => Undefined
    case ListEnd => Listed(edges, next == '}')
    case ItemRefused(error) => Rejected(edges, error)
    case ItemAccepted(e, rest) =>
      var after := ReadChar(rest);
      var next' := if after.ch.Some? then after.ch.value else next;
      if next' == '}' then Listed(edges + [e], true)
      else if next' != ',' then Rejected(edges + [e], MissingComma)
      else ScanPairs(after.rest, n, edges + [e], next')
  }

  /** The scan only ever appends fresh in-range canonical pairs: what it accepted is a valid edge list. */
  lemma {:induction false} ScanKeepsValid(s: Stream, n: int, edges: seq<Pair>, next: char)
    requires s.Valid() && ValidEdges(edges, n)
    ensures var r := ScanPairs(s, n, edges, next); r.Listed? || r.Rejected? ==> ValidEdges(r.edges, n)
    decreases |s.line| - s.pos
  {
    var r := ScanPairs(s, n, edges, next);
    if !s.eof {
      assert r == LoopBody(s, n, edges, next);
      var item := ReadItem(s, n, edges);
      if item.ItemAccepted? {
        var e := item.e;
        DistinctAppend(edges, e, n);
        var after := ReadChar(item.rest);
        var next' := if after.ch.Some? then after.ch.value else next;
        if next' == ',' {
          ScanKeepsValid(after.rest, n, edges + [e], next');
          assert r == ScanPairs(after.rest, n, edges + [e], next');
        } else {
          assert r.edges == edges + [e];
        }
      } else {
        assert r.Listed? || r.Rejected? ==> r.edges == edges;
      }
    }
  }

  /** Appending a fresh in-range canonical pair keeps a valid list valid. */
  lemma DistinctAppend(edges: seq<Pair>, e: Pair, n: int)
    requires e !in edges
    ensures ValidEdges(edges, n) && 1 <= e.0 < e.1 <= n ==> ValidEdges(edges + [e], n)
  {
    if ValidEdges(edges, n) && 1 <= e.0 < e.1 <= n {
      var es := edges + [e];
      forall i, j | 0 <= i < j < |es|
        ensures es[i] != es[j]
      {
        if j == |edges| {
          assert es[i] == edges[i];
        }
      }
    }
  }

  /**
   * `handleEdgeCommand` after its vertex-count check: the command character,
   * the opening '{', then either an immediate '}' or the pair loop.
   */
  function ScanEdgeLine(line: string, n: int): (r: EdgeScan)
    ensures r.NoOpenBrace? || r.Listed? || r.Rejected? || r.Undefined?
    ensures r.Listed? || r.Rejected? ==> ValidEdges(r.edges, n)
    ensures r.NoOpenBrace? ==> exists i | 0 <= i < |line| :: !IsSpace(line[i])
  {
    var command := ReadChar(Open(line));
    var brace := ReadChar(command.rest);
    if brace.ch.None? then Undefined
    else if brace.ch.value != '{' then NoOpenBrace
    else
      var first := ReadChar(brace.rest);
      if first.ch.None? then Undefined
      else if first.ch.value == '}' then Listed([], true)
      else
        ScanKeepsValid(PutBack(first.rest), n, [], first.ch.value);
        ScanPairs(PutBack(first.rest), n, [], first.ch.value)
  }

  /** The canonical form of every pair, in order. */
  function CanonAll(ps: seq<Pair>): (cs: seq<Pair>)
    ensures |cs| == |ps|
    ensures forall i | 0 <= i < |ps| :: cs[i] == Canonical(ps[i].0, ps[i].1)
  {
    if |ps| == 0 then [] else [Canonical(ps[0].0, ps[0].1)] + CanonAll(ps[1..])
  }

  /**
   * Reference semantics of the pair loop on a well-formed list: accept the
   * pairs one by one and stop at the first one out of range, looping, or
   * already accepted.
   */
  function Validate(ps: seq<Pair>, n: int, acc: seq<Pair>): (r: EdgeScan)
    ensures r.Listed? || r.Rejected?
    ensures r.Listed? ==> r.closed && r.edges == acc + CanonAll(ps)
    ensures r.Rejected? ==> r.error.InvalidPair? || r.error.Duplicate?
    ensures r.Rejected? ==> acc <= r.edges && |r.edges| < |acc| + |ps|
  {
    if |ps| == 0 then Listed(acc, true)
    else
      var (a, b) := ps[0];
      if !(1 <= a <= n && 1 <= b <= n) || a == b then Rejected(acc, InvalidPair(a, b))
      else if Canonical(a, b) in acc then Rejected(acc, Duplicate(a, b))
      else Validate(ps[1..], n, acc + [Canonical(a, b)])
  }

  /** The reference loop accepts the whole list exactly when its canonical form is a valid edge list. */
  lemma {:induction false} ValidateAccepts(ps: seq<Pair>, n: int, acc: seq<Pair>)
    requires ValidEdges(acc, n)
    ensures Validate(ps, n, acc).Listed? <==> ValidEdges(acc + CanonAll(ps), n)
    decreases |ps|
  {
    if |ps| > 0 {
      var (a, b) := ps[0];
      var e := Canonical(a, b);
      var rest := CanonAll(ps[1..]);
      assert CanonAll(ps) == [e] + rest;
      assert acc + CanonAll(ps) == (acc + [e]) + rest;
      if !(1 <= a <= n && 1 <= b <= n) || a == b {
        NotValidAt(acc + [e], rest, n, |acc|);
      } else if e in acc {
        var i :| 0 <= i < |acc| && acc[i] == e;
        RepeatedNotValid(acc + [e], rest, n, i, |acc|);
      } else {
        DistinctAppend(acc, e, n);
        ValidateAccepts(ps[1..], n, acc + [e]);
      }
    }
  }

  /**
   * `edges` and `error` describe a refusal at pair `i`: `edges` holds `acc`
   * followed by the canonical forms of exactly the pairs before it, and the
   * error names that pair as it was written.
   */
  predicate RefusalOf(ps: seq<Pair>, acc: seq<Pair>, edges: seq<Pair>, error: PairError) {
    var i := |edges| - |acc|;
    && 0 <= i < |ps|
    && edges == acc + CanonAll(ps[..i])
    && (error == InvalidPair(ps[i].0, ps[i].1) || error == Duplicate(ps[i].0, ps[i].1))
  }

  /** A refusal further on in the list, after one accepted pair. */
  lemma RefusalCons(ps: seq<Pair>, acc: seq<Pair>, edges: seq<Pair>, error: PairError)
    requires |ps| > 0
    requires RefusalOf(ps[1..], acc + [Canonical(ps[0].0, ps[0].1)], edges, error)
    ensures RefusalOf(ps, acc, edges, error)
  {
    var j := |edges| - |acc| - 1;
    assert ps[1..][j] == ps[j + 1];
    PrefixCons(ps, acc, j);
  }

  /** Accepting the first pair and then `j` more is accepting `j + 1` pairs. */
  lemma PrefixCons(ps: seq<Pair>, acc: seq<Pair>, j: nat)
    requires j < |ps|
    ensures (acc + [Canonical(ps[0].0, ps[0].1)]) + CanonAll(ps[1..][..j]) == acc + CanonAll(ps[..j + 1])
  {
    CanonAllCons(ps, j);
  }

  /**
   * A refused list keeps the canonical forms of exactly the pairs before the
   * refused one, and the error names that pair as it was written.
   */
  lemma {:induction false} ValidateRejects(ps: seq<Pair>, n: int, acc: seq<Pair>)
    ensures var r := Validate(ps, n, acc);
      r.Rejected? ==> RefusalOf(ps, acc, r.edges, r.error)
    decreases |ps|
  {
    if |ps| > 0 {
      var (a, b) := ps[0];
      var e := Canonical(a, b);
      if (1 <= a <= n && 1 <= b <= n) && a != b && e !in acc {
        ValidateRejects(ps[1..], n, acc + [e]);
        var r' := Validate(ps[1..], n, acc + [e]);
        if r'.Rejected? {
          RefusalCons(ps, acc, r'.edges, r'.error);
        }
      } else {
        assert CanonAll(ps[..0]) == [];
      }
    }
  }

  /** The canonical forms of a non-empty prefix: the first pair's, then the rest's. */
  lemma CanonAllCons(ps: seq<Pair>, j: nat)
    requires j < |ps|
    ensures CanonAll(ps[..j + 1]) == [Canonical(ps[0].0, ps[0].1)] + CanonAll(ps[1..][..j])
  {
    assert ps[1..][..j] == ps[..j + 1][1..];
  }

  /** A list with a pair outside `[1, n]` or not strictly increasing is not valid. */
  lemma NotValidAt(front: seq<Pair>, rest: seq<Pair>, n: int, i: nat)
    requires i < |front| && !(1 <= front[i].0 < front[i].1 <= n)
    ensures !ValidEdges(front + rest, n)
  {
    assert (front + rest)[i] == front[i];
  }

  /** A list that holds the same pair twice is not valid. */
  lemma RepeatedNotValid(front: seq<Pair>, rest: seq<Pair>, n: int, i: nat, j: nat)
    requires i < j < |front| && front[i] == front[j]
    ensures !ValidEdges(front + rest, n)
  {
    assert (front + rest)[i] == front[i] && (front + rest)[j] == front[j];
  }

  /** `<a,b>` as the programs' users type it. */
  function RenderPair(p: Pair): string {
    "<" + IntToString(p.0) + "," + IntToString(p.1) + ">"
  }

  /** The items, comma-separated, and the closing brace. */
  function RenderItems(ps: seq<Pair>): string
    requires |ps| > 0
  {
    RenderPair(ps[0]) + if |ps| == 1 then "}" else "," + RenderItems(ps[1..])
  }

  /** `E {<a,b>,...}` with no white space. */
  function RenderEdgeCommand(ps: seq<Pair>): string {
    if |ps| == 0 then "E {}" else "E {" + RenderItems(ps)
  }

  predicate PairsInIntRange(ps: seq<Pair>) {
    forall i | 0 <= i < |ps| :: InIntRange(ps[i].0) && InIntRange(ps[i].1)
  }

  /**
   * Scanning a rendered edge command gives what the reference loop gives:
   * every well-formed list is read back pair for pair, and a refused list
   * stops at the same pair with the same diagnosis.
   */
  lemma RenderedScan(ps: seq<Pair>, n: int)
    requires PairsInIntRange(ps)
    ensures ScanEdgeLine(RenderEdgeCommand(ps), n) == Validate(ps, n, [])
  {
    var line := RenderEdgeCommand(ps);
    assert line[0] == 'E' && line[1] == ' ' && line[2] == '{' && line[3] == (if |ps| == 0 then '}' else '<');
    ScanAfterBrace(line, n);
    if |ps| > 0 {
      assert line[3..] == RenderItems(ps);
      RenderedTexts(line, 3, ps);
      TokenPairs(line, Slots(3, ps), ps, n, [], '<');
    }
  }

  /** A line that starts with `E {` and then a non-blank character goes to the pair loop at that character. */
  lemma ScanAfterBrace(line: string, n: int)
    requires 3 < |line| && line[0] == 'E' && line[1] == ' ' && line[2] == '{' && !IsSpace(line[3])
    ensures ScanEdgeLine(line, n) ==
      if line[3] == '}' then Listed([], true) else ScanPairs(Stream(line, 3, false, false), n, [], line[3])
  {
    var s := Open(line);
    ReadCharAt(s, 'E');
    assert SkipSpaces(line, 1) == 2;
    assert ReadChar(s.(pos := 1)) == CharRead(s.(pos := 3), Some('{'));
    ReadCharAt(s.(pos := 3), line[3]);
  }

  /** The first item of a rendered list, and what follows it. */
  lemma ItemLayout(line: string, k: nat, ps: seq<Pair>, p: Pair, c: char)
    requires |ps| > 0 && p == ps[0] && c == Separator(|ps|)
    requires k <= |line| && line[k..] == RenderItems(ps)
    ensures k + |RenderPair(p)| < |line|
    ensures line[k..k + |RenderPair(p)| + 1] == RenderPair(p) + [c]
    ensures |ps| > 1 ==> line[k + |RenderPair(p)| + 1..] == RenderItems(ps[1..])
  {
    var tail := if |ps| == 1 then "}" else "," + RenderItems(ps[1..]);
    SplitAfter(line, k, RenderPair(p), tail, k + |RenderPair(p)| + 1);
  }


  /** Where `RenderPair(p)` puts the '<', the ',' and the '>' when it starts at `k`. */
  function SlotOf(k: nat, p: Pair): (t: Slot)
    ensures t.open == k && t.close + 1 == k + |RenderPair(p)|
  {
    var comma := k + 1 + |IntToString(p.0)|;
    Slot(k, comma, comma + 1 + |IntToString(p.1)|)
  }

  /** The slots of the items of `RenderItems(ps)` written from `k`. */
  function Slots(k: nat, ps: seq<Pair>): (ts: seq<Slot>)
    ensures |ts| == |ps|
    ensures |ps| > 0 ==> ts[0] == SlotOf(k, ps[0])
    decreases |ps|
  {
    if |ps| == 0 then [] else [SlotOf(k, ps[0])] + Slots(SlotOf(k, ps[0]).close + 2, ps[1..])
  }

  /** The text of pair `p` followed by `c` sits at slot `t`, with both numbers in `int` range. */
  predicate TextAt(line: string, t: Slot, p: Pair, c: char) {
    && InIntRange(p.0) && InIntRange(p.1) && !IsSpace(c)
    && t == SlotOf(t.open, p)
    && t.open + |RenderPair(p)| < |line|
    && line[t.open..t.open + |RenderPair(p)| + 1] == RenderPair(p) + [c]
  }

  function TextOk(line: string): (ok: (Slot, Pair, char) -> bool) {
    (t: Slot, p: Pair, c: char) => TextAt(line, t, p, c)
  }

  /** A rendered list consists of its items' texts, each followed by its separator. */
  lemma {:induction false} RenderedTexts(line: string, k: nat, ps: seq<Pair>)
    requires |ps| > 0 && PairsInIntRange(ps)
    requires k <= |line| && line[k..] == RenderItems(ps)
    ensures Every(TextOk(line), Slots(k, ps), ps)
    decreases |ps|
  {
    var ts := Slots(k, ps);
    var t := SlotOf(k, ps[0]);
    HeadText(line, k, ps);
    assert TextOk(line)(ts[0], ps[0], Separator(|ps|));
    if |ps| > 1 {
      var k' := t.close + 2;
      var rest := ps[1..];
      TailText(line, k, ps, k', rest);
      RenderedTexts(line, k', rest);
      SlotsTail(k, ps, k', rest);
    }
    EveryCons(TextOk(line), ts, ps);
  }

  /** The slots after the first are those of the rest of the list, starting two past the first '>'. */
  lemma SlotsTail(k: nat, ps: seq<Pair>, k': nat, rest: seq<Pair>)
    requires |ps| > 1 && k' == SlotOf(k, ps[0]).close + 2 && rest == ps[1..]
    ensures Slots(k, ps)[1..] == Slots(k', rest)
    ensures Slots(k, ps)[1].open == Slots(k, ps)[0].close + 2
  {
    var head := SlotOf(k, ps[0]);
    var tail := Slots(k', rest);
    assert Slots(k, ps) == [head] + tail;
    ConsTail(head, tail);
  }

  /** The first item of a rendered list is its text in its slot. */
  lemma HeadText(line: string, k: nat, ps: seq<Pair>)
    requires |ps| > 0 && PairsInIntRange(ps)
    requires k <= |line| && line[k..] == RenderItems(ps)
    ensures TextAt(line, SlotOf(k, ps[0]), ps[0], Separator(|ps|))
  {
    var p := ps[0];
    var c := Separator(|ps|);
    ItemLayout(line, k, ps, p, c);
    SlotText(line, k, p, c);
  }

  /** The rest of a rendered list follows two places after the first '>'. */
  lemma TailText(line: string, k: nat, ps: seq<Pair>, k': nat, rest: seq<Pair>)
    requires |ps| > 1 && PairsInIntRange(ps)
    requires k <= |line| && line[k..] == RenderItems(ps)
    requires k' == SlotOf(k, ps[0]).close + 2 && rest == ps[1..]
    ensures |rest| > 0 && PairsInIntRange(rest)
    ensures k' <= |line| && line[k'..] == RenderItems(rest)
  {
    var x := RenderPair(ps[0]);
    var tail := "," + RenderItems(rest);
    assert line[k..] == x + tail;
    assert k' == k + |x| + 1;
    SplitAfter(line, k, x, tail, k');
    assert tail[1..] == RenderItems(rest);
    RangeTail(ps);
  }

  /** The text of `p` and then `c`, written from `k`, is its text in the slot that starts at `k`. */
  lemma SlotText(line: string, k: nat, p: Pair, c: char)
    requires InIntRange(p.0) && InIntRange(p.1) && !IsSpace(c)
    requires k + |RenderPair(p)| < |line| && line[k..k + |RenderPair(p)| + 1] == RenderPair(p) + [c]
    ensures TextAt(line, SlotOf(k, p), p, c)
  {
  }

  /** The pairs after the first of a list in `int` range are in range. */
  lemma RangeTail(ps: seq<Pair>)
    requires |ps| > 0 && PairsInIntRange(ps)
    ensures PairsInIntRange(ps[1..])
  {
    forall i | 0 <= i < |ps[1..]| ensures InIntRange(ps[1..][i].0) && InIntRange(ps[1..][i].1) {
      assert ps[1..][i] == ps[i + 1];
    }
  }
  /** The parts of the text in slot `t`: the punctuation and the two numbers. */
  lemma ItemParts(line: string, t: Slot, p: Pair, c: char)
    requires TextAt(line, t, p, c)
    ensures InIntRange(p.0) && InIntRange(p.1) && !IsSpace(c) && t.close + 1 < |line|
    ensures t.comma == t.open + 1 + |IntToString(p.0)| && t.close == t.comma + 1 + |IntToString(p.1)|
    ensures line[t.open] == '<' && line[t.comma] == ',' && line[t.close] == '>' && line[t.close + 1] == c
    ensures line[t.open + 1..t.comma] == IntToString(p.0) && line[t.comma + 1..t.close] == IntToString(p.1)
  {
    var a := IntToString(p.0);
    var b := IntToString(p.1);
    assert line[t.open..t.close + 2] == "<" + a + "," + b + ">" + [c];
    PairText(line, t, a, b, c);
  }

  /** The text of `v` at `q`, then the non-digit `sep`: `>> v` stops at `sep`, and `>> c` reads it. */
  lemma NumberThen(line: string, q: nat, v: int, e: nat, sep: char)
    requires InIntRange(v) && e == q + |IntToString(v)| && e < |line|
    requires line[q..e] == IntToString(v) && line[e] == sep && !IsSpace(sep) && !IsDigit(sep)
    ensures IntAt(line, q, v, e) && CharAt(line, e, sep)
  {
    ReadsIntAt(line, q, v, e);
    ReadsCharAt(line, e, sep);
  }

  /** Where the parts of `<a,b>` followed by `c` sit when the text fills slot `t`. */
  lemma PairText(line: string, t: Slot, a: string, b: string, c: char)
    requires t.comma == t.open + 1 + |a| && t.close == t.comma + 1 + |b| && t.close + 1 < |line|
    requires line[t.open..t.close + 2] == "<" + a + "," + b + ">" + [c]
    ensures line[t.open] == '<' && line[t.comma] == ',' && line[t.close] == '>' && line[t.close + 1] == c
    ensures line[t.open + 1..t.comma] == a && line[t.comma + 1..t.close] == b
  {
    assert "<" + a + "," + b + ">" + [c] == ['<'] + a + [','] + b + ['>', c];
    Seqs.FramedParts(line, t.open, '<', a, ',', b, '>', c);
  }

  /** Given what the extractions of one turn return, the loop body's verdict is the reference loop's. */
  lemma ItemFromReads(line: string, t: Slot, p: Pair, c: char, n: int, acc: seq<Pair>)
    requires TextAt(line, t, p, c)
    ensures ReadItem(Stream(line, t.open, false, false), n, acc) == Verdict(p, n, acc, Stream(line, t.close + 1, false, false))
    ensures ReadChar(Stream(line, t.close + 1, false, false)) == CharRead(Stream(line, t.close + 2, false, false), Some(c))
  {
    SeparatorRead(line, t, p, c);
    OpenRead(line, t, p, c, n, acc);
    PairRead(line, t, p, c, n, acc);
  }

  /** From just after the '<' of the item in slot `t`, the rest of the turn reaches the checks on `p`. */
  lemma PairRead(line: string, t: Slot, p: Pair, c: char, n: int, acc: seq<Pair>)
    requires TextAt(line, t, p, c)
    ensures ReadFirst(Stream(line, t.open + 1, false, false), n, acc) == Verdict(p, n, acc, Stream(line, t.close + 1, false, false))
  {
    FirstRead(line, t, p, c, n, acc);
    SecondRead(line, t, p, c, n, acc);
  }

  /** `>> nextChar` after the item reads the separator `c`. */
  lemma SeparatorRead(line: string, t: Slot, p: Pair, c: char)
    requires TextAt(line, t, p, c)
    ensures ReadChar(Stream(line, t.close + 1, false, false)) == CharRead(Stream(line, t.close + 2, false, false), Some(c))
  {
    ItemParts(line, t, p, c);
    ReadsCharAt(line, t.close + 1, c);
  }

  /** `>> bracketStart` reads the '<' of slot `t`; the item goes on after it. */
  lemma OpenRead(line: string, t: Slot, p: Pair, c: char, n: int, acc: seq<Pair>)
    requires TextAt(line, t, p, c)
    ensures ReadItem(Stream(line, t.open, false, false), n, acc) == ReadFirst(Stream(line, t.open + 1, false, false), n, acc)
  {
    ItemParts(line, t, p, c);
    ReadsCharAt(line, t.open, '<');
  }

  /** `>> v1 >> comma` read the first number of slot `t` and the ',' after it; the item goes on after the comma. */
  lemma FirstRead(line: string, t: Slot, p: Pair, c: char, n: int, acc: seq<Pair>)
    requires TextAt(line, t, p, c)
    ensures ReadFirst(Stream(line, t.open + 1, false, false), n, acc) == ReadSecond(p.0, Stream(line, t.comma + 1, false, false), n, acc)
  {
    FirstNumber(line, t, p, c);
  }

  /** The first number of slot `t` reads back as `p.0`, and the ',' after it as itself. */
  lemma FirstNumber(line: string, t: Slot, p: Pair, c: char)
    requires TextAt(line, t, p, c)
    ensures IntAt(line, t.open + 1, p.0, t.comma) && CharAt(line, t.comma, ',')
  {
    ItemParts(line, t, p, c);
    var first := t.open + 1;
    NumberThen(line, first, p.0, t.comma, ',');
  }

  /** `>> v2 >> bracketEnd` read the second number of slot `t` and the '>' after it; the checks decide the item. */
  lemma SecondRead(line: string, t: Slot, p: Pair, c: char, n: int, acc: seq<Pair>)
    requires TextAt(line, t, p, c)
    ensures ReadSecond(p.0, Stream(line, t.comma + 1, false, false), n, acc) == Verdict(p, n, acc, Stream(line, t.close + 1, false, false))
  {
    SecondNumber(line, t, p, c);
  }

  /** The second number of slot `t` reads back as `p.1`, and the '>' after it as itself. */
  lemma SecondNumber(line: string, t: Slot, p: Pair, c: char)
    requires TextAt(line, t, p, c)
    ensures IntAt(line, t.comma + 1, p.1, t.close) && CharAt(line, t.close, '>')
  {
    ItemParts(line, t, p, c);
    var second := t.comma + 1;
    NumberThen(line, second, p.1, t.close, '>');
  }

  /** The pair loop over the items in slots `ts`, against the reference loop. */
  lemma {:induction false} TokenPairs(line: string, ts: seq<Slot>, ps: seq<Pair>, n: int, acc: seq<Pair>, next: char)
    requires Every(TextOk(line), ts, ps)
    ensures ScanPairs(Stream(line, ts[0].open, false, false), n, acc, next) == Validate(ps, n, acc)
    decreases |ps|
  {
    var p := ps[0];
    var t := ts[0];
    var c := Separator(|ps|);
    var s := Stream(line, t.open, false, false);
    var rest := Stream(line, t.close + 1, false, false);
    var after := Stream(line, t.close + 2, false, false);
    assert TextOk(line)(t, p, c);
    ItemFromReads(line, t, p, c, n, acc);
    if !Accepts(p, n, acc) {
      ScanRefused(s, n, acc, next, ps, rest);
    } else if |ps| == 1 {
      ScanClosed(s, n, acc, next, p, rest, c, after);
      ValidateStep(ps, n, acc);
    } else {
      ScanContinues(s, n, acc, next, p, rest, c, after);
      ValidateStep(ps, n, acc);
      TokenPairs(line, ts[1..], ps[1..], n, acc + [Canonical(p.0, p.1)], ',');
      assert Stream(line, ts[1..][0].open, false, false) == after;
    }
  }

  /** The reference loop on an accepted first pair. */
  lemma ValidateStep(ps: seq<Pair>, n: int, acc: seq<Pair>)
    requires |ps| > 0 && Accepts(ps[0], n, acc)
    ensures Validate(ps, n, acc) == Validate(ps[1..], n, acc + [Canonical(ps[0].0, ps[0].1)])
    ensures |ps| == 1 ==> Validate(ps, n, acc) == Listed(acc + [Canonical(ps[0].0, ps[0].1)], true)
  {
  }

  /** The loop ends after an accepted pair followed by '}'. */
  lemma ScanClosed(s: Stream, n: int, edges: seq<Pair>, next: char, p: Pair, rest: Stream, sep: char, after: Stream)
    requires s.Valid() && !s.eof
    requires ReadItem(s, n, edges) == Verdict(p, n, edges, rest) && Accepts(p, n, edges)
    requires ReadChar(rest) == CharRead(after, Some(sep)) && sep == '}'
    ensures ScanPairs(s, n, edges, next) == Listed(edges + [Canonical(p.0, p.1)], true)
  {
    assert ScanPairs(s, n, edges, next) == LoopBody(s, n, edges, next);
  }

  /** The loop takes another turn after an accepted pair followed by ','. */
  lemma ScanContinues(s: Stream, n: int, edges: seq<Pair>, next: char, p: Pair, rest: Stream, sep: char, after: Stream)
    requires s.Valid() && !s.eof
    requires ReadItem(s, n, edges) == Verdict(p, n, edges, rest) && Accepts(p, n, edges)
    requires ReadChar(rest) == CharRead(after, Some(sep)) && sep == ','
    ensures ScanPairs(s, n, edges, next) == ScanPairs(after, n, edges + [Canonical(p.0, p.1)], ',')
  {
    assert ScanPairs(s, n, edges, next) == LoopBody(s, n, edges, next);
  }

  /** The loop and the reference loop stop at the same refused pair. */
  lemma ScanRefused(s: Stream, n: int, edges: seq<Pair>, next: char, ps: seq<Pair>, after: Stream)
    requires s.Valid() && !s.eof && |ps| > 0 && !Accepts(ps[0], n, edges)
    requires ReadItem(s, n, edges) == Verdict(ps[0], n, edges, after)
    ensures ScanPairs(s, n, edges, next) == Validate(ps, n, edges)
  {
    assert ScanPairs(s, n, edges, next) == LoopBody(s, n, edges, next);
  }
}
