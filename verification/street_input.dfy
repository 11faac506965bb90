/**
 * What the two Python street programs work on once their command pattern has
 * matched a line: integer points (the pattern admits only integers), the
 * coordinate tokens it found, and the string handling of street names.
 */
module StreetInput {
  import Seqs
  import opened Options
  import opened Text

  datatype Point = Point(x: int, y: int)

  datatype Segment = Segment(start: Point, end: Point)

  /**
   * A coordinate token the pattern found: the point `float()` reads from
   * it, or a token it cannot read (the pattern allows a blank between a
   * minus sign and the digits, which `float()` rejects with `ValueError`).
   */
  datatype Token = Number(p: Point) | Unreadable

  datatype Op = Add | Mod | Rm | Gg

  predicate AllReadable(tokens: seq<Token>) {
    forall i | 0 <= i < |tokens| :: tokens[i].Number?
  }

  /** Consecutive points joined: `m` points give `m - 1` segments. */
  function Chain(points: seq<Point>): (segs: seq<Segment>)
    requires |points| > 0
    ensures |segs| == |points| - 1
  {
    seq(|points| - 1, i requires 0 <= i < |points| - 1 => Segment(points[i], points[i + 1]))
  }

  /** Each segment starts where the one before it ends. */
  predicate Chained(segs: seq<Segment>) {
    forall i | 0 < i < |segs| :: segs[i].start == segs[i - 1].end
  }

  function PointsOf(tokens: seq<Token>): (points: seq<Point>)
    requires AllReadable(tokens)
    ensures |points| == |tokens|
  {
    seq(|tokens|, i requires 0 <= i < |tokens| => tokens[i].p)
  }

  /** Joining consecutive points chains the segments, and the points read back from them. */
  lemma ChainIsChained(points: seq<Point>)
    requires |points| > 0
    ensures Chained(Chain(points))
    ensures forall i | 0 <= i < |points| - 1 :: Chain(points)[i].start == points[i] && Chain(points)[i].end == points[i + 1]
  {
  }

  // ---------------------------------------------------------------- names

  function LowerChar(c: char): char {
    if 'A' <= c <= 'Z' then ((c as int) + 32) as char else c
  }

  /** `str.lower()` on the letters and blanks the pattern admits in a name. */
  function Lower(s: string): (r: string)
    ensures |r| == |s|
    ensures forall i | 0 <= i < |s| :: r[i] == LowerChar(s[i])
  {
    seq(|s|, i requires 0 <= i < |s| => LowerChar(s[i]))
  }

  predicate IsLower(s: string) {
    forall i | 0 <= i < |s| :: !('A' <= s[i] <= 'Z')
  }

  /** Lower-casing leaves no capital, and doing it twice changes nothing more. */
  lemma LowerIsLower(s: string)
    ensures IsLower(Lower(s))
    ensures Lower(Lower(s)) == Lower(s)
  {
  }

  /** `not name or name.isspace()`: nothing but whitespace, or nothing at all. */
  predicate Blank(s: string) {
    forall i | 0 <= i < |s| :: IsSpace(s[i])
  }

  function StripStart(s: string): (r: string)
    ensures |r| <= |s| && r == s[|s| - |r|..]
    ensures forall i | 0 <= i < |s| - |r| :: IsSpace(s[i])
    ensures |r| > 0 ==> !IsSpace(r[0])
  {
    if |s| > 0 && IsSpace(s[0]) then
      var r := StripStart(s[1..]);
      assert s[1..][|s| - 1 - |r|..] == s[|s| - |r|..];
      assert forall i | 1 <= i < |s| - |r| :: s[i] == s[1..][i - 1];
      r
    else s
  }

  function StripEnd(s: string): (r: string)
    ensures |r| <= |s| && r == s[..|r|]
    ensures forall i | |r| <= i < |s| :: IsSpace(s[i])
    ensures |r| > 0 ==> !IsSpace(r[|r| - 1])
  {
    if |s| > 0 && IsSpace(s[|s| - 1]) then StripEnd(s[..|s| - 1]) else s
  }

  /** `str.strip()`: leading and trailing whitespace removed. */
  function Strip(s: string): string {
    StripEnd(StripStart(s))
  }

  /** Stripping leaves nothing exactly when there was nothing but whitespace. */
  lemma {:induction false} StripEmptyIffBlank(s: string)
    ensures Strip(s) == "" <==> Blank(s)
  {
    var t := StripStart(s);
    assert |t| > 0 ==> t[0] == s[|s| - |t|];
  }

  /**
   * `split('"')[1]`: the text after the first `"`, up to the next `"` or
   * the end of `s`; with no `"` at all Python raises `IndexError`.
   */
  function QuotedPart(s: string): (r: Option<string>)
    ensures r.Some? <==> '"' in s
    ensures r.Some? ==> QuotedAt(s, Seqs.Position(s, '"'), r.value)
  {
    if '"' !in s then None
    else
      var i := Seqs.Position(s, '"');
      var rest := s[i + 1..];
      if '"' in rest then
        var j := Seqs.Position(rest, '"');
        assert s[i + 1..i + 1 + j] == rest[..j];
        Some(rest[..j])
      else
        Some(rest)
  }

  /** `QuotedPart` is the second piece of `split('"')`, and exists exactly when there are two pieces. */
  lemma QuotedPartIsSecondPiece(s: string)
    ensures QuotedPart(s).Some? <==> |Split(s, '"')| >= 2
    ensures QuotedPart(s).Some? ==> QuotedPart(s).value == Split(s, '"')[1]
  {
    SplitHead(s, '"');
    if '"' in s {
      SplitHead(s[Seqs.Position(s, '"') + 1..], '"');
    }
  }

  /** The text a quote at `i` opens is determined by `s` and `i`. */
  lemma QuotedAtUnique(s: string, i: nat, t: string, u: string)
    requires QuotedAt(s, i, t) && QuotedAt(s, i, u)
    ensures t == u
  {
    QuotedLength(s, i, t);
    QuotedLength(s, i, u);
  }

  /** The quoted text runs to the next quote after `i`, or to the end of `s` when there is none. */
  lemma QuotedLength(s: string, i: nat, t: string)
    requires QuotedAt(s, i, t)
    ensures '"' in s[i + 1..] ==> |t| == Seqs.Position(s[i + 1..], '"')
    ensures '"' !in s[i + 1..] ==> |t| == |s| - i - 1
  {
    var rest := s[i + 1..];
    assert t == rest[..|t|];
    if i + 1 + |t| < |s| {
      assert rest[|t|] == '"';
    }
  }

  /** `t` starts right after the quote at `i`, holds no quote, and ends at the next quote or at the end of `s`. */
  predicate QuotedAt(s: string, i: nat, t: string) {
    && i + 1 + |t| <= |s|
    && t == s[i + 1..i + 1 + |t|]
    && '"' !in t
    && (i + 1 + |t| == |s| || s[i + 1 + |t|] == '"')
  }

  /** Two adjacent characters somewhere in `s`: `a + b in s`. */
  predicate HasPair(s: string, a: char, b: char) {
    exists i | 0 <= i < |s| - 1 :: s[i] == a && s[i + 1] == b
  }
}
