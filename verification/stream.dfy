/**
 * The part of `std::istringstream` the command handlers rely on: formatted
 * extraction of one `char` or one `int` after skipping white space, the
 * eof/fail state bits, and `putback`. `int` is 32 bits wide.
 */
module Stream {
  import opened Options
  import opened Seqs
  import opened Text

  const IntMax: int := 0x7FFF_FFFF
  const IntMin: int := -0x8000_0000

  predicate InIntRange(v: int) {
    IntMin <= v <= IntMax
  }

  /** A stream over one line: the read position and the eof/fail state bits. */
  datatype Stream = Stream(line: string, pos: nat, eof: bool, fail: bool) {
    ghost predicate Valid() {
      pos <= |line|
    }

    /** `good()`: extraction only starts from a good stream. */
    predicate Good() {
      !eof && !fail
    }
  }

  function Open(line: string): (s: Stream)
    ensures s.Valid() && s.Good() && s.pos == 0
  {
    Stream(line, 0, false, false)
  }

  /** First position at or after `pos` that is not white space, or the end of the line. */
  function SkipSpaces(line: string, pos: nat): (p: nat)
    requires pos <= |line|
    ensures pos <= p <= |line|
    ensures p < |line| ==> !IsSpace(line[p])
    decreases |line| - pos
  {
    if pos == |line| || !IsSpace(line[pos]) then pos else SkipSpaces(line, pos + 1)
  }

  /** End of the run of decimal digits that starts at `pos`. */
  function DigitRunEnd(line: string, pos: nat): (d: nat)
    requires pos <= |line|
    ensures pos <= d <= |line|
    ensures d < |line| ==> !IsDigit(line[d])
    decreases |line| - pos
  {
    if pos == |line| || !IsDigit(line[pos]) then pos else DigitRunEnd(line, pos + 1)
  }

  /** Decimal value of the digits `line[q..d]`, read left to right. */
  function DigitsIn(line: string, q: nat, d: nat): int
    requires q <= d <= |line|
    decreases d - q
  {
    if d == q then 0 else DigitsIn(line, q, d - 1) * 10 + DigitValue(line[d - 1])
  }

  lemma {:induction false} DigitsInSlice(line: string, q: nat, d: nat)
    requires q <= d <= |line|
    ensures DigitsIn(line, q, d) == DigitsValue(line[q..d])
    decreases d - q
  {
    if d > q {
      DigitsInSlice(line, q, d - 1);
      assert line[q..d][..d - q - 1] == line[q..d - 1];
    }
  }

  /** Result of `in >> c`: the stream afterwards, and the character if one was stored. */
  datatype CharRead = CharRead(rest: Stream, ch: Option<char>)

  /**
   * `in >> c` for a `char`. A stream that is not good, or that reaches the end
   * while skipping white space, sets failbit and leaves `c` unwritten.
   */
  function ReadChar(s: Stream): (r: CharRead)
    requires s.Valid()
    ensures r.rest.Valid() && r.rest.line == s.line && r.rest.pos >= s.pos
    ensures r.ch.Some? <==> s.Good() && SkipSpaces(s.line, s.pos) < |s.line|
    ensures r.ch.Some? ==>
      && r.rest.Good()
      && r.rest.pos == SkipSpaces(s.line, s.pos) + 1
      && r.ch.value == s.line[r.rest.pos - 1]
      && !IsSpace(r.ch.value)
    ensures r.ch.None? ==> r.rest.fail
  {
    if !s.Good() then CharRead(s.(fail := true), None)
    else
      var p := SkipSpaces(s.line, s.pos);
      if p == |s.line| then CharRead(s.(pos := p, eof := true, fail := true), None)
      else CharRead(s.(pos := p + 1), Some(s.line[p]))
  }

  /** Result of `in >> n` for an `int`: the stream afterwards, and the value if one was stored. */
  datatype IntRead = IntRead(rest: Stream, stored: Option<int>)

  /**
   * `in >> n` for an `int` (libstdc++, C++11 rules). A failed sentry leaves `n`
   * unwritten; text that is not a number stores 0 and sets failbit; a number
   * outside the `int` range stores the nearest limit and sets failbit.
   */
  function ReadInt(s: Stream): (r: IntRead)
    requires s.Valid()
    ensures r.rest.Valid() && r.rest.line == s.line && r.rest.pos >= s.pos
    ensures r.stored.None? <==> !s.Good() || SkipSpaces(s.line, s.pos) == |s.line|
    ensures r.stored.Some? ==> InIntRange(r.stored.value)
    ensures r.stored.None? ==> r.rest.fail
    ensures !r.rest.fail ==> r.stored.Some? && r.rest.pos > s.pos
  {
    if !s.Good() then IntRead(s.(fail := true), None)
    else
      var p := SkipSpaces(s.line, s.pos);
      if p == |s.line| then IntRead(s.(pos := p, eof := true, fail := true), None)
      else
        var signed := s.line[p] == '+' || s.line[p] == '-';
        var q := if signed then p + 1 else p;
        var d := DigitRunEnd(s.line, q);
        var atEnd := d == |s.line|;
        if d == q then IntRead(s.(pos := d, eof := atEnd, fail := true), Some(0))
        else
          var magnitude := DigitsIn(s.line, q, d);
          var v := if s.line[p] == '-' then -magnitude else magnitude;
          if v > IntMax then IntRead(s.(pos := d, eof := atEnd, fail := true), Some(IntMax))
          else if v < IntMin then IntRead(s.(pos := d, eof := atEnd, fail := true), Some(IntMin))
          else IntRead(s.(pos := d, eof := atEnd), Some(v))
  }

  /** `putback` of the character just extracted from a good stream. */
  function PutBack(s: Stream): (r: Stream)
    requires s.Valid() && s.Good() && s.pos >= 1
    ensures r.Valid() && r.Good() && r.line == s.line && r.pos == s.pos - 1
  {
    s.(pos := s.pos - 1)
  }

  /** The command character `main` reads first: the first non-blank character, if any. */
  function CommandChar(line: string): (c: Option<char>)
    ensures c.Some? <==> exists i | 0 <= i < |line| :: !IsSpace(line[i])
    ensures c.Some? ==> c.value in line && !IsSpace(c.value)
  {
    var p := SkipSpaces(line, 0);
    SkippedSpaces(line, 0);
    if p == |line| then None
    else
      assert !IsSpace(line[p]);
      Some(line[p])
  }

  /** Everything `SkipSpaces` passes over is white space. */
  lemma {:induction false} SkippedSpaces(line: string, pos: nat)
    requires pos <= |line|
    ensures forall j | pos <= j < SkipSpaces(line, pos) :: IsSpace(line[j])
    decreases |line| - pos
  {
    if pos < |line| && IsSpace(line[pos]) {
      SkippedSpaces(line, pos + 1);
    }
  }

  /** Reading a non-blank character right at the read position. */
  lemma ReadCharAt(s: Stream, c: char)
    requires s.Valid() && s.Good() && s.pos < |s.line| && s.line[s.pos] == c && !IsSpace(c)
    ensures ReadChar(s) == CharRead(s.(pos := s.pos + 1), Some(c))
  {
    assert SkipSpaces(s.line, s.pos) == s.pos;
  }

  /** On a good stream at `q`, `>> c` stores `c` and stops right after it. */
  predicate CharAt(line: string, q: nat, c: char) {
    q < |line| && ReadChar(Stream(line, q, false, false)) == CharRead(Stream(line, q + 1, false, false), Some(c))
  }

  /** On a good stream at `q`, `>> n` stores `v` and stops at `e`, still good. */
  predicate IntAt(line: string, q: nat, v: int, e: nat) {
    q <= e <= |line| && ReadInt(Stream(line, q, false, false)) == IntRead(Stream(line, e, false, false), Some(v))
  }

  lemma ReadsCharAt(line: string, q: nat, c: char)
    requires q < |line| && line[q] == c && !IsSpace(c)
    ensures CharAt(line, q, c)
  {
    ReadCharAt(Stream(line, q, false, false), c);
  }

  /** A blank in front of a number is skipped: reading from it reads from the next position. */
  lemma ReadIntAfterSpace(line: string, q: nat)
    requires q < |line| && IsSpace(line[q])
    ensures ReadInt(Stream(line, q, false, false)) == ReadInt(Stream(line, q + 1, false, false))
  {
    assert SkipSpaces(line, q) == SkipSpaces(line, q + 1);
  }

  /** The decimal text of an in-range `int` that ends at `e`, before a non-digit. */
  lemma ReadsIntAt(line: string, q: nat, v: int, e: nat)
    requires InIntRange(v) && e == q + |IntToString(v)| && e < |line|
    requires line[q..e] == IntToString(v) && !IsDigit(line[e])
    ensures IntAt(line, q, v, e)
  {
    ReadIntOfRendered(Stream(line, q, false, false), v);
  }

  /** A blank, then the decimal text of an in-range `int` ending at `e` before a non-digit. */
  lemma ReadsIntAfterBlank(line: string, q: nat, v: int, e: nat)
    requires InIntRange(v) && q < |line| && IsSpace(line[q])
    requires e == q + 1 + |IntToString(v)| && e < |line|
    requires line[q + 1..e] == IntToString(v) && !IsDigit(line[e])
    ensures IntAt(line, q, v, e)
  {
    ReadIntAfterSpace(line, q);
    ReadsIntAt(line, q + 1, v, e);
  }

  /** The decimal text of an in-range `int` that ends the line: read back, with eofbit set and failbit clear. */
  lemma ReadsIntAtEnd(line: string, q: nat, v: int)
    requires InIntRange(v) && q <= |line| && line[q..] == IntToString(v)
    ensures ReadInt(Stream(line, q, false, false)) == IntRead(Stream(line, |line|, true, false), Some(v))
  {
    ReadIntOfRendered(Stream(line, q, false, false), v);
  }

  /**
   * Reading the decimal text of an in-range `int` that is followed by a
   * non-digit or by the end of the line.
   */
  lemma ReadIntOfRendered(s: Stream, v: int)
    requires s.Valid() && s.Good()
    requires InIntRange(v)
    requires s.pos + |IntToString(v)| <= |s.line|
    requires s.line[s.pos..s.pos + |IntToString(v)|] == IntToString(v)
    requires s.pos + |IntToString(v)| < |s.line| ==> !IsDigit(s.line[s.pos + |IntToString(v)|])
    ensures var e := s.pos + |IntToString(v)|; ReadInt(s) == IntRead(s.(pos := e, eof := e == |s.line|), Some(v))
  {
    var text := IntToString(v);
    assert s.line[s.pos] == text[0];
    if v < 0 {
      var m := -v;
      var digits := NatToString(m);
      assert text == "-" + digits && text[1..] == digits;
      SliceWindow(s.line, s.pos, text, 1, |text|);
      assert s.pos + |text| == s.pos + 1 + |digits|;
      ReadNegative(s, m);
    } else {
      ReadNonNegative(s, v);
    }
  }

  lemma ReadNonNegative(s: Stream, m: nat)
    requires s.Valid() && s.Good()
    requires m <= IntMax
    requires s.pos + |NatToString(m)| <= |s.line|
    requires s.line[s.pos..s.pos + |NatToString(m)|] == NatToString(m)
    requires s.pos + |NatToString(m)| < |s.line| ==> !IsDigit(s.line[s.pos + |NatToString(m)|])
    ensures var e := s.pos + |NatToString(m)|; ReadInt(s) == IntRead(s.(pos := e, eof := e == |s.line|), Some(m))
  {
    var digits := NatToString(m);
    assert s.line[s.pos] == digits[0];
    assert IsDigit(s.line[s.pos]);
    assert SkipSpaces(s.line, s.pos) == s.pos;
    DigitsAt(s.line, s.pos, m);
  }

  lemma ReadNegative(s: Stream, m: nat)
    requires s.Valid() && s.Good()
    requires 1 <= m <= -IntMin
    requires s.pos + 1 + |NatToString(m)| <= |s.line|
    requires s.line[s.pos] == '-'
    requires s.line[s.pos + 1..s.pos + 1 + |NatToString(m)|] == NatToString(m)
    requires s.pos + 1 + |NatToString(m)| < |s.line| ==> !IsDigit(s.line[s.pos + 1 + |NatToString(m)|])
    ensures var e := s.pos + 1 + |NatToString(m)|; ReadInt(s) == IntRead(s.(pos := e, eof := e == |s.line|), Some(0 - m))
  {
    assert SkipSpaces(s.line, s.pos) == s.pos;
    var q := s.pos + 1;
    DigitsAt(s.line, q, m);
    var d := DigitRunEnd(s.line, q);
    assert d == s.pos + 1 + |NatToString(m)|;
    assert DigitsIn(s.line, q, d) == m;
  }

  /** The digits of `m` at `q`, followed by a non-digit or the end, form the digit run there and read back as `m`. */
  lemma DigitsAt(line: string, q: nat, m: nat)
    requires q + |NatToString(m)| <= |line|
    requires line[q..q + |NatToString(m)|] == NatToString(m)
    requires q + |NatToString(m)| < |line| ==> !IsDigit(line[q + |NatToString(m)|])
    ensures DigitRunEnd(line, q) == q + |NatToString(m)|
    ensures DigitsIn(line, q, DigitRunEnd(line, q)) == m
  {
    var digits := NatToString(m);
    forall j | q <= j < q + |digits|
      ensures IsDigit(line[j])
    {
      assert line[j] == line[q..q + |digits|][j - q];
    }
    DigitRunEndAt(line, q, q + |digits|);
    NatToStringRoundTrip(m);
    DigitsInSlice(line, q, q + |digits|);
  }

  lemma {:induction false} DigitRunEndAt(line: string, pos: nat, d: nat)
    requires pos <= d <= |line|
    requires forall j | pos <= j < d :: IsDigit(line[j])
    requires d < |line| ==> !IsDigit(line[d])
    ensures DigitRunEnd(line, pos) == d
    decreases d - pos
  {
    if pos < d {
      DigitRunEndAt(line, pos + 1, d);
    }
  }
}
