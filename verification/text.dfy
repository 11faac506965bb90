/**
 * Decimal rendering of integers as `operator<<` produces it, and the
 * separator-joined lists the programs print (`1 3 4`, `1-2-3`).
 */
module Text {
  import Seqs

  predicate IsDigit(c: char) {
    '0' <= c <= '9'
  }

  predicate AllDigits(s: string) {
    forall i | 0 <= i < |s| :: IsDigit(s[i])
  }

  /** The C locale's `isspace`: blank, tab, newline, vertical tab, form feed, carriage return. */
  predicate IsSpace(c: char) {
    c == ' ' || (9 <= c as int <= 13)
  }

  function DigitChar(d: nat): (c: char)
    requires d < 10
    ensures IsDigit(c)
  {
    (('0' as int) + d) as char
  }

  function DigitValue(c: char): int
  {
    (c as int) - ('0' as int)
  }

  /** Base-10 digits of `n`, most significant first, no leading zeros. */
  function NatToString(n: nat): (s: string)
    ensures |s| >= 1 && AllDigits(s)
    decreases n
  {
    if n < 10 then [DigitChar(n)] else NatToString(n / 10) + [DigitChar(n % 10)]
  }

  /** `std::ostream << int`: a leading '-' for negative values. */
  function IntToString(n: int): string {
    if n < 0 then "-" + NatToString(-n) else NatToString(n)
  }

  /** Value of a string of decimal digits (the empty string is 0). */
  function DigitsValue(s: string): int
  {
    if |s| == 0 then 0 else DigitsValue(s[..|s| - 1]) * 10 + DigitValue(s[|s| - 1])
  }

  /** Reading back what `NatToString` wrote gives the number. */
  lemma {:induction false} NatToStringRoundTrip(n: nat)
    ensures DigitsValue(NatToString(n)) == n
  {
    if n >= 10 {
      NatToStringRoundTrip(n / 10);
      var s := NatToString(n);
      assert s[..|s| - 1] == NatToString(n / 10);
    }
  }

  /** Elements rendered in decimal, `sep` between consecutive ones, nothing at the ends. */
  function Join(xs: seq<int>, sep: char): string {
    if |xs| == 0 then ""
    else if |xs| == 1 then IntToString(xs[0])
    else IntToString(xs[0]) + [sep] + Join(xs[1..], sep)
  }

  /** Python's `str.split(sep)` for a one-character separator. */
  function Split(s: string, sep: char): (parts: seq<string>)
    ensures |parts| >= 1
    decreases |s|
  {
    if sep !in s then [s]
    else
      var i := Seqs.Position(s, sep);
      [s[..i]] + Split(s[i + 1..], sep)
  }

  /** The first piece runs up to the first separator; the rest is the split of what follows it. */
  lemma SplitHead(s: string, sep: char)
    ensures |Split(s, sep)| >= 2 <==> sep in s
    ensures sep !in s ==> Split(s, sep) == [s]
    ensures sep in s ==> var i := Seqs.Position(s, sep);
      Split(s, sep)[0] == s[..i] && Split(s, sep)[1..] == Split(s[i + 1..], sep)
  {
  }

  /**
   * Splitting a joined list of non-negative numbers on a non-digit separator
   * recovers each number's digits, one piece per element, in order.
   */
  lemma {:induction false} SplitJoin(xs: seq<int>, sep: char)
    requires |xs| >= 1
    requires forall i | 0 <= i < |xs| :: xs[i] >= 0
    requires !IsDigit(sep)
    ensures |Split(Join(xs, sep), sep)| == |xs|
    ensures forall i | 0 <= i < |xs| :: Split(Join(xs, sep), sep)[i] == NatToString(xs[i])
  {
    var head := NatToString(xs[0]);
    assert sep !in head;
    if |xs| > 1 {
      var s := Join(xs, sep);
      var rest := Join(xs[1..], sep);
      assert s == head + [sep] + rest;
      assert s[|head|] == sep;
      assert Seqs.Position(s, sep) == |head|;
      assert s[..|head|] == head;
      assert s[|head| + 1..] == rest;
      var parts := Split(s, sep);
      assert parts == [head] + Split(rest, sep);
      SplitJoin(xs[1..], sep);
      forall i | 1 <= i < |xs| ensures parts[i] == NatToString(xs[i]) {
        assert xs[1..][i - 1] == xs[i];
      }
    }
  }

  /** The numbers of a joined list of non-negative values can be read back, in order. */
  lemma JoinReadBack(xs: seq<int>, sep: char)
    requires |xs| >= 1
    requires forall i | 0 <= i < |xs| :: xs[i] >= 0
    requires !IsDigit(sep)
    ensures |Split(Join(xs, sep), sep)| == |xs|
    ensures forall i | 0 <= i < |xs| ::
      var part := Split(Join(xs, sep), sep)[i];
      AllDigits(part) && DigitsValue(part) == xs[i]
  {
    SplitJoin(xs, sep);
    forall i | 0 <= i < |xs|
      ensures DigitsValue(NatToString(xs[i])) == xs[i]
    {
      NatToStringRoundTrip(xs[i]);
    }
  }
}
