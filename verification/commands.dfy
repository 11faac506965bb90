/**
 * How the C++ command loops read their arguments: the command character
 * first, then `int` extractions from the same stream. Also the `V <n>` and
 * `s <a> <b>` lines as users type them, and what reading them gives.
 */
module Commands {
  import opened Options
  import opened Text
  import opened Stream
  import opened Seqs

  /** The stream right after `input >> c` has taken the command character. */
  function AfterCommand(line: string): (s: Stream)
    ensures s.Valid() && s.line == line
    ensures CommandChar(line).Some? ==> s.Good() && s.pos == SkipSpaces(line, 0) + 1
    ensures CommandChar(line).None? ==> s.fail
  {
    ReadChar(Open(line)).rest
  }

  /** `V <n>` with one blank. */
  function VertexCommand(n: int): string {
    "V " + IntToString(n)
  }

  /** `s <a> <b>` with single blanks. */
  function QueryCommand(a: int, b: int): string {
    "s " + IntToString(a) + " " + IntToString(b)
  }

  /** The count of a typed `V` line is read back, and the read ends the line without failing. */
  lemma VertexCommandRead(n: int)
    requires InIntRange(n)
    ensures var line := VertexCommand(n);
      && CommandChar(line) == Some('V')
      && ReadInt(AfterCommand(line)) == IntRead(Stream(line, |line|, true, false), Some(n))
  {
    var line := VertexCommand(n);
    assert line[0] == 'V' && line[1] == ' ';
    assert SkipSpaces(line, 0) == 0;
    ReadIntAfterSpace(line, 1);
    assert line[2..] == IntToString(n);
    ReadsIntAtEnd(line, 2, n);
  }

  /** Both numbers of a typed `s` line are read back; the first read leaves the stream good. */
  lemma QueryCommandRead(a: int, b: int)
    requires InIntRange(a) && InIntRange(b)
    ensures var line := QueryCommand(a, b);
      var first := ReadInt(AfterCommand(line));
      && CommandChar(line) == Some('s')
      && first.stored == Some(a) && first.rest.Good()
      && ReadInt(first.rest) == IntRead(Stream(line, |line|, true, false), Some(b))
  {
    QueryFirstRead(a, b);
    QuerySecondRead(a, b);
  }

  /** The command character of a typed `s` line, and its first number, which ends at the second blank. */
  lemma QueryFirstRead(a: int, b: int)
    requires InIntRange(a)
    ensures var line := QueryCommand(a, b);
      && CommandChar(line) == Some('s')
      && ReadInt(AfterCommand(line)) == IntRead(Stream(line, 2 + |IntToString(a)|, false, false), Some(a))
  {
    var line := QueryCommand(a, b);
    QueryStart(a, b);
    Seqs.Parts("s ", IntToString(a), " ", IntToString(b));
    ReadsIntAfterBlank(line, 1, a, 2 + |IntToString(a)|);
  }

  /** A typed `s` line starts `s` and a blank, and a blank follows its first number. */
  lemma QueryStart(a: int, b: int)
    ensures var line := QueryCommand(a, b);
      && CommandChar(line) == Some('s')
      && AfterCommand(line) == Stream(line, 1, false, false)
      && line[1] == ' ' && line[2 + |IntToString(a)|] == ' '
  {
    var line := QueryCommand(a, b);
    assert line[0] == 's' && line[1] == ' ' && line[2 + |IntToString(a)|] == ' ';
    assert SkipSpaces(line, 0) == 0;
  }

  /** The second number of a typed `s` line, read from the blank before it, ends the line. */
  lemma QuerySecondRead(a: int, b: int)
    requires InIntRange(b)
    ensures var line := QueryCommand(a, b);
      ReadInt(Stream(line, 2 + |IntToString(a)|, false, false)) == IntRead(Stream(line, |line|, true, false), Some(b))
  {
    var line := QueryCommand(a, b);
    var e := 2 + |IntToString(a)|;
    assert line[e] == ' ';
    ReadIntAfterSpace(line, e);
    Seqs.Parts("s ", IntToString(a), " ", IntToString(b));
    ReadsIntAtEnd(line, e + 1, b);
  }

  /** `input >> c >> source >> destination`: both numbers, when neither read failed. */
  function QueryArgs(line: string): (r: Option<(int, int)>)
    ensures r.Some? ==> InIntRange(r.value.0) && InIntRange(r.value.1)
  {
    var first := ReadInt(AfterCommand(line));
    var second := ReadInt(first.rest);
    if second.rest.fail then None else Some((first.stored.value, second.stored.value))
  }

  /** A typed `s a b` line yields `a` and `b`. */
  lemma QueryArgsOfRendered(a: int, b: int)
    requires InIntRange(a) && InIntRange(b)
    ensures QueryArgs(QueryCommand(a, b)) == Some((a, b))
  {
    QueryCommandRead(a, b);
  }

  /** The two vertices of a query are distinct and within `[1, n]`. */
  predicate Endpoints(a: int, b: int, n: int) {
    a != b && 1 <= a <= n && 1 <= b <= n
  }

  /** A printed path: the vertices joined by '-', then a newline. */
  function PathLine(path: seq<int>): string {
    Join(path, '-') + "\n"
  }

  /** Splitting a printed path (without its newline) at the dashes reads the vertices back. */
  lemma PathLineReadBack(path: seq<int>)
    requires |path| >= 1 && forall i | 0 <= i < |path| :: path[i] >= 1
    ensures var line := PathLine(path);
      && line[|line| - 1] == '\n'
      && var parts := Split(line[..|line| - 1], '-');
      && |parts| == |path|
      && forall i | 0 <= i < |path| :: AllDigits(parts[i]) && DigitsValue(parts[i]) == path[i]
  {
    var line := PathLine(path);
    assert line[..|line| - 1] == Join(path, '-');
    JoinReadBack(path, '-');
  }
}
