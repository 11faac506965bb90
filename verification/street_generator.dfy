/**
 * The random street generator: the unsigned 32-bit arithmetic that turns the
 * words read from /dev/urandom into street counts, segment counts,
 * coordinates, names and the wait time; the command-line parser; the printer
 * that writes `rm`, `add` and `gg` lines; and one round of up to 25 attempts
 * at a set of streets that passes the street check.
 */
module StreetGenerator {
  import opened Options
  import opened Text
  import Stream
  import opened StreetGeometry

  // ---------------------------------------------------------------- unsigned arithmetic

  /** `unsigned int` arithmetic is taken modulo 2^32. */
  const Modulus: int := 0x1_0000_0000

  /** A value of `unsigned int`. */
  type Word = w: int | 0 <= w < Modulus

  /** The words read from /dev/urandom, the `k`-th read at index `k`. */
  type Source = nat -> Word

  /** An `int` converted to `unsigned int`. */
  function ToUnsigned(v: int): Word {
    v % Modulus
  }

  /** An `unsigned int` stored into an `int`: words from 2^31 up wrap to negative values. */
  function ToSigned(u: Word): (v: int)
    ensures Stream.InIntRange(v) && ToUnsigned(v) == u
  {
    if u <= Stream.IntMax then u else u - Modulus
  }

  /**
   * The largest `-c` for which `generateCoordinate` is defined: `2 * c + 1`
   * is computed in signed `int`, and overflows from `c = 2^30` on.
   */
  const CoordinateLimit: int := 0x3FFF_FFFF

  /** `2 * c + 1` fits in an `int` exactly when `c` is at most the limit. */
  lemma DivisorFits(c: int)
    requires 1 <= c
    ensures Stream.InIntRange(2 * c + 1) <==> c <= CoordinateLimit
  {
  }

  /**
   * One axis of `generateCoordinate`: the remainder of the word by the
   * unsigned `2c + 1`, minus `c` modulo 2^32, stored into an `int`. The
   * wrap-around of the subtraction cancels: the value is the mathematical
   * one, in `[-c, c]`.
   */
  function Axis(x: Word, c: int): (v: int)
    requires 1 <= c <= CoordinateLimit
    ensures v == x % (2 * c + 1) - c
    ensures -c <= v <= c
  {
    SmallRemainder(2 * c + 1, Modulus);
    var r := x % ToUnsigned(2 * c + 1);
    SignedRoundTrip(r - c);
    ToSigned(ToUnsigned(r - c))
  }

  /** An `int` converted to `unsigned` and stored back into an `int` is unchanged. */
  lemma SignedRoundTrip(v: int)
    requires Stream.InIntRange(v)
    ensures ToSigned(ToUnsigned(v)) == v
  {
    if v >= 0 {
      SmallRemainder(v, Modulus);
    } else {
      SmallRemainder(v + Modulus, Modulus);
      assert v % Modulus == (v + Modulus) % Modulus;
    }
  }

  /** `generateStreets`: a word to a street count. */
  function StreetCount(w: Word, s: int): (count: int)
    requires 2 <= s <= Stream.IntMax
    ensures 2 <= count <= s
  {
    w % ToUnsigned(s - 1) + 2
  }

  /** `generateStreets`: a word to the segment count of one street. */
  function SegmentCount(w: Word, n: int): (count: int)
    requires 1 <= n <= Stream.IntMax
    ensures 1 <= count <= n
  {
    w % ToUnsigned(n) + 1
  }

  /** `main`: a word to the seconds to wait between rounds. */
  function WaitTime(w: Word, l: int): (t: int)
    requires 5 <= l <= Stream.IntMax
    ensures 5 <= t <= l
  {
    w % ToUnsigned(l - 4) + 5
  }

  const Alphabet: string := "ABCDEFGHIJKLMNOPQRSTUVWXYZ"

  /** `generateStreetName`: a word to one capital letter. */
  function Letter(w: Word): (ch: char)
    ensures 'A' <= ch <= 'Z'
  {
    Alphabet[w % 26]
  }

  ghost predicate IsCoordinate(c: int, v: int)
    requires 1 <= c <= CoordinateLimit
  {
    exists w: Word :: Axis(w, c) == v
  }

  ghost predicate IsStreetCount(s: int, count: int)
    requires 2 <= s <= Stream.IntMax
  {
    exists w: Word :: StreetCount(w, s) == count
  }

  ghost predicate IsSegmentCount(n: int, count: int)
    requires 1 <= n <= Stream.IntMax
  {
    exists w: Word :: SegmentCount(w, n) == count
  }

  ghost predicate IsWaitTime(l: int, t: int)
    requires 5 <= l <= Stream.IntMax
  {
    exists w: Word :: WaitTime(w, l) == t
  }

  /** The coordinates drawn are exactly `[-c, c]`. */
  lemma CoordinatesExact(c: int)
    requires 1 <= c <= CoordinateLimit
    ensures forall v :: IsCoordinate(c, v) <==> -c <= v <= c
  {
    forall v | -c <= v <= c
      ensures IsCoordinate(c, v)
    {
      SmallRemainder(v + c, 2 * c + 1);
      assert Axis(v + c, c) == v;
    }
  }

  lemma SmallRemainder(x: int, m: int)
    requires 0 <= x < m
    ensures x % m == x
  {
  }

  /** The street counts drawn are exactly `[2, s]`. */
  lemma StreetCountsExact(s: int)
    requires 2 <= s <= Stream.IntMax
    ensures forall count :: IsStreetCount(s, count) <==> 2 <= count <= s
  {
    forall count | 2 <= count <= s
      ensures IsStreetCount(s, count)
    {
      SmallRemainder(count - 2, s - 1);
      assert StreetCount(count - 2, s) == count;
    }
  }

  /** The segment counts drawn are exactly `[1, n]`. */
  lemma SegmentCountsExact(n: int)
    requires 1 <= n <= Stream.IntMax
    ensures forall count :: IsSegmentCount(n, count) <==> 1 <= count <= n
  {
    forall count | 1 <= count <= n
      ensures IsSegmentCount(n, count)
    {
      SmallRemainder(count - 1, n);
      assert SegmentCount(count - 1, n) == count;
    }
  }

  /** The waits drawn are exactly `[5, l]`. */
  lemma WaitTimesExact(l: int)
    requires 5 <= l <= Stream.IntMax
    ensures forall t :: IsWaitTime(l, t) <==> 5 <= t <= l
  {
    forall t | 5 <= t <= l
      ensures IsWaitTime(l, t)
    {
      SmallRemainder(t - 5, l - 4);
      assert WaitTime(t - 5, l) == t;
    }
  }

  // ---------------------------------------------------------------- generation

  /** The option values the generator runs with: `-s`, `-n`, `-l` and `-c`. */
  datatype Arguments = Arguments(streets: int, segments: int, wait: int, bound: int)

  const Defaults: Arguments := Arguments(10, 5, 5, 20)

  /** Each value at least its option's minimum and no larger than an `int` holds. */
  predicate Valid(args: Arguments) {
    && 2 <= args.streets <= Stream.IntMax
    && 1 <= args.segments <= Stream.IntMax
    && 5 <= args.wait <= Stream.IntMax
    && 1 <= args.bound <= Stream.IntMax
  }

  /** Options under which drawing a coordinate is defined behaviour. */
  predicate Drawable(args: Arguments) {
    Valid(args) && args.bound <= CoordinateLimit
  }

  /** A value drawn from the source and the index of the first word not yet read. */
  datatype Drawn<T> = Drawn(value: T, next: nat)

  predicate InBox(p: Coordinate, c: int) {
    -c <= p.row <= c && -c <= p.col <= c
  }

  predicate AllInBox(segs: seq<Segment>, c: int) {
    forall i | 0 <= i < |segs| :: InBox(segs[i].from, c) && InBox(segs[i].to, c)
  }

  /** Each segment starts where the one before it ends. */
  predicate Chained(segs: seq<Segment>) {
    forall i | 0 < i < |segs| :: segs[i].from == segs[i - 1].to
  }

  predicate IsName(name: string) {
    |name| == 10 && forall i | 0 <= i < |name| :: 'A' <= name[i] <= 'Z'
  }

  /** What the generator promises about one street, for `-n n` and `-c c`. */
  predicate WellFormed(p: Path, n: int, c: int) {
    && 1 <= |p.segments| <= n
    && Chained(p.segments)
    && AllInBox(p.segments, c)
    && IsName(p.identifier)
  }

  /** `generateCoordinate`: two words, the row first. */
  function DrawCoordinate(rand: Source, k: nat, c: int): (p: Coordinate)
    requires 1 <= c <= CoordinateLimit
    ensures InBox(p, c)
  {
    Coordinate(Axis(rand(k), c), Axis(rand(k + 1), c))
  }

  /** `generateStreetName`: ten words, one letter each. */
  function DrawName(rand: Source, k: nat): (name: string)
    ensures |name| == 10 && forall i | 0 <= i < 10 :: name[i] == Letter(rand(k + i))
    ensures IsName(name)
  {
    seq(10, i requires 0 <= i < 10 => Letter(rand(k + i)))
  }

  /**
   * The segments of a street from `start` on: each new segment starts at the
   * end of the previous one and ends at a point drawn from two words.
   */
  function DrawSegments(rand: Source, k: nat, c: int, start: Coordinate, count: nat): (segs: seq<Segment>)
    requires 1 <= c <= CoordinateLimit
    ensures |segs| == count
    ensures count > 0 ==> segs[0].from == start
    ensures Chained(segs)
    ensures InBox(start, c) ==> AllInBox(segs, c)
    decreases count
  {
    if count == 0 then []
    else
      var e := Segment(start, DrawCoordinate(rand, k, c));
      [e] + DrawSegments(rand, k + 2, c, e.to, count - 1)
  }

  /** One street: its segment count, its first point, its segments, then its name. */
  function DrawStreet(rand: Source, k: nat, n: int, c: int): (d: Drawn<Path>)
    requires 1 <= n <= Stream.IntMax && 1 <= c <= CoordinateLimit
    ensures WellFormed(d.value, n, c)
    ensures d.next == k + 13 + 2 * |d.value.segments|
  {
    var count := SegmentCount(rand(k), n);
    var start := DrawCoordinate(rand, k + 1, c);
    var segs := DrawSegments(rand, k + 3, c, start, count);
    Drawn(Path(DrawName(rand, k + 3 + 2 * count), segs), k + 13 + 2 * count)
  }

  function DrawStreets(rand: Source, k: nat, count: nat, n: int, c: int): (d: Drawn<seq<Path>>)
    requires 1 <= n <= Stream.IntMax && 1 <= c <= CoordinateLimit
    ensures |d.value| == count
    ensures forall i | 0 <= i < count :: WellFormed(d.value[i], n, c)
    ensures d.next >= k
    decreases count
  {
    if count == 0 then Drawn([], k)
    else
      var first := DrawStreet(rand, k, n, c);
      var rest := DrawStreets(rand, first.next, count - 1, n, c);
      Drawn([first.value] + rest.value, rest.next)
  }

  /** `generateStreets`: a street count, then that many streets. */
  function GenerateStreets(rand: Source, k: nat, args: Arguments): (d: Drawn<seq<Path>>)
    requires Drawable(args)
    ensures 2 <= |d.value| <= args.streets
    ensures forall i | 0 <= i < |d.value| :: WellFormed(d.value[i], args.segments, args.bound)
    ensures d.next > k
  {
    DrawStreets(rand, k + 1, StreetCount(rand(k), args.streets), args.segments, args.bound)
  }

  // ---------------------------------------------------------------- one round

  const MaxAttempts: nat := 25

  /** The streets of attempt `t` of a round whose first attempt reads from word `k`. */
  function Attempt(rand: Source, k: nat, args: Arguments, t: nat): Drawn<seq<Path>>
    requires Drawable(args)
    decreases t
  {
    if t == 0 then GenerateStreets(rand, k, args)
    else GenerateStreets(rand, Attempt(rand, k, args, t - 1).next, args)
  }

  /**
   * A round prints an accepted set, gives up after 25 rejected ones, or, when
   * `-c` is too large for `2 * c + 1`, has no defined behaviour at all: every
   * attempt draws at least one coordinate.
   */
  datatype RoundResult = Printed(streets: seq<Path>, next: nat) | GaveUp | Undefined

  /**
   * The inner loop of `main` over the attempts in order: the first one that
   * passes the street check, if any.
   */
  method FirstAccepted(tries: seq<Drawn<seq<Path>>>) returns (r: Option<nat>)
    ensures r.None? <==> forall t | 0 <= t < |tries| :: !Acceptable(tries[t].value)
    ensures r.Some? ==> r.value < |tries| && Acceptable(tries[r.value].value)
    ensures r.Some? ==> forall t | 0 <= t < r.value :: !Acceptable(tries[t].value)
  {
    var attempts: nat := 0;
    while attempts < |tries|
      invariant attempts <= |tries|
      invariant forall t | 0 <= t < attempts :: !Acceptable(tries[t].value)
    {
      var ok := CheckStreets(tries[attempts].value);
      if ok {
        return Some(attempts);
      }
      attempts := attempts + 1;
    }
    return None;
  }

  /**
   * One round of `main`: up to 25 attempts, each reading on from where the
   * previous one stopped; the first set that passes is printed, and if none
   * does the program stops.
   */
  method Round(rand: Source, k: nat, args: Arguments) returns (r: RoundResult)
    requires Valid(args)
    ensures r.Undefined? <==> args.bound > CoordinateLimit
    ensures r.GaveUp? <==> Drawable(args) && forall t | 0 <= t < MaxAttempts :: !Acceptable(Attempt(rand, k, args, t).value)
    ensures r.Printed? ==> Drawable(args) && exists t | 0 <= t < MaxAttempts ::
      && Attempt(rand, k, args, t) == Drawn(r.streets, r.next)
      && (forall t' | 0 <= t' < t :: !Acceptable(Attempt(rand, k, args, t').value))
    ensures r.Printed? ==> Acceptable(r.streets)
  {
    if args.bound > CoordinateLimit {
      return Undefined;
    }
    var tries := seq(MaxAttempts, t requires 0 <= t < MaxAttempts => Attempt(rand, k, args, t));
    var first := FirstAccepted(tries);
    if first.None? {
      forall t | 0 <= t < MaxAttempts
        ensures !Acceptable(Attempt(rand, k, args, t).value)
      {
        assert tries[t] == Attempt(rand, k, args, t);
      }
      return GaveUp;
    }
    var t := first.value;
    assert tries[t] == Attempt(rand, k, args, t);
    assert Acceptable(Attempt(rand, k, args, t).value);
    forall t' | 0 <= t' < t
      ensures !Acceptable(Attempt(rand, k, args, t').value)
    {
      assert tries[t'] == Attempt(rand, k, args, t');
    }
    r := Printed(tries[t].value, tries[t].next);
    assert Attempt(rand, k, args, t) == Drawn(r.streets, r.next);
  }

  /** A printed round is made of well-formed streets within the option bounds. */
  lemma RoundStreetsWellFormed(rand: Source, k: nat, args: Arguments, t: nat)
    requires Drawable(args)
    ensures 2 <= |Attempt(rand, k, args, t).value| <= args.streets
    ensures forall i | 0 <= i < |Attempt(rand, k, args, t).value| ::
      WellFormed(Attempt(rand, k, args, t).value[i], args.segments, args.bound)
  {
  }

  // ---------------------------------------------------------------- the cross products

  /**
   * The largest `-c` for which the cross products of `isPointOnSegment`
   * always fit in an `int`: differences of coordinates in `[-c, c]` lie in
   * `[-2c, 2c]`, and `(2c)^2` stays below 2^31 up to here.
   */
  const ProductLimit: int := 23170

  /** The two products `isPointOnSegment` compares, once the bounding-box tests pass. */
  function CrossProducts(p: Coordinate, e: Segment): (int, int) {
    ((p.row - e.from.row) * (e.to.col - e.from.col), (p.col - e.from.col) * (e.to.row - e.from.row))
  }

  /** Up to `ProductLimit` the exact products are the ones C++ computes: neither overflows. */
  lemma ProductsFit(p: Coordinate, e: Segment, c: int)
    requires 1 <= c <= ProductLimit
    requires InBox(p, c) && InBox(e.from, c) && InBox(e.to, c)
    ensures Stream.InIntRange(CrossProducts(p, e).0) && Stream.InIntRange(CrossProducts(p, e).1)
  {
    BoundedProduct(p.row - e.from.row, e.to.col - e.from.col, 2 * c);
    BoundedProduct(p.col - e.from.col, e.to.row - e.from.row, 2 * c);
    assert (2 * c) * (2 * c) <= (2 * ProductLimit) * (2 * ProductLimit) by {
      BoundedProduct(2 * c, 2 * c, 2 * ProductLimit);
    }
  }

  lemma BoundedProduct(a: int, b: int, m: int)
    requires -m <= a <= m && -m <= b <= m
    ensures -(m * m) <= a * b <= m * m
  {
    var x, y := if a < 0 then -a else a, if b < 0 then -b else b;
    ScaleUp(x, y, m);
    ScaleUp(y, m, m);
    assert x * y == y * x;
    assert a * b == x * y || a * b == -(x * y);
  }

  /** Multiplying by a nonnegative factor keeps `x <= m`. */
  lemma ScaleUp(x: int, y: int, m: int)
    requires 0 <= x <= m && 0 <= y
    ensures x * y <= m * y
  {
    NonNegative(m - x, y);
    assert (m - x) * y == m * y - x * y;
  }

  lemma {:induction false} NonNegative(a: nat, b: nat)
    ensures a * b >= 0
    decreases a
  {
    if a > 0 {
      NonNegative(a - 1, b);
      assert a * b == (a - 1) * b + b;
    }
  }

  /**
   * One past `ProductLimit` a point of the box on the diagonal of the box
   * makes the first product exceed `INT_MAX`: the C++ test overflows there.
   */
  lemma ProductOverflowsAbove()
    ensures var c := ProductLimit + 1;
      var e := Segment(Coordinate(-c, -c), Coordinate(c, c));
      var p := Coordinate(c, c);
      && InBox(p, c) && InBox(e.from, c) && InBox(e.to, c)
      && Min(e.from.row, e.to.row) <= p.row <= Max(e.from.row, e.to.row)
      && Min(e.from.col, e.to.col) <= p.col <= Max(e.from.col, e.to.col)
      && CrossProducts(p, e).0 > Stream.IntMax
  {
  }

  // ---------------------------------------------------------------- the command line

  /** The options the parser knows: `-s`, `-n`, `-l`, `-c`. */
  datatype Flag = S | N | L | C

  function FlagOf(arg: string): Option<Flag> {
    if arg == "-s" then Some(S)
    else if arg == "-n" then Some(N)
    else if arg == "-l" then Some(L)
    else if arg == "-c" then Some(C)
    else None
  }

  function Minimum(f: Flag): int {
    match f
    case S => 2
    case N => 1
    case L => 5
    case C => 1
  }

  function With(args: Arguments, f: Flag, v: int): Arguments {
    match f
    case S => args.(streets := v)
    case N => args.(segments := v)
    case L => args.(wait := v)
    case C => args.(bound := v)
  }

  /** The two error messages, each naming its option, after which the program exits with status 1. */
  datatype ArgError = NotInteger(flag: Flag) | TooSmall(flag: Flag)

  /** Options read, an error exit, or an exception `std::stoi` throws that nothing catches. */
  datatype Parse = Parsed(args: Arguments) | Exit(error: ArgError) | Thrown

  function SignLength(v: string): nat
    requires |v| > 0
  {
    if v[0] == '-' || v[0] == '+' then 1 else 0
  }

  /** The parser's integer test: non-empty, a digit or sign first, digits after the sign. */
  predicate IsIntegerAsWritten(v: string) {
    && |v| > 0
    && (IsDigit(v[0]) || v[0] == '-' || v[0] == '+')
    && AllDigits(v[SignLength(v)..])
  }

  /** The integer test with at least one digit after the sign. */
  predicate IsInteger(v: string) {
    IsIntegerAsWritten(v) && |v| > SignLength(v)
  }

  /** The signed value of a sign and digits. */
  function IntegerValue(v: string): int
    requires IsIntegerAsWritten(v)
  {
    if v[0] == '-' then -DigitsValue(v[1..]) else DigitsValue(v[SignLength(v)..])
  }

  /**
   * `std::stoi` on a string the integer test accepted: with no digit it
   * throws `invalid_argument`, and beyond the `int` range `out_of_range`.
   */
  function Stoi(v: string): (r: Option<int>)
    requires IsIntegerAsWritten(v)
    ensures r.Some? ==> Stream.InIntRange(r.value)
  {
    if |v| == SignLength(v) then None
    else if !Stream.InIntRange(IntegerValue(v)) then None
    else Some(IntegerValue(v))
  }

  /**
   * `CommandLineParser::parse` from argument `i` on: an option followed by a
   * value sets that option, and the scan moves on by one argument, so the
   * value is looked at again as a possible option. A last argument with
   * nothing after it is ignored. `strict` selects the corrected integer test.
   */
  function ParseFrom(argv: seq<string>, i: nat, args: Arguments, strict: bool): (r: Parse)
    requires Valid(args)
    ensures r.Parsed? ==> Valid(r.args)
    decreases |argv| - i
  {
    if i + 1 >= |argv| then Parsed(args)
    else match FlagOf(argv[i])
      case None => ParseFrom(argv, i + 1, args, strict)
      case Some(f) =>
        var value := argv[i + 1];
        if !IsIntegerAsWritten(value) || (strict && !IsInteger(value)) then Exit(NotInteger(f))
        else match Stoi(value)
          case None => Thrown
          case Some(v) =>
            if v < Minimum(f) then Exit(TooSmall(f)) else ParseFrom(argv, i + 1, With(args, f, v), strict)
  }

  /** `CommandLineParser::parse` as written: a lone sign passes the integer test. */
  function ParseArgsAsWritten(argv: seq<string>): (r: Parse)
    ensures r.Parsed? ==> Valid(r.args)
  {
    ParseFrom(argv, 1, Defaults, false)
  }

  /** `CommandLineParser::parse` with a lone sign reported as a non-integer. */
  function ParseArgs(argv: seq<string>): (r: Parse)
    ensures r.Parsed? ==> Valid(r.args)
  {
    ParseFrom(argv, 1, Defaults, true)
  }

  /** A lone `-` after `-s` passes the integer test as written and makes `std::stoi` throw. */
  lemma SignOnlyThrows()
    ensures ParseArgsAsWritten(["rgen", "-s", "-"]) == Thrown
    ensures ParseArgs(["rgen", "-s", "-"]) == Exit(NotInteger(S))
  {
    assert FlagOf("-s") == Some(S);
    assert IsIntegerAsWritten("-") && !IsInteger("-");
  }

  /** With the corrected test, a value that passes converts unless it is out of the `int` range. */
  lemma IntegerConverts(v: string)
    requires IsInteger(v)
    ensures Stoi(v).Some? <==> Stream.InIntRange(IntegerValue(v))
    ensures Stoi(v).Some? ==> Stoi(v).value == IntegerValue(v)
  {
  }

  /** Under the corrected test the parser throws only for a value outside the `int` range. */
  lemma {:induction false} StrictThrowsOnlyOutOfRange(argv: seq<string>, i: nat, args: Arguments)
    requires Valid(args) && ParseFrom(argv, i, args, true) == Thrown
    ensures exists j | i < j < |argv| :: IsInteger(argv[j]) && !Stream.InIntRange(IntegerValue(argv[j]))
    decreases |argv| - i
  {
    var f := FlagOf(argv[i]);
    if f.None? {
      StrictThrowsOnlyOutOfRange(argv, i + 1, args);
    } else {
      var value := argv[i + 1];
      if Stoi(value).None? {
        assert IsInteger(argv[i + 1]) && !Stream.InIntRange(IntegerValue(argv[i + 1]));
      } else {
        StrictThrowsOnlyOutOfRange(argv, i + 1, With(args, f.value, Stoi(value).value));
      }
    }
  }

  /** Arguments that name none of the four options leave every default in place. */
  lemma {:induction false} NoOptionsKeepsDefaults(argv: seq<string>, i: nat, args: Arguments)
    requires Valid(args)
    requires forall j | i <= j < |argv| :: FlagOf(argv[j]).None?
    ensures ParseFrom(argv, i, args, true) == Parsed(args)
    ensures ParseFrom(argv, i, args, false) == Parsed(args)
    decreases |argv| - i
  {
    if i + 1 < |argv| {
      NoOptionsKeepsDefaults(argv, i + 1, args);
    }
  }

  function FlagText(f: Flag): string {
    match f
    case S => "-s"
    case N => "-n"
    case L => "-l"
    case C => "-c"
  }

  /** A value printed in decimal is read back by the integer test and `std::stoi`. */
  lemma IntToStringConverts(v: int)
    requires Stream.InIntRange(v)
    ensures IsInteger(IntToString(v)) && Stoi(IntToString(v)) == Some(v)
  {
    var t := IntToString(v);
    if v < 0 {
      NatToStringRoundTrip(-v);
      assert t[1..] == NatToString(-v);
    } else {
      NatToStringRoundTrip(v);
      assert IsDigit(t[0]);
    }
  }

  /** One option with a decimal value: the option is set, or the minimum error is reported. */
  lemma OneOptionRoundTrip(f: Flag, v: int)
    requires Stream.InIntRange(v)
    ensures ParseArgs(["rgen", FlagText(f), IntToString(v)]) ==
      if v < Minimum(f) then Exit(TooSmall(f)) else Parsed(With(Defaults, f, v))
  {
    var argv := ["rgen", FlagText(f), IntToString(v)];
    IntToStringConverts(v);
    assert FlagOf(argv[1]) == Some(f);
    assert Stoi(argv[2]) == Some(v);
    if v >= Minimum(f) {
      assert ParseFrom(argv, 2, With(Defaults, f, v), true) == Parsed(With(Defaults, f, v));
    }
  }

  /** `main` up to the first round: the options, then the wait drawn from one word. */
  datatype Launch = Launched(args: Arguments, wait: int) | Failed(error: ArgError) | Aborted

  /**
   * `main` as written: the parser with its integer test as it stands. A run
   * that does not abort is one the corrected parser would have made too.
   */
  function Start(argv: seq<string>, waitWord: Word): (r: Launch)
    ensures r.Launched? ==> Valid(r.args) && 5 <= r.wait <= r.args.wait
    ensures r.Launched? ==> ParseArgs(argv) == Parsed(r.args)
    ensures r.Failed? ==> ParseArgs(argv) == Exit(r.error)
    ensures r.Aborted? <==> ParseArgsAsWritten(argv).Thrown?
    ensures r.Launched? ==> ParseArgsAsWritten(argv) == Parsed(r.args) && r.wait == WaitTime(waitWord, r.args.wait)
    ensures r.Failed? ==> ParseArgsAsWritten(argv) == Exit(r.error)
  {
    ParseAgrees(argv, 1, Defaults);
    match ParseArgsAsWritten(argv)
    case Parsed(args) => Launched(args, WaitTime(waitWord, args.wait))
    case Exit(e) => Failed(e)
    case Thrown => Aborted
  }

  /** `rgen -s -` ends with the uncaught exception. */
  lemma StartSignOnlyAborts(waitWord: Word)
    ensures Start(["rgen", "-s", "-"], waitWord) == Aborted
  {
    SignOnlyThrows();
  }

  /** The two integer tests lead to different results only where the one as written throws. */
  lemma {:induction false} ParseAgrees(argv: seq<string>, i: nat, args: Arguments)
    requires Valid(args)
    ensures ParseFrom(argv, i, args, false) != Thrown ==> ParseFrom(argv, i, args, true) == ParseFrom(argv, i, args, false)
    decreases |argv| - i
  {
    if i + 1 < |argv| {
      match FlagOf(argv[i])
      case None => ParseAgrees(argv, i + 1, args);
      case Some(f) =>
        var value := argv[i + 1];
        if IsIntegerAsWritten(value) {
          match Stoi(value)
          case None =>
          case Some(v) =>
            assert IsInteger(value);
            if v >= Minimum(f) {
              ParseAgrees(argv, i + 1, With(args, f, v));
            }
        }
    }
  }

  // ---------------------------------------------------------------- printing

  /** The printer's globals: how many times it has printed, and the names it printed last. */
  datatype Printer = Printer(calls: nat, names: seq<string>)

  const Fresh: Printer := Printer(0, [])

  function CoordinateText(p: Coordinate): string {
    "(" + IntToString(p.row) + "," + IntToString(p.col) + ")"
  }

  /**
   * The inner loop of `printStreets` from segment `i` on: each segment's
   * start and a blank, and after the last segment its end and a newline.
   */
  function SegmentsText(segs: seq<Segment>, i: nat): string
    decreases |segs| - i
  {
    if i >= |segs| then ""
    else
      CoordinateText(segs[i].from) + " "
      + (if i == |segs| - 1 then CoordinateText(segs[i].to) + "\n" else "")
      + SegmentsText(segs, i + 1)
  }

  /** One `rm` line: the quoted name. */
  function RemoveLine(name: string): string {
    "rm \"" + name + "\"\n"
  }

  function RemoveLines(names: seq<string>): string {
    if |names| == 0 then "" else RemoveLines(names[..|names| - 1]) + RemoveLine(names[|names| - 1])
  }

  /** One street's line: `add`, the quoted name, a blank, then the segment loop's text. */
  function AddLine(p: Path): string {
    "add \"" + p.identifier + "\" " + SegmentsText(p.segments, 0)
  }

  function AddLines(paths: seq<Path>): string {
    if |paths| == 0 then "" else AddLines(paths[..|paths| - 1]) + AddLine(paths[|paths| - 1])
  }

  function Identifiers(paths: seq<Path>): (ids: seq<string>)
    ensures |ids| == |paths|
  {
    seq(|paths|, i requires 0 <= i < |paths| => paths[i].identifier)
  }

  /**
   * `printStreets`: after the first call an `rm` for every name printed
   * last time, then an `add` per street, then `gg`; the new names replace
   * the old ones.
   */
  function PrintStreets(pr: Printer, paths: seq<Path>): (r: (Printer, string))
    ensures r.0.calls == pr.calls + 1
  {
    var removes := if pr.calls > 0 then RemoveLines(pr.names) else "";
    (Printer(pr.calls + 1, Identifiers(paths)), removes + AddLines(paths) + "gg\n")
  }

  /** The lines the printer writes, one command each. */
  datatype Command = Remove(name: string) | Add(name: string, points: seq<Coordinate>) | Gg

  /** The start of every segment, then the end of the last one. */
  function Points(segs: seq<Segment>): (pts: seq<Coordinate>)
    ensures |segs| > 0 ==> |pts| == |segs| + 1
  {
    if |segs| == 0 then [] else seq(|segs|, i requires 0 <= i < |segs| => segs[i].from) + [segs[|segs| - 1].to]
  }

  /** Points separated by blanks, a newline after the last. */
  function PointsText(pts: seq<Coordinate>): string {
    if |pts| == 0 then ""
    else if |pts| == 1 then CoordinateText(pts[0]) + "\n"
    else CoordinateText(pts[0]) + " " + PointsText(pts[1..])
  }

  function Render(c: Command): string {
    match c
    case Remove(name) => RemoveLine(name)
    case Add(name, pts) => "add \"" + name + "\" " + PointsText(pts)
    case Gg => "gg\n"
  }

  function RenderAll(cmds: seq<Command>): string {
    if |cmds| == 0 then "" else RenderAll(cmds[..|cmds| - 1]) + Render(cmds[|cmds| - 1])
  }

  function Removes(names: seq<string>): seq<Command> {
    seq(|names|, i requires 0 <= i < |names| => Remove(names[i]))
  }

  function Adds(paths: seq<Path>): seq<Command> {
    seq(|paths|, i requires 0 <= i < |paths| => Add(paths[i].identifier, Points(paths[i].segments)))
  }

  /** The commands one call prints. */
  function Commands(pr: Printer, paths: seq<Path>): seq<Command> {
    (if pr.calls > 0 then Removes(pr.names) else []) + Adds(paths) + [Gg]
  }

  /** The consecutive pairs of points, as the reading side rebuilds segments from an `add` line. */
  function SegmentsOf(pts: seq<Coordinate>): (segs: seq<Segment>)
    requires |pts| > 0
  {
    seq(|pts| - 1, i requires 0 <= i < |pts| - 1 => Segment(pts[i], pts[i + 1]))
  }

  /** The loop's text for a street is its point list, blank-separated, newline-terminated. */
  lemma {:induction false} SegmentsTextIsPoints(segs: seq<Segment>, i: nat)
    requires i <= |segs|
    ensures SegmentsText(segs, i) == (if i == |segs| then "" else PointsText(Points(segs)[i..]))
    decreases |segs| - i
  {
    if i < |segs| {
      var pts := Points(segs);
      SegmentsTextIsPoints(segs, i + 1);
      if i == |segs| - 1 {
        assert pts[i..] == [segs[i].from, segs[i].to];
      } else {
        assert pts[i..][1..] == pts[i + 1..];
        assert pts[i..][0] == segs[i].from;
      }
    }
  }

  /** The points printed for a chained street give back exactly its segments. */
  lemma PointsRecoverSegments(segs: seq<Segment>)
    requires |segs| > 0 && Chained(segs)
    ensures SegmentsOf(Points(segs)) == segs
  {
    var pts := Points(segs);
    forall i | 0 <= i < |segs|
      ensures SegmentsOf(pts)[i] == segs[i]
    {
      if i < |segs| - 1 {
        assert pts[i + 1] == segs[i + 1].from == segs[i].to;
      }
    }
  }

  lemma {:induction false} RenderAllAppend(a: seq<Command>, b: seq<Command>)
    ensures RenderAll(a + b) == RenderAll(a) + RenderAll(b)
    decreases |b|
  {
    if |b| > 0 {
      var init, last := b[..|b| - 1], b[|b| - 1];
      assert b == init + [last];
      assert a + b == (a + init) + [last];
      RenderAllAppend(a, init);
      RenderAllSnoc(a + init, last);
      RenderAllSnoc(init, last);
    } else {
      assert a + b == a;
    }
  }

  lemma RenderAllSnoc(cmds: seq<Command>, c: Command)
    ensures RenderAll(cmds + [c]) == RenderAll(cmds) + Render(c)
  {
    assert (cmds + [c])[..|cmds|] == cmds;
  }

  lemma {:induction false} RemoveLinesRender(names: seq<string>)
    ensures RemoveLines(names) == RenderAll(Removes(names))
    decreases |names|
  {
    if |names| > 0 {
      RemoveLinesRender(names[..|names| - 1]);
      assert Removes(names)[..|names| - 1] == Removes(names[..|names| - 1]);
    }
  }

  /** One street's `add` line is the rendering of its `Add` command. */
  lemma AddLineRender(p: Path)
    ensures AddLine(p) == Render(Add(p.identifier, Points(p.segments)))
  {
    SegmentsTextIsPoints(p.segments, 0);
    if |p.segments| == 0 {
      assert Points(p.segments) == [];
    } else {
      assert Points(p.segments)[0..] == Points(p.segments);
    }
  }

  lemma {:induction false} AddLinesRender(paths: seq<Path>)
    ensures AddLines(paths) == RenderAll(Adds(paths))
    decreases |paths|
  {
    if |paths| > 0 {
      var front, p := paths[..|paths| - 1], paths[|paths| - 1];
      var cmds := Adds(paths);
      AddLinesRender(front);
      assert cmds[..|paths| - 1] == Adds(front);
      AddLineRender(p);
      calc {
        AddLines(paths);
        AddLines(front) + AddLine(p);
        RenderAll(cmds[..|paths| - 1]) + Render(cmds[|paths| - 1]);
        RenderAll(cmds);
      }
    }
  }

  /** What `printStreets` writes is its command list, rendered line by line. */
  lemma PrintedText(pr: Printer, paths: seq<Path>)
    ensures PrintStreets(pr, paths).1 == RenderAll(Commands(pr, paths))
  {
    var removes := if pr.calls > 0 then Removes(pr.names) else [];
    RemoveLinesRender(pr.names);
    assert RenderAll(removes) == if pr.calls > 0 then RemoveLines(pr.names) else "";
    AddLinesRender(paths);
    RenderAllAppend(removes, Adds(paths));
    RenderAllAppend(removes + Adds(paths), [Gg]);
    assert RenderAll([Gg]) == "gg\n";
    assert Commands(pr, paths) == removes + Adds(paths) + [Gg];
  }

  /**
   * The first call removes nothing; every later call first removes, in
   * order, each street the call before it added, then adds its own streets
   * with all their points, then ends with `gg`.
   */
  lemma PrintBookkeeping(pr: Printer, ps: seq<Path>, qs: seq<Path>)
    ensures forall c | c in Commands(Fresh, ps) :: !c.Remove?
    ensures var next := PrintStreets(pr, ps).0;
      && |Commands(next, qs)| == |ps| + |qs| + 1
      && (forall i | 0 <= i < |ps| :: Commands(next, qs)[i] == Remove(ps[i].identifier))
      && (forall i | 0 <= i < |qs| ::
            Commands(next, qs)[|ps| + i] == Add(qs[i].identifier, Points(qs[i].segments)))
      && Commands(next, qs)[|ps| + |qs|] == Gg
  {
    FirstCallAddsOnly(ps);
    var next := PrintStreets(pr, ps).0;
    assert next == Printer(pr.calls + 1, Identifiers(ps));
    LaterCallLayout(next, ps, qs);
  }

  /** The first call prints only `add` lines and `gg`. */
  lemma FirstCallAddsOnly(ps: seq<Path>)
    ensures forall c | c in Commands(Fresh, ps) :: !c.Remove?
  {
    assert Commands(Fresh, ps) == Adds(ps) + [Gg];
  }

  /** A later call's commands: the removals of the recorded names, the additions, `gg`. */
  lemma LaterCallLayout(next: Printer, ps: seq<Path>, qs: seq<Path>)
    requires next.calls > 0 && next.names == Identifiers(ps)
    ensures |Commands(next, qs)| == |ps| + |qs| + 1
    ensures forall i | 0 <= i < |ps| :: Commands(next, qs)[i] == Remove(ps[i].identifier)
    ensures forall i | 0 <= i < |qs| ::
      Commands(next, qs)[|ps| + i] == Add(qs[i].identifier, Points(qs[i].segments))
    ensures Commands(next, qs)[|ps| + |qs|] == Gg
  {
    var rs := Removes(Identifiers(ps));
    var adds := Adds(qs);
    assert Commands(next, qs) == rs + adds + [Gg];
    assert |rs| == |ps| && |adds| == |qs|;
    forall i | 0 <= i < |ps|
      ensures (rs + adds + [Gg])[i] == Remove(ps[i].identifier)
    {
      assert rs[i] == Remove(Identifiers(ps)[i]);
    }
    forall i | 0 <= i < |qs|
      ensures (rs + adds + [Gg])[|ps| + i] == Add(qs[i].identifier, Points(qs[i].segments))
    {
      assert adds[i] == Add(qs[i].identifier, Points(qs[i].segments));
    }
  }
}
