/** Small facts about sequences shared by the graph, cover and street models. */
module Seqs {

  /** No element occurs twice. */
  predicate Distinct<T(==)>(s: seq<T>) {
    forall i, j | 0 <= i < j < |s| :: s[i] != s[j]
  }

  /** Ascending without repetition. */
  predicate StrictlyIncreasing(s: seq<int>) {
    forall i, j | 0 <= i < j < |s| :: s[i] < s[j]
  }

  /** The elements of `s`, as a set. */
  function Elements<T>(s: seq<T>): set<T> {
    set x | x in s
  }

  /** The first position of `x` in `s`. */
  function Position<T(==)>(s: seq<T>, x: T): (i: nat)
    requires x in s
    ensures i < |s| && s[i] == x
    ensures forall j | 0 <= j < i :: s[j] != x
  {
    if s[0] == x then 0 else 1 + Position(s[1..], x)
  }

  /** A position holding `x` with no `x` before it is the first one. */
  lemma PositionAt<T>(s: seq<T>, x: T, i: nat)
    requires i < |s| && s[i] == x
    requires forall j | 0 <= j < i :: s[j] != x
    ensures Position(s, x) == i
  {
    if i > 0 {
      PositionAt(s[1..], x, i - 1);
    }
  }

  /** `std::reverse` on a copy. */
  function Reverse<T>(s: seq<T>): (r: seq<T>)
    ensures |r| == |s|
    ensures forall i | 0 <= i < |s| :: r[i] == s[|s| - 1 - i]
  {
    if |s| == 0 then [] else Reverse(s[1..]) + [s[0]]
  }

  /** Reversal keeps a sequence free of repetitions. */
  lemma ReverseDistinct<T>(s: seq<T>)
    requires Distinct(s)
    ensures Distinct(Reverse(s))
  {
    var r := Reverse(s);
    forall i, j | 0 <= i < j < |r|
      ensures r[i] != r[j]
    {
      assert r[i] == s[|s| - 1 - i] && r[j] == s[|s| - 1 - j];
    }
  }

  lemma ReverseReverse<T>(s: seq<T>)
    ensures Reverse(Reverse(s)) == s
  {
  }

  lemma {:induction false} DistinctCard<T>(s: seq<T>)
    requires Distinct(s)
    ensures |Elements(s)| == |s|
  {
    if |s| > 0 {
      var t := s[..|s| - 1];
      assert Distinct(t);
      DistinctCard(t);
      assert Elements(s) == Elements(t) + {s[|s| - 1]};
      assert s[|s| - 1] !in Elements(t);
    }
  }

  /** Two duplicate-free sequences over the same elements have the same length. */
  lemma SameElementsSameLength<T>(s: seq<T>, t: seq<T>)
    requires Distinct(s) && Distinct(t)
    requires Elements(s) == Elements(t)
    ensures |s| == |t|
  {
    DistinctCard(s);
    DistinctCard(t);
  }

  lemma StrictlyIncreasingIsDistinct(s: seq<int>)
    requires StrictlyIncreasing(s)
    ensures Distinct(s)
  {
  }

  /** Concatenation of a sequence of blocks, in order. */
  function Concat<T>(ss: seq<seq<T>>): seq<T> {
    if |ss| == 0 then [] else Concat(ss[..|ss| - 1]) + ss[|ss| - 1]
  }

  lemma {:induction false} ConcatUniform<T>(ss: seq<seq<T>>, width: nat)
    requires forall i | 0 <= i < |ss| :: |ss[i]| == width
    ensures |Concat(ss)| == |ss| * width
  {
    if |ss| > 0 {
      ConcatUniform(ss[..|ss| - 1], width);
    }
  }

  lemma {:induction false} ConcatMember<T>(ss: seq<seq<T>>, x: T)
    ensures x in Concat(ss) <==> exists i | 0 <= i < |ss| :: x in ss[i]
  {
    if |ss| > 0 {
      var front := ss[..|ss| - 1];
      ConcatMember(front, x);
      if x in Concat(ss) && x !in ss[|ss| - 1] {
        var i :| 0 <= i < |front| && x in front[i];
        assert x in ss[i];
      }
      if (exists i | 0 <= i < |ss| :: x in ss[i]) && x !in ss[|ss| - 1] {
        var i :| 0 <= i < |ss| && x in ss[i];
        assert x in front[i];
      }
    }
  }

  /** Dropping the head of a sequence built by putting `a` in front of `t` gives `t`. */
  lemma ConsTail<T>(a: T, t: seq<T>)
    ensures ([a] + t)[1..] == t
  {
  }

  /** A window of `s` that equals `w` carries every slice of `w` at the same offset. */
  /** Where the pieces of `[x] + a + [y] + b + [z, u]` sit when that text starts at `k`. */
  lemma FramedParts<T>(s: seq<T>, k: nat, x: T, a: seq<T>, y: T, b: seq<T>, z: T, u: T)
    requires k + |a| + |b| + 4 <= |s|
    requires s[k..k + |a| + |b| + 4] == [x] + a + [y] + b + [z, u]
    ensures s[k] == x && s[k + 1 + |a|] == y && s[k + 2 + |a| + |b|] == z && s[k + 3 + |a| + |b|] == u
    ensures s[k + 1..k + 1 + |a|] == a && s[k + 2 + |a|..k + 2 + |a| + |b|] == b
  {
    var w := [x] + a + [y] + b + [z, u];
    assert w[1..1 + |a|] == a && w[2 + |a|..2 + |a| + |b|] == b;
    SliceWindow(s, k, w, 1, 1 + |a|);
    SliceWindow(s, k, w, 2 + |a|, 2 + |a| + |b|);
    assert s[k] == w[0] && s[k + 1 + |a|] == w[1 + |a|];
    assert s[k + 2 + |a| + |b|] == w[2 + |a| + |b|] && s[k + 3 + |a| + |b|] == w[3 + |a| + |b|];
  }

  lemma SliceWindow<T>(s: seq<T>, k: nat, w: seq<T>, i: nat, j: nat)
    requires k + |w| <= |s| && s[k..k + |w|] == w
    requires i <= j <= |w|
    ensures s[k + i..k + j] == w[i..j]
  {
    forall x | 0 <= x < j - i
      ensures s[k + i..k + j][x] == w[i..j][x]
    {
      assert s[k + i + x] == s[k..k + |w|][i + x];
    }
  }

  /** The second and the last part of a four-part concatenation, sliced back out. */
  lemma Parts<T>(p: seq<T>, q: seq<T>, r: seq<T>, t: seq<T>)
    ensures (p + q + r + t)[|p|..|p| + |q|] == q
    ensures (p + q + r + t)[|p| + |q| + |r|..] == t
  {
    var s := p + q + r + t;
    assert s[|p|..|p| + |q|] == q by {
      forall x | 0 <= x < |q| ensures s[|p| + x] == q[x] { }
    }
  }

  /** When the suffix of `s` at `k` is `x + y`, the part up to and including `y`'s head, and the rest after it. */
  lemma SplitAfter<T>(s: seq<T>, k: nat, x: seq<T>, y: seq<T>, j: nat)
    requires k <= |s| && s[k..] == x + y && |y| > 0 && j == k + |x| + 1
    ensures k + |x| < |s|
    ensures s[k..k + |x| + 1] == x + [y[0]]
    ensures s[j..] == y[1..]
  {
    assert s[k..][..|x| + 1] == x + [y[0]];
    assert s[k..][|x| + 1..] == y[1..];
  }
}
