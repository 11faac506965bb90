/**
 * Where the items of an edge list written out as `<a,b>,<c,d>,...}` sit in
 * the line, and a property that every item of such a list has.
 */
module Items {
  import opened Graph

  /** Positions of the '<', the ',' and the '>' of one item. */
  datatype Slot = Slot(open: nat, comma: nat, close: nat)

  /** The separator after the first of `count` items: the closing brace when it is the last. */
  function Separator(count: nat): char {
    if count == 1 then '}' else ','
  }

  /**
   * Every item passes `ok` at its slot, with its separator, and each item
   * starts two places after the '>' of the one before it.
   */
  predicate Every(ok: (Slot, Pair, char) -> bool, ts: seq<Slot>, ps: seq<Pair>)
    decreases |ps|
  {
    && |ps| > 0 && |ts| == |ps|
    && ok(ts[0], ps[0], Separator(|ps|))
    && (|ps| > 1 ==> ts[1].open == ts[0].close + 2 && Every(ok, ts[1..], ps[1..]))
  }

  /** A first item that passes, in front of a list that passes. */
  lemma EveryCons(ok: (Slot, Pair, char) -> bool, ts: seq<Slot>, ps: seq<Pair>)
    requires |ps| > 0 && |ts| == |ps| && ok(ts[0], ps[0], Separator(|ps|))
    requires |ps| > 1 ==> ts[1].open == ts[0].close + 2 && Every(ok, ts[1..], ps[1..])
    ensures Every(ok, ts, ps)
  {
  }
}
