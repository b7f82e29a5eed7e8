/** The seek loop of `get_next` as the source writes it, kept apart from the operator model so
    that its defect can be stated: the key comparison is taken once, before the loop, and every
    pass reads from both inputs, so a seek that starts with the inner side behind runs both inputs
    down until one of them ends and then reports the join complete. */
module AsWritten {
  import opened Tuples
  import opened JoinSpec
  import opened Streams

  /** The seek as written. The loop condition is `OuterBehind` applied, in the source's argument
      order, to the comparison of the inner key with the outer key: it holds while the inner
      side is behind in the configured order. `going` is false when the source sets `complete` and returns null;
      otherwise the operator goes on to buffering with the current tuples returned. The
      comparison is never recomputed inside the loop: the recompute is reached only when the
      stale comparison is zero, which the loop condition excludes. */
  method SeekAsWritten(order: Order, tupleOuter: Tuple, tupleInner: Tuple, outerIn: Stream, innerIn: Stream)
    returns (going: bool, outer: Tuple, inner: Tuple, outerAfter: Stream, innerAfter: Stream)
    ensures !OuterBehind(order, CompareKeys(tupleInner, tupleOuter)) ==>
              && going && outer == tupleOuter && inner == tupleInner
              && outerAfter == outerIn && innerAfter == innerIn
    ensures OuterBehind(order, CompareKeys(tupleInner, tupleOuter)) ==>
              !going && (outerAfter.rest == [] || innerAfter.rest == [])
  {
    var c := CompareKeys(tupleInner, tupleOuter);
    outer, inner, outerAfter, innerAfter := tupleOuter, tupleInner, outerIn, innerIn;
    while OuterBehind(order, c)
      invariant c == CompareKeys(tupleInner, tupleOuter)
      invariant !OuterBehind(order, c) ==>
                  outer == tupleOuter && inner == tupleInner && outerAfter == outerIn && innerAfter == innerIn
      decreases |outerAfter.rest|
    {
      var r: Option<Tuple>;
      r, outerAfter := outerAfter.GetNext().0, outerAfter.GetNext().1;
      if r.None? {
        return false, outer, inner, outerAfter, innerAfter;
      }
      outer := r.value;
      r, innerAfter := innerAfter.GetNext().0, innerAfter.GetNext().1;
      if r.None? {
        return false, outer, inner, outerAfter, innerAfter;
      }
      inner := r.value;
    }
    going := true;
  }

  /** The residual predicate that accepts every pair. */
  function AcceptAll(r: Tuple, s: Tuple): bool
  {
    true
  }

  /** An input on which the seek as written loses a join pair: ascending order, outer current
      key 2 with nothing after it, inner current key 1 followed by key 2. The loop is entered
      (the inner side is behind), so by `SeekAsWritten` the join is reported complete, yet the
      pending inputs still join the outer tuple with the second inner tuple. */
  lemma SeekAsWrittenLosesMatch()
    ensures var outer, inner, next := Tuple(2, "r"), Tuple(1, "s"), Tuple(2, "t");
            && OuterBehind(Ascending, CompareKeys(inner, outer))
            && NestedLoop(AcceptAll, [outer], [inner, next]) == [(outer, next)]
  {
    var outer, inner, next := Tuple(2, "r"), Tuple(1, "s"), Tuple(2, "t");
    assert [inner, next][1..] == [next];
    assert Matches(AcceptAll, outer, [next]) == [(outer, next)];
    assert Matches(AcceptAll, outer, [inner, next]) == [(outer, next)];
    assert [outer][1..] == [];
  }

  /** The seek as written, run on that input: it reports the join complete (`going` is false)
      while `pending`, the join of what the two inputs still held when the seek began, has a pair. */
  method SeekAsWrittenRun() returns (going: bool, pending: seq<Pair>)
    ensures !going && pending == [(Tuple(2, "r"), Tuple(2, "t"))]
  {
    var outer, inner, next := Tuple(2, "r"), Tuple(1, "s"), Tuple(2, "t");
    SeekAsWrittenLosesMatch();
    var outerNow, innerNow, outerAfter, innerAfter;
    going, outerNow, innerNow, outerAfter, innerAfter :=
      SeekAsWritten(Ascending, outer, inner, Stream([], false), Stream([next], false));
    pending := NestedLoop(AcceptAll, [outer], [inner, next]);
  }
}
