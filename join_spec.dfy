/** What the sort-merge join must produce, stated independently of the merge: the nested-loop
    equi-join of the two inputs, filtered by the residual predicate, and the facts about it that
    the merge relies on. */
module JoinSpec {
  import opened Tuples

  /** An (outer tuple, inner tuple) pair accepted by the join. */
  type Pair = (Tuple, Tuple)

  /** The pairs that the outer tuple `r` forms with `inner`, in the order of `inner`:
      equal join keys, and accepted by the residual predicate `filter`. */
  function Matches(filter: (Tuple, Tuple) -> bool, r: Tuple, inner: seq<Tuple>): (m: seq<Pair>)
    ensures |m| <= |inner|
  {
    if inner == [] then []
    else
      (if inner[0].key == r.key && filter(r, inner[0]) then [(r, inner[0])] else [])
      + Matches(filter, r, inner[1..])
  }

  /** The equi-join of `outer` and `inner` as a nested loop: for each outer tuple in turn, every
      inner tuple with the same key that `filter` accepts. */
  function NestedLoop(filter: (Tuple, Tuple) -> bool, outer: seq<Tuple>, inner: seq<Tuple>): seq<Pair>
  {
    if outer == [] then []
    else
      Matches(filter, outer[0], inner) + NestedLoop(filter, outer[1..], inner)
  }

  // ---------------------------------------------------------------------------------------------
  // Algebra of the nested loop

  lemma NestedLoopUnfold(filter: (Tuple, Tuple) -> bool, outer: seq<Tuple>, inner: seq<Tuple>)
    requires outer != []
    ensures NestedLoop(filter, outer, inner) == Matches(filter, outer[0], inner) + NestedLoop(filter, outer[1..], inner)
  {
  }

  lemma MatchesUnfold(filter: (Tuple, Tuple) -> bool, r: Tuple, inner: seq<Tuple>)
    requires inner != []
    ensures Matches(filter, r, inner)
         == (if inner[0].key == r.key && filter(r, inner[0]) then [(r, inner[0])] else []) + Matches(filter, r, inner[1..])
  {
  }

  lemma {:induction false} MatchesAppend(filter: (Tuple, Tuple) -> bool, r: Tuple, a: seq<Tuple>, b: seq<Tuple>)
    ensures Matches(filter, r, a + b) == Matches(filter, r, a) + Matches(filter, r, b)
  {
    if a == [] {
      assert a + b == b;
    } else {
      var head := if a[0].key == r.key && filter(r, a[0]) then [(r, a[0])] else [];
      assert (a + b)[0] == a[0];
      assert (a + b)[1..] == a[1..] + b;
      calc {
        Matches(filter, r, a + b);
        { MatchesUnfold(filter, r, a + b); }
        head + Matches(filter, r, a[1..] + b);
        { MatchesAppend(filter, r, a[1..], b); }
        head + (Matches(filter, r, a[1..]) + Matches(filter, r, b));
        (head + Matches(filter, r, a[1..])) + Matches(filter, r, b);
        { MatchesUnfold(filter, r, a); }
        Matches(filter, r, a) + Matches(filter, r, b);
      }
    }
  }

  /** An outer tuple whose key no inner tuple carries contributes nothing. */
  lemma {:induction false} MatchesNone(filter: (Tuple, Tuple) -> bool, r: Tuple, inner: seq<Tuple>)
    requires forall i :: 0 <= i < |inner| ==> inner[i].key != r.key
    ensures Matches(filter, r, inner) == []
  {
    if inner != [] {
      assert forall i :: 0 <= i < |inner[1..]| ==> inner[1..][i] == inner[i + 1];
      MatchesNone(filter, r, inner[1..]);
    }
  }

  lemma {:induction false} NestedLoopAppendOuter(filter: (Tuple, Tuple) -> bool, a: seq<Tuple>, b: seq<Tuple>, inner: seq<Tuple>)
    ensures NestedLoop(filter, a + b, inner) == NestedLoop(filter, a, inner) + NestedLoop(filter, b, inner)
  {
    if a == [] {
      assert a + b == b;
    } else {
      assert (a + b)[0] == a[0];
      assert (a + b)[1..] == a[1..] + b;
      NestedLoopAppendOuter(filter, a[1..], b, inner);
    }
  }

  /** No tuple of `x` carries the key of any tuple of `y`. */
  predicate NoCommonKey(x: seq<Tuple>, y: seq<Tuple>)
  {
    forall i, j :: 0 <= i < |x| && 0 <= j < |y| ==> x[i].key != y[j].key
  }

  /** Changing the inner side without changing what any outer tuple matches there leaves the join unchanged. */
  lemma {:induction false} NestedLoopCongruent(filter: (Tuple, Tuple) -> bool, outer: seq<Tuple>, x: seq<Tuple>, y: seq<Tuple>)
    requires forall i :: 0 <= i < |outer| ==> Matches(filter, outer[i], x) == Matches(filter, outer[i], y)
    ensures NestedLoop(filter, outer, x) == NestedLoop(filter, outer, y)
  {
    if outer != [] {
      NestedLoopUnfold(filter, outer, x);
      NestedLoopUnfold(filter, outer, y);
      assert forall i :: 0 <= i < |outer[1..]| ==> outer[1..][i] == outer[i + 1];
      NestedLoopCongruent(filter, outer[1..], x, y);
    }
  }

  /** Inner tuples `b` whose keys no outer tuple carries can be dropped from the end of the inner side. */
  lemma NestedLoopDropInnerSuffix(filter: (Tuple, Tuple) -> bool, outer: seq<Tuple>, a: seq<Tuple>, b: seq<Tuple>)
    requires NoCommonKey(outer, b)
    ensures NestedLoop(filter, outer, a + b) == NestedLoop(filter, outer, a)
  {
    forall i | 0 <= i < |outer|
      ensures Matches(filter, outer[i], a + b) == Matches(filter, outer[i], a)
    {
      MatchesAppend(filter, outer[i], a, b);
      MatchesNone(filter, outer[i], b);
    }
    NestedLoopCongruent(filter, outer, a + b, a);
  }

  /** Inner tuples `a` whose keys no outer tuple carries can be dropped from the front of the inner side. */
  lemma NestedLoopDropInnerPrefix(filter: (Tuple, Tuple) -> bool, outer: seq<Tuple>, a: seq<Tuple>, b: seq<Tuple>)
    requires NoCommonKey(outer, a)
    ensures NestedLoop(filter, outer, a + b) == NestedLoop(filter, outer, b)
  {
    forall i | 0 <= i < |outer|
      ensures Matches(filter, outer[i], a + b) == Matches(filter, outer[i], b)
    {
      MatchesAppend(filter, outer[i], a, b);
      MatchesNone(filter, outer[i], a);
    }
    NestedLoopCongruent(filter, outer, a + b, b);
  }

  // ---------------------------------------------------------------------------------------------
  // The facts the merge relies on

  /** Either input empty: the join is empty. */
  lemma {:induction false} EmptyInputNoOutput(filter: (Tuple, Tuple) -> bool, outer: seq<Tuple>, inner: seq<Tuple>)
    requires outer == [] || inner == []
    ensures NestedLoop(filter, outer, inner) == []
  {
    if outer != [] {
      EmptyInputNoOutput(filter, outer[1..], inner);
    }
  }

  /** Seeking, outer side behind: an outer tuple whose key precedes the first key of the sorted
      inner side joins with nothing there, so skipping it loses no output. */
  lemma SkipOuterBehind(filter: (Tuple, Tuple) -> bool, order: Order, r: Tuple, rest: seq<Tuple>, inner: seq<Tuple>)
    requires Sorted(order, inner) && inner != []
    requires Precedes(order, r.key, inner[0].key)
    ensures NestedLoop(filter, [r] + rest, inner) == NestedLoop(filter, rest, inner)
  {
    forall i | 0 <= i < |inner|
      ensures inner[i].key != r.key
    {
      if i > 0 {
        assert InOrder(order, inner, 0, i);
      }
    }
    MatchesNone(filter, r, inner);
    assert ([r] + rest)[0] == r && ([r] + rest)[1..] == rest;
  }

  /** Seeking, inner side behind: an inner tuple whose key precedes the first key of the sorted
      outer side joins with nothing there, so skipping it loses no output. */
  lemma SkipInnerBehind(filter: (Tuple, Tuple) -> bool, order: Order, outer: seq<Tuple>, s: Tuple, rest: seq<Tuple>)
    requires Sorted(order, outer) && outer != []
    requires Precedes(order, s.key, outer[0].key)
    ensures NestedLoop(filter, outer, [s] + rest) == NestedLoop(filter, outer, rest)
  {
    forall i | 0 <= i < |outer|
      ensures outer[i].key != s.key
    {
      if i > 0 {
        assert InOrder(order, outer, 0, i);
      }
    }
    assert [s][0] == s;
    NestedLoopDropInnerPrefix(filter, outer, [s], rest);
  }

  /** In a sorted sequence that starts with a run of key `k`, once the key changes it never
      comes back: everything after the run carries another key. */
  lemma TailAvoidsKey(order: Order, k: int, run: seq<Tuple>, tail: seq<Tuple>)
    requires Sorted(order, run + tail) && run != []
    requires forall i :: 0 <= i < |run| ==> run[i].key == k
    requires tail == [] || tail[0].key != k
    ensures forall i :: 0 <= i < |tail| ==> tail[i].key != k
  {
    if tail != [] {
      var n := |run|;
      assert (run + tail)[n - 1] == run[n - 1] && (run + tail)[n] == tail[0];
      assert InOrder(order, run + tail, n - 1, n);
      forall i | 0 <= i < |tail|
        ensures tail[i].key != k
      {
        assert (run + tail)[n + i] == tail[i];
        if i > 0 {
          assert InOrder(order, run + tail, n, n + i);
        }
      }
    }
  }

  /** One merge step: when both sorted sides start with a maximal run of the same key `k`
      (an equivalence class), the join is the cross product of the two classes followed by the
      join of what comes after them. */
  lemma ClassSplit(filter: (Tuple, Tuple) -> bool, order: Order, k: int,
                   outerClass: seq<Tuple>, outerRest: seq<Tuple>, innerClass: seq<Tuple>, innerRest: seq<Tuple>)
    requires Sorted(order, outerClass + outerRest) && Sorted(order, innerClass + innerRest)
    requires outerClass != [] && innerClass != []
    requires forall i :: 0 <= i < |outerClass| ==> outerClass[i].key == k
    requires forall i :: 0 <= i < |innerClass| ==> innerClass[i].key == k
    requires outerRest == [] || outerRest[0].key != k
    requires innerRest == [] || innerRest[0].key != k
    ensures NestedLoop(filter, outerClass + outerRest, innerClass + innerRest)
         == NestedLoop(filter, outerClass, innerClass) + NestedLoop(filter, outerRest, innerRest)
  {
    TailAvoidsKey(order, k, outerClass, outerRest);
    TailAvoidsKey(order, k, innerClass, innerRest);
    NestedLoopAppendOuter(filter, outerClass, outerRest, innerClass + innerRest);
    NestedLoopDropInnerSuffix(filter, outerClass, innerClass, innerRest);
    NestedLoopDropInnerPrefix(filter, outerRest, innerClass, innerRest);
  }

  // ---------------------------------------------------------------------------------------------
  // What the join contains

  lemma {:induction false} MatchesMultiplicity(filter: (Tuple, Tuple) -> bool, r0: Tuple, inner: seq<Tuple>, r: Tuple, s: Tuple)
    ensures multiset(Matches(filter, r0, inner))[(r, s)]
         == if r == r0 && r.key == s.key && filter(r, s) then multiset(inner)[s] else 0
  {
    if inner != [] {
      MatchesMultiplicity(filter, r0, inner[1..], r, s);
      MultiplicityOfHead(inner, s);
    }
  }

  lemma MultiplicityOfHead<T>(q: seq<T>, x: T)
    requires q != []
    ensures multiset(q)[x] == (if q[0] == x then 1 else 0) + multiset(q[1..])[x]
  {
    assert q == [q[0]] + q[1..];
  }

  lemma NestedLoopMultiplicityStep(filter: (Tuple, Tuple) -> bool, outer: seq<Tuple>, inner: seq<Tuple>, p: Pair)
    requires outer != []
    ensures multiset(NestedLoop(filter, outer, inner))[p]
         == multiset(Matches(filter, outer[0], inner))[p] + multiset(NestedLoop(filter, outer[1..], inner))[p]
  {
    assert NestedLoop(filter, outer, inner) == Matches(filter, outer[0], inner) + NestedLoop(filter, outer[1..], inner);
  }

  lemma Distribute(a: int, b: int, n: int)
    ensures (a + b) * n == a * n + b * n
  {
  }

  /** Every accepted equal-key pair appears exactly once per occurrence of each of its tuples:
      the multiset of join pairs is the filtered equal-key cross product of the two inputs. */
  lemma {:induction false} JoinMultiplicity(filter: (Tuple, Tuple) -> bool, outer: seq<Tuple>, inner: seq<Tuple>, r: Tuple, s: Tuple)
    ensures multiset(NestedLoop(filter, outer, inner))[(r, s)]
         == if r.key == s.key && filter(r, s) then multiset(outer)[r] * multiset(inner)[s] else 0
  {
    if outer != [] {
      JoinMultiplicity(filter, outer[1..], inner, r, s);
      MatchesMultiplicity(filter, outer[0], inner, r, s);
      NestedLoopMultiplicityStep(filter, outer, inner, (r, s));
      MultiplicityOfHead(outer, r);
      Distribute(if outer[0] == r then 1 else 0, multiset(outer[1..])[r], multiset(inner)[s]);
    }
  }

  /** A pair is in the join exactly when its outer tuple is in the outer input, its inner tuple in
      the inner input, their keys are equal and the residual predicate accepts them. */
  lemma JoinMembership(filter: (Tuple, Tuple) -> bool, outer: seq<Tuple>, inner: seq<Tuple>, r: Tuple, s: Tuple)
    ensures (r, s) in NestedLoop(filter, outer, inner)
        <==> r in outer && s in inner && r.key == s.key && filter(r, s)
  {
    JoinMultiplicity(filter, outer, inner, r, s);
    ProductPositive(multiset(outer)[r], multiset(inner)[s]);
    assert (r, s) in NestedLoop(filter, outer, inner) <==> multiset(NestedLoop(filter, outer, inner))[(r, s)] > 0;
  }

  lemma ProductPositive(m: nat, n: nat)
    ensures m * n > 0 <==> m > 0 && n > 0
  {
    if m > 0 && n > 0 {
      assert m * n >= n;
    }
  }

  lemma {:induction false} MatchesAll(filter: (Tuple, Tuple) -> bool, r: Tuple, inner: seq<Tuple>)
    requires forall j :: 0 <= j < |inner| ==> inner[j].key == r.key && filter(r, inner[j])
    ensures |Matches(filter, r, inner)| == |inner|
  {
    if inner != [] {
      assert forall j :: 0 <= j < |inner[1..]| ==> inner[1..][j] == inner[j + 1];
      MatchesAll(filter, r, inner[1..]);
    }
  }

  /** m outer tuples and n inner tuples sharing one key, every pair accepted (no residual
      predicate): exactly m * n pairs. */
  lemma {:induction false} ClassCount(filter: (Tuple, Tuple) -> bool, k: int, outer: seq<Tuple>, inner: seq<Tuple>)
    requires forall i :: 0 <= i < |outer| ==> outer[i].key == k
    requires forall j :: 0 <= j < |inner| ==> inner[j].key == k
    requires forall i, j :: 0 <= i < |outer| && 0 <= j < |inner| ==> filter(outer[i], inner[j])
    ensures |NestedLoop(filter, outer, inner)| == |outer| * |inner|
  {
    if outer != [] {
      var tail := outer[1..];
      MatchesAll(filter, outer[0], inner);
      assert forall i :: 0 <= i < |tail| ==> tail[i] == outer[i + 1];
      ClassCount(filter, k, tail, inner);
      NestedLoopUnfold(filter, outer, inner);
      Distribute(1, |tail|, |inner|);
    }
  }
}
