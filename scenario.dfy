/** A worked run of the operator: two small ascending inputs with two equivalence classes in
    common, no residual predicate, and the pairs themselves as the projection. */
module Scenario {
  import opened Tuples
  import opened JoinSpec
  import opened Streams
  import opened MergeJoin

  function Accept(r: Tuple, s: Tuple): bool
  {
    true
  }

  function Outer(): seq<Tuple>
  {
    [Tuple(1, "a"), Tuple(1, "b"), Tuple(2, "c")]
  }

  function Inner(): seq<Tuple>
  {
    [Tuple(1, "x"), Tuple(2, "y"), Tuple(2, "z")]
  }

  /** The join of the two inputs: each key-1 outer tuple with the single key-1 inner tuple, then
      the key-2 outer tuple with both key-2 inner tuples; two by one plus one by two pairs. */
  lemma {:induction false} ScenarioJoin()
    ensures NestedLoop(Accept, Outer(), Inner())
         == [(Tuple(1, "a"), Tuple(1, "x")), (Tuple(1, "b"), Tuple(1, "x")),
             (Tuple(2, "c"), Tuple(2, "y")), (Tuple(2, "c"), Tuple(2, "z"))]
  {
    var o, i := Outer(), Inner();
    assert i[1..] == [Tuple(2, "y"), Tuple(2, "z")] && i[1..][1..] == [Tuple(2, "z")] && i[1..][1..][1..] == [];
    MatchesUnfold(Accept, o[0], i);
    MatchesUnfold(Accept, o[0], i[1..]);
    MatchesUnfold(Accept, o[0], i[1..][1..]);
    MatchesUnfold(Accept, o[1], i);
    MatchesUnfold(Accept, o[1], i[1..]);
    MatchesUnfold(Accept, o[1], i[1..][1..]);
    MatchesUnfold(Accept, o[2], i);
    MatchesUnfold(Accept, o[2], i[1..]);
    MatchesUnfold(Accept, o[2], i[1..][1..]);
    assert o[1..] == [Tuple(1, "b"), Tuple(2, "c")] && o[1..][1..] == [Tuple(2, "c")] && o[1..][1..][1..] == [];
    NestedLoopUnfold(Accept, o, i);
    NestedLoopUnfold(Accept, o[1..], i);
    NestedLoopUnfold(Accept, o[1..][1..], i);
  }

  lemma AscendingInputs()
    ensures Sorted(Ascending, Outer()) && Sorted(Ascending, Inner())
  {
  }

  /** The four pairs of the scenario, in nested-loop order. */
  function Expected(): seq<Pair>
  {
    [(Tuple(1, "a"), Tuple(1, "x")), (Tuple(1, "b"), Tuple(1, "x")),
     (Tuple(2, "c"), Tuple(2, "y")), (Tuple(2, "c"), Tuple(2, "z"))]
  }

  /** On a fresh operator whose join is the scenario's, four calls return the four pairs in
      nested-loop order and the fifth reports the end. */
  method Drain(join: Sort1<Pair>) returns (outs: seq<Option<Pair>>)
    requires join.Valid() && join.emitted == [] && join.Spec() == Expected()
    requires forall r, s :: join.project(r, s) == (r, s)
    modifies join
    ensures outs == [Some(Expected()[0]), Some(Expected()[1]), Some(Expected()[2]), Some(Expected()[3]), None]
  {
    var out1 := join.GetNext();
    assert out1 == Some(Expected()[0]);
    assert join.emitted == Expected()[..1];
    var out2 := join.GetNext();
    assert out2 == Some(Expected()[1]);
    assert join.emitted == Expected()[..2];
    var out3 := join.GetNext();
    assert out3 == Some(Expected()[2]);
    assert join.emitted == Expected()[..3];
    var out4 := join.GetNext();
    assert out4 == Some(Expected()[3]);
    assert join.emitted == Expected();
    var out5 := join.GetNext();
    assert out5 == None;
    outs := [out1, out2, out3, out4, out5];
  }

  /** The scenario end to end: build the operator over the two inputs and drain it. */
  method TwoClassRun() returns (outs: seq<Option<Pair>>)
    ensures outs == [Some((Tuple(1, "a"), Tuple(1, "x"))), Some((Tuple(1, "b"), Tuple(1, "x"))),
                     Some((Tuple(2, "c"), Tuple(2, "y"))), Some((Tuple(2, "c"), Tuple(2, "z"))), None]
  {
    AscendingInputs();
    var join := new Sort1(Stream(Outer(), false), Stream(Inner(), false), true, true, Ascending,
                          (s: seq<Tuple>, o: Order) => s, Accept, (r: Tuple, s: Tuple) => (r, s));
    ScenarioJoin();
    outs := Drain(join);
  }
}
