/** The sort-merge join operator `Sort1` as a pull iterator: each `GetNext` call returns the next
    joined tuple, or None once the join is done. The operator walks two inputs sorted on the join
    key in the same order, seeks equal keys, buffers one equivalence class per side and emits the
    filtered cross product of the two classes one pair per call. */
module MergeJoin {
  import opened Tuples
  import opened JoinSpec
  import opened Streams

  /** Where the driver is: seeking equal keys, about to buffer the class both current tuples
      belong to, emitting the cross product of the buffered classes, or done for good. */
  datatype Phase = Seeking | Buffering | Emitting | Exhausted

  /** The order in which the phases hand over to each other on the way to the next output. */
  function PhaseRank(p: Phase): nat
  {
    match p
    case Exhausted => 0
    case Buffering => 1
    case Seeking => 2
    case Emitting => 3
  }

  /** The operator's fields that decide what it still has to return, taken together as a value:
      what each input has still to produce, the current tuple of each side and whether it is
      stale, the two class buffers, the outer tuple being paired, and the phase. */
  datatype JoinState = JoinState(
    outerRest: seq<Tuple>, innerRest: seq<Tuple>,
    tupleOuter: Tuple, tupleInner: Tuple, getFromOuter: bool, getFromInner: bool,
    outerBuf: IoBuf, innerBuf: IoBuf, pairOuter: Tuple, phase: Phase)
  {
    /** The outer tuples not yet taken into a class: the current tuple unless it is stale, then
        what the input has still to produce. */
    ghost function PendingOuter(): seq<Tuple>
    {
      if getFromOuter then outerRest else [tupleOuter] + outerRest
    }

    ghost function PendingInner(): seq<Tuple>
    {
      if getFromInner then innerRest else [tupleInner] + innerRest
    }

    /** While emitting: `pairOuter` is the outer tuple last taken from the outer buffer, and both
        buffers hold one non-empty class of the same key. */
    ghost predicate ClassLoaded()
    {
      && 1 <= outerBuf.scan <= |outerBuf.items|
      && pairOuter == outerBuf.items[outerBuf.scan - 1]
      && innerBuf.items != [] && innerBuf.scan <= |innerBuf.items|
      && (forall i :: 0 <= i < |outerBuf.items| ==> outerBuf.items[i].key == pairOuter.key)
      && (forall i :: 0 <= i < |innerBuf.items| ==> innerBuf.items[i].key == pairOuter.key)
    }

    /** The pairs still to come, phase by phase: the rest of the current outer tuple's pass over
        the inner buffer, the passes of the outer tuples left in the outer buffer, then the join
        of what is pending on both inputs. */
    ghost function Remaining(filter: (Tuple, Tuple) -> bool): seq<Pair>
      requires outerBuf.Valid() && innerBuf.Valid()
    {
      match phase
      case Exhausted => []
      case Seeking => NestedLoop(filter, PendingOuter(), PendingInner())
      case Buffering => NestedLoop(filter, PendingOuter(), PendingInner())
      case Emitting =>
        Matches(filter, pairOuter, innerBuf.Unscanned())
        + NestedLoop(filter, outerBuf.Unscanned(), innerBuf.items)
        + NestedLoop(filter, PendingOuter(), PendingInner())
    }

    /** What each phase may assume about the state: pending inputs still sorted, equal current
        keys when about to buffer, one loaded class per side when emitting. */
    ghost predicate Inv(order: Order)
    {
      && outerBuf.Valid() && innerBuf.Valid()
      && Sorted(order, PendingOuter()) && Sorted(order, PendingInner())
      && (phase == Buffering ==> !getFromOuter && !getFromInner && tupleOuter.key == tupleInner.key)
      && (phase == Emitting ==> ClassLoaded())
    }
  }

  /** `a` is what is left of `b` once some of its first elements are dropped. */
  ghost predicate IsSuffix<T>(a: seq<T>, b: seq<T>)
  {
    |a| <= |b| && a == b[|b| - |a|..]
  }

  /** Dropping the first `k` elements leaves a suffix. */
  lemma SuffixDrop<T>(b: seq<T>, k: nat)
    requires k <= |b|
    ensures IsSuffix(b[k..], b)
  {
  }

  /** The pair an outer and an inner tuple of one class contribute: itself if the residual
      predicate accepts it, nothing otherwise. */
  function Hit(filter: (Tuple, Tuple) -> bool, r: Tuple, s: Tuple): (h: seq<Pair>)
    ensures |h| <= 1 && (h != [] <==> filter(r, s)) && (h != [] ==> h[0] == (r, s))
  {
    if filter(r, s) then [(r, s)] else []
  }

  /** The head of a non-empty sequence followed by its tail is the sequence. */
  lemma HeadTail<T>(s: seq<T>)
    requires s != []
    ensures [s[0]] + s[1..] == s
  {
  }

  /** Regrouping what remains once its first pairs `h` are split off. */
  lemma Regroup<T>(h: seq<T>, m: seq<T>, b: seq<T>, c: seq<T>)
    ensures ((h + m) + b) + c == h + ((m + b) + c)
  {
    calc {
      ((h + m) + b) + c;
      (h + (m + b)) + c;
      h + ((m + b) + c);
    }
  }

  /** Moving the pairs `h` from the front of what remains to the end of what was returned. */
  lemma Shift<T>(e: seq<T>, h: seq<T>, r: seq<T>)
    ensures (e + h) + r == e + (h + r)
  {
  }

  // ---------------------------------------------------------------------------------------------
  // Transitions of the state: each keeps the invariant and accounts for every pair still to come

  /** Reading the stale current tuples changes no pending tuple; an input found at its end leaves
      nothing to join. */
  lemma SeekReadStep(filter: (Tuple, Tuple) -> bool, order: Order, s0: JoinState, s1: JoinState,
                   e: seq<Pair>, spec: seq<Pair>)
    requires s0.Inv(order) && s0.phase == Seeking
    requires s1.outerBuf == s0.outerBuf && s1.innerBuf == s0.innerBuf
    requires s1.PendingOuter() == s0.PendingOuter() && s1.PendingInner() == s0.PendingInner()
    requires s1.phase == Seeking || (s1.phase == Exhausted && (s1.PendingOuter() == [] || s1.PendingInner() == []))
    requires e + s0.Remaining(filter) == spec
    ensures s1.Inv(order) && s1.Remaining(filter) == s0.Remaining(filter) && e + s1.Remaining(filter) == spec
  {
    if s1.phase == Exhausted {
      EmptyInputNoOutput(filter, s0.PendingOuter(), s0.PendingInner());
    }
  }

  /** Dropping the outer current tuple when its key is behind the inner one loses no pair; if the
      outer input has nothing after it, the join is complete. */
  lemma SkipOuterStep(filter: (Tuple, Tuple) -> bool, order: Order, s0: JoinState, s1: JoinState,
                     e: seq<Pair>, spec: seq<Pair>)
    requires s0.Inv(order) && s0.phase == Seeking && !s0.getFromOuter && !s0.getFromInner
    requires Precedes(order, s0.tupleOuter.key, s0.tupleInner.key)
    requires s1.outerBuf == s0.outerBuf && s1.innerBuf == s0.innerBuf
    requires s1.PendingInner() == s0.PendingInner()
    requires || (s1.phase == Seeking && s1.PendingOuter() == s0.outerRest)
             || (s1.phase == Exhausted && s1.PendingOuter() == s0.PendingOuter() && s0.outerRest == [])
    requires e + s0.Remaining(filter) == spec
    ensures s1.Inv(order) && s1.Remaining(filter) == s0.Remaining(filter) && e + s1.Remaining(filter) == spec
  {
    SkipOuterBehind(filter, order, s0.tupleOuter, s0.outerRest, s0.PendingInner());
    SortedSuffix(order, s0.PendingOuter(), 1);
    assert s0.PendingOuter()[1..] == s0.outerRest;
  }

  /** Symmetric to `SkipOuterStep`: the inner current tuple is behind the outer one. */
  lemma SkipInnerStep(filter: (Tuple, Tuple) -> bool, order: Order, s0: JoinState, s1: JoinState,
                     e: seq<Pair>, spec: seq<Pair>)
    requires s0.Inv(order) && s0.phase == Seeking && !s0.getFromOuter && !s0.getFromInner
    requires Precedes(order, s0.tupleInner.key, s0.tupleOuter.key)
    requires s1.outerBuf == s0.outerBuf && s1.innerBuf == s0.innerBuf
    requires s1.PendingOuter() == s0.PendingOuter()
    requires || (s1.phase == Seeking && s1.PendingInner() == s0.innerRest)
             || (s1.phase == Exhausted && s1.PendingInner() == s0.PendingInner() && s0.innerRest == [])
    requires e + s0.Remaining(filter) == spec
    ensures s1.Inv(order) && s1.Remaining(filter) == s0.Remaining(filter) && e + s1.Remaining(filter) == spec
  {
    SkipInnerBehind(filter, order, s0.PendingOuter(), s0.tupleInner, s0.innerRest);
    SortedSuffix(order, s0.PendingInner(), 1);
    assert s0.PendingInner()[1..] == s0.innerRest;
    if s1.phase == Exhausted {
      EmptyInputNoOutput(filter, s0.PendingOuter(), s0.innerRest);
    }
  }

  /** Once both current keys are equal, the class of that key is next. */
  lemma KeysMetStep(filter: (Tuple, Tuple) -> bool, order: Order, s0: JoinState, s1: JoinState,
                   e: seq<Pair>, spec: seq<Pair>)
    requires s0.Inv(order) && s0.phase == Seeking && !s0.getFromOuter && !s0.getFromInner
    requires s0.tupleOuter.key == s0.tupleInner.key
    requires s1 == s0.(phase := Buffering)
    requires e + s0.Remaining(filter) == spec
    ensures s1.Inv(order) && s1.Remaining(filter) == s0.Remaining(filter) && e + s1.Remaining(filter) == spec
  {
  }

  /** Loading one class per side: what is pending splits into the join of the two classes,
      which the emission phase now produces, and the join of what follows them. */
  lemma LoadClassStep(filter: (Tuple, Tuple) -> bool, order: Order, s0: JoinState, s1: JoinState,
                     e: seq<Pair>, spec: seq<Pair>)
    requires s0.Inv(order) && s0.phase == Buffering && s1.phase == Emitting
    requires s1.outerBuf.items + s1.PendingOuter() == s0.PendingOuter()
    requires s1.innerBuf.items + s1.PendingInner() == s0.PendingInner()
    requires s1.outerBuf.items != [] && s1.innerBuf.items != []
    requires forall i :: 0 <= i < |s1.outerBuf.items| ==> s1.outerBuf.items[i].key == s0.tupleOuter.key
    requires forall i :: 0 <= i < |s1.innerBuf.items| ==> s1.innerBuf.items[i].key == s0.tupleOuter.key
    requires s1.PendingOuter() == [] || s1.PendingOuter()[0].key != s0.tupleOuter.key
    requires s1.PendingInner() == [] || s1.PendingInner()[0].key != s0.tupleOuter.key
    requires s1.outerBuf.scan == 1 && s1.innerBuf.scan == 0 && s1.pairOuter == s1.outerBuf.items[0]
    requires e + s0.Remaining(filter) == spec
    ensures s1.Inv(order) && s1.Remaining(filter) == s0.Remaining(filter) && e + s1.Remaining(filter) == spec
  {
    var outerClass, innerClass := s1.outerBuf.items, s1.innerBuf.items;
    ClassSplit(filter, order, s0.tupleOuter.key, outerClass, s1.PendingOuter(), innerClass, s1.PendingInner());
    NestedLoopUnfold(filter, outerClass, innerClass);
    assert s1.outerBuf.Unscanned() == outerClass[1..];
    assert s1.innerBuf.Unscanned() == innerClass;
    SortedSuffix(order, s0.PendingOuter(), |outerClass|);
    assert s0.PendingOuter()[|outerClass|..] == s1.PendingOuter();
    SortedSuffix(order, s0.PendingInner(), |innerClass|);
    assert s0.PendingInner()[|innerClass|..] == s1.PendingInner();
  }

  /** Emission within a pass: the next inner tuple `s` is paired with the current outer tuple
      `r`; the pair, if accepted, moves from what remains to what has been returned. */
  lemma EmitInnerStep(filter: (Tuple, Tuple) -> bool, order: Order, s0: JoinState, s1: JoinState,
                      r: Tuple, s: Tuple, e: seq<Pair>, spec: seq<Pair>)
    requires s0.Inv(order) && s0.phase == Emitting && s0.innerBuf.scan < |s0.innerBuf.items|
    requires s1 == s0.(innerBuf := IoBuf(s0.innerBuf.items, s0.innerBuf.scan + 1))
    requires r == s0.pairOuter && s == s0.innerBuf.items[s0.innerBuf.scan]
    requires e + s0.Remaining(filter) == spec
    ensures s1.Inv(order)
    ensures s0.Remaining(filter) == Hit(filter, r, s) + s1.Remaining(filter)
    ensures (e + Hit(filter, r, s)) + s1.Remaining(filter) == spec
  {
    var u := s0.innerBuf.Unscanned();
    MatchesUnfold(filter, r, u);
    assert u[1..] == s1.innerBuf.Unscanned();
    Regroup(Hit(filter, r, s), Matches(filter, r, u[1..]),
            NestedLoop(filter, s0.outerBuf.Unscanned(), s0.innerBuf.items),
            NestedLoop(filter, s0.PendingOuter(), s0.PendingInner()));
    Shift(e, Hit(filter, r, s), s1.Remaining(filter));
  }

  /** Moving to the next outer tuple of the class and rewinding the inner buffer keeps the
      invariant. */
  lemma NextOuterKeepsInv(order: Order, s0: JoinState, s1: JoinState)
    requires s0.Inv(order) && s0.phase == Emitting
    requires s0.innerBuf.scan == |s0.innerBuf.items| && s0.outerBuf.scan < |s0.outerBuf.items|
    requires s1 == s0.(outerBuf := IoBuf(s0.outerBuf.items, s0.outerBuf.scan + 1),
                       pairOuter := s0.outerBuf.items[s0.outerBuf.scan],
                       innerBuf := IoBuf(s0.innerBuf.items, 1))
    ensures s1.Inv(order)
  {
    assert s1.pairOuter.key == s0.pairOuter.key;
    assert s1.outerBuf.Valid() && s1.innerBuf.Valid();
    assert s1.PendingOuter() == s0.PendingOuter() && s1.PendingInner() == s0.PendingInner();
  }

  /** At the end of a pass, the rest of the class's passes begin with the pair of the next outer
      tuple and the first inner tuple. */
  lemma NextOuterRemaining(filter: (Tuple, Tuple) -> bool, order: Order, s0: JoinState, s1: JoinState)
    requires s0.Inv(order) && s0.phase == Emitting && s1.Inv(order)
    requires s0.innerBuf.scan == |s0.innerBuf.items| && s0.outerBuf.scan < |s0.outerBuf.items|
    requires s1 == s0.(outerBuf := IoBuf(s0.outerBuf.items, s0.outerBuf.scan + 1),
                       pairOuter := s0.outerBuf.items[s0.outerBuf.scan],
                       innerBuf := IoBuf(s0.innerBuf.items, 1))
    ensures s0.Remaining(filter) == Hit(filter, s1.pairOuter, s0.innerBuf.items[0]) + s1.Remaining(filter)
  {
    var u, inner := s0.outerBuf.Unscanned(), s0.innerBuf.items;
    var h, m := Hit(filter, s1.pairOuter, inner[0]), Matches(filter, s1.pairOuter, inner[1..]);
    var n, p := NestedLoop(filter, u[1..], inner), NestedLoop(filter, s0.PendingOuter(), s0.PendingInner());
    assert s0.innerBuf.Unscanned() == [];
    NestedLoopUnfold(filter, u, inner);
    MatchesUnfold(filter, s1.pairOuter, inner);
    assert NestedLoop(filter, u, inner) == (h + m) + n;
    assert s0.Remaining(filter) == ((h + m) + n) + p;
    assert u[1..] == s1.outerBuf.Unscanned();
    assert inner[1..] == s1.innerBuf.Unscanned();
    assert s1.Remaining(filter) == (m + n) + p;
    Regroup(h, m, n, p);
  }

  /** Emission at the end of a pass: the inner buffer is rewound and its first tuple `s` paired
      with the next outer tuple `r` of the class. */
  lemma EmitNextOuterStep(filter: (Tuple, Tuple) -> bool, order: Order, s0: JoinState, s1: JoinState,
                          r: Tuple, s: Tuple, e: seq<Pair>, spec: seq<Pair>)
    requires s0.Inv(order) && s0.phase == Emitting
    requires s0.innerBuf.scan == |s0.innerBuf.items| && s0.outerBuf.scan < |s0.outerBuf.items|
    requires s1 == s0.(outerBuf := IoBuf(s0.outerBuf.items, s0.outerBuf.scan + 1),
                       pairOuter := s0.outerBuf.items[s0.outerBuf.scan],
                       innerBuf := IoBuf(s0.innerBuf.items, 1))
    requires r == s1.pairOuter && s == s0.innerBuf.items[0]
    requires e + s0.Remaining(filter) == spec
    ensures s1.Inv(order)
    ensures s0.Remaining(filter) == Hit(filter, r, s) + s1.Remaining(filter)
    ensures (e + Hit(filter, r, s)) + s1.Remaining(filter) == spec
  {
    NextOuterKeepsInv(order, s0, s1);
    NextOuterRemaining(filter, order, s0, s1);
    Shift(e, Hit(filter, r, s), s1.Remaining(filter));
  }

  /** Emission after the last pass: both buffers are used up and the seek resumes. */
  lemma ClassDoneStep(filter: (Tuple, Tuple) -> bool, order: Order, s0: JoinState, s1: JoinState,
                     e: seq<Pair>, spec: seq<Pair>)
    requires s0.Inv(order) && s0.phase == Emitting
    requires s0.innerBuf.scan == |s0.innerBuf.items| && s0.outerBuf.scan == |s0.outerBuf.items|
    requires s1 == s0.(phase := Seeking)
    requires e + s0.Remaining(filter) == spec
    ensures s1.Inv(order) && s1.Remaining(filter) == s0.Remaining(filter) && e + s1.Remaining(filter) == spec
  {
    assert s0.innerBuf.Unscanned() == [] && s0.outerBuf.Unscanned() == [];
  }

  /** The pair emitted next is the spec's pair at the position after those already emitted. */
  lemma NextOfSpec<P>(e: seq<P>, p: P, rest: seq<P>, spec: seq<P>)
    requires spec == e + [p] + rest
    ensures |e| < |spec| && spec[|e|] == p && spec[..|e| + 1] == e + [p]
  {
    assert spec[..|e| + 1] == (e + [p] + rest)[..|e| + 1];
  }

  class Sort1<Out> {
    /** The two inputs after the optional sort (`am1s`, `am2s`). */
    var outerIn: Stream
    var innerIn: Stream
    const order: Order
    /** The residual predicate (`outFilter` evaluated by `PredEval.Eval`). */
    const filter: (Tuple, Tuple) -> bool
    /** The output projection (`Projection.Join` with `proj_list`). */
    const project: (Tuple, Tuple) -> Out
    /** The two inputs as sorted sequences, as they stood when the operator was built. */
    ghost const outerSorted: seq<Tuple>
    ghost const innerSorted: seq<Tuple>

    /** The equivalence-class buffers (`dupOuterBuf`, `dupInnerBuf`) and their heap files. */
    var outerBuf: IoBuf
    var innerBuf: IoBuf
    var outerHeap: TempHeap?
    var innerHeap: TempHeap?

    /** The current tuple of each side, and whether it is stale and must be read first. */
    var tupleOuter: Tuple
    var tupleInner: Tuple
    var getFromOuter: bool
    var getFromInner: bool
    /** The outer tuple of the class that is being paired with the inner buffer (`temp1`). */
    var pairOuter: Tuple
    var phase: Phase
    var closeFlag: bool
    /** The pairs returned so far, before projection. */
    ghost var emitted: seq<Pair>

    /** The whole join the operator must produce, in order. */
    ghost function Spec(): seq<Pair>
    {
      NestedLoop(filter, outerSorted, innerSorted)
    }

    /** The fields that decide what is still to come, as one value. */
    function Snap(): JoinState
      reads this
    {
      JoinState(outerIn.rest, innerIn.rest, tupleOuter, tupleInner, getFromOuter, getFromInner,
                outerBuf, innerBuf, pairOuter, phase)
    }

    ghost function PendingOuter(): seq<Tuple>
      reads this
    {
      Snap().PendingOuter()
    }

    ghost function PendingInner(): seq<Tuple>
      reads this
    {
      Snap().PendingInner()
    }

    ghost function Remaining(): seq<Pair>
      reads this
      requires outerBuf.Valid() && innerBuf.Valid()
    {
      Snap().Remaining(filter)
    }

    /** The operator's invariant: what has been returned followed by what is still to come is
        exactly the join of the two sorted inputs. */
    ghost predicate Valid()
      reads this
    {
      Snap().Inv(order) && emitted + Snap().Remaining(filter) == Spec()
    }

    /** The invariant holds of the fields once it holds of a value they equal. */
    lemma Establish(s: JoinState)
      requires outerIn.rest == s.outerRest && innerIn.rest == s.innerRest
      requires tupleOuter == s.tupleOuter && tupleInner == s.tupleInner
      requires getFromOuter == s.getFromOuter && getFromInner == s.getFromInner
      requires outerBuf == s.outerBuf && innerBuf == s.innerBuf && pairOuter == s.pairOuter && phase == s.phase
      requires s.Inv(order) && emitted + s.Remaining(filter) == Spec()
      ensures Snap() == s && Valid()
    {
    }

    /** Builds the operator over `am1` (outer) and `am2` (inner). An input not flagged as sorted
        is replaced by the output of the external sort, which must deliver a sorted permutation of
        what it is given; both sides start stale, so the first call reads from both. */
    constructor (am1: Stream, am2: Stream, in1Sorted: bool, in2Sorted: bool, order: Order,
                 sort: (seq<Tuple>, Order) -> seq<Tuple>,
                 filter: (Tuple, Tuple) -> bool, project: (Tuple, Tuple) -> Out)
      requires in1Sorted ==> Sorted(order, am1.rest)
      requires in2Sorted ==> Sorted(order, am2.rest)
      requires !in1Sorted ==> Sorted(order, sort(am1.rest, order)) && multiset(sort(am1.rest, order)) == multiset(am1.rest)
      requires !in2Sorted ==> Sorted(order, sort(am2.rest, order)) && multiset(sort(am2.rest, order)) == multiset(am2.rest)
      ensures Valid() && phase == Seeking && emitted == [] && !closeFlag
      ensures getFromOuter && getFromInner && outerIn.rest == outerSorted && innerIn.rest == innerSorted
      ensures this.order == order && this.filter == filter && this.project == project
      ensures outerSorted == (if in1Sorted then am1.rest else sort(am1.rest, order))
      ensures innerSorted == (if in2Sorted then am2.rest else sort(am2.rest, order))
      ensures Sorted(order, outerSorted) && multiset(outerSorted) == multiset(am1.rest)
      ensures Sorted(order, innerSorted) && multiset(innerSorted) == multiset(am2.rest)
      ensures in1Sorted ==> outerIn == am1
      ensures in2Sorted ==> innerIn == am2
      ensures outerHeap != null && fresh(outerHeap) && !outerHeap.deleted
      ensures innerHeap != null && fresh(innerHeap) && !innerHeap.deleted
    {
      this.order := order;
      this.filter := filter;
      this.project := project;
      var outerData := if in1Sorted then am1.rest else sort(am1.rest, order);
      var innerData := if in2Sorted then am2.rest else sort(am2.rest, order);
      outerSorted := outerData;
      innerSorted := innerData;
      outerIn := if in1Sorted then am1 else Stream(outerData, false);
      innerIn := if in2Sorted then am2 else Stream(innerData, false);
      outerBuf := EmptyBuf();
      innerBuf := EmptyBuf();
      outerHeap := new TempHeap();
      innerHeap := new TempHeap();
      tupleOuter := Tuple(0, "");
      tupleInner := Tuple(0, "");
      pairOuter := Tuple(0, "");
      getFromOuter := true;
      getFromInner := true;
      phase := Seeking;
      closeFlag := false;
      emitted := [];
    }

    /** `readTuple`: at the end of the input, report false and leave `tuple` as it was;
        otherwise return the input's next tuple in its place and report true. */
    static method ReadTuple(tuple: Tuple, stream: Stream) returns (ok: bool, result: Tuple, after: Stream)
      ensures ok <==> stream.rest != []
      ensures ok ==> result == stream.rest[0] && after.rest == stream.rest[1..]
      ensures !ok ==> result == tuple && after.rest == stream.rest
      ensures after.closed == stream.closed
    {
      var next: Option<Tuple>;
      next, after := stream.GetNext().0, stream.GetNext().1;
      if next.Some? {
        return true, next.value, after;
      }
      return false, tuple, after;
    }

    /** The outer half of reading what is stale: if the outer current tuple is stale, read the
        next outer tuple in its place; at the end of the outer input the operator is done. */
    method ReadStaleOuter()
      requires Valid() && phase == Seeking
      modifies this`outerIn, this`tupleOuter, this`getFromOuter, this`phase
      ensures outerIn.closed == old(outerIn.closed)
      ensures Valid() && PendingOuter() == old(PendingOuter()) && PendingInner() == old(PendingInner())
      ensures phase == Exhausted || (phase == Seeking && !getFromOuter)
    {
      if getFromOuter {
        ghost var s0 := Snap();
        if outerIn.rest != [] {
          HeadTail(outerIn.rest);
        }
        var ok: bool;
        ok, tupleOuter, outerIn := ReadTuple(tupleOuter, outerIn);
        if ok {
          getFromOuter := false;
        } else {
          phase := Exhausted;
        }
        SeekReadStep(filter, order, s0, Snap(), emitted, Spec());
      }
    }

    /** The inner half of reading what is stale, symmetric to `ReadStaleOuter`. */
    method ReadStaleInner()
      requires Valid() && phase == Seeking
      modifies this`innerIn, this`tupleInner, this`getFromInner, this`phase
      ensures innerIn.closed == old(innerIn.closed)
      ensures Valid() && PendingOuter() == old(PendingOuter()) && PendingInner() == old(PendingInner())
      ensures phase == Exhausted || (phase == Seeking && !getFromInner)
    {
      if getFromInner {
        ghost var s0 := Snap();
        if innerIn.rest != [] {
          HeadTail(innerIn.rest);
        }
        var ok: bool;
        ok, tupleInner, innerIn := ReadTuple(tupleInner, innerIn);
        if ok {
          getFromInner := false;
        } else {
          phase := Exhausted;
        }
        SeekReadStep(filter, order, s0, Snap(), emitted, Spec());
      }
    }

    /** Start of the seek: read the current tuple of each side that is stale. If an input is at
        its end, the operator is done; reading changes none of what is pending. */
    method ReadStale()
      requires Valid() && phase == Seeking
      modifies this`outerIn, this`innerIn, this`tupleOuter, this`tupleInner, this`getFromOuter, this`getFromInner, this`phase
      ensures outerIn.closed == old(outerIn.closed) && innerIn.closed == old(innerIn.closed)
      ensures Valid() && unchanged(this`emitted)
      ensures PendingOuter() == old(PendingOuter()) && PendingInner() == old(PendingInner())
      ensures phase == Exhausted || (phase == Seeking && !getFromOuter && !getFromInner)
    {
      ReadStaleOuter();
      if phase == Seeking {
        ReadStaleInner();
      }
    }

    /** Seek step, outer side behind: its current tuple joins with nothing still pending on the
        inner side, so it is dropped and the next outer tuple read; at the end of the outer
        input the operator is done. */
    method SkipOuter()
      requires Valid() && phase == Seeking && !getFromOuter && !getFromInner
      requires Precedes(order, tupleOuter.key, tupleInner.key)
      modifies this`outerIn, this`tupleOuter, this`phase
      ensures outerIn.closed == old(outerIn.closed) && innerIn.closed == old(innerIn.closed)
      ensures Valid() && unchanged(this`emitted)
      ensures !getFromOuter && !getFromInner
      ensures phase == Exhausted || (phase == Seeking && PendingOuter() == old(PendingOuter())[1..])
      ensures phase == Exhausted ==> PendingOuter() == old(PendingOuter())
      ensures PendingInner() == old(PendingInner())
    {
      ghost var s0 := Snap();
      var ok: bool;
      ok, tupleOuter, outerIn := ReadTuple(tupleOuter, outerIn);
      if !ok {
        phase := Exhausted;
      }
      assert [s0.tupleOuter] + s0.outerRest == s0.PendingOuter();
      SkipOuterStep(filter, order, s0, Snap(), emitted, Spec());
    }

    /** Seek step, inner side behind: symmetric to `SkipOuter`. */
    method SkipInner()
      requires Valid() && phase == Seeking && !getFromOuter && !getFromInner
      requires Precedes(order, tupleInner.key, tupleOuter.key)
      modifies this`innerIn, this`tupleInner, this`phase
      ensures outerIn.closed == old(outerIn.closed) && innerIn.closed == old(innerIn.closed)
      ensures Valid() && unchanged(this`emitted)
      ensures !getFromOuter && !getFromInner
      ensures phase == Exhausted || (phase == Seeking && PendingInner() == old(PendingInner())[1..])
      ensures phase == Exhausted ==> PendingInner() == old(PendingInner())
      ensures PendingOuter() == old(PendingOuter())
    {
      ghost var s0 := Snap();
      var ok: bool;
      ok, tupleInner, innerIn := ReadTuple(tupleInner, innerIn);
      if !ok {
        phase := Exhausted;
      }
      assert [s0.tupleInner] + s0.innerRest == s0.PendingInner();
      SkipInnerStep(filter, order, s0, Snap(), emitted, Spec());
    }

    /** One pass of the seek loop on unequal current keys: drop the current tuple of exactly the
        side whose key is behind in the configured order and read that side's next tuple; if that
        input has ended, the operator is done. `outerDropped` names the side that moved. */
    method SeekStep() returns (ghost outerDropped: bool)
      requires Valid() && phase == Seeking && !getFromOuter && !getFromInner
      requires tupleOuter.key != tupleInner.key
      modifies this`outerIn, this`innerIn, this`tupleOuter, this`tupleInner, this`phase
      ensures outerIn.closed == old(outerIn.closed) && innerIn.closed == old(innerIn.closed)
      ensures Valid() && !getFromOuter && !getFromInner && (phase == Seeking || phase == Exhausted)
      ensures outerDropped <==> Precedes(order, old(tupleOuter.key), old(tupleInner.key))
      ensures !outerDropped ==> Precedes(order, old(tupleInner.key), old(tupleOuter.key))
      ensures phase == Seeking ==>
                && PendingOuter() == old(PendingOuter())[if outerDropped then 1 else 0..]
                && PendingInner() == old(PendingInner())[if outerDropped then 0 else 1..]
      ensures phase == Exhausted ==> PendingOuter() == old(PendingOuter()) && PendingInner() == old(PendingInner())
    {
      var c := CompareKeys(tupleOuter, tupleInner);
      BehindMeansPrecedes(order, tupleOuter, tupleInner);
      if OuterBehind(order, c) {
        SkipOuter();
        outerDropped := true;
      } else {
        SkipInner();
        outerDropped := false;
      }
    }

    /** The seek loop on current tuples: advance the side that is behind until the current keys
        are equal, then start buffering; if either input runs out, the operator is done. */
    method SeekLoop()
      requires Valid() && phase == Seeking && !getFromOuter && !getFromInner
      modifies this`outerIn, this`innerIn, this`tupleOuter, this`tupleInner, this`phase
      ensures outerIn.closed == old(outerIn.closed) && innerIn.closed == old(innerIn.closed)
      ensures Valid() && (phase == Buffering || phase == Exhausted)
      ensures IsSuffix(PendingOuter(), old(PendingOuter())) && IsSuffix(PendingInner(), old(PendingInner()))
    {
      ghost var po, pi := PendingOuter(), PendingInner();
      ghost var droppedOuter, droppedInner := 0, 0;
      var c := CompareKeys(tupleOuter, tupleInner);
      while phase == Seeking && c != 0
        invariant Valid() && (phase == Seeking || phase == Exhausted) && !getFromOuter && !getFromInner
        invariant outerIn.closed == old(outerIn.closed) && innerIn.closed == old(innerIn.closed)
        invariant droppedOuter <= |po| && PendingOuter() == po[droppedOuter..]
        invariant droppedInner <= |pi| && PendingInner() == pi[droppedInner..]
        invariant c == CompareKeys(tupleOuter, tupleInner)
        decreases |PendingOuter()| + |PendingInner()|, PhaseRank(phase)
      {
        ghost var outerDropped := SeekStep();
        if phase == Seeking && outerDropped {
          assert po[droppedOuter..][1..] == po[droppedOuter + 1..];
          droppedOuter := droppedOuter + 1;
        } else if phase == Seeking {
          assert pi[droppedInner..][1..] == pi[droppedInner + 1..];
          droppedInner := droppedInner + 1;
        }
        c := CompareKeys(tupleOuter, tupleInner);
      }
      if phase == Seeking {
        ghost var s0 := Snap();
        phase := Buffering;
        KeysMetStep(filter, order, s0, Snap(), emitted, Spec());
      }
      SuffixDrop(po, droppedOuter);
      SuffixDrop(pi, droppedInner);
    }

    /** The seek: read what is stale, then advance whichever side is behind in the configured
        order until the current keys are equal. Nothing the join contains is skipped; if either
        input runs out, the operator is done. Each input only loses tuples from its front. */
    method SeekMatch()
      requires Valid() && phase == Seeking
      modifies this`outerIn, this`innerIn, this`tupleOuter, this`tupleInner, this`getFromOuter, this`getFromInner, this`phase
      ensures outerIn.closed == old(outerIn.closed) && innerIn.closed == old(innerIn.closed)
      ensures Valid() && unchanged(this`emitted)
      ensures phase == Buffering || phase == Exhausted
      ensures IsSuffix(PendingOuter(), old(PendingOuter())) && IsSuffix(PendingInner(), old(PendingInner()))
    {
      ReadStale();
      if phase == Seeking {
        SeekLoop();
      } else {
        SuffixDrop(PendingOuter(), 0);
        SuffixDrop(PendingInner(), 0);
      }
    }

    /** One side's buffering loop: append `cur` and every following tuple of the same key to
        `buf`. It stops at the first tuple of another key, returned as the side's next current
        tuple, or at the end of the input, reported as `ended`. */
    static method FillClass(key: int, cur: Tuple, stream: Stream, buf: IoBuf)
      returns (next: Tuple, ended: bool, after: Stream, filled: IoBuf)
      requires buf.Valid() && buf.items == [] && cur.key == key
      ensures filled.Valid() && filled.scan == buf.scan && after.closed == stream.closed
      ensures filled.items + (if ended then after.rest else [next] + after.rest) == [cur] + stream.rest
      ensures filled.items != [] && forall i :: 0 <= i < |filled.items| ==> filled.items[i].key == key
      ensures ended ==> after.rest == []
      ensures !ended ==> next.key != key
    {
      ghost var all := [cur] + stream.rest;
      next, ended, after, filled := cur, false, stream, buf;
      while CompareKeys(next, cur) == 0
        invariant filled.Valid() && filled.scan == buf.scan && after.closed == stream.closed
        invariant |filled.items| < |all| && filled.items == all[..|filled.items|] && next == all[|filled.items|]
        invariant after.rest == all[|filled.items| + 1..]
        invariant forall i :: 0 <= i < |filled.items| ==> filled.items[i].key == key
        decreases |after.rest|
      {
        filled := filled.Put(next);
        var ok;
        ok, next, after := ReadTuple(next, after);
        if !ok {
          ended := true;
          assert filled.items == all;
          return;
        }
      }
      assert filled.items + [next] + after.rest == all;
    }

    /** Buffering on the values of the fields: load the equivalence class of the current (equal)
        key from each side into a fresh buffer, keep the first tuple after each class as that
        side's current tuple, and take the first outer tuple of the class for pairing. The pending
        tuples split into the two classes and what follows them, so nothing still to come is lost
        or repeated. */
    static method LoadClasses(filter: (Tuple, Tuple) -> bool, order: Order, s0: JoinState,
                              outerIn: Stream, innerIn: Stream, ghost e: seq<Pair>, ghost spec: seq<Pair>)
      returns (s1: JoinState, outerAfter: Stream, innerAfter: Stream)
      requires s0.Inv(order) && s0.phase == Buffering && e + s0.Remaining(filter) == spec
      requires outerIn.rest == s0.outerRest && innerIn.rest == s0.innerRest
      ensures s1.phase == Emitting && s1.Inv(order) && e + s1.Remaining(filter) == spec
      ensures outerAfter == Stream(s1.outerRest, outerIn.closed) && innerAfter == Stream(s1.innerRest, innerIn.closed)
      ensures s1.outerBuf.items + s1.PendingOuter() == s0.PendingOuter()
      ensures s1.innerBuf.items + s1.PendingInner() == s0.PendingInner()
      ensures s1.outerBuf.items != [] && s1.innerBuf.items != []
      ensures |s1.PendingOuter()| < |s0.PendingOuter()| && |s1.PendingInner()| < |s0.PendingInner()|
      ensures forall i :: 0 <= i < |s1.outerBuf.items| ==> s1.outerBuf.items[i].key == s0.tupleOuter.key
      ensures forall i :: 0 <= i < |s1.innerBuf.items| ==> s1.innerBuf.items[i].key == s0.tupleOuter.key
      ensures s1.PendingOuter() == [] || s1.PendingOuter()[0].key != s0.tupleOuter.key
      ensures s1.PendingInner() == [] || s1.PendingInner()[0].key != s0.tupleOuter.key
      ensures s1.outerBuf.scan == 1 && s1.innerBuf.scan == 0 && s1.pairOuter == s1.outerBuf.items[0]
    {
      var key := s0.tupleOuter.key;
      var nextOuter, endedOuter, outerClass;
      nextOuter, endedOuter, outerAfter, outerClass := FillClass(key, s0.tupleOuter, outerIn, EmptyBuf());
      var nextInner, endedInner, innerClass;
      nextInner, endedInner, innerAfter, innerClass := FillClass(key, s0.tupleInner, innerIn, EmptyBuf());
      var first: Option<Tuple>;
      first, outerClass := outerClass.Get().0, outerClass.Get().1;
      s1 := JoinState(outerAfter.rest, innerAfter.rest, nextOuter, nextInner, endedOuter, endedInner,
                      outerClass, innerClass, first.value, Emitting);
      LoadClassStep(filter, order, s0, s1, e, spec);
    }

    /** The fields take the values of a state that keeps the invariant and accounts for what is
        still to come; what has been returned is untouched. */
    method Install(s: JoinState, outerAfter: Stream, innerAfter: Stream)
      requires outerAfter.rest == s.outerRest && innerAfter.rest == s.innerRest
      requires s.Inv(order) && emitted + s.Remaining(filter) == Spec()
      modifies this`outerIn, this`innerIn, this`tupleOuter, this`tupleInner, this`getFromOuter, this`getFromInner,
              this`outerBuf, this`innerBuf, this`pairOuter, this`phase
      ensures Snap() == s && Valid() && unchanged(this`emitted)
      ensures outerIn == outerAfter && innerIn == innerAfter
    {
      outerIn, innerIn := outerAfter, innerAfter;
      tupleOuter, getFromOuter, outerBuf := s.tupleOuter, s.getFromOuter, s.outerBuf;
      tupleInner, getFromInner, innerBuf := s.tupleInner, s.getFromInner, s.innerBuf;
      pairOuter, phase := s.pairOuter, s.phase;
      Establish(s);
    }

    /** Buffering: the fields take the state `LoadClasses` computes from them. */
    method BufferClass()
      requires Valid() && phase == Buffering
      modifies this`outerIn, this`innerIn, this`tupleOuter, this`tupleInner, this`getFromOuter, this`getFromInner,
              this`outerBuf, this`innerBuf, this`pairOuter, this`phase
      ensures outerIn.closed == old(outerIn.closed) && innerIn.closed == old(innerIn.closed)
      ensures Valid() && phase == Emitting && unchanged(this`emitted)
      ensures |PendingOuter()| < old(|PendingOuter()|) && |PendingInner()| < old(|PendingInner()|)
      ensures outerBuf.items + PendingOuter() == old(PendingOuter())
      ensures innerBuf.items + PendingInner() == old(PendingInner())
      ensures forall i :: 0 <= i < |outerBuf.items| ==> outerBuf.items[i].key == old(tupleOuter.key)
      ensures forall i :: 0 <= i < |innerBuf.items| ==> innerBuf.items[i].key == old(tupleOuter.key)
      ensures PendingOuter() == [] || PendingOuter()[0].key != old(tupleOuter.key)
      ensures PendingInner() == [] || PendingInner()[0].key != old(tupleOuter.key)
    {
      var s1, outerAfter, innerAfter := LoadClasses(filter, order, Snap(), outerIn, innerIn, emitted, Spec());
      Install(s1, outerAfter, innerAfter);
    }

    /** Emission within a pass: pair the current outer tuple with the next inner tuple of the
        pass; the pair is returned only if the residual predicate accepts it. */
    method EmitInner() returns (pair: Option<Pair>)
      requires Valid() && phase == Emitting && innerBuf.scan < |innerBuf.items|
      modifies this`innerBuf, this`emitted
      ensures Valid() && phase == Emitting
      ensures unchanged(this`outerIn, this`innerIn, this`tupleOuter, this`tupleInner, this`getFromOuter, this`getFromInner)
      ensures unchanged(this`outerBuf, this`pairOuter)
      ensures innerBuf.items == old(innerBuf.items) && innerBuf.scan == old(innerBuf.scan) + 1
      ensures pair.Some? ==> pair.value == (pairOuter, old(innerBuf.items[innerBuf.scan])) && filter(pair.value.0, pair.value.1)
      ensures pair.Some? ==> emitted == old(emitted) + [pair.value]
      ensures pair.None? ==> !filter(pairOuter, old(innerBuf.items[innerBuf.scan])) && emitted == old(emitted)
    {
      ghost var s0 := Snap();
      var t2: Option<Tuple>;
      t2, innerBuf := innerBuf.Get().0, innerBuf.Get().1;
      var s := t2.value;
      ghost var e0 := emitted;
      emitted := emitted + Hit(filter, pairOuter, s);
      EmitInnerStep(filter, order, s0, Snap(), pairOuter, s, e0, Spec());
      pair := if filter(pairOuter, s) then Some((pairOuter, s)) else None;
    }

    /** End of a pass over the inner buffer: take the next outer tuple of the class, rewind the
        inner buffer and pair the two; when the outer buffer is used up too, go back to seeking.
        A pair is returned only if the residual predicate accepts it. */
    method NextPass() returns (pair: Option<Pair>)
      requires Valid() && phase == Emitting && innerBuf.scan == |innerBuf.items|
      modifies this`outerBuf, this`innerBuf, this`pairOuter, this`phase, this`emitted
      ensures Valid()
      ensures unchanged(this`outerIn, this`innerIn, this`tupleOuter, this`tupleInner, this`getFromOuter, this`getFromInner)
      ensures outerBuf.items == old(outerBuf.items) && innerBuf.items == old(innerBuf.items)
      ensures old(outerBuf.scan) == |outerBuf.items| ==> phase == Seeking && pair.None? && emitted == old(emitted)
      ensures old(outerBuf.scan) < |outerBuf.items| ==>
                && phase == Emitting && outerBuf.scan == old(outerBuf.scan) + 1 && innerBuf.scan == 1
                && pairOuter == outerBuf.items[old(outerBuf.scan)]
                && (pair.Some? ==> pair.value == (pairOuter, innerBuf.items[0]) && filter(pair.value.0, pair.value.1)
                                   && emitted == old(emitted) + [pair.value])
                && (pair.None? ==> !filter(pairOuter, innerBuf.items[0]) && emitted == old(emitted))
    {
      ghost var s0 := Snap();
      var t1: Option<Tuple>;
      t1, outerBuf := outerBuf.Get().0, outerBuf.Get().1;
      if t1.None? {
        phase := Seeking;
        ClassDoneStep(filter, order, s0, Snap(), emitted, Spec());
        return None;
      }
      pairOuter := t1.value;
      innerBuf := innerBuf.Reread();
      var t2: Option<Tuple>;
      t2, innerBuf := innerBuf.Get().0, innerBuf.Get().1;
      var s := t2.value;
      ghost var e0 := emitted;
      emitted := emitted + Hit(filter, pairOuter, s);
      EmitNextOuterStep(filter, order, s0, Snap(), pairOuter, s, e0, Spec());
      pair := if filter(pairOuter, s) then Some((pairOuter, s)) else None;
    }

    /** One step of the nested loop over the buffered classes (`io_buf2.Get` returning a tuple or
        null): within a pass, the next inner tuple; at the end of a pass, the next outer tuple or
        the end of the class. */
    method EmitNext() returns (pair: Option<Pair>)
      requires Valid() && phase == Emitting
      modifies this`outerBuf, this`innerBuf, this`pairOuter, this`phase, this`emitted
      ensures Valid()
      ensures phase == Emitting || phase == Seeking
      ensures unchanged(this`outerIn, this`innerIn, this`tupleOuter, this`tupleInner, this`getFromOuter, this`getFromInner)
      ensures outerBuf.items == old(outerBuf.items) && innerBuf.items == old(innerBuf.items)
      ensures pair.Some? ==> phase == Emitting && filter(pair.value.0, pair.value.1) && emitted == old(emitted) + [pair.value]
      ensures pair.None? ==> emitted == old(emitted)
      ensures pair.None? && phase == Emitting ==>
                outerBuf.scan > old(outerBuf.scan) || (outerBuf.scan == old(outerBuf.scan) && innerBuf.scan > old(innerBuf.scan))
    {
      if innerBuf.scan < |innerBuf.items| {
        pair := EmitInner();
      } else {
        pair := NextPass();
      }
    }

    /** One turn of the `get_next` machine: seek, buffer or emit, as the phase says. A turn that
        returns no pair and does not finish brings the operator closer to its next output. */
    method Step() returns (pair: Option<Pair>)
      requires Valid() && phase != Exhausted
      modifies this`outerIn, this`innerIn, this`tupleOuter, this`tupleInner, this`getFromOuter, this`getFromInner,
              this`outerBuf, this`innerBuf, this`pairOuter, this`phase, this`emitted
      ensures outerIn.closed == old(outerIn.closed) && innerIn.closed == old(innerIn.closed)
      ensures Valid()
      ensures pair.Some? ==> emitted == old(emitted) + [pair.value]
      ensures pair.None? ==> emitted == old(emitted)
      ensures pair.None? ==>
                || |PendingOuter()| + |PendingInner()| < old(|PendingOuter()| + |PendingInner()|)
                || (|PendingOuter()| + |PendingInner()| == old(|PendingOuter()| + |PendingInner()|)
                    && (|| PhaseRank(phase) < old(PhaseRank(phase))
                        || (phase == old(phase) && outerBuf.items == old(outerBuf.items) && innerBuf.items == old(innerBuf.items)
                            && (|| outerBuf.scan > old(outerBuf.scan)
                                || (outerBuf.scan == old(outerBuf.scan) && innerBuf.scan > old(innerBuf.scan))))))
    {
      if phase == Seeking {
        SeekMatch();
        pair := None;
      } else if phase == Buffering {
        BufferClass();
        pair := None;
      } else {
        pair := EmitNext();
      }
    }

    /** `get_next`: run the seek / buffer / emit machine until it produces a pair the residual
        predicate accepts, and return that pair's projection; None once the join is complete.
        The calls return the join of the sorted inputs, in nested-loop order, one pair each. */
    method GetNext() returns (out: Option<Out>)
      requires Valid()
      modifies this`outerIn, this`innerIn, this`tupleOuter, this`tupleInner, this`getFromOuter, this`getFromInner,
              this`outerBuf, this`innerBuf, this`pairOuter, this`phase, this`emitted
      ensures outerIn.closed == old(outerIn.closed) && innerIn.closed == old(innerIn.closed)
      ensures Valid()
      ensures out.Some? ==>
                && |old(emitted)| < |Spec()|
                && emitted == Spec()[..|old(emitted)| + 1]
                && out.value == project(Spec()[|old(emitted)|].0, Spec()[|old(emitted)|].1)
      ensures out.None? ==> phase == Exhausted && emitted == old(emitted) == Spec()
    {
      ghost var e0 := emitted;
      ghost var outerClosed, innerClosed := outerIn.closed, innerIn.closed;
      while phase != Exhausted
        invariant Valid() && emitted == e0
        invariant outerIn.closed == outerClosed && innerIn.closed == innerClosed
        decreases |PendingOuter()| + |PendingInner()|, PhaseRank(phase),
                  |outerBuf.items| - outerBuf.scan, |innerBuf.items| - innerBuf.scan
      {
        var pair := Step();
        if pair.Some? {
          NextOfSpec(e0, pair.value, Remaining(), Spec());
          return Some(project(pair.value.0, pair.value.1));
        }
      }
      return None;
    }

    /** Every pair returned so far joins an outer input tuple with an inner input tuple of the
        same key that the residual predicate accepts. */
    lemma EmittedAreJoinPairs(r: Tuple, s: Tuple)
      requires Valid() && (r, s) in emitted
      ensures r in outerSorted && s in innerSorted && r.key == s.key && filter(r, s)
    {
      var i :| 0 <= i < |emitted| && emitted[i] == (r, s);
      assert (emitted + Remaining())[i] == (r, s);
      JoinMembership(filter, outerSorted, innerSorted, r, s);
    }

    /** Once the operator is done, the pairs it returned are the filtered equal-key cross product
        of its inputs: a pair occurs as often as its outer tuple times its inner tuple, so a key
        with m outer and n inner tuples and no residual predicate gives m * n pairs. */
    lemma CompleteJoin(r: Tuple, s: Tuple)
      requires Valid() && phase == Exhausted
      ensures multiset(emitted)[(r, s)]
           == if r.key == s.key && filter(r, s) then multiset(outerSorted)[r] * multiset(innerSorted)[s] else 0
    {
      assert emitted + [] == emitted;
      JoinMultiplicity(filter, outerSorted, innerSorted, r, s);
    }

    /** `close`: guarded by the flag, so only the first call has an effect; it closes both
        inputs, deletes each heap file still held and drops it, then sets the flag. The join
        state is left as it was. */
    method Close()
      modifies this, outerHeap, innerHeap
      ensures closeFlag && Snap() == old(Snap()) && emitted == old(emitted)
      ensures old(closeFlag) ==> unchanged(this) && (outerHeap != null ==> unchanged(outerHeap))
                                 && (innerHeap != null ==> unchanged(innerHeap))
      ensures !old(closeFlag) ==> outerIn.closed && innerIn.closed && outerHeap == null && innerHeap == null
      ensures !old(closeFlag) && old(outerHeap) != null ==> old(outerHeap).deleted
      ensures !old(closeFlag) && old(innerHeap) != null ==> old(innerHeap).deleted
    {
      if !closeFlag {
        outerIn := outerIn.Close();
        innerIn := innerIn.Close();
        if outerHeap != null {
          outerHeap.DeleteFile();
          outerHeap := null;
        }
        if innerHeap != null {
          innerHeap.DeleteFile();
          innerHeap := null;
        }
        closeFlag := true;
      }
    }
  }
}
