# Sort-merge join operator (`Sort1`) in Dafny

This project models `Sort1`, the sort-merge equi-join operator of the Minibase-style query engine
in `sortMerge-master/mj/src/iterator/Sort1.java`. The operator is a pull iterator. Each
`get_next` call returns one joined tuple, and `null` once the join is complete. It works over
two inputs, R (outer) and S (inner), sorted on the join key in the same order, ascending or
descending. Construction sorts an input through the external sort utility unless the caller
flags it as already sorted.

The operator is a state machine, written as the class `MergeJoin.Sort1`. Its phases are:

- **Seek.** Read any stale current tuple. Then drop the current tuple of whichever side is behind
  in the configured order until both current keys are equal. If either input ends, the join is
  complete.
- **Buffer.** Load the equivalence class of that key from each side into its class buffer (the
  `IoBuf`: append, scan, rewind). The first tuple after each class becomes that side's next
  current tuple. An input that ends is recorded as stale.
- **Emit.** Walk the two buffers as a nested loop: the inner buffer is rewound once per outer
  tuple. Return the projection of each pair the residual predicate accepts.
- **Next class.** When both buffers are used up, seek again.

`close` is a separate flag-guarded lifecycle step. It closes both inputs and deletes and drops
both temporary heap files.

What is proved:

- **Reference.** The join is specified independently by `JoinSpec.NestedLoop`. This is the
  naive nested-loop equi-join of the two sorted inputs, filtered by the residual predicate.
- **Invariant.** The class keeps `Valid()`: the pairs returned so far, followed by what the
  current state still has to produce, are exactly that reference join.
- **One call.** `GetNext` returns the next pair of the reference join, projected, or None when
  every pair has been returned.
- **Whole join.** The returned pairs are the filtered equal-key cross product, with
  multiplicities. A key with m outer and n inner tuples and no residual predicate gives m × n
  pairs.

Modules:

- `tuples.dfy` (`Tuples`): records, the sort order, the key comparator and sortedness.
- `join_spec.dfy` (`JoinSpec`): the reference join and its lemmas.
- `streams.dfy` (`Streams`): the input iterators, class buffers and heap files, as far as the
  join uses them.
- `sort_merge.dfy` (`MergeJoin`): the operator.
- `as_written.dfy` (`AsWritten`): the seek loop as written (see Findings).
- `scenario.dfy` (`Scenario`): a worked run with two classes.

## Model

| member | source | states |
|---|---|---|
| Tuples.CompareKeys | sortMerge-master/mj/src/iterator/Sort1.java:353 | the key comparison is negative, zero or positive exactly when the first key is below, equal to or above the second |
| Tuples.BehindMeansPrecedes | sortMerge-master/mj/src/iterator/Sort1.java:354 | the seek's "side is behind" test on a comparison result holds exactly when that side's key comes strictly first in the configured order, in both directions |
| Tuples.SortedSuffix | sortMerge-master/mj/src/iterator/Sort1.java:220-238 | what is left of a sorted input after dropping a prefix is still sorted |
| JoinSpec.Matches | sortMerge-master/mj/src/iterator/Sort1.java:460-491 | one outer tuple's pass over an inner sequence yields at most one pair per inner tuple |
| JoinSpec.MatchesAppend | sortMerge-master/mj/src/iterator/Sort1.java:471-484 | a pass over two concatenated inner runs is the pass over the first run followed by the pass over the second |
| JoinSpec.MatchesNone | sortMerge-master/mj/src/iterator/Sort1.java:12-18 | an outer tuple whose key occurs nowhere on the inner side contributes no pair |
| JoinSpec.NestedLoopAppendOuter | sortMerge-master/mj/src/iterator/Sort1.java:467-484 | the join of concatenated outer runs is the join of the first run followed by the join of the second |
| JoinSpec.NestedLoopCongruent | sortMerge-master/mj/src/iterator/Sort1.java:12-18 | two inner sides that every outer tuple matches identically give the same join |
| JoinSpec.NestedLoopDropInnerSuffix | sortMerge-master/mj/src/iterator/Sort1.java:442-458 | inner tuples after the class whose keys no outer tuple has do not change the join |
| JoinSpec.NestedLoopDropInnerPrefix | sortMerge-master/mj/src/iterator/Sort1.java:442-458 | inner tuples before the rest whose keys no outer tuple has do not change the join |
| JoinSpec.EmptyInputNoOutput | sortMerge-master/mj/src/iterator/Sort1.java:356-358 | if either input is empty the join is empty, so an exhausted input ends the join |
| JoinSpec.SkipOuterBehind | sortMerge-master/mj/src/iterator/Sort1.java:353-368 | an outer tuple whose key precedes the first key of the sorted inner side joins nothing and can be dropped |
| JoinSpec.SkipInnerBehind | sortMerge-master/mj/src/iterator/Sort1.java:353-368 | an inner tuple whose key precedes the first key of the sorted outer side joins nothing and can be dropped |
| JoinSpec.TailAvoidsKey | sortMerge-master/mj/src/iterator/Sort1.java:379-398 | in a sorted input, once a run of one key is followed by a different key, no later tuple has the run's key |
| JoinSpec.ClassSplit | sortMerge-master/mj/src/iterator/Sort1.java:379-398 | when both sorted inputs start with a maximal class of the same key, the join is the join of the two classes followed by the join of what follows them |
| JoinSpec.MatchesMultiplicity | sortMerge-master/mj/src/iterator/Sort1.java:485-491 | one outer tuple's pass holds an accepted equal-key pair as many times as the inner tuple occurs, and no other pair |
| JoinSpec.NestedLoopMultiplicityStep | sortMerge-master/mj/src/iterator/Sort1.java:467-484 | a pair's count in the join is its count in the first outer tuple's pass plus its count in the join of the remaining outer tuples |
| JoinSpec.JoinMultiplicity | sortMerge-master/mj/src/iterator/Sort1.java:12-18 | each accepted equal-key pair occurs in the join as often as its outer tuple times its inner tuple, and no other pair occurs |
| JoinSpec.JoinMembership | sortMerge-master/mj/src/iterator/Sort1.java:485-491 | a pair is in the join exactly when its outer tuple is in R, its inner tuple is in S, the keys are equal and the residual predicate accepts it |
| JoinSpec.MatchesAll | sortMerge-master/mj/src/iterator/Sort1.java:471-484 | a pass over an inner class whose pairs all match yields one pair per inner tuple |
| JoinSpec.ClassCount | sortMerge-master/mj/src/iterator/Sort1.java:460-465 | two classes of one key with m and n tuples and a predicate accepting every pair give m × n pairs |
| Streams.Stream.GetNext | sortMerge-master/mj/src/iterator/Sort1.java:356 | an input iterator returns its next tuple and moves past it, or null at its end |
| Streams.Stream.Close | sortMerge-master/mj/src/iterator/Sort1.java:519-520 | closing an input marks it closed and leaves what it has still to produce as it was |
| Streams.IoBuf.Put | sortMerge-master/mj/src/iterator/Sort1.java:383-384 | appending to a class buffer adds the tuple at the end without disturbing a scan |
| Streams.IoBuf.Get | sortMerge-master/mj/src/iterator/Sort1.java:471-473 | a scan returns the buffered tuples in append order, then null, and never changes the contents |
| Streams.IoBuf.Reread | sortMerge-master/mj/src/iterator/Sort1.java:481 | rewinding restarts the scan at the first buffered tuple, contents unchanged |
| Streams.EmptyBuf | sortMerge-master/mj/src/iterator/Sort1.java:375-376 | a buffer initialised for a new class holds nothing |
| Streams.TempHeap.constructor | sortMerge-master/mj/src/iterator/Sort1.java:265-266 | a new temporary heap file is live |
| Streams.TempHeap.DeleteFile | sortMerge-master/mj/src/iterator/Sort1.java:527 | deleting a heap file releases it |
| MergeJoin.Hit | sortMerge-master/mj/src/iterator/Sort1.java:485-491 | a buffered pair is emitted, exactly once, if and only if the residual predicate accepts it |
| MergeJoin.SeekReadStep | sortMerge-master/mj/src/iterator/Sort1.java:356-358 | reading the stale current tuples keeps the invariant and loses no pair; an input found at its end leaves no pair to produce |
| MergeJoin.SkipOuterStep | sortMerge-master/mj/src/iterator/Sort1.java:353-368 | dropping the outer current tuple when it is behind keeps the invariant and every pair still to come, also when the outer input then ends |
| MergeJoin.SkipInnerStep | sortMerge-master/mj/src/iterator/Sort1.java:353-368 | dropping the inner current tuple when it is behind keeps the invariant and every pair still to come, also when the inner input then ends |
| MergeJoin.KeysMetStep | sortMerge-master/mj/src/iterator/Sort1.java:370-376 | once the current keys are equal, moving to buffering keeps the invariant and every pair still to come |
| MergeJoin.LoadClassStep | sortMerge-master/mj/src/iterator/Sort1.java:379-398 | loading one maximal class per side splits what is pending into the join of the two classes, now emitted from the buffers, and the join of what follows; nothing is lost |
| MergeJoin.EmitInnerStep | sortMerge-master/mj/src/iterator/Sort1.java:471-491 | taking the next inner tuple of a pass moves exactly that pair, if accepted, from what remains to what was returned |
| MergeJoin.NextOuterKeepsInv | sortMerge-master/mj/src/iterator/Sort1.java:473-482 | taking the next outer tuple of the class and rewinding the inner buffer keeps the invariant |
| MergeJoin.NextOuterRemaining | sortMerge-master/mj/src/iterator/Sort1.java:473-491 | at the end of a pass, what remains is the pair of the next outer tuple with the first inner tuple, if accepted, followed by what remains after it |
| MergeJoin.EmitNextOuterStep | sortMerge-master/mj/src/iterator/Sort1.java:471-491 | at the end of a pass, rewinding the inner buffer and taking the next outer tuple moves exactly the new first pair, if accepted, from what remains to what was returned |
| MergeJoin.ClassDoneStep | sortMerge-master/mj/src/iterator/Sort1.java:473-477 | with both buffers used up, going back to the seek keeps the invariant and every pair still to come |
| MergeJoin.Sort1.constructor | sortMerge-master/mj/src/iterator/Sort1.java:150-277 | each input is kept if flagged sorted and otherwise replaced by the sort's output, and the streams deliver exactly those sorted inputs; both heap files are live; both sides start stale, nothing is returned yet and the flag is clear; the invariant holds |
| MergeJoin.Sort1.ReadTuple | sortMerge-master/mj/src/iterator/Sort1.java:284-307 | returns false and leaves the tuple unchanged at the end of the stream; otherwise returns true and the stream's next tuple, and the stream moves past it |
| MergeJoin.Sort1.ReadStale | sortMerge-master/mj/src/iterator/Sort1.java:353-358 | reads the current tuple of each stale side; it ends the join if an input is empty; no pending tuple changes, the invariant holds and no input is opened or closed |
| MergeJoin.Sort1.ReadStaleOuter | sortMerge-master/mj/src/iterator/Sort1.java:356 | if the outer current tuple is stale, reads the next outer tuple, or ends the join at the end of the outer input; nothing pending changes on either side and the invariant holds |
| MergeJoin.Sort1.ReadStaleInner | sortMerge-master/mj/src/iterator/Sort1.java:356 | if the inner current tuple is stale, reads the next inner tuple, or ends the join at the end of the inner input; nothing pending changes on either side and the invariant holds |
| MergeJoin.Sort1.SkipOuter | sortMerge-master/mj/src/iterator/Sort1.java:354-363 | drops exactly the outer current tuple, which is behind, and reads the next one; the invariant holds, no pair is returned and the outer input stays open |
| MergeJoin.Sort1.SkipInner | sortMerge-master/mj/src/iterator/Sort1.java:354-363 | drops exactly the inner current tuple, which is behind, and reads the next one; the invariant holds, no pair is returned and the inner input stays open |
| MergeJoin.Sort1.SeekStep | sortMerge-master/mj/src/iterator/Sort1.java:353-366 | one pass of the seek on unequal keys drops the current tuple of exactly the side whose key is behind in the configured order, and no other tuple; if that input has ended the join is done with nothing dropped; the invariant holds and neither input is closed |
| MergeJoin.Sort1.SeekLoop | sortMerge-master/mj/src/iterator/Sort1.java:353-368 | repeats the pass until the current keys are equal, then starts buffering, or until an input ends; each pending input only loses tuples from its front; the invariant holds and neither input is closed |
| MergeJoin.Sort1.SeekMatch | sortMerge-master/mj/src/iterator/Sort1.java:353-368 | reads what is stale, then advances only the side that is behind until the current keys are equal, or ends the join when an input runs out; each pending input afterwards is a suffix of what it was; nothing is returned, no pair is lost and neither input is closed |
| MergeJoin.Sort1.FillClass | sortMerge-master/mj/src/iterator/Sort1.java:379-398 | the buffer receives the maximal run of the class key from the current tuple on; the input continues with the first tuple of another key, or is reported ended |
| MergeJoin.Sort1.LoadClasses | sortMerge-master/mj/src/iterator/Sort1.java:379-398 | each buffer receives a non-empty class of the current key; what was pending on each side is that class followed by what is pending now, whose first tuple has another key; pairing starts with the first outer tuple; the invariant holds and the pairs still to come are the same |
| MergeJoin.Sort1.BufferClass | sortMerge-master/mj/src/iterator/Sort1.java:370-398 | each buffer holds the whole class of the old current key: exactly that class left each side's pending input, and the tuple pending next on each side, if any, has another key; emission starts, nothing is returned, the invariant holds, neither input is closed, and only the join-state fields change |
| MergeJoin.Sort1.EmitInner | sortMerge-master/mj/src/iterator/Sort1.java:471-491 | pairs the current outer tuple with the next inner tuple of the pass, which is consumed; the pair is returned and recorded only if accepted; only the inner buffer and the returned pairs may change |
| MergeJoin.Sort1.NextPass | sortMerge-master/mj/src/iterator/Sort1.java:471-491 | at the end of a pass: with the outer buffer used up, back to seeking with nothing returned; otherwise the next outer tuple is taken, the inner buffer rewound, and the pair with its first tuple returned and recorded only if accepted |
| MergeJoin.Sort1.EmitNext | sortMerge-master/mj/src/iterator/Sort1.java:467-491 | one step of the nested loop: the next inner tuple, or a rewind and the next outer tuple, or back to seeking; a pair is returned only if accepted; the invariant holds |
| MergeJoin.Sort1.GetNext | sortMerge-master/mj/src/iterator/Sort1.java:328-494 | returns the projection of the next pair of the reference join, so the calls so far have returned exactly a prefix of it; None only when the whole join has been returned; the close flag, the heap files and the open state of both inputs are left alone |
| MergeJoin.Sort1.Step | sortMerge-master/mj/src/iterator/Sort1.java:353-494 | one turn of the machine (seek, buffer or emit) keeps the invariant and the open state of both inputs, returns at most one pair, appended to those returned, and when it returns none it brings the machine strictly closer to its next output or its end |
| MergeJoin.Sort1.EmittedAreJoinPairs | sortMerge-master/mj/src/iterator/Sort1.java:485-491 | every returned pair combines an outer and an inner input tuple of equal key that the residual predicate accepts |
| MergeJoin.Sort1.CompleteJoin | sortMerge-master/mj/src/iterator/Sort1.java:12-18 | once the join is complete, each accepted equal-key pair was returned as often as its outer tuple times its inner tuple occur, and no other pair was returned |
| MergeJoin.Sort1.Close | sortMerge-master/mj/src/iterator/Sort1.java:510-548 | a second call changes nothing; the first closes both inputs, deletes and drops each heap file still held, and sets the flag; the join state is untouched |
| AsWritten.SeekAsWritten | sortMerge-master/mj/src/iterator/Sort1.java:353-368 | as written: if the inner side is behind at entry, the seek reads both inputs until one ends and reports the join complete; otherwise it goes on with the current tuples unchanged |
| AsWritten.SeekAsWrittenLosesMatch | sortMerge-master/mj/src/iterator/Sort1.java:353-368 | on a concrete input where the loop is entered, the pending inputs still join a pair |
| AsWritten.SeekAsWrittenRun | sortMerge-master/mj/src/iterator/Sort1.java:353-368 | running the seek as written on that input reports the join complete while the inputs still pending join the pair of the two key-2 tuples |
| Scenario.ScenarioJoin | sortMerge-master/mj/src/iterator/Sort1.java:12-18 | two key-1 outer tuples with one key-1 inner tuple and one key-2 outer tuple with two key-2 inner tuples join to the four pairs in nested-loop order |
| Scenario.Drain | sortMerge-master/mj/src/iterator/Sort1.java:328-494 | on an operator whose join is the scenario's, four calls return the four pairs in nested-loop order and the fifth reports the end |
| Scenario.TwoClassRun | sortMerge-master/mj/src/iterator/Sort1.java:12-18 | the operator built over the two ascending scenario inputs returns the four pairs in order, then None |

## Left out

- The external sort utility (:220-238) is a function parameter of the constructor. The
  constructor requires it to return a sorted permutation of its input. How the sort runs, and
  the `amt_of_mem / 2` memory split, are not modelled.
- :232 passes `sortFld1Len` when sorting the inner input. The sort parameter takes no key
  length, so this is not modelled.
- Heap file, buffer pool, page bytes and spilling to disk (`Heapfile`, `IoBuf` internals,
  `matchSpaceOuter/Inner`) are not modelled. A class buffer is a sequence with a scan index. A
  heap file is a flag that records its release.
- The tuple layout and schema setup (`setHdr`, `TupleUtils.setup_op_tuple`, attribute types and
  string sizes, :178-199, :250-258) are not modelled. A tuple is a record with an integer key and
  a string payload. The comparator compares keys only.
- `PredEval.Eval` and `Projection.Join` are function parameters of the constructor (`filter`,
  `project`). Their internals are not modelled.
- The checked exceptions and I/O failures of every call are not modelled. The model has no
  failure path.
- MergeJoin.Sort1.GetNext: models the algorithm that the class comment (:12-18) and the nested-loop
  emission (:460-491) describe, not the path the method takes as written:
  - The buffering loop at :379-380 compares `tupleOuter` with itself, so its condition always
    holds. The model stops at the first tuple of another key on each side.
  - The ad hoc re-fetch from the inputs and re-`Put` during emission (:409-430) is not modelled.
  - The undeclared names in :442-492 (`io_buf2`, `tuple2`, `process_next_block`) are read as the
    class buffers and current tuples they stand for.
  - The seek as written is covered under Findings.
- Tuples.CompareKeys: compares each side's own join column. At :353, :366 and :379 the source
  reads the inner tuple, which comes from `am2s` (:356) and is sorted on `join_col_in2` (:232), at
  `join_col_in1`, and the outer tuple at `join_col_in2`; :380 also reads the outer tuple at
  `join_col_in2`. When the two join columns differ, these compare the wrong fields. A tuple in the
  model has one key, its side's join column, so the model does not reproduce the swap.
- MergeJoin.Sort1.Close: follows the evident intent of releasing each heap file independently.
  As braced, the inner-heap deletion and `closeFlag = true` sit inside the outer-heap null check
  (:525-546). In the model both heap files are non-null until the first close, so the two
  readings agree on every reachable state.
- `closeFlag` is never declared in the source (:514-516). The model declares it as a field that
  starts false.
- The null check at :243-246 on buffers and tuples that were never assigned is not modelled.
  As written it always fails.
- The first heap file created at :203 is overwritten at :265 without being released. The
  model creates the two heap files once.
- `complete` and `move_to_next` are not kept as separate fields. `complete` is the phase
  `Exhausted`, and `move_to_next` is the seek phase.

## Findings

| source | as written | input that shows it | evidently intended | confidence | as-written member | corrected member |
|---|---|---|---|---|---|---|
| sortMerge-master/mj/src/iterator/Sort1.java:353-368 | the comparison of the current keys is taken once, before the loop, and never recomputed inside it; each pass reads the next tuple of both inputs; the join is reported complete when either read finds the end | ascending order; outer current key 2 with nothing after it; inner current key 1 followed by key 2: the loop is entered, the outer read finds the end, and the join ends without the pair of the two key-2 tuples | advance only the side whose key is behind, recompare, and stop at equal keys | high (not executed) | AsWritten.SeekAsWritten, AsWritten.SeekAsWrittenLosesMatch | MergeJoin.Sort1.SeekMatch |
