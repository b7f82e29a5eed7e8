/** The join's collaborators, reduced to the behaviour the join relies on: the forward-only
    pull iterators it reads its inputs from, the append-and-rescan buffers that hold one
    equivalence class per side, and the temporary heap files behind those buffers. */
module Streams {
  import opened Tuples

  datatype Option<T> = None | Some(value: T)

  /** A forward-only input iterator: the tuples it has still to produce, and whether it has been
      closed. */
  datatype Stream = Stream(rest: seq<Tuple>, closed: bool)
  {
    /** `get_next`: the next tuple and the iterator after it, or None (null) at the end. */
    function GetNext(): (r: (Option<Tuple>, Stream))
      ensures rest == [] ==> r.0 == None && r.1 == this
      ensures rest != [] ==> r.0 == Some(rest[0]) && r.1.rest == rest[1..] && r.1.closed == closed
    {
      if rest == [] then (None, this) else (Some(rest[0]), this.(rest := rest[1..]))
    }

    /** `close`: release the iterator; what it has produced stays produced. */
    function Close(): (s: Stream)
      ensures s.closed && s.rest == rest
    {
      this.(closed := true)
    }
  }

  /** The buffer holding one side's equivalence class (`IoBuf`): tuples are appended while the
      class is read, then scanned forward as many times as needed, rewinding in between. Where the
      tuples are stored (memory page or spilled heap file) does not change what it holds. */
  datatype IoBuf = IoBuf(items: seq<Tuple>, scan: nat)
  {
    predicate Valid()
    {
      scan <= |items|
    }

    /** The tuples the rest of the current scan will produce, in append order. */
    function Unscanned(): seq<Tuple>
      requires Valid()
    {
      items[scan..]
    }

    /** `Put`: append a tuple; a scan in progress is not disturbed. */
    function Put(t: Tuple): (b: IoBuf)
      requires Valid()
      ensures b.Valid() && b.items == items + [t] && b.scan == scan
    {
      IoBuf(items + [t], scan)
    }

    /** `Get`: the next tuple of the scan, or None when the scan is complete. */
    function Get(): (r: (Option<Tuple>, IoBuf))
      requires Valid()
      ensures r.1.Valid() && r.1.items == items
      ensures scan < |items| ==> r.0 == Some(items[scan]) && r.1.scan == scan + 1
      ensures scan == |items| ==> r.0 == None && r.1.scan == scan
    {
      if scan < |items| then (Some(items[scan]), IoBuf(items, scan + 1)) else (None, this)
    }

    /** `reread`: rewind, so that the next scan starts again from the first tuple. */
    function Reread(): (b: IoBuf)
      ensures b.Valid() && b.items == items && b.scan == 0
    {
      IoBuf(items, 0)
    }
  }

  /** `init`: an empty buffer for a new class. */
  function EmptyBuf(): (b: IoBuf)
    ensures b.Valid() && b.items == [] && b.scan == 0
  {
    IoBuf([], 0)
  }

  /** A temporary heap file (`Heapfile(null)`) backing one side's buffer. */
  class TempHeap {
    var deleted: bool

    constructor ()
      ensures !deleted
    {
      deleted := false;
    }

    /** `deleteFile`: releases the file's storage. */
    method DeleteFile()
      modifies this
      ensures deleted
    {
      deleted := true;
    }
  }
}
