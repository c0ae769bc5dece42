/** The FIFO queue with a fixed maximum size that the pipeline shares between its
    fetch tasks and its consumer (Python's queue.Queue constructed with a positive
    maxsize). The model is sequential: there is no other thread, so a blocking
    operation is modelled by requiring that it would not block. */
module BoundedQueues {
  import opened Wrappers

  class BoundedQueue<T> {
    /** The capacity, fixed at construction. */
    const maxsize: nat
    /** The queued items, oldest first. */
    var items: seq<T>

    ghost predicate Valid()
      reads this
    {
      0 < maxsize && |items| <= maxsize
    }

    constructor (maxsize: nat)
      requires 0 < maxsize
      ensures Valid()
      ensures this.maxsize == maxsize && items == []
    {
      this.maxsize := maxsize;
      items := [];
    }

    /** Non-blocking insertion: on a full queue nothing is inserted and the
        result reports "full" (the source's Full exception). */
    method PutNowait(x: T) returns (full: bool)
      requires Valid()
      modifies this
      ensures Valid()
      ensures full <==> |old(items)| == maxsize
      ensures !full ==> items == old(items) + [x]
      ensures full ==> items == old(items)
    {
      full := |items| >= maxsize;
      if !full {
        items := items + [x];
      }
    }

    /** Non-blocking removal of the oldest item: None on an empty queue (the
        source's Empty exception). */
    method GetNowait() returns (r: Option<T>)
      requires Valid()
      modifies this
      ensures Valid()
      ensures old(items) == [] ==> r == None && items == []
      ensures old(items) != [] ==> r == Some(old(items)[0]) && items == old(items)[1..]
    {
      if items == [] {
        r := None;
      } else {
        r := Some(items[0]);
        items := items[1..];
      }
    }

    /** Blocking insertion. With no concurrent reader it returns only when
        there is room, which is therefore required. */
    method Put(x: T)
      requires Valid() && |items| < maxsize
      modifies this
      ensures Valid()
      ensures items == old(items) + [x]
    {
      items := items + [x];
    }

    /** Blocking removal of the oldest item. With no concurrent writer it
        returns only when the queue is non-empty, which is therefore required. */
    method Get() returns (x: T)
      requires Valid() && items != []
      modifies this
      ensures Valid()
      ensures x == old(items)[0] && items == old(items)[1..]
    {
      x := items[0];
      items := items[1..];
    }
  }
}
