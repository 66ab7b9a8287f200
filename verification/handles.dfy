/**
  The two pieces of the standard library the exchange relies on: the heap of
  `Arc` allocations and the mpsc channel that serves as the pool of unused
  buffers.
 */
module Handles {
  import opened Wrappers

  /**
    Every `Arc<T>` allocated by one exchange. A handle is the index of its
    contents in `bufs`; the exchange never drops a buffer, so `bufs` only grows.
   */
  class Arena<T> {
    var bufs: seq<T>

    constructor ()
      ensures bufs == []
    {
      bufs := [];
    }

    /** `Arc::new(v)`: a new buffer, distinct from every existing one. */
    method Alloc(v: T) returns (id: nat)
      modifies this
      ensures id == old(|bufs|)
      ensures bufs == old(bufs) + [v]
    {
      id := |bufs|;
      bufs := bufs + [v];
    }

    /** Overwrites the contents of buffer `id` (the write through `Arc::get_mut`). */
    method Store(id: nat, v: T)
      requires id < |bufs|
      modifies this
      ensures bufs == old(bufs)[id := v]
    {
      bufs := bufs[id := v];
    }
  }

  /** The unbounded FIFO channel: `send` appends, `try_recv` takes the oldest message if any. */
  class Channel<B> {
    var queue: seq<B>

    constructor ()
      ensures queue == []
    {
      queue := [];
    }

    method Send(v: B)
      modifies this
      ensures queue == old(queue) + [v]
    {
      queue := queue + [v];
    }

    method TryRecv() returns (r: Option<B>)
      modifies this
      ensures old(queue) == [] ==> r == None && queue == []
      ensures old(queue) != [] ==> r == Some(old(queue)[0]) && queue == old(queue)[1..]
    {
      if queue == [] {
        r := None;
      } else {
        r := Some(queue[0]);
        queue := queue[1..];
      }
    }
  }
}
