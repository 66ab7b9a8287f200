/** The shared one-item cell through which the writer hands buffers to the reader. */
module Slot {
  import opened Wrappers

  /** `ReadUpdate`: the mutex-guarded `Option` shared by the writer and the reader. */
  class ReadUpdate<B> {
    var current: Option<B>

    /** A fresh slot is empty. */
    constructor ()
      ensures current == None
    {
      current := None;
    }

    /** Stores `v` and hands back the previous occupant. */
    method Replace(v: B) returns (prev: Option<B>)
      modifies this
      ensures current == Some(v)
      ensures prev == old(current)
    {
      prev := current;
      current := Some(v);
    }

    /** Takes the occupant, leaving the slot empty. */
    method Get() returns (taken: Option<B>)
      modifies this
      ensures taken == old(current)
      ensures current == None
    {
      taken := current;
      current := None;
    }
  }

  /**
    A get on a fresh slot yields None; the first replace returns None; a get
    returns the occupant and a second get with no replace in between returns None.
   */
  method SlotRoundTrip<B>(a: B, b: B) returns (empty: Option<B>, first: Option<B>, second: Option<B>, taken: Option<B>, again: Option<B>)
    ensures empty == None
    ensures first == None && second == Some(a)
    ensures taken == Some(b) && again == None
  {
    var slot := new ReadUpdate<B>();
    empty := slot.Get();
    first := slot.Replace(a);
    second := slot.Replace(b);
    taken := slot.Get();
    again := slot.Get();
  }
}
