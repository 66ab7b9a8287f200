/**
  The scenarios of the crate's unit tests, as clients of the writer and the
  reader. The counting `make_buf` of the tests is any buffer constructor here;
  the count it keeps is the writer's `made`.
 */
module TripleBufferTests {
  import opened Wrappers
  import opened ExchangeModel
  import opened TripleBuffer

  ghost predicate Valid(w: Writer<int>, r: Reader<int>, scratch: Option<Id>)
    reads w, r, w.arena, w.unusedBufs, w.readUpdate
  {
    Paired(w, r) && Inv(Abs(w, r), scratch)
  }

  function Increment(prev: int, scratch: int): int {
    prev + 1
  }

  /** `test_seq_1`: one increment from 0 is read as 1. */
  method TestSeq1(makeBuf: int -> int) returns (first: int, second: int, ghost made: nat)
    ensures first == 0 && second == 1 && made <= 2
  {
    var w, r := NewWith(0, makeBuf);
    first := r.ReadNewest(w, None);
    WriteNewSpec(Abs(w, r), makeBuf, Increment, 0);
    w.WriteNew(r, Increment);
    ReadSeesNewest(Abs(w, r), None);
    second := r.ReadNewest(w, None);
    made := w.made;
  }

  /** One increment while the reader keeps the buffer it read: that buffer is untouched. */
  method IncrementKeepingGuard(w: Writer<int>, r: Reader<int>, guard: Id, ghost n: int, ghost g: int) returns (held: int)
    requires Valid(w, r, None)
    requires r.prevBuf == guard && w.arena.bufs[w.prevBuf] == n && w.arena.bufs[guard] == g
    modifies w, w.arena, w.unusedBufs, w.readUpdate
    ensures Valid(w, r, None)
    ensures r.prevBuf == guard && w.arena.bufs[w.prevBuf] == n + 1 && w.arena.bufs[guard] == g
    ensures held == g
  {
    WriteNewSpec(Abs(w, r), w.makeBuf, Increment, 0);
    w.WriteNew(r, Increment);
    held := w.arena.bufs[guard];
  }

  /** `test_long_overlapping_read`: a value read before five writes still reads 0; a fresh read sees 5. */
  method TestLongOverlappingRead(makeBuf: int -> int) returns (held: seq<int>, last: int, ghost made: nat)
    ensures held == [0, 0, 0, 0, 0, 0] && last == 5 && made <= 2
  {
    var w, r := NewWith(0, makeBuf);
    var first := r.ReadNewest(w, None);
    var guard := r.prevBuf;  // the buffer behind the reference `read_newest` returned
    var h1 := IncrementKeepingGuard(w, r, guard, 0, first);
    var h2 := IncrementKeepingGuard(w, r, guard, 1, first);
    var h3 := IncrementKeepingGuard(w, r, guard, 2, first);
    var h4 := IncrementKeepingGuard(w, r, guard, 3, first);
    var h5 := IncrementKeepingGuard(w, r, guard, 4, first);
    held := [first, h1, h2, h3, h4, h5];
    ReadSeesNewest(Abs(w, r), None);
    last := r.ReadNewest(w, None);
    made := w.made;
  }

  /** A read issued from inside `write_op`: it sees the writer's previous state. */
  method ReadInsideWrite(w: Writer<int>, r: Reader<int>, ghost buf: Id, ghost n: int) returns (v: int)
    requires Valid(w, r, Some(buf)) && w.arena.bufs[w.prevBuf] == n
    modifies r, r.readUpdate, r.unusedBufs
    ensures Valid(w, r, Some(buf)) && w.arena.bufs[w.prevBuf] == n
    ensures v == n
  {
    ReadSeesNewest(Abs(w, r), Some(buf));
    v := r.ReadNewest(w, Some(buf));
  }

  /** The rest of `write_new` once `write_op` has run its reads: the increment is published. */
  method FinishIncrement(w: Writer<int>, r: Reader<int>, buf: Id, ghost n: int)
    requires Valid(w, r, Some(buf)) && w.arena.bufs[w.prevBuf] == n
    modifies w, w.arena, w.unusedBufs, w.readUpdate
    ensures Valid(w, r, None)
    ensures w.arena.bufs[w.prevBuf] == n + 1
  {
    FillOnlyScratch(Abs(w, r), buf, Increment);
    w.ApplyWrite(r, buf, Increment);
    PublishRestores(Abs(w, r), buf);
    w.PublishBuffer(r, buf);
  }

  /** `test_long_overlapping_write`: five reads made inside a write still see 0; after it, 1. */
  method TestLongOverlappingWrite(makeBuf: int -> int) returns (inside: seq<int>, after: int, ghost made: nat)
    ensures inside == [0, 0, 0, 0, 0] && after == 1 && made <= 2
  {
    var w, r := NewWith(0, makeBuf);
    // write_new, with the reads its write_op issues before it writes the new state
    var buf := w.GetUnusedBuffer(r);
    var v0 := ReadInsideWrite(w, r, buf, 0);
    var v1 := ReadInsideWrite(w, r, buf, 0);
    var v2 := ReadInsideWrite(w, r, buf, 0);
    var v3 := ReadInsideWrite(w, r, buf, 0);
    var v4 := ReadInsideWrite(w, r, buf, 0);
    inside := [v0, v1, v2, v3, v4];
    FinishIncrement(w, r, buf, 0);
    ReadSeesNewest(Abs(w, r), None);
    after := r.ReadNewest(w, None);
    made := w.made;
  }
}
