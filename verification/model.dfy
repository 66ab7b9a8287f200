/**
  The buffer exchange of the triple buffer as a pure state machine.

  Every `Arc<T>` the exchange ever allocates is named by an `Id`: the index of
  its contents in `bufs`. Nothing is ever freed (reclaimed buffers are always
  sent back to the pool), so `bufs` only grows. The four holders of buffers are
  the writer's previous buffer, the reader's previous buffer, the shared slot
  and the pool of unused buffers (the mpsc channel, oldest first). While a
  write is in progress the writer also holds a scratch buffer.
 */
module ExchangeModel {
  import opened Wrappers

  type Id = nat

  datatype State<T> = State(
    bufs: seq<T>,        // contents of every buffer allocated so far
    writerPrev: Id,      // Writer.prev_buf
    readerPrev: Id,      // Reader.prev_buf
    slot: Option<Id>,    // the ReadUpdate cell
    pool: seq<Id>,       // the unused_bufs channel, oldest first
    made: nat)           // how many times make_buf has run

  /** The update a write applies: previous state and scratch contents to new contents. */
  type WriteOp<!T> = (T, T) -> T

  /** Every id a state mentions names an allocated buffer. */
  predicate WellFormed<T>(s: State<T>) {
    && s.writerPrev < |s.bufs|
    && s.readerPrev < |s.bufs|
    && (s.slot.Some? ==> s.slot.value < |s.bufs|)
    && (forall i :: 0 <= i < |s.pool| ==> s.pool[i] < |s.bufs|)
  }

  /** Buffer `b` is held by the writer, the reader, the slot, the pool or as the pending scratch buffer. */
  ghost predicate Held<T>(s: State<T>, scratch: Option<Id>, b: Id) {
    b == s.writerPrev || b == s.readerPrev || s.slot == Some(b) || b in s.pool || scratch == Some(b)
  }

  ghost predicate NoDuplicates(q: seq<Id>) {
    forall i, j :: 0 <= i < j < |q| ==> q[i] != q[j]
  }

  /**
    The ownership invariant. `scratch` is the buffer a write in progress has
    taken and not yet published (None between writes).
   */
  ghost predicate Inv<T>(s: State<T>, scratch: Option<Id>) {
    && WellFormed(s)
    // make_buf ran once per allocation after the first, and at most three buffers exist
    && |s.bufs| == s.made + 1 <= 3
    // no buffer is leaked and none is dangling
    && (forall b: Id :: b < |s.bufs| <==> Held(s, scratch, b))
    // an occupied slot holds the writer's latest buffer, which the reader has not adopted yet;
    // an empty slot means the reader has adopted it
    && (s.slot.Some? ==> s.slot.value == s.writerPrev && s.readerPrev != s.writerPrev)
    && (s.slot.None? ==> s.readerPrev == s.writerPrev)
    // pooled buffers are held by nobody else
    && NoDuplicates(s.pool)
    && s.writerPrev !in s.pool && s.readerPrev !in s.pool
    // the scratch buffer is held by nobody else
    && (scratch.Some? ==> scratch.value < |s.bufs| && scratch.value != s.writerPrev && scratch.value != s.readerPrev && scratch.value !in s.pool)
  }

  /** `new_with`: the initial buffer seeds both sides; the slot starts empty. */
  function Init<T>(init: T): (s: State<T>)
    ensures Inv(s, None)
    ensures s.slot == None && s.pool == [] && s.made == 0
    ensures s.bufs[s.writerPrev] == init && s.bufs[s.readerPrev] == init
  {
    State([init], 0, 0, None, [], 0)
  }

  /** `Writer::get_unused_buffer`: pop the oldest pooled buffer, or build one with `makeBuf`. */
  function Acquire<T>(s: State<T>, makeBuf: T -> T): (r: (State<T>, Id))
    requires WellFormed(s)
    ensures WellFormed(r.0) && r.1 < |r.0.bufs|
  {
    if s.pool != [] then
      (s.(pool := s.pool[1..]), s.pool[0])
    else
      (s.(bufs := s.bufs + [makeBuf(s.bufs[s.writerPrev])], made := s.made + 1), |s.bufs|)
  }

  /** `write_op(&prev_buf, mut_ref)`: the scratch buffer receives the new state. */
  function Fill<T>(s: State<T>, scratch: Id, op: WriteOp<T>): (r: State<T>)
    requires WellFormed(s) && scratch < |s.bufs|
    ensures WellFormed(r) && |r.bufs| == |s.bufs|
  {
    s.(bufs := s.bufs[scratch := op(s.bufs[s.writerPrev], s.bufs[scratch])])
  }

  /** The end of `write_new`: the scratch buffer becomes the writer's previous
      buffer and the slot's occupant; the slot's former occupant goes to the pool. */
  function Publish<T>(s: State<T>, scratch: Id): (r: State<T>)
    requires WellFormed(s) && scratch < |s.bufs|
    ensures WellFormed(r)
  {
    var s1 := s.(writerPrev := scratch, slot := Some(scratch));
    match s.slot
    case Some(unused) => s1.(pool := s.pool + [unused])
    case None => s1
  }

  /** `Reader::read_newest`: adopt the slot's occupant if any, returning the old
      buffer to the pool; the result is the contents of the reader's buffer. */
  function Read<T>(s: State<T>): (r: (State<T>, T))
    requires WellFormed(s)
    ensures WellFormed(r.0)
    ensures r.1 == r.0.bufs[r.0.readerPrev]
  {
    match s.slot
    case Some(newBuf) =>
      (s.(readerPrev := newBuf, slot := None, pool := s.pool + [s.readerPrev]), s.bufs[newBuf])
    case None => (s, s.bufs[s.readerPrev])
  }

  /** `n` successive reads; the values they return, in order. */
  function ReadN<T>(s: State<T>, n: nat): (r: (State<T>, seq<T>))
    requires WellFormed(s)
    ensures WellFormed(r.0) && r.0.bufs == s.bufs && |r.1| == n
    decreases n
  {
    if n == 0 then (s, [])
    else
      var (s1, v) := Read(s);
      var (s2, vs) := ReadN(s1, n - 1);
      (s2, [v] + vs)
  }

  /** `Writer::write_new`, with `innerReads` reads issued from inside `write_op`,
      that is after the scratch buffer is taken and before it is published. */
  function Write<T>(s: State<T>, makeBuf: T -> T, op: WriteOp<T>, innerReads: nat): (r: State<T>)
    requires WellFormed(s)
    ensures WellFormed(r)
  {
    var (s1, scratch) := Acquire(s, makeBuf);
    var s2 := ReadN(s1, innerReads).0;
    Publish(Fill(s2, scratch, op), scratch)
  }

  // ---------------------------------------------------------------------------
  // Properties of the steps

  /**
    `get_unused_buffer` hands out a buffer nobody else holds: the oldest pooled
    one when the pool is non-empty, otherwise a freshly built one. A build can
    only happen while at most two buffers exist, so the bound of three holds.
   */
  lemma AcquireExclusive<T>(s: State<T>, makeBuf: T -> T)
    requires Inv(s, None)
    ensures var (s', k) := Acquire(s, makeBuf);
      && Inv(s', Some(k))
      && !Held(s', None, k)
      && s'.writerPrev == s.writerPrev && s'.readerPrev == s.readerPrev && s'.slot == s.slot
      && (s.pool != [] ==> k == s.pool[0] && s'.pool == s.pool[1..] && s'.bufs == s.bufs && s'.made == s.made)
      && (s.pool == [] ==> s'.pool == [] && s'.made == s.made + 1
                           && s'.bufs == s.bufs + [makeBuf(s.bufs[s.writerPrev])] && k == |s.bufs|)
  {
    var (s', k) := Acquire(s, makeBuf);
    if s.pool != [] {
      assert s.pool == [s.pool[0]] + s.pool[1..];
      forall b: Id ensures b < |s'.bufs| <==> Held(s', Some(k), b) {
        assert Held(s', Some(k), b) <==> Held(s, None, b);
      }
    } else {
      // only the writer and the reader hold buffers, so at most two exist
      assert (0 < |s.bufs|) == Held(s, None, 0);
      assert (1 < |s.bufs|) == Held(s, None, 1);
      assert (2 < |s.bufs|) == Held(s, None, 2);
      forall b: Id ensures b < |s'.bufs| <==> Held(s', Some(k), b) {
        assert Held(s', Some(k), b) <==> Held(s, None, b) || b == k;
      }
    }
  }

  /** The write into the scratch buffer changes that buffer only: the buffers
      of the reader, the slot and the pool keep their contents. */
  lemma FillOnlyScratch<T>(s: State<T>, scratch: Id, op: WriteOp<T>)
    requires Inv(s, Some(scratch))
    ensures var s' := Fill(s, scratch, op);
      && Inv(s', Some(scratch))
      && s'.bufs[scratch] == op(s.bufs[s.writerPrev], s.bufs[scratch])
      && s'.writerPrev == s.writerPrev && s'.readerPrev == s.readerPrev
      && s'.slot == s.slot && s'.pool == s.pool && s'.made == s.made
      && (forall b :: 0 <= b < |s.bufs| && b != scratch ==> s'.bufs[b] == s.bufs[b])
  {
    var s' := Fill(s, scratch, op);
    assert forall b: Id :: Held(s', Some(scratch), b) == Held(s, Some(scratch), b);
  }

  /** Publishing makes the scratch buffer the writer's previous buffer and the
      slot's occupant, sends the former occupant to the pool, and leaves the
      reader alone. */
  lemma PublishRestores<T>(s: State<T>, scratch: Id)
    requires Inv(s, Some(scratch))
    ensures var s' := Publish(s, scratch);
      && Inv(s', None)
      && s'.writerPrev == scratch && s'.slot == Some(scratch)
      && s'.pool == s.pool + (if s.slot.Some? then [s.slot.value] else [])
      && s'.readerPrev == s.readerPrev && s'.bufs == s.bufs && s'.made == s.made
  {
    var s' := Publish(s, scratch);
    forall b: Id ensures b < |s'.bufs| <==> Held(s', None, b) {
      assert Held(s', None, b) <==> Held(s, Some(scratch), b);
    }
  }

  /**
    `read_newest` returns the contents of the writer's latest published buffer.
    With the slot occupied the reader adopts its occupant, the slot empties and
    the reader's old buffer joins the pool; with the slot empty nothing changes.
    This holds also while a write is in progress (the pending scratch buffer is
    not visible).
   */
  lemma ReadSeesNewest<T>(s: State<T>, scratch: Option<Id>)
    requires Inv(s, scratch)
    ensures var (s', v) := Read(s);
      && Inv(s', scratch)
      && v == s.bufs[s.writerPrev]
      && s'.slot == None && s'.readerPrev == s.writerPrev
      && s'.writerPrev == s.writerPrev && s'.bufs == s.bufs && s'.made == s.made
      && (s.slot.Some? ==> s'.pool == s.pool + [s.readerPrev])
      && (s.slot.None? ==> s' == s)
  {
    var (s', v) := Read(s);
    if s.slot.Some? {
      forall b: Id ensures b < |s'.bufs| <==> Held(s', scratch, b) {
        assert Held(s', scratch, b) <==> Held(s, scratch, b);
      }
    }
  }

  /** A second read with no write in between returns the same value and changes nothing. */
  lemma ReadTwice<T>(s: State<T>)
    requires Inv(s, None)
    ensures var (s1, v1) := Read(s);
      var (s2, v2) := Read(s1);
      s2 == s1 && v2 == v1
  {
  }

  /** Reads issued while a write is in progress all see the writer's previous value. */
  lemma {:induction false} ReadsDuringWrite<T>(s: State<T>, scratch: Id, n: nat)
    requires Inv(s, Some(scratch))
    ensures var (s', vs) := ReadN(s, n);
      && Inv(s', Some(scratch))
      && s'.writerPrev == s.writerPrev && s'.pool == (if n == 0 then s else Read(s).0).pool
      && s'.made == s.made
      && (n > 0 ==> s'.readerPrev == s.writerPrev && s'.slot == None)
      && (forall i :: 0 <= i < n ==> vs[i] == s.bufs[s.writerPrev])
    decreases n
  {
    if n > 0 {
      ReadSeesNewest(s, Some(scratch));
      var s1 := Read(s).0;
      ReadsDuringWrite(s1, scratch, n - 1);
      ReadSeesNewest(s1, Some(scratch));
    }
  }

  /**
    After `write_new` the writer's previous buffer and the slot both hold the
    scratch buffer, whose contents are `op(previous state, scratch contents)`;
    no other buffer changes, so what the reader holds is never overwritten.
    Without reads inside `write_op`, the reader keeps its buffer and the slot's
    former occupant is appended to the pool. With reads inside, the first of
    them adopts the writer's previous buffer and pools the reader's old one,
    so the publish finds the slot empty and pools nothing.
   */
  lemma WriteNewSpec<T>(s: State<T>, makeBuf: T -> T, op: WriteOp<T>, innerReads: nat)
    requires Inv(s, None)
    ensures var (s1, k) := Acquire(s, makeBuf);
      var s' := Write(s, makeBuf, op, innerReads);
      && Inv(s', None)
      && s'.writerPrev == k && s'.slot == Some(k)
      && k != s.writerPrev && k != s.readerPrev
      && s'.bufs[k] == op(s.bufs[s.writerPrev], s1.bufs[k])
      && s'.made == s1.made
      && (forall b :: 0 <= b < |s.bufs| && b != k ==> s'.bufs[b] == s.bufs[b])
      && (innerReads == 0 ==>
            && s'.readerPrev == s.readerPrev
            && s'.pool == s1.pool + (if s.slot.Some? then [s.slot.value] else []))
      && (innerReads > 0 ==>
            && s'.readerPrev == s.writerPrev
            && s'.pool == s1.pool + (if s.slot.Some? then [s.readerPrev] else []))
  {
    var (s1, k) := Acquire(s, makeBuf);
    AcquireExclusive(s, makeBuf);
    var s2 := ReadN(s1, innerReads).0;
    ReadsDuringWrite(s1, k, innerReads);
    assert s2.writerPrev == s.writerPrev;
    if innerReads == 0 {
      assert s2 == s1;
    }
    FillOnlyScratch(s2, k, op);
    PublishRestores(Fill(s2, k, op), k);
  }

  /** Consecutive writes, no read in between. */
  function Writes<T>(s: State<T>, makeBuf: T -> T, ops: seq<WriteOp<T>>): (r: State<T>)
    requires WellFormed(s)
    ensures WellFormed(r)
    decreases |ops|
  {
    if ops == [] then s else Writes(Write(s, makeBuf, ops[0], 0), makeBuf, ops[1..])
  }

  /** The buffer a read returned keeps its buffer and its contents across any number of later writes. */
  lemma {:induction false} WritesKeepReaderValue<T>(s: State<T>, makeBuf: T -> T, ops: seq<WriteOp<T>>)
    requires Inv(s, None)
    ensures var s' := Writes(s, makeBuf, ops);
      && Inv(s', None)
      && s'.readerPrev == s.readerPrev
      && s'.bufs[s'.readerPrev] == s.bufs[s.readerPrev]
    decreases |ops|
  {
    if ops != [] {
      WriteNewSpec(s, makeBuf, ops[0], 0);
      WritesKeepReaderValue(Write(s, makeBuf, ops[0], 0), makeBuf, ops[1..]);
    }
  }

  /** The write operation of the tests: the new state depends on the previous state only. */
  function Overwrite<T>(g: T -> T): WriteOp<T> {
    (prev: T, scratch: T) => g(prev)
  }

  function Overwrites<T>(gs: seq<T -> T>): seq<WriteOp<T>> {
    seq(|gs|, i requires 0 <= i < |gs| => Overwrite(gs[i]))
  }

  /** Applies the updates in order, the first one first. */
  function Compose<T>(gs: seq<T -> T>, v: T): T
    decreases |gs|
  {
    if gs == [] then v else Compose(gs[1..], gs[0](v))
  }

  /** Sequential composition: writes performed before a read are all visible to
      it, applied in order to the value the writer started from. */
  lemma {:induction false} SequentialComposition<T>(s: State<T>, makeBuf: T -> T, gs: seq<T -> T>)
    requires Inv(s, None)
    ensures var s' := Writes(s, makeBuf, Overwrites(gs));
      && Inv(s', None)
      && Read(s').1 == Compose(gs, s.bufs[s.writerPrev])
    decreases |gs|
  {
    var s' := Writes(s, makeBuf, Overwrites(gs));
    if gs == [] {
      assert s' == s;
    } else {
      var s1 := Write(s, makeBuf, Overwrite(gs[0]), 0);
      WriteNewSpec(s, makeBuf, Overwrite(gs[0]), 0);
      assert s1.bufs[s1.writerPrev] == gs[0](s.bufs[s.writerPrev]);
      assert Overwrites(gs)[1..] == Overwrites(gs[1..]);
      SequentialComposition(s1, makeBuf, gs[1..]);
    }
    ReadSeesNewest(s', None);
  }

  // ---------------------------------------------------------------------------
  // Arbitrary interleavings of the writer and the reader

  /** One call on either side; a write may issue reads from inside its `write_op`. */
  datatype Action<!T> = WriteNew(op: WriteOp<T>, innerReads: nat) | ReadNewest

  function Step<T>(s: State<T>, makeBuf: T -> T, a: Action<T>): (r: State<T>)
    requires WellFormed(s)
    ensures WellFormed(r)
  {
    match a
    case WriteNew(op, innerReads) => Write(s, makeBuf, op, innerReads)
    case ReadNewest => Read(s).0
  }

  function Run<T>(s: State<T>, makeBuf: T -> T, acts: seq<Action<T>>): (r: State<T>)
    requires WellFormed(s)
    ensures WellFormed(r)
    decreases |acts|
  {
    if acts == [] then s else Run(Step(s, makeBuf, acts[0]), makeBuf, acts[1..])
  }

  /** The ownership invariant survives every interleaving, so at most three
      buffers ever exist and `make_buf` runs at most twice. */
  lemma {:induction false} RunKeepsInv<T>(s: State<T>, makeBuf: T -> T, acts: seq<Action<T>>)
    requires Inv(s, None)
    ensures var s' := Run(s, makeBuf, acts);
      && Inv(s', None)
      && |s'.bufs| <= 3 && s'.made <= 2
      && s'.made >= s.made
    decreases |acts|
  {
    if acts != [] {
      match acts[0] {
        case WriteNew(op, innerReads) =>
          WriteNewSpec(s, makeBuf, op, innerReads);
          AcquireExclusive(s, makeBuf);
        case ReadNewest =>
          ReadSeesNewest(s, None);
      }
      RunKeepsInv(Step(s, makeBuf, acts[0]), makeBuf, acts[1..]);
    }
  }

  /** From construction on, whatever the interleaving, `make_buf` runs at most twice. */
  lemma MakeBufAtMostTwice<T>(init: T, makeBuf: T -> T, acts: seq<Action<T>>)
    ensures Run(Init(init), makeBuf, acts).made <= 2
  {
    RunKeepsInv(Init(init), makeBuf, acts);
  }
}
