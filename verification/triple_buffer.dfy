/**
  The writer and the reader of the triple buffer. Their methods are proved to
  behave as the steps of `ExchangeModel`, read through `Abs`, and to keep the
  ownership invariant `Inv`; the lemmas there give what follows for callers.
 */
module TripleBuffer {
  import opened Wrappers
  import opened ExchangeModel
  import opened Slot
  import opened Handles

  /** Write side: the previous published buffer, the buffer constructor and the ends of the pool channel. */
  class Writer<T> {
    const makeBuf: T -> T
    const arena: Arena<T>
    const unusedBufs: Channel<Id>
    const readUpdate: ReadUpdate<Id>
    var prevBuf: Id
    ghost var made: nat   // how many times makeBuf has run

    /** `Writer::new`: the initial state in a fresh buffer, an empty slot, an empty pool. */
    constructor (init: T, makeBuf: T -> T)
      ensures this.makeBuf == makeBuf
      ensures fresh(arena) && fresh(unusedBufs) && fresh(readUpdate)
      ensures arena.bufs == [init] && prevBuf == 0 && made == 0
      ensures unusedBufs.queue == [] && readUpdate.current == None
    {
      var a := new Arena<T>();
      var first := a.Alloc(init);
      this.makeBuf := makeBuf;
      arena := a;
      prevBuf := first;
      readUpdate := new ReadUpdate<Id>();
      unusedBufs := new Channel<Id>();
      made := 0;
    }

    /** `get_unused_buffer`: the oldest pooled buffer, else a new one built from the previous state. */
    method GetUnusedBuffer(ghost r: Reader<T>) returns (buf: Id)
      requires Paired(this, r) && Inv(Abs(this, r), None)
      modifies unusedBufs, arena, this`made
      ensures (Abs(this, r), buf) == Acquire(old(Abs(this, r)), makeBuf)
      ensures Inv(Abs(this, r), Some(buf))
    {
      AcquireExclusive(Abs(this, r), makeBuf);
      var received := unusedBufs.TryRecv();
      if received.Some? {
        buf := received.value;
        // the runtime check that nobody else holds the pooled buffer
        assert !Held(Abs(this, r), None, buf);
        return;
      }
      var newState := makeBuf(arena.bufs[prevBuf]);
      buf := arena.Alloc(newState);
      made := made + 1;
    }

    /** `write_op(&self.prev_buf, mut_ref)` through `Arc::get_mut`, which succeeds because `buf` is exclusive. */
    method ApplyWrite(ghost r: Reader<T>, buf: Id, op: WriteOp<T>)
      requires Paired(this, r) && Inv(Abs(this, r), Some(buf))
      modifies arena
      ensures Abs(this, r) == Fill(old(Abs(this, r)), buf, op)
      ensures Inv(Abs(this, r), Some(buf))
    {
      FillOnlyScratch(Abs(this, r), buf, op);
      arena.Store(buf, op(arena.bufs[prevBuf], arena.bufs[buf]));
    }

    /** The end of `write_new`: remember `buf` as previous, publish it, pool whatever the slot held. */
    method PublishBuffer(ghost r: Reader<T>, buf: Id)
      requires Paired(this, r) && Inv(Abs(this, r), Some(buf))
      modifies this`prevBuf, readUpdate, unusedBufs
      ensures Abs(this, r) == Publish(old(Abs(this, r)), buf)
      ensures Inv(Abs(this, r), None)
    {
      PublishRestores(Abs(this, r), buf);
      prevBuf := buf;
      var unused := readUpdate.Replace(buf);
      if unused.Some? {
        unusedBufs.Send(unused.value);
      }
    }

    /** `write_new`: compute the next state from the previous one into an unused buffer and publish it. */
    method WriteNew(ghost r: Reader<T>, op: WriteOp<T>)
      requires Paired(this, r) && Inv(Abs(this, r), None)
      modifies this, arena, unusedBufs, readUpdate
      ensures Abs(this, r) == Write(old(Abs(this, r)), makeBuf, op, 0)
      ensures Inv(Abs(this, r), None)
    {
      var newState := GetUnusedBuffer(r);
      ApplyWrite(r, newState, op);
      PublishBuffer(r, newState);
    }
  }

  /** Read side: the buffer last adopted and the shared slot and pool channel. */
  class Reader<T> {
    const arena: Arena<T>
    const unusedBufs: Channel<Id>
    const readUpdate: ReadUpdate<Id>
    var prevBuf: Id

    /** The reader `new_with` builds: clones of the writer's handles, starting from its buffer. */
    constructor (w: Writer<T>)
      ensures arena == w.arena && unusedBufs == w.unusedBufs && readUpdate == w.readUpdate
      ensures prevBuf == w.prevBuf
    {
      arena := w.arena;
      unusedBufs := w.unusedBufs;
      readUpdate := w.readUpdate;
      prevBuf := w.prevBuf;
    }

    /** `read_newest`: adopt a newly published buffer if there is one, pool the old one, return the contents. */
    method ReadNewest(ghost w: Writer<T>, ghost scratch: Option<Id>) returns (v: T)
      requires Paired(w, this) && Inv(Abs(w, this), scratch)
      modifies this, readUpdate, unusedBufs
      ensures (Abs(w, this), v) == Read(old(Abs(w, this)))
      ensures Inv(Abs(w, this), scratch)
    {
      ReadSeesNewest(Abs(w, this), scratch);
      var update := readUpdate.Get();
      match update {
        case Some(newBuf) =>
          var nowUnused := prevBuf;
          prevBuf := newBuf;
          unusedBufs.Send(nowUnused);
        case None =>
      }
      v := arena.bufs[prevBuf];
    }
  }

  /** The writer and the reader share one arena, one slot and one pool channel. */
  ghost predicate Paired<T>(w: Writer<T>, r: Reader<T>)
    reads w, r
  {
    r.arena == w.arena && r.unusedBufs == w.unusedBufs && r.readUpdate == w.readUpdate
  }

  /** The exchange state the pair represents. */
  ghost function Abs<T>(w: Writer<T>, r: Reader<T>): State<T>
    reads w, r, w.arena, w.unusedBufs, w.readUpdate
  {
    State(w.arena.bufs, w.prevBuf, r.prevBuf, w.readUpdate.current, w.unusedBufs.queue, w.made)
  }

  /** `new_with`: a bound writer/reader pair over the initial state. */
  method NewWith<T>(init: T, makeBuf: T -> T) returns (w: Writer<T>, r: Reader<T>)
    ensures fresh(w) && fresh(r) && fresh(w.arena) && fresh(w.unusedBufs) && fresh(w.readUpdate)
    ensures Paired(w, r) && w.makeBuf == makeBuf
    ensures Abs(w, r) == Init(init) && Inv(Abs(w, r), None)
  {
    w := new Writer(init, makeBuf);
    r := new Reader(w);
  }

  /** `Clone::clone` on an immutable value: a copy equal to the original. */
  function Clone<T>(v: T): T {
    v
  }

  /** With `Clone` as the buffer constructor, a buffer built because the pool
      is empty starts as a copy of the writer's previous state. */
  lemma CloneBuildsCopy<T>(s: State<T>)
    requires Inv(s, None) && s.pool == []
    ensures var (s', k) := Acquire(s, Clone<T>);
      s'.bufs[k] == s.bufs[s.writerPrev] && s'.made == s.made + 1
  {
  }

  /** `new_clone`: `new_with` whose buffer constructor copies the previous state. */
  method NewClone<T>(init: T) returns (w: Writer<T>, r: Reader<T>)
    ensures fresh(w) && fresh(r) && fresh(w.arena) && fresh(w.unusedBufs) && fresh(w.readUpdate)
    ensures Paired(w, r) && w.makeBuf == Clone<T>
    ensures Abs(w, r) == Init(init) && Inv(Abs(w, r), None)
  {
    w, r := NewWith(init, Clone<T>);
  }
}
