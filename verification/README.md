# Triple buffer exchange, modelled in Dafny

A model of `simple_triple_buffer`, the single-writer/single-reader buffer
exchange. The writer computes each new state into a scratch buffer and
publishes it through a one-item slot. The reader adopts the newest published
buffer. Buffers that either side stops using go back to a FIFO pool, the
channel of unused buffers. The writer reuses pooled buffers before it builds a
new one with `make_buf`.

The model runs writer and reader calls one after another (a sequential
interleaving). It has two layers:

- `ExchangeModel` (model.dfy) is a pure state machine. Each `Arc<T>` is a
  buffer id that indexes `bufs`. The writer's previous buffer, the reader's
  previous buffer, the slot (`Option<Id>`) and the pool (`seq<Id>`, oldest
  first) hold ids. `made` counts how many times `make_buf` has run. The
  ownership invariant `Inv` says:
  - no buffer is leaked and none dangles;
  - an occupied slot holds the writer's latest buffer, and the reader does
    not hold that buffer;
  - an empty slot means the reader holds the writer's latest buffer;
  - a pooled buffer is held by nobody else;
  - a scratch buffer that a write has taken is held by nobody else;
  - `|bufs| == made + 1 <= 3`.

  The lemmas prove that every step keeps `Inv`, plus the properties below.
- `Slot`, `Handles` and `TripleBuffer` (slot.dfy, handles.dfy,
  triple_buffer.dfy) are the imperative side:
  - `ReadUpdate` is a class over `Option`.
  - An `Arena` stands for the `Arc` allocations.
  - A `Channel` stands for the mpsc channel.
  - `Writer` and `Reader` have `prevBuf` fields that their methods reassign.

  Each `Writer` and `Reader` method is proved equal to its step of
  `ExchangeModel`, read through the ghost function `Abs(w, r)`. Each of them
  also keeps `Inv`.
- `TripleBufferTests` (tests.dfy) holds the crate's three unit-test scenarios
  as verified client methods.

`write_new` is split into three steps:
- `GetUnusedBuffer`;
- `ApplyWrite`, which is `write_op` through `Arc::get_mut`;
- `PublishBuffer`.

Splitting it lets the reads issued from inside `write_op` (the
overlapping-write test) happen between the steps.

The model follows the code:
- The slot starts empty (`None`).
- `get` takes the occupant and leaves the slot empty.
- Reclaimed buffers are always sent to the pool, with no reference-count check.

`Inv` shows that sending unconditionally is safe:
- The slot's previous occupant is never the reader's buffer.
- The reader's old buffer is never the writer's buffer or the slot's occupant.
- So nothing the reader holds is ever written.

## Model

| member | source | states |
|---|---|---|
| `Slot.ReadUpdate.constructor` | src/lib.rs:14-18 | a fresh slot is empty |
| `Slot.ReadUpdate.Replace` | src/lib.rs:19-21 | afterwards the slot holds `v`; the previous occupant is returned |
| `Slot.ReadUpdate.Get` | src/lib.rs:22-24 | returns the occupant and leaves the slot empty |
| `Slot.SlotRoundTrip` | src/lib.rs:14-24 | a get on a fresh slot returns None; the first replace returns None and the second returns the first value; get returns the occupant, and a second get with no replace in between returns None |
| `Handles.Channel.TryRecv` | src/lib.rs:87 | takes the oldest queued buffer if there is one; otherwise returns None and leaves the channel empty |
| `Handles.Channel.Send` | src/lib.rs:123 | appends the buffer at the back of the queue |
| `Handles.Arena.Store` | src/lib.rs:118-119 | the write through the exclusive `mut_ref` replaces that buffer's contents and no other |
| `Handles.Arena.Alloc` | src/lib.rs:93 | `Arc::new` yields a buffer distinct from every existing one and leaves existing buffers unchanged |
| `ExchangeModel.Init` | src/lib.rs:48-61 | the initial state: writer and reader share the one buffer, which holds `init`; slot and pool are empty; `make_buf` has not run; the ownership invariant holds |
| `ExchangeModel.Acquire` | src/lib.rs:86-94 | the buffer handed out exists in the new state, which stays well formed; exclusivity and both branches in full: see `AcquireExclusive` |
| `ExchangeModel.Fill` | src/lib.rs:114-119 | the state stays well formed with the same number of buffers; the scratch buffer alone changes and writer, reader, slot, pool and `made` stay the same: see `FillOnlyScratch` |
| `ExchangeModel.Publish` | src/lib.rs:121-124 | the new state stays well formed; new slot, writer buffer and pool: see `PublishRestores` |
| `ExchangeModel.Read` | src/lib.rs:151-160 | the value returned is the contents of the reader's buffer afterwards; which buffer that is and what else changes: see `ReadSeesNewest` |
| `ExchangeModel.Write` | src/lib.rs:113-125 | the state after `write_new` stays well formed; its full post-state: see `WriteNewSpec` |
| `ExchangeModel.AcquireExclusive` | src/lib.rs:86-94 | with a non-empty pool, the oldest pooled buffer is popped and nothing is built; with an empty pool, `make_buf(prev)` runs once and a new buffer is allocated; the buffer taken is held by nobody else; at most three buffers exist afterwards |
| `ExchangeModel.FillOnlyScratch` | src/lib.rs:114-119 | `write_op(prev, scratch)` changes the scratch buffer only; every other buffer, the reader's included, keeps its contents; writer, reader, slot, pool and `made` are unchanged; the invariant is kept |
| `ExchangeModel.PublishRestores` | src/lib.rs:121-124 | the scratch buffer becomes both the writer's previous buffer and the slot's occupant; the slot's former occupant, if any, is appended to the pool; the reader is unchanged; the invariant is restored |
| `ExchangeModel.WriteNewSpec` | src/lib.rs:113-125 | after `write_new`, writer-prev and slot both hold the new buffer, which contains `write_op(old prev, scratch)`; no other buffer changes; with no reads inside, reader-prev is unchanged and the pool gains the slot's former occupant; with reads inside, reader-prev becomes the old writer-prev and the pool gains the reader's old buffer if the slot was occupied, nothing otherwise; the invariant is kept |
| `ExchangeModel.ReadSeesNewest` | src/lib.rs:151-160 | a read returns the writer's latest published value; with the slot occupied, the reader adopts that buffer, the slot empties and the old reader buffer is appended to the pool; with the slot empty, nothing changes; this holds while a write is in progress too |
| `ExchangeModel.ReadTwice` | src/lib.rs:151-160 | a second read with no write in between returns the same value and changes nothing |
| `ExchangeModel.ReadsDuringWrite` | src/lib.rs:241-248 | every read issued between taking the scratch buffer and publishing it returns the writer's previous value and keeps the invariant; after at least one such read the reader holds the writer's previous buffer and the slot is empty |
| `ExchangeModel.WritesKeepReaderValue` | src/lib.rs:140-150 | across any number of writes the reader keeps its buffer and that buffer keeps its contents |
| `ExchangeModel.SequentialComposition` | src/lib.rs:108-111 | for writes whose new state is a function of the previous state (`Overwrite`, as the documentation of `write_new` asks of `write_op`), writes performed before a read are all visible to it, applied in order to the value the writer started from |
| `ExchangeModel.RunKeepsInv` | src/lib.rs:47 | after any interleaving of writes (with or without reads inside them) and reads, the invariant holds, at most three buffers exist and `make_buf` has run at most twice |
| `ExchangeModel.MakeBufAtMostTwice` | src/lib.rs:193 | from construction, whatever the interleaving, `make_buf` runs at most twice |
| `TripleBuffer.Writer.constructor` | src/lib.rs:72-84 | the initial state is in a fresh buffer, the slot is empty, the pool is empty and `make_buf` is kept |
| `TripleBuffer.Writer.GetUnusedBuffer` | src/lib.rs:86-94 | behaves as `Acquire`: pops the oldest pooled buffer, or builds one from the previous state; the buffer returned is exclusive (the debug assertion is a proved `assert`) |
| `TripleBuffer.Writer.ApplyWrite` | src/lib.rs:114-119 | behaves as `Fill`: only the exclusive scratch buffer is written |
| `TripleBuffer.Writer.PublishBuffer` | src/lib.rs:121-124 | behaves as `Publish` and restores the invariant |
| `TripleBuffer.Writer.WriteNew` | src/lib.rs:113-125 | behaves as `Write` with no inner reads and keeps the invariant |
| `TripleBuffer.Reader.constructor` | src/lib.rs:53-59 | the reader shares the writer's arena, slot and channel and starts from the writer's buffer |
| `TripleBuffer.Reader.ReadNewest` | src/lib.rs:151-160 | behaves as `Read` (state and returned value) and keeps the invariant, also during a write in progress |
| `TripleBuffer.NewWith` | src/lib.rs:48-61 | returns a paired writer and reader whose state is `Init(init)` |
| `TripleBuffer.CloneBuildsCopy` | src/lib.rs:67-68 | with the copying constructor of `new_clone`, a buffer built because the pool is empty starts as a copy of the writer's previous state, and `make_buf` has run once more |
| `TripleBuffer.NewClone` | src/lib.rs:67-69 | `new_with` with the copying buffer constructor |
| `TripleBufferTests.TestSeq1` | src/lib.rs:180-194 | reading after construction gives 0; one increment is then read as 1; `make_buf` ran at most twice |
| `TripleBufferTests.TestLongOverlappingRead` | src/lib.rs:196-230 | the buffer read first still holds 0 after each of five increments; a fresh read gives 5; `make_buf` ran at most twice |
| `TripleBufferTests.TestLongOverlappingWrite` | src/lib.rs:232-252 | five reads issued inside a write all give 0; after the write a read gives 1; `make_buf` ran at most twice |

## Left out

- Threads, the `Mutex` and lock poisoning (`lock().unwrap()`) are not modelled. Writer and reader calls are interleaved one at a time, so the model says nothing about memory ordering or thread safety. The bound of three buffers and two `make_buf` calls depends on each `read_newest` running without interruption: a reader preempted between its `get` and its `send` keeps its old buffer out of the pool, and two writes in that window can build a fourth buffer.
- Channel send and receive failures (`unwrap` on `send`, and `try_recv` reporting disconnection) are not modelled. Both ends of the channel live as long as the pair, so in the model `try_recv` only reports an empty queue.
- `Arc` strong and weak counts and the `unwrap` on `Arc::get_mut` are not modelled. Exclusivity is the ghost invariant `Inv` over buffer ids; the debug assertion in `get_unused_buffer` becomes a proved `assert`.
- `read_newest` returns the value, not a reference tied to the reader's lifetime. The buffer behind that reference is `Reader.prevBuf`, and the tests state its stability through it.
- Closures are pure functions: `make_buf` is `T -> T` and `write_op` is `(T, T) -> T`. Side effects inside `write_op` are modelled only as reads issued between the write's steps. The counters the tests keep in `make_buf` are the ghost count `made`.
- Panics in `make_buf` or `write_op` are not modelled.
- Dropping a `Writer` or a `Reader` is not modelled; buffers are never freed.
- `Clone` on `T` is the identity (`TripleBuffer.Clone`), because Dafny values are immutable.
- The ordering of the snapshots a reader observes across many reads is not stated as a lemma. It is implied step by step by `ReadSeesNewest`.
- examples/counter.rs and src/main.rs are demo drivers that spawn threads, print and sleep. They are not part of this model.
