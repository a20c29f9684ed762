/**
 * The read worker: a FIFO of data events, one accumulation buffer per
 * selection key, and the cutting of length-prefixed frames off the front of
 * each buffer (ReadWorker.java).
 *
 * A Java ByteBuffer is juggled between a filling mode and a draining mode; here
 * a buffer is just its buffered bytes, always starting at index 0, and its
 * capacity.
 */
module ReadWorker {
  import opened Common
  import opened Framing

  /** Capacity of a key's buffer when the key first sends data. */
  const DEFAULT_BUFFER_SIZE: nat := 1024 * 30

  datatype Buffer = Buffer(data: Bytes, capacity: nat)

  predicate Fits(b: Buffer)
  {
    |b.data| <= b.capacity
  }

  /** The shape every buffer has between two data events. */
  predicate Settled(c: LengthCodec, b: Buffer)
  {
    Pending(c, b.data) && |b.data| < b.capacity && b.capacity >= PREFIX_LENGTH
  }

  /** One chunk of bytes read from a channel, waiting for the worker. */
  datatype DataEvent = DataEvent(key: ChannelId, data: Bytes)

  /** One batch of frames handed to the listeners. */
  datatype Delivery = Delivery(key: ChannelId, frames: seq<Bytes>)

  /**
   * The worker's state. `stopped` records that an exception escaped the
   * worker's loop, which ends its thread: no further event is handled.
   */
  datatype Worker = Worker(queue: seq<DataEvent>, buffers: map<ChannelId, Buffer>, delivered: seq<Delivery>, stopped: bool)

  predicate Valid(c: LengthCodec, w: Worker)
  {
    forall k :: k in w.buffers ==> Settled(c, w.buffers[k])
  }

  function Init(): (w: Worker)
    ensures w.queue == [] && w.buffers == map[] && !w.stopped
  {
    Worker([], map[], [], false)
  }

  /** processData: a copy of the first `count` bytes joins the tail of the queue. */
  function ProcessData(w: Worker, key: ChannelId, data: Bytes, count: nat): (w': Worker)
    requires count <= |data|
    ensures |w'.queue| == |w.queue| + 1
    ensures w'.queue[..|w.queue|] == w.queue
    ensures w'.queue[|w.queue|].key == key
    ensures |w'.queue[|w.queue|].data| == count
    ensures forall i :: 0 <= i < count ==> w'.queue[|w.queue|].data[i] == data[i]
    ensures w'.buffers == w.buffers && w'.delivered == w.delivered && w'.stopped == w.stopped
  {
    w.(queue := w.queue + [DataEvent(key, data[..count])])
  }

  /** The key's buffer, or a fresh empty one of the default capacity. */
  function BufferFor(w: Worker, key: ChannelId): Buffer
  {
    if key in w.buffers then w.buffers[key] else Buffer([], DEFAULT_BUFFER_SIZE)
  }

  /** ByteBuffer.put of a whole chunk: all of it when it fits, none of it otherwise. */
  function Append(b: Buffer, chunk: Bytes): (r: Buffer)
    requires Fits(b)
    ensures Fits(r) && r.capacity == b.capacity
    ensures r.data == b.data + chunk <==> |b.data| + |chunk| <= b.capacity
    ensures |b.data| + |chunk| > b.capacity ==> r == b
  {
    if |chunk| <= b.capacity - |b.data| then Buffer(b.data + chunk, b.capacity) else b
  }

  /** The outcome of one readMessage call. */
  datatype ReadStep =
    | Message(body: Bytes, buf: Buffer)
    | NoMessage(buf: Buffer)
    | NegativeSize

  /** readMessage: cut one frame off the front, or leave the bytes for the next event. */
  function ReadMessage(c: LengthCodec, b: Buffer): (r: ReadStep)
    requires Fits(b)
    ensures r.Message? <==> Complete(c, b.data)
    ensures r.NegativeSize? <==> Malformed(c, b.data)
    ensures r.Message? ==>
      && |r.body| == DeclaredLength(c, b.data)
      && b.data == b.data[..PREFIX_LENGTH] + r.body + r.buf.data
      && r.buf.capacity == b.capacity
    ensures r.NoMessage? ==> r.buf.data == b.data
    ensures r.NoMessage? && |b.data| >= PREFIX_LENGTH && |b.data| == b.capacity ==>
      r.buf.capacity == DeclaredLength(c, b.data) + PREFIX_LENGTH && r.buf.capacity > b.capacity
    ensures r.NoMessage? && (|b.data| < PREFIX_LENGTH || |b.data| < b.capacity) ==> r.buf == b
  {
    if |b.data| < PREFIX_LENGTH then
      NoMessage(b)
    else
      var len := DeclaredLength(c, b.data);
      if |b.data| - PREFIX_LENGTH < len then
        if |b.data| == b.capacity then
          // The pending frame cannot fit: regrow to exactly prefix plus payload.
          NoMessage(Buffer(b.data, len + PREFIX_LENGTH))
        else
          NoMessage(b)
      else if len < 0 then
        NegativeSize
      else
        Message(b.data[PREFIX_LENGTH..PREFIX_LENGTH + len], Buffer(b.data[PREFIX_LENGTH + len..], b.capacity))
  }

  /**
   * The frames of one data event, and the buffer left behind. `crashed` means
   * a negative declared length made the frame allocation throw; `buf` then
   * holds the bytes from that prefix on.
   */
  datatype Extraction = Extraction(frames: seq<Bytes>, buf: Buffer, crashed: bool)

  /** The loop of handleData: call readMessage until it returns nothing. */
  function ExtractAll(c: LengthCodec, b: Buffer): (r: Extraction)
    requires Fits(b)
    ensures Parses(c, b.data, r.frames, r.buf.data)
    ensures r.crashed <==> Malformed(c, r.buf.data)
    ensures !r.crashed ==> Fits(r.buf) && r.buf.capacity >= b.capacity
    ensures !r.crashed && b.capacity >= PREFIX_LENGTH ==> Settled(c, r.buf)
    decreases |b.data|
  {
    match ReadMessage(c, b)
    case NoMessage(b') => Extraction([], b', false)
    case NegativeSize => Extraction([], b, true)
    case Message(body, b') =>
      var more := ExtractAll(c, b');
      assert b.data[PREFIX_LENGTH + |body|..] == b'.data;
      Extraction([body] + more.frames, more.buf, more.crashed)
  }

  /** handleData for the event at the head of the queue, which has been removed. */
  function HandleData(c: LengthCodec, w: Worker, ev: DataEvent): (w': Worker)
    requires Valid(c, w)
    ensures Valid(c, w') && w'.queue == w.queue
    ensures forall o :: o != ev.key ==> (o in w'.buffers <==> o in w.buffers) && (o in w.buffers ==> w'.buffers[o] == w.buffers[o])
    ensures !w'.stopped ==>
      && |w'.delivered| == |w.delivered| + 1 && w'.delivered[..|w.delivered|] == w.delivered
      && w'.delivered[|w.delivered|].key == ev.key
  {
    var x := ExtractAll(c, Append(BufferFor(w, ev.key), ev.data));
    if x.crashed then
      w.(stopped := true)
    else
      w.(buffers := w.buffers[ev.key := x.buf], delivered := w.delivered + [Delivery(ev.key, x.frames)])
  }

  /** One turn of the worker's loop: the oldest event is removed and handled. */
  function Step(c: LengthCodec, w: Worker): (w': Worker)
    requires Valid(c, w) && w.queue != [] && !w.stopped
    ensures Valid(c, w')
    ensures w'.queue == w.queue[1..]
  {
    HandleData(c, w.(queue := w.queue[1..]), w.queue[0])
  }

  lemma DefaultBufferIsSettled(c: LengthCodec)
    ensures Settled(c, Buffer([], DEFAULT_BUFFER_SIZE))
  {
  }

  /**
   * Buffers are per key: a step touches only the buffer of the event's key,
   * creating it at the default capacity the first time (a later regrowth only
   * ever enlarges it).
   */
  lemma StepTouchesOnlyItsKey(c: LengthCodec, w: Worker)
    requires Valid(c, w) && w.queue != [] && !w.stopped
    ensures var w' := Step(c, w);
      var k := w.queue[0].key;
      && (forall other :: other != k ==> (other in w'.buffers <==> other in w.buffers))
      && (forall other :: other != k && other in w.buffers ==> w'.buffers[other] == w.buffers[other])
      && (!w'.stopped && k !in w.buffers ==> k in w'.buffers && w'.buffers[k].capacity >= DEFAULT_BUFFER_SIZE)
  {
    var k := w.queue[0].key;
    var ev := w.queue[0];
    var x := ExtractAll(c, Append(BufferFor(w, k), ev.data));
  }

  /**
   * Exactly one batch, possibly empty, is delivered per handled event, and it
   * belongs to the event's key; the state is committed before delivery, so a
   * failing listener cannot undo it.
   */
  lemma StepDeliversOneBatch(c: LengthCodec, w: Worker)
    requires Valid(c, w) && w.queue != [] && !w.stopped
    ensures var w' := Step(c, w);
      !w'.stopped ==>
        && |w'.delivered| == |w.delivered| + 1
        && w'.delivered[..|w.delivered|] == w.delivered
        && w'.delivered[|w.delivered|].key == w.queue[0].key
  {
  }

  /**
   * Stream order: when the chunk fits, the delivered frames followed by the new
   * buffer contents are exactly the old buffered bytes plus the chunk, cut by
   * the reference grammar.
   */
  lemma StepParsesStream(c: LengthCodec, w: Worker)
    requires Valid(c, w) && w.queue != [] && !w.stopped
    requires var b := BufferFor(w, w.queue[0].key); |b.data| + |w.queue[0].data| <= b.capacity
    ensures var w' := Step(c, w);
      var k := w.queue[0].key;
      !w'.stopped ==>
        Parses(c, BufferFor(w, k).data + w.queue[0].data, w'.delivered[|w.delivered|].frames, w'.buffers[k].data)
  {
  }

  /**
   * A chunk larger than the free space is dropped whole: the buffered bytes do
   * not change and the delivered batch is empty.
   */
  lemma {:induction false} StepDropsOversizedChunk(c: LengthCodec, w: Worker)
    requires Valid(c, w) && w.queue != [] && !w.stopped
    requires var b := BufferFor(w, w.queue[0].key); |b.data| + |w.queue[0].data| > b.capacity
    ensures var w' := Step(c, w);
      var k := w.queue[0].key;
      && !w'.stopped
      && w'.buffers[k] == BufferFor(w, k)
      && w'.delivered[|w.delivered|].frames == []
  {
    var k := w.queue[0].key;
    var b := BufferFor(w, k);
    assert Settled(c, b);
    assert ReadMessage(c, b) == NoMessage(b);
  }

  /**
   * The worker stops exactly when the bytes left over after cutting every
   * whole frame off the buffered stream start with a negative declared length.
   */
  lemma {:induction false} StepStopsOnNegativeLength(c: LengthCodec, w: Worker, fs: seq<Bytes>, rest: Bytes)
    requires Valid(c, w) && w.queue != [] && !w.stopped
    requires var b := BufferFor(w, w.queue[0].key); Fits(b)
    requires Parses(c, Append(BufferFor(w, w.queue[0].key), w.queue[0].data).data, fs, rest)
    ensures Step(c, w).stopped <==> Malformed(c, rest)
  {
    var b := Append(BufferFor(w, w.queue[0].key), w.queue[0].data);
    var x := ExtractAll(c, b);
    ParsesIsUnique(c, b.data, fs, rest, x.frames, x.buf.data);
  }

  // ----------------------------------------------------------------------
  // Finding: the buffer only regrows when it is exactly full, so a chunk
  // that overflows a partly filled buffer is lost from the stream.

  /** `n` zero bytes. */
  function Zeros(n: nat): Bytes
  {
    seq(n, i => 0)
  }

  /** The first 8192-byte read of a frame that declares 32000 bytes: its prefix and the payload's start. */
  function LongFrameStart(): Bytes
  {
    [0x7D, 0x00] + Zeros(8190)
  }

  /**
   * The 32002 bytes of that frame, read on key 7 as three reads of 8192
   * bytes (the frame's start, then two chunks of its payload) and a last
   * read of the 7426 bytes that remain.
   */
  function LongFrameReads(): seq<DataEvent>
  {
    [DataEvent(7, LongFrameStart()), DataEvent(7, Zeros(8192)), DataEvent(7, Zeros(8192)), DataEvent(7, Zeros(7426))]
  }

  /** The worker once the first `n` reads have been handled without losing a byte. */
  function Waiting(n: nat): Worker
    requires n <= 3
  {
    Worker(LongFrameReads()[n..],
           if n == 0 then map[] else map[7 := Buffer([0x7D, 0x00] + Zeros(8192 * n - 2), DEFAULT_BUFFER_SIZE)],
           seq(n, i => Delivery(7, [])), false)
  }

  /** Each of the first three reads is buffered whole and delivers an empty batch. */
  lemma EarlyReadWaits(c: LengthCodec, n: nat)
    requires c.toLength(0x7D, 0x00) == 32000 && n < 3
    ensures Valid(c, Waiting(n)) && Step(c, Waiting(n)) == Waiting(n + 1)
  {
    var w := Waiting(n);
    var held: Bytes := if n == 0 then [] else [0x7D, 0x00] + Zeros(8192 * n - 2);
    var chunk := LongFrameReads()[n].data;
    var next := [0x7D, 0x00] + Zeros(8192 * (n + 1) - 2);
    assert held + chunk == next;
    assert next[0] == 0x7D && next[1] == 0x00;
    StepWaitsForFrame(c, w, held, chunk);
    assert w.delivered + [Delivery(7, [])] == Waiting(n + 1).delivered;
    assert w.queue[1..] == Waiting(n + 1).queue;
  }

  /**
   * As written: starting from a fresh key, the last 7426 bytes of a
   * 32002-byte frame do not fit the 30720-byte buffer (24576 bytes are
   * held), are discarded, and the frame never completes although every
   * byte of it was read.
   */
  lemma {:induction false} AsWrittenLosesFourthChunk(c: LengthCodec)
    requires c.toLength(0x7D, 0x00) == 32000
    ensures var w0 := Worker(LongFrameReads(), map[], [], false);
      var w1 := Step(c, w0);
      var w2 := Step(c, w1);
      var w3 := Step(c, w2);
      var w4 := Step(c, w3);
      && |w4.buffers[7].data| == 24576
      && w4.buffers[7].data != LongFrameStart() + Zeros(8192) + Zeros(8192) + Zeros(7426)
      && forall i :: 0 <= i < |w4.delivered| ==> w4.delivered[i].frames == []
  {
    assert Waiting(0) == Worker(LongFrameReads(), map[], [], false);
    EarlyReadWaits(c, 0);
    EarlyReadWaits(c, 1);
    EarlyReadWaits(c, 2);
    StepDropsOversizedChunk(c, Waiting(3));
  }

  /**
   * A chunk that fits and still leaves the pending frame incomplete is
   * buffered whole and delivers nothing.
   */
  lemma StepWaitsForFrame(c: LengthCodec, w: Worker, held: Bytes, chunk: Bytes)
    requires Valid(c, w) && w.queue != [] && !w.stopped && w.queue[0].data == chunk
    requires BufferFor(w, w.queue[0].key) == Buffer(held, DEFAULT_BUFFER_SIZE)
    requires PREFIX_LENGTH <= |held + chunk| < DEFAULT_BUFFER_SIZE
    requires |held + chunk| - PREFIX_LENGTH < DeclaredLength(c, held + chunk)
    ensures var k := w.queue[0].key;
      Step(c, w) == w.(queue := w.queue[1..], buffers := w.buffers[k := Buffer(held + chunk, DEFAULT_BUFFER_SIZE)],
                       delivered := w.delivered + [Delivery(k, [])])
  {
    var b := Buffer(held + chunk, DEFAULT_BUFFER_SIZE);
    assert ReadMessage(c, b) == NoMessage(b);
  }

  /** Corrected append: a chunk that does not fit enlarges the buffer instead of being dropped. */
  function AppendGrowing(b: Buffer, chunk: Bytes): (r: Buffer)
    requires Fits(b)
    ensures Fits(r) && r.data == b.data + chunk && r.capacity >= b.capacity
  {
    if |chunk| <= b.capacity - |b.data| then Buffer(b.data + chunk, b.capacity)
    else Buffer(b.data + chunk, |b.data| + |chunk|)
  }

  /** Corrected turn of the worker's loop, using `AppendGrowing`. */
  function StepGrowing(c: LengthCodec, w: Worker): (w': Worker)
    requires Valid(c, w) && w.queue != [] && !w.stopped
    ensures Valid(c, w')
    ensures w'.queue == w.queue[1..]
  {
    var ev := w.queue[0];
    var x := ExtractAll(c, AppendGrowing(BufferFor(w, ev.key), ev.data));
    if x.crashed then
      w.(queue := w.queue[1..], stopped := true)
    else
      w.(queue := w.queue[1..], buffers := w.buffers[ev.key := x.buf], delivered := w.delivered + [Delivery(ev.key, x.frames)])
  }

  /**
   * Corrected behaviour: no byte is ever lost. If everything a key sent so far
   * parses into the frames already delivered plus the buffered bytes, the same
   * holds after the next event, whatever its size.
   */
  lemma {:induction false} StepGrowingKeepsStream(c: LengthCodec, w: Worker, sent: Bytes, frames: seq<Bytes>)
    requires Valid(c, w) && w.queue != [] && !w.stopped
    requires Parses(c, sent, frames, BufferFor(w, w.queue[0].key).data)
    ensures var w' := StepGrowing(c, w);
      var k := w.queue[0].key;
      !w'.stopped ==>
        Parses(c, sent + w.queue[0].data, frames + w'.delivered[|w.delivered|].frames, w'.buffers[k].data)
  {
    var ev := w.queue[0];
    var b := BufferFor(w, ev.key);
    var x := ExtractAll(c, AppendGrowing(b, ev.data));
    ParsesExtend(c, sent, frames, b.data, ev.data, x.frames, x.buf.data);
  }
}
