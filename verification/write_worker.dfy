/**
 * The write worker (WriteWorker.java): a FIFO of selection keys handed over
 * as writable, and a worker that takes them one at a time and flushes the
 * channel's pending payloads, each framed with its two-byte length prefix.
 *
 * Unlike the communication manager's own write, a failed socket write here
 * neither closes the channel nor drops the head payload: the exception
 * escapes writeData, is logged by the worker loop, and the head stays queued.
 * Only IOException is caught there: any other exception ends the worker.
 */
module WriteWorker {
  import opened Common
  import opened Framing
  import CommunicationManager

  type WriteFault = CommunicationManager.WriteFault

  datatype Worker = Worker(
    queue: seq<ChannelId>,
    pending: map<ChannelId, seq<Bytes>>,
    wire: map<ChannelId, Bytes>,
    interest: map<ChannelId, CommunicationManager.Ops>,
    cancelled: set<ChannelId>,
    logged: nat,
    alive: bool)

  function Init(): (w: Worker)
    ensures w.queue == [] && w.alive && w.logged == 0 && w.cancelled == {}
  {
    Worker([], map[], map[], map[], {}, 0, true)
  }

  /** A key cancelled elsewhere (the communication manager cancels it when a write fails); nothing else changes. */
  function Cancel(w: Worker, key: ChannelId): (w': Worker)
    ensures w'.cancelled == w.cancelled + {key} && key in w'.cancelled
    ensures w'.queue == w.queue && w'.pending == w.pending && w'.wire == w.wire && w'.interest == w.interest
    ensures w'.logged == w.logged && w'.alive == w.alive
  {
    w.(cancelled := w.cancelled + {key})
  }

  /** The bytes written to `ch` so far. */
  function WireOf(w: Worker, ch: ChannelId): Bytes
  {
    if ch in w.wire then w.wire[ch] else []
  }

  /** processData: the key joins the tail of the work queue; nothing else changes. */
  function ProcessData(w: Worker, key: ChannelId): (w': Worker)
    ensures |w'.queue| == |w.queue| + 1 && w'.queue[..|w.queue|] == w.queue && w'.queue[|w.queue|] == key
    ensures w'.pending == w.pending && w'.wire == w.wire && w'.interest == w.interest
    ensures w'.logged == w.logged && w'.alive == w.alive && w'.cancelled == w.cancelled
  {
    w.(queue := w.queue + [key])
  }

  /** A failure can only strike before the whole frame has gone out. */
  predicate FaultFits(w: Worker, ch: ChannelId, f: WriteFault)
  {
    f.FailsAt? && ch in w.pending && f.index < |w.pending[ch]| ==> f.sent < PREFIX_LENGTH + |w.pending[ch][f.index]|
  }

  /**
   * One turn of the worker loop: the head key is removed from the work queue
   * and its channel flushed.
   *  - No pending list for the channel: the null dereference kills the worker.
   *  - A payload longer than 32767 bytes makes the `(short)` length and the
   *    frame buffer disagree; that runtime exception also kills the worker,
   *    with the payload still at the head.
   *  - A failing socket write is logged; the head payload, whose frame is
   *    partly on the wire, stays queued and the interest is left as it was.
   *  - Otherwise the list ends empty and the key's interest becomes OP_READ;
   *    on a cancelled key that switch throws CancelledKeyException, which is
   *    not an IOException, so the worker dies with the list already empty.
   */
  function Step(c: LengthCodec, w: Worker, fault: WriteFault): (w': Worker)
    requires w.alive && w.queue != []
    requires FaultFits(w, w.queue[0], fault)
    ensures w'.queue == w.queue[1..]
    ensures w.logged <= w'.logged <= w.logged + 1
    ensures forall o :: o != w.queue[0] ==>
      && (o in w'.pending <==> o in w.pending) && (o in w.pending ==> w'.pending[o] == w.pending[o])
      && WireOf(w', o) == WireOf(w, o)
      && (o in w'.interest <==> o in w.interest) && (o in w.interest ==> w'.interest[o] == w.interest[o])
  {
    var key := w.queue[0];
    var w1 := w.(queue := w.queue[1..]);
    if key !in w.pending then
      w1.(alive := false)
    else
      var q := w.pending[key];
      var k := CommunicationManager.StopIndex(q, fault, 0);
      var out := WireOf(w, key) + EncodeAll(c, q[..k]);
      if k == |q| && key in w.cancelled then
        w1.(pending := w.pending[key := []], wire := w.wire[key := out], alive := false)
      else if k == |q| then
        w1.(pending := w.pending[key := []], wire := w.wire[key := out],
            interest := w.interest[key := CommunicationManager.OpRead])
      else if |q[k]| > MAX_SHORT then
        w1.(pending := w.pending[key := q[k..]], wire := w.wire[key := out], alive := false)
      else
        w1.(pending := w.pending[key := q[k..]], wire := w.wire[key := out + Encode(c, q[k])[..fault.sent]],
            logged := w.logged + 1)
  }

  /**
   * A turn in which every payload is short and every write succeeds leaves
   * the channel's list empty and logs nothing, and only such a turn does;
   * the key then reverts to OP_READ, unless it was cancelled, in which case
   * the worker dies.
   */
  lemma StepDrainsIffNoFailure(c: LengthCodec, w: Worker, fault: WriteFault)
    requires w.alive && w.queue != [] && FaultFits(w, w.queue[0], fault)
    requires w.queue[0] in w.pending
    ensures var key := w.queue[0];
      var q := w.pending[key];
      var w' := Step(c, w, fault);
      var clean := forall i :: 0 <= i < |q| ==> |q[i]| <= MAX_SHORT && !CommunicationManager.FaultsAt(fault, i);
      && (clean && key !in w.cancelled <==> w'.alive && w'.logged == w.logged)
      && (clean <==> key in w'.pending && w'.pending[key] == [] && w'.logged == w.logged && (w'.alive || key in w.cancelled))
      && (clean && key !in w.cancelled ==> key in w'.interest && w'.interest[key] == CommunicationManager.OpRead)
      && (clean && key in w.cancelled ==> !w'.alive && w'.interest == w.interest)
  {
    var q := w.pending[w.queue[0]];
    var k := CommunicationManager.StopIndex(q, fault, 0);
    if k < |q| {
      assert |q[k]| > MAX_SHORT || CommunicationManager.FaultsAt(fault, k);
    }
  }

  /** What a turn leaves on the wire and in the list of the key it serves, once the stopping index is known. */
  lemma StepFlushes(c: LengthCodec, w: Worker, fault: WriteFault, k: nat)
    requires w.alive && w.queue != [] && FaultFits(w, w.queue[0], fault)
    requires w.queue[0] in w.pending
    requires k == CommunicationManager.StopIndex(w.pending[w.queue[0]], fault, 0)
    ensures var key := w.queue[0];
      var q := w.pending[key];
      var w' := Step(c, w, fault);
      && (w'.alive <==> (k == |q| && key !in w.cancelled) || (k < |q| && |q[k]| <= MAX_SHORT))
      && (k == |q| || |q[k]| <= MAX_SHORT ==> key in w'.pending && w'.pending[key] == q[k..])
      && (k == |q| || |q[k]| <= MAX_SHORT ==> WireOf(w', key) == WireOf(w, key) + (EncodeAll(c, q[..k]) + CommunicationManager.CutPart(c, q, fault, k)))
      && (w'.logged > w.logged <==> k < |q| && |q[k]| <= MAX_SHORT)
  {
    var q := w.pending[w.queue[0]];
    if k == |q| {
      StepDrainedFlushes(c, w, fault, k);
    } else if |q[k]| <= MAX_SHORT {
      StepFailedFlushes(c, w, fault, k);
    }
  }

  /** StepFlushes when the whole list goes out. */
  lemma StepDrainedFlushes(c: LengthCodec, w: Worker, fault: WriteFault, k: nat)
    requires w.alive && w.queue != [] && FaultFits(w, w.queue[0], fault)
    requires w.queue[0] in w.pending
    requires k == CommunicationManager.StopIndex(w.pending[w.queue[0]], fault, 0) == |w.pending[w.queue[0]]|
    ensures var key := w.queue[0];
      var q := w.pending[key];
      var w' := Step(c, w, fault);
      && key in w'.pending && w'.pending[key] == q[k..]
      && WireOf(w', key) == WireOf(w, key) + (EncodeAll(c, q[..k]) + CommunicationManager.CutPart(c, q, fault, k))
  {
    var q := w.pending[w.queue[0]];
    assert q[..k] == q;
    assert q[k..] == [];
  }

  /** StepFlushes when a socket write fails part-way. */
  lemma StepFailedFlushes(c: LengthCodec, w: Worker, fault: WriteFault, k: nat)
    requires w.alive && w.queue != [] && FaultFits(w, w.queue[0], fault)
    requires w.queue[0] in w.pending
    requires k == CommunicationManager.StopIndex(w.pending[w.queue[0]], fault, 0) < |w.pending[w.queue[0]]|
    requires |w.pending[w.queue[0]][k]| <= MAX_SHORT
    ensures var key := w.queue[0];
      var q := w.pending[key];
      var w' := Step(c, w, fault);
      WireOf(w', key) == WireOf(w, key) + (EncodeAll(c, q[..k]) + CommunicationManager.CutPart(c, q, fault, k))
  {
    var q := w.pending[w.queue[0]];
    var w0 := WireOf(w, w.queue[0]);
    var cut := CommunicationManager.CutPart(c, q, fault, k);
    assert w0 + EncodeAll(c, q[..k]) + cut == w0 + (EncodeAll(c, q[..k]) + cut);
  }

  /**
   * FIFO and no loss: after any turn not stopped by an oversized payload, the
   * channel's list is what follows the first payload not fully sent, every
   * payload removed went out whole and in order — so that, with a faithful
   * codec, the added bytes parse back to exactly the removed payloads — and
   * a payload whose write failed is still at the head.
   */
  lemma StepKeepsUnsentPayloads(c: LengthCodec, w: Worker, fault: WriteFault)
    requires Faithful(c)
    requires w.alive && w.queue != [] && FaultFits(w, w.queue[0], fault)
    requires w.queue[0] in w.pending
    ensures var key := w.queue[0];
      var q := w.pending[key];
      var k := CommunicationManager.StopIndex(q, fault, 0);
      var w' := Step(c, w, fault);
      var w0 := WireOf(w, key);
      var out := WireOf(w', key);
      (k == |q| || |q[k]| <= MAX_SHORT) ==>
        && key in w'.pending && w'.pending[key] == q[k..]
        && |w0| <= |out| && out[..|w0|] == w0
        && (exists rest :: Parses(c, out[|w0|..], q[..k], rest))
        && (w'.logged > w.logged ==> k < |q| && CommunicationManager.FaultsAt(fault, k))
  {
    var key := w.queue[0];
    var q := w.pending[key];
    var k := CommunicationManager.StopIndex(q, fault, 0);
    var w0 := WireOf(w, key);
    StepFlushes(c, w, fault, k);
    if k == |q| || |q[k]| <= MAX_SHORT {
      var sent: seq<Bytes> := q[..k];
      assert AllShort(sent) by {
        forall i | 0 <= i < |sent| ensures |sent[i]| <= MAX_SHORT {
          assert sent[i] == q[i];
        }
      }
      FramesAfterWireParse(c, w0, sent, CommunicationManager.CutPart(c, q, fault, k));
    }
  }

  /** Bytes appended after `w0` as whole frames and then an incomplete tail parse back to those frames. */
  lemma FramesAfterWireParse(c: LengthCodec, w0: Bytes, sent: seq<Bytes>, rest: Bytes)
    requires Faithful(c) && AllShort(sent) && !Complete(c, rest)
    ensures var out := w0 + (EncodeAll(c, sent) + rest);
      |w0| <= |out| && out[..|w0|] == w0 && Parses(c, out[|w0|..], sent, rest)
  {
    var out := w0 + (EncodeAll(c, sent) + rest);
    assert out[|w0|..] == EncodeAll(c, sent) + rest;
    EncodeAllParses(c, sent, rest);
  }

  /**
   * Keys are served in arrival order: a key handed over while others wait
   * does not change which key the next turn serves or what that turn does;
   * it only stays at the tail.
   */
  lemma ArrivalDoesNotJumpQueue(c: LengthCodec, w: Worker, key: ChannelId, fault: WriteFault)
    requires w.alive && w.queue != [] && FaultFits(w, w.queue[0], fault)
    ensures ProcessData(w, key).queue[0] == w.queue[0]
    ensures Step(c, ProcessData(w, key), fault) == ProcessData(Step(c, w, fault), key)
  {
    assert (w.queue + [key])[1..] == w.queue[1..] + [key];
    StepSeesOnlyHead(c, w, w.queue + [key], fault);
  }

  /** A turn depends on the work queue only through its head. */
  lemma StepSeesOnlyHead(c: LengthCodec, w: Worker, q: seq<ChannelId>, fault: WriteFault)
    requires w.alive && w.queue != [] && FaultFits(w, w.queue[0], fault)
    requires q != [] && q[0] == w.queue[0]
    ensures Step(c, w.(queue := q), fault) == Step(c, w, fault).(queue := q[1..])
  {
    var key := w.queue[0];
    if key in w.pending {
      var k := CommunicationManager.StopIndex(w.pending[key], fault, 0);
      // One case per outcome of the flush: drained on a cancelled key, drained, stopped by an oversized payload, failed write.
      if k == |w.pending[key]| && key in w.cancelled {
      } else if k == |w.pending[key]| {
      } else if |w.pending[key][k]| > MAX_SHORT {
      } else {
      }
    }
  }
}
