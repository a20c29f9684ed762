/**
 * The request and queue state of the non-blocking communication manager
 * (PeerCommunicationManager.java): the list of pending change requests, the
 * per-channel queue of payloads waiting to be written, the selection keys the
 * requests act on, and the bytes each channel has put on the wire.
 *
 * The selector loop itself, accept, read, connect completion and port binding
 * are socket I/O and are not modelled; only the state they touch is.
 */
module CommunicationManager {
  import opened Common
  import opened Framing

  /** Interest sets used by the manager; each request names exactly one. */
  datatype Ops = OpRead | OpWrite | OpConnect | OpAccept

  datatype ChangeRequest =
    | ChangeOps(channel: ChannelId, ops: Ops)
    | Register(channel: ChannelId, ops: Ops, attachment: string)

  /** A selection key: its interest set, whether it is still valid, and its attachment. */
  datatype SelKey = SelKey(interest: Ops, valid: bool, attachment: Option<string>)

  datatype Manager = Manager(
    changes: seq<ChangeRequest>,
    pending: map<ChannelId, seq<Bytes>>,
    keys: map<ChannelId, SelKey>,
    closed: set<ChannelId>,
    wire: map<ChannelId, Bytes>,
    nextChannel: ChannelId)

  function Init(): (m: Manager)
    ensures m.changes == [] && m.pending == map[] && m.keys == map[]
  {
    Manager([], map[], map[], {}, map[], 0)
  }

  /** The payloads waiting for `ch` (none when it has no queue yet). */
  function QueueOf(m: Manager, ch: ChannelId): seq<Bytes>
  {
    if ch in m.pending then m.pending[ch] else []
  }

  /** The bytes written to `ch` so far. */
  function WireOf(m: Manager, ch: ChannelId): Bytes
  {
    if ch in m.wire then m.wire[ch] else []
  }

  /**
   * send: the payload joins the tail of the channel's queue (created when
   * absent) and one request to switch the channel to write interest is queued.
   */
  function Send(m: Manager, ch: ChannelId, data: Bytes): (m': Manager)
    ensures m'.changes == m.changes + [ChangeOps(ch, OpWrite)]
    ensures ch in m'.pending && m'.pending[ch] == QueueOf(m, ch) + [data]
    ensures forall o :: o != ch ==> QueueOf(m', o) == QueueOf(m, o)
    ensures m'.pending.Keys == m.pending.Keys + {ch}
    ensures m'.keys == m.keys && m'.wire == m.wire && m'.closed == m.closed
  {
    m.(changes := m.changes + [ChangeOps(ch, OpWrite)], pending := m.pending[ch := QueueOf(m, ch) + [data]])
  }

  /**
   * connect: a fresh channel is opened and a request to register it for
   * connect readiness, carrying the torrent's hex info-hash, is queued.
   */
  function Connect(m: Manager, hexInfoHash: string): (r: (Manager, ChannelId))
    requires Fresh(m)
    ensures r.1 !in m.keys && r.1 !in m.pending
    ensures r.0.changes == m.changes + [Register(r.1, OpConnect, hexInfoHash)]
    ensures r.0.pending == m.pending && r.0.keys == m.keys && r.0.wire == m.wire && r.0.closed == m.closed
    ensures Fresh(r.0) && m.nextChannel <= r.1 < r.0.nextChannel
  {
    (m.(changes := m.changes + [Register(m.nextChannel, OpConnect, hexInfoHash)], nextChannel := m.nextChannel + 1),
     m.nextChannel)
  }

  /** Channels not yet handed out are unknown to every map. */
  predicate Fresh(m: Manager)
  {
    && (forall ch :: ch in m.keys ==> ch < m.nextChannel)
    && (forall ch :: ch in m.pending ==> ch < m.nextChannel)
  }

  /** The outcome of applying change requests: fired bad-socket notices, and whether an exception aborted the drain. */
  datatype Drain = Drain(m: Manager, badSockets: seq<ChannelId>, aborted: bool)

  /** Whether a change request finds its channel without a usable key. */
  predicate IsBadSocket(m: Manager, r: ChangeRequest)
  {
    r.ChangeOps? && (r.channel !in m.keys || !m.keys[r.channel].valid)
  }

  /** Whether registering throws: the channel is closed, or its key is cancelled but still held. */
  predicate RegisterThrows(m: Manager, r: ChangeRequest)
  {
    r.Register? && (r.channel in m.closed || (r.channel in m.keys && !m.keys[r.channel].valid))
  }

  /** One request of the drain loop. */
  function ApplyChange(m: Manager, r: ChangeRequest): (d: Drain)
    ensures d.aborted <==> RegisterThrows(m, r)
    ensures d.badSockets == (if IsBadSocket(m, r) then [r.channel] else [])
    ensures d.m.changes == m.changes && d.m.pending == m.pending && d.m.wire == m.wire && d.m.closed == m.closed
    ensures forall o :: o != r.channel ==> (o in d.m.keys <==> o in m.keys) && (o in m.keys ==> d.m.keys[o] == m.keys[o])
    ensures r.ChangeOps? && !IsBadSocket(m, r) ==> r.channel in d.m.keys && d.m.keys[r.channel] == m.keys[r.channel].(interest := r.ops)
    ensures r.Register? && !d.aborted ==> r.channel in d.m.keys && d.m.keys[r.channel] == SelKey(r.ops, true, Some(r.attachment))
    ensures IsBadSocket(m, r) ==> d.m.keys == m.keys
  {
    match r
    case ChangeOps(ch, ops) =>
      if ch !in m.keys then
        Drain(m, [ch], false)
      else if !m.keys[ch].valid then
        // Cancelling an already cancelled key changes nothing.
        Drain(m, [ch], false)
      else
        Drain(m.(keys := m.keys[ch := m.keys[ch].(interest := ops)]), [], false)
    case Register(ch, ops, att) =>
      if RegisterThrows(m, r) then
        Drain(m, [], true)
      else
        Drain(m.(keys := m.keys[ch := SelKey(ops, true, Some(att))]), [], false)
  }

  /** The drain loop over `rs`, stopping at the first request that throws. */
  function DrainFrom(m: Manager, rs: seq<ChangeRequest>): (d: Drain)
    ensures d.m.changes == m.changes && d.m.pending == m.pending && d.m.wire == m.wire && d.m.closed == m.closed
    ensures |d.badSockets| <= |rs|
    ensures d.aborted ==> exists i :: 0 <= i < |rs| && rs[i].Register?
    decreases |rs|
  {
    if rs == [] then
      Drain(m, [], false)
    else
      var d := ApplyChange(m, rs[0]);
      if d.aborted then
        d
      else
        var rest := DrainFrom(d.m, rs[1..]);
        Drain(rest.m, d.badSockets + rest.badSockets, rest.aborted)
  }

  /**
   * A drain touches only the channels its requests name, and reports only
   * channels named by its interest-change requests.
   */
  lemma {:induction false} DrainTouchesOnlyNamed(m: Manager, rs: seq<ChangeRequest>, o: ChannelId)
    requires forall i :: 0 <= i < |rs| ==> rs[i].channel != o
    ensures var d := DrainFrom(m, rs);
      && (o in d.m.keys <==> o in m.keys) && (o in m.keys ==> d.m.keys[o] == m.keys[o])
      && o !in d.badSockets
    decreases |rs|
  {
    if rs != [] {
      var d := ApplyChange(m, rs[0]);
      if !d.aborted {
        DrainTouchesOnlyNamed(d.m, rs[1..], o);
      }
    }
  }

  /**
   * The drain at the top of the selector loop: requests are applied in
   * insertion order, and the list is cleared unless an exception escaped it.
   */
  function DrainChanges(m: Manager): (d: Drain)
    ensures !d.aborted ==> d.m.changes == []
    ensures d.aborted ==> d.m.changes == m.changes
    ensures d.m.pending == m.pending && d.m.wire == m.wire && d.m.closed == m.closed
  {
    var d := DrainFrom(m, m.changes);
    if d.aborted then d else d.(m := d.m.(changes := []))
  }

  /** Draining `a + b` is draining `a` and then, unless it aborted, draining `b`. */
  lemma {:induction false} DrainFromAppend(m: Manager, a: seq<ChangeRequest>, b: seq<ChangeRequest>)
    ensures var da := DrainFrom(m, a);
      var dab := DrainFrom(m, a + b);
      if da.aborted then dab == da
      else
        var db := DrainFrom(da.m, b);
        dab == Drain(db.m, da.badSockets + db.badSockets, db.aborted)
    decreases |a|
  {
    if a == [] {
      assert a + b == b;
    } else {
      assert (a + b)[0] == a[0];
      assert (a + b)[1..] == a[1..] + b;
      var d := ApplyChange(m, a[0]);
      if !d.aborted {
        DrainFromAppend(d.m, a[1..], b);
        var rest := DrainFrom(d.m, a[1..] + b);
        assert DrainFrom(m, a + b) == Drain(rest.m, d.badSockets + rest.badSockets, rest.aborted);
        var da := DrainFrom(d.m, a[1..]);
        if !da.aborted {
          var db := DrainFrom(da.m, b);
          assert d.badSockets + da.badSockets + db.badSockets == d.badSockets + (da.badSockets + db.badSockets);
        }
      }
    }
  }

  // ---------------------------------------------------------------------
  // A reference for drains of interest changes alone

  /** Request lists made of interest changes only, as send produces them. */
  predicate NoRegistrations(rs: seq<ChangeRequest>)
  {
    forall i :: 0 <= i < |rs| ==> rs[i].ChangeOps?
  }

  /** The channels of the requests in `rs` that find no usable key in `m`, in request order. */
  function BadChannels(m: Manager, rs: seq<ChangeRequest>): seq<ChannelId>
    decreases |rs|
  {
    if rs == [] then []
    else BadChannels(m, rs[..|rs| - 1]) + (if IsBadSocket(m, rs[|rs| - 1]) then [rs[|rs| - 1].channel] else [])
  }

  /** The interest asked for by the last request in `rs` that names `ch`, or `dflt` when none does. */
  function LastOps(rs: seq<ChangeRequest>, ch: ChannelId, dflt: Ops): Ops
    decreases |rs|
  {
    if rs == [] then dflt
    else if rs[|rs| - 1].channel == ch then rs[|rs| - 1].ops
    else LastOps(rs[..|rs| - 1], ch, dflt)
  }

  /** Draining one more request, after a prefix that did not throw. */
  lemma DrainSnoc(m: Manager, a: seq<ChangeRequest>, x: ChangeRequest)
    requires !DrainFrom(m, a).aborted
    ensures var da := DrainFrom(m, a);
      var s := ApplyChange(da.m, x);
      DrainFrom(m, a + [x]) == Drain(s.m, da.badSockets + s.badSockets, s.aborted)
  {
    DrainFromAppend(m, a, [x]);
    var s := ApplyChange(DrainFrom(m, a).m, x);
    assert DrainFrom(s.m, []) == Drain(s.m, [], false);
  }

  lemma NoRegistrationsPrefix(rs: seq<ChangeRequest>)
    requires rs != [] && NoRegistrations(rs)
    ensures NoRegistrations(rs[..|rs| - 1]) && rs[|rs| - 1].ChangeOps?
  {
    var a := rs[..|rs| - 1];
    forall i | 0 <= i < |a| ensures a[i].ChangeOps? {
      assert a[i] == rs[i];
    }
  }

  /**
   * Draining interest changes alone never throws, keeps every key and its
   * validity, and leaves every valid key with the interest its last request
   * asked for.
   */
  lemma {:induction false} DrainWithoutRegistrations(m: Manager, rs: seq<ChangeRequest>)
    requires NoRegistrations(rs)
    ensures !DrainFrom(m, rs).aborted
    ensures DrainFrom(m, rs).m.keys.Keys == m.keys.Keys
    ensures forall ch :: ch in m.keys ==> (DrainFrom(m, rs).m.keys[ch] ==
      if m.keys[ch].valid then m.keys[ch].(interest := LastOps(rs, ch, m.keys[ch].interest)) else m.keys[ch])
    decreases |rs|
  {
    if rs != [] {
      var a := rs[..|rs| - 1];
      var x := rs[|rs| - 1];
      assert rs == a + [x];
      NoRegistrationsPrefix(rs);
      DrainWithoutRegistrations(m, a);
      DrainSnoc(m, a, x);
    }
  }

  /** Draining interest changes alone reports, in request order, exactly the requests whose channel has no key or a cancelled one. */
  lemma {:induction false} DrainReportsBadChannels(m: Manager, rs: seq<ChangeRequest>)
    requires NoRegistrations(rs)
    ensures DrainFrom(m, rs).badSockets == BadChannels(m, rs)
    decreases |rs|
  {
    if rs != [] {
      var a := rs[..|rs| - 1];
      var x := rs[|rs| - 1];
      assert rs == a + [x];
      NoRegistrationsPrefix(rs);
      DrainReportsBadChannels(m, a);
      DrainWithoutRegistrations(m, a);
      DrainSnoc(m, a, x);
      var da := DrainFrom(m, a);
      assert IsBadSocket(da.m, x) == IsBadSocket(m, x);
    }
  }

  // ---------------------------------------------------------------------
  // The drain with each request's exception caught on its own

  /**
   * Applying `rs` in order, dropping a request that throws and going on with
   * the next one.
   */
  function DrainEach(m: Manager, rs: seq<ChangeRequest>): (d: Drain)
    ensures !d.aborted
    ensures d.m.changes == m.changes && d.m.pending == m.pending && d.m.wire == m.wire && d.m.closed == m.closed
    ensures forall ch :: ch in m.keys && m.keys[ch].valid ==> ch in d.m.keys && d.m.keys[ch].valid
    decreases |rs|
  {
    if rs == [] then Drain(m, [], false)
    else
      var d := DrainEach(m, rs[..|rs| - 1]);
      var s := ApplyChange(d.m, rs[|rs| - 1]);
      Drain(s.m, d.badSockets + s.badSockets, false)
  }

  /** The corrected drain: every request is tried, and the list is always cleared. */
  function DrainAll(m: Manager): (d: Drain)
    ensures !d.aborted && d.m.changes == []
    ensures d.m.pending == m.pending && d.m.wire == m.wire && d.m.closed == m.closed
  {
    var d := DrainEach(m, m.changes);
    d.(m := d.m.(changes := []))
  }

  /** Whenever the drain as written gets through, the corrected drain does exactly the same. */
  lemma {:induction false} DrainEachAgrees(m: Manager, rs: seq<ChangeRequest>)
    requires !DrainFrom(m, rs).aborted
    ensures DrainEach(m, rs) == DrainFrom(m, rs)
    decreases |rs|
  {
    if rs != [] {
      var a := rs[..|rs| - 1];
      var x := rs[|rs| - 1];
      assert rs == a + [x];
      DrainFromAppend(m, a, [x]);
      DrainEachAgrees(m, a);
      DrainSnoc(m, a, x);
    }
  }

  /** DrainEachAgrees for the whole list. */
  lemma DrainAllAgrees(m: Manager)
    requires !DrainChanges(m).aborted
    ensures DrainAll(m) == DrainChanges(m)
  {
    DrainEachAgrees(m, m.changes);
  }

  /** Under the corrected drain, a final write request for a channel with a valid key always takes effect. */
  lemma DrainAllAppliesLastRequest(m: Manager, ch: ChannelId, ops: Ops)
    requires m.changes != [] && m.changes[|m.changes| - 1] == ChangeOps(ch, ops)
    requires ch in m.keys && m.keys[ch].valid
    ensures ch in DrainAll(m).m.keys && DrainAll(m).m.keys[ch].interest == ops
  {
    var rs := m.changes;
    var d := DrainEach(m, rs[..|rs| - 1]);
    assert ch in d.m.keys && d.m.keys[ch].valid;
  }

  /**
   * A registration for a channel that was closed before the drain, queued
   * ahead of a write request for a healthy channel.
   */
  function StallingRequests(): Manager
  {
    Manager([Register(1, OpConnect, "info-hash"), ChangeOps(2, OpWrite)],
            map[], map[2 := SelKey(OpRead, true, None)], {1}, map[], 3)
  }

  /**
   * As written, the failing registration aborts the drain before the write
   * request and before the list is cleared; the selector loop's next pass
   * starts from a state in which the same drain fails the same way, so the
   * write interest is never set and the loop never reaches select().
   */
  lemma AsWrittenDrainStalls()
    ensures var m := StallingRequests();
      var d := DrainChanges(m);
      && d.aborted && d.m.changes == m.changes
      && d.m.keys[2].interest == OpRead
      && DrainChanges(d.m) == d
    ensures DrainAll(StallingRequests()).m.keys[2].interest == OpWrite
  {
    var m := StallingRequests();
    assert ApplyChange(m, m.changes[0]) == Drain(m, [], true);
    DrainAllAppliesLastRequest(m, 2, OpWrite);
  }

  /**
   * Each send contributes exactly one write-interest request for its channel;
   * once drained, a valid key for that channel has write interest unless a
   * later request changed it again.
   */
  lemma SendThenDrainSetsWriteInterest(m: Manager, ch: ChannelId, data: Bytes)
    requires m.changes == []
    requires ch in m.keys && m.keys[ch].valid
    ensures var d := DrainChanges(Send(m, ch, data));
      && !d.aborted && d.badSockets == []
      && ch in d.m.keys && d.m.keys[ch].interest == OpWrite
      && d.m.pending[ch] == QueueOf(m, ch) + [data]
  {
    var m1 := Send(m, ch, data);
    assert m1.changes == [ChangeOps(ch, OpWrite)];
    var d1 := ApplyChange(m1, m1.changes[0]);
    assert DrainFrom(d1.m, m1.changes[1..]) == Drain(d1.m, [], false);
  }

  /** A write request for a channel with no key, or a cancelled one, is reported as a bad socket. */
  lemma SendThenDrainReportsBadSocket(m: Manager, ch: ChannelId, data: Bytes)
    requires m.changes == []
    requires ch !in m.keys || !m.keys[ch].valid
    ensures var d := DrainChanges(Send(m, ch, data));
      && !d.aborted && d.badSockets == [ch]
      && d.m.keys == m.keys
  {
    var m1 := Send(m, ch, data);
    assert m1.changes == [ChangeOps(ch, OpWrite)];
    var d1 := ApplyChange(m1, m1.changes[0]);
    assert DrainFrom(d1.m, m1.changes[1..]) == Drain(d1.m, [], false);
  }

  // ---------------------------------------------------------------------
  // write: flushing a channel's queue

  /** How socket writes behave: all succeed, or the write of payload `index` fails after `sent` bytes of its frame. */
  datatype WriteFault = NoFault | FailsAt(index: nat, sent: nat)

  predicate FaultsAt(f: WriteFault, i: nat)
  {
    f.FailsAt? && f.index == i
  }

  /** Where flushing `q` stops: the first oversized payload or failing write, or the end of the queue. */
  function StopIndex(q: seq<Bytes>, f: WriteFault, from: nat): (k: nat)
    requires from <= |q|
    ensures from <= k <= |q|
    ensures forall j :: from <= j < k ==> |q[j]| <= MAX_SHORT && !FaultsAt(f, j)
    ensures k < |q| ==> |q[k]| > MAX_SHORT || FaultsAt(f, k)
    decreases |q| - from
  {
    if from == |q| || |q[from]| > MAX_SHORT || FaultsAt(f, from) then from else StopIndex(q, f, from + 1)
  }

  /** A failure can only strike before the whole frame has gone out. */
  predicate FaultFits(m: Manager, ch: ChannelId, f: WriteFault)
  {
    f.FailsAt? && ch in m.pending && f.index < |m.pending[ch]| ==> f.sent < PREFIX_LENGTH + |m.pending[ch][f.index]|
  }

  /**
   * The effect of write in closed form, for a channel whose valid key was
   * selected as writable. Payloads go out in FIFO order, each as its two-byte
   * length prefix followed by the payload, and each is removed only once its
   * whole frame is written.
   *  - No queue for the channel: the null dereference is caught by the
   *    selector loop and nothing changes.
   *  - A payload longer than 32767 bytes makes the `(short)` length and the
   *    frame buffer disagree; the exception is caught by the selector loop,
   *    that payload stays at the head and the interest stays as it was.
   *  - A failing socket write closes the channel, drops only the head payload
   *    and cancels the key; later payloads stay queued.
   *  - Otherwise the queue ends empty and the key is switched to read interest.
   */
  function Flushed(c: LengthCodec, m: Manager, ch: ChannelId, fault: WriteFault): Manager
    requires ch in m.keys
    requires FaultFits(m, ch, fault)
  {
    if ch !in m.pending then m
    else
      var q := m.pending[ch];
      var k := StopIndex(q, fault, 0);
      if k == |q| then
        Drained(m, ch, WireOf(m, ch) + EncodeAll(c, q))
      else if |q[k]| > MAX_SHORT then
        Stuck(m, ch, q[k..], WireOf(m, ch) + EncodeAll(c, q[..k]))
      else
        Broken(m, ch, q[k + 1..], WireOf(m, ch) + EncodeAll(c, q[..k]) + Encode(c, q[k])[..fault.sent])
  }

  /** The whole queue went out: it is left empty and the key reverts to read interest. */
  function Drained(m: Manager, ch: ChannelId, out: Bytes): (r: Manager)
    requires ch in m.keys
    ensures WireOf(r, ch) == out && QueueOf(r, ch) == []
  {
    m.(pending := m.pending[ch := []], wire := m.wire[ch := out], keys := m.keys[ch := m.keys[ch].(interest := OpRead)])
  }

  /** An exception before any byte of the head payload: the remaining queue stays. */
  function Stuck(m: Manager, ch: ChannelId, rest: seq<Bytes>, out: Bytes): (r: Manager)
    ensures WireOf(r, ch) == out && QueueOf(r, ch) == rest
  {
    m.(pending := m.pending[ch := rest], wire := m.wire[ch := out])
  }

  /** A failed socket write: channel closed, key cancelled, the payloads after the head stay. */
  function Broken(m: Manager, ch: ChannelId, rest: seq<Bytes>, out: Bytes): (r: Manager)
    requires ch in m.keys
    ensures WireOf(r, ch) == out && QueueOf(r, ch) == rest
  {
    m.(pending := m.pending[ch := rest], wire := m.wire[ch := out], closed := m.closed + {ch},
       keys := m.keys[ch := m.keys[ch].(valid := false)])
  }

  /** Unfolds `Flushed` once the stopping index is known. */
  lemma FlushedStopsAt(c: LengthCodec, m: Manager, ch: ChannelId, fault: WriteFault, k: nat)
    requires ch in m.keys && FaultFits(m, ch, fault) && ch in m.pending
    requires StopIndex(m.pending[ch], fault, 0) == k
    ensures var q := m.pending[ch];
      && (k == |q| ==> Flushed(c, m, ch, fault) == Drained(m, ch, WireOf(m, ch) + EncodeAll(c, q)))
      && (k < |q| && |q[k]| > MAX_SHORT ==>
            Flushed(c, m, ch, fault) == Stuck(m, ch, q[k..], WireOf(m, ch) + EncodeAll(c, q[..k])))
      && (k < |q| && |q[k]| <= MAX_SHORT ==>
            Flushed(c, m, ch, fault) == Broken(m, ch, q[k + 1..], WireOf(m, ch) + EncodeAll(c, q[..k]) + Encode(c, q[k])[..fault.sent]))
  {
  }

  /**
   * The write loop proper: frames go out in FIFO order until the first
   * payload that cannot be framed or whose write fails. Returns where it
   * stopped and the whole frames written before that point.
   */
  method FlushQueue(c: LengthCodec, q: seq<Bytes>, fault: WriteFault) returns (k: nat, out: Bytes)
    ensures k == StopIndex(q, fault, 0)
    ensures out == EncodeAll(c, q[..k])
  {
    out := [];
    k := 0;
    while k < |q| && |q[k]| <= MAX_SHORT && !FaultsAt(fault, k)
      invariant 0 <= k <= |q|
      invariant StopIndex(q, fault, 0) == StopIndex(q, fault, k)
      invariant out == EncodeAll(c, q[..k])
    {
      EncodeAllSnoc(c, q[..k], q[k]);
      assert q[..k + 1] == q[..k] + [q[k]];
      out := out + Encode(c, q[k]);
      k := k + 1;
    }
  }

  /** write: flushes a channel's queue, frame by frame. */
  method Write(c: LengthCodec, m: Manager, ch: ChannelId, fault: WriteFault) returns (m': Manager)
    requires ch in m.keys && m.keys[ch].valid
    requires FaultFits(m, ch, fault)
    ensures m' == Flushed(c, m, ch, fault)
  {
    if ch !in m.pending {
      return m;
    }
    var q := m.pending[ch];
    var k, out := FlushQueue(c, q, fault);
    FlushedStopsAt(c, m, ch, fault, k);
    if k == |q| {
      assert q[..k] == q;
      m' := Drained(m, ch, WireOf(m, ch) + out);
    } else if |q[k]| > MAX_SHORT {
      m' := Stuck(m, ch, q[k..], WireOf(m, ch) + out);
    } else {
      m' := Broken(m, ch, q[k + 1..], WireOf(m, ch) + out + Encode(c, q[k])[..fault.sent]);
    }
  }

  /** The bytes of a frame cut short before its end never form a whole frame. */
  lemma CutFrameIsIncomplete(c: LengthCodec, p: Bytes, sent: nat)
    requires Faithful(c) && |p| <= MAX_SHORT && sent < PREFIX_LENGTH + |p|
    ensures !Complete(c, Encode(c, p)[..sent])
  {
    var f := Encode(c, p)[..sent];
    if sent >= PREFIX_LENGTH {
      assert c.toLength(c.toBytes(|p|).0, c.toBytes(|p|).1) == |p|;
      assert DeclaredLength(c, f) == |p|;
    }
  }

  /**
   * Write and read agree: with a faithful codec, the bytes one write adds to
   * the channel parse, on the reading side, into exactly the payloads it
   * removed as sent, in queue order, followed by at most a cut-short frame.
   * The queue left behind is a suffix of the old one, at most one payload
   * (the one whose write failed) vanishes without being delivered, and the
   * earlier bytes on the wire are untouched.
   */
  lemma FlushedDeliversInOrder(c: LengthCodec, m: Manager, ch: ChannelId, fault: WriteFault)
    requires Faithful(c)
    requires ch in m.keys && ch in m.pending && FaultFits(m, ch, fault)
    ensures var m' := Flushed(c, m, ch, fault);
      var q := m.pending[ch];
      var k := StopIndex(q, fault, 0);
      var w0 := WireOf(m, ch);
      var w := WireOf(m', ch);
      var left := QueueOf(m', ch);
      && |w0| <= |w| && w[..|w0|] == w0
      && (exists rest :: Parses(c, w[|w0|..], q[..k], rest))
      && |left| <= |q| - k <= |left| + 1 && left == q[|q| - |left|..]
      && (k < |q| && |q[k]| <= MAX_SHORT ==> ch in m'.closed && ch in m'.keys && !m'.keys[ch].valid)
      && (k == |q| || |q[k]| > MAX_SHORT ==> m'.closed == m.closed && ch in m'.keys && m'.keys[ch].valid == m.keys[ch].valid)
  {
    FlushedAppendsFrames(c, m, ch, fault);
    FlushedLeavesSuffix(c, m, ch, fault);
    FlushedCloses(c, m, ch, fault, StopIndex(m.pending[ch], fault, 0));
  }

  /** The wire part of FlushedDeliversInOrder: old bytes kept, the sent payloads framed after them. */
  lemma FlushedAppendsFrames(c: LengthCodec, m: Manager, ch: ChannelId, fault: WriteFault)
    requires Faithful(c)
    requires ch in m.keys && ch in m.pending && FaultFits(m, ch, fault)
    ensures var q := m.pending[ch];
      var w0 := WireOf(m, ch);
      var w := WireOf(Flushed(c, m, ch, fault), ch);
      && |w0| <= |w| && w[..|w0|] == w0
      && (exists rest :: Parses(c, w[|w0|..], q[..StopIndex(q, fault, 0)], rest))
  {
    var q := m.pending[ch];
    var k := StopIndex(q, fault, 0);
    var w0 := WireOf(m, ch);
    var sent: seq<Bytes> := q[..k];
    assert AllShort(sent) by {
      forall i | 0 <= i < |sent| ensures |sent[i]| <= MAX_SHORT {
        assert sent[i] == q[i];
      }
    }
    var rest := CutPart(c, q, fault, k);
    var w := w0 + (EncodeAll(c, sent) + rest);
    FlushedWire(c, m, ch, fault, k);
    assert WireOf(Flushed(c, m, ch, fault), ch) == w;
    assert w[..|w0|] == w0 && w[|w0|..] == EncodeAll(c, sent) + rest;
    EncodeAllParses(c, sent, rest);
    assert Parses(c, w[|w0|..], sent, rest);
  }

  /** The queue part of FlushedDeliversInOrder: a suffix of the old queue, missing at most the failed payload. */
  lemma FlushedLeavesSuffix(c: LengthCodec, m: Manager, ch: ChannelId, fault: WriteFault)
    requires ch in m.keys && ch in m.pending && FaultFits(m, ch, fault)
    ensures var q := m.pending[ch];
      var k := StopIndex(q, fault, 0);
      var left := QueueOf(Flushed(c, m, ch, fault), ch);
      |left| <= |q| - k <= |left| + 1 && left == q[|q| - |left|..]
  {
    var q := m.pending[ch];
    var k := StopIndex(q, fault, 0);
    FlushedWire(c, m, ch, fault, k);
    // What is left behind: nothing, the oversized payload onwards, or what follows the failed one.
    if k < |q| {
      var from := if |q[k]| > MAX_SHORT then k else k + 1;
      assert QueueOf(Flushed(c, m, ch, fault), ch) == q[from..];
    }
  }

  /** The cut-short frame a failed write leaves on the wire, if any. */
  function CutPart(c: LengthCodec, q: seq<Bytes>, fault: WriteFault, k: nat): (r: Bytes)
    requires k <= |q|
    requires k < |q| && |q[k]| <= MAX_SHORT ==> FaultsAt(fault, k) && fault.sent < PREFIX_LENGTH + |q[k]|
    ensures Faithful(c) ==> !Complete(c, r)
  {
    if k < |q| && |q[k]| <= MAX_SHORT then
      if Faithful(c) then
        CutFrameIsIncomplete(c, q[k], fault.sent);
        Encode(c, q[k])[..fault.sent]
      else
        Encode(c, q[k])[..fault.sent]
    else []
  }

  /** What write leaves on the wire and in the queue, once the stopping index is known. */
  lemma FlushedWire(c: LengthCodec, m: Manager, ch: ChannelId, fault: WriteFault, k: nat)
    requires ch in m.keys && ch in m.pending && FaultFits(m, ch, fault)
    requires k == StopIndex(m.pending[ch], fault, 0)
    ensures var m' := Flushed(c, m, ch, fault);
      var q := m.pending[ch];
      && WireOf(m', ch) == WireOf(m, ch) + (EncodeAll(c, q[..k]) + CutPart(c, q, fault, k))
      && QueueOf(m', ch) == (if k == |q| then [] else if |q[k]| > MAX_SHORT then q[k..] else q[k + 1..])
  {
    var q := m.pending[ch];
    var w0 := WireOf(m, ch);
    if k == |q| {
      assert q[..k] == q;
      assert CutPart(c, q, fault, k) == [];
    } else if |q[k]| > MAX_SHORT {
      assert CutPart(c, q, fault, k) == [];
    } else {
      var cut := Encode(c, q[k])[..fault.sent];
      assert CutPart(c, q, fault, k) == cut;
      assert w0 + EncodeAll(c, q[..k]) + cut == w0 + (EncodeAll(c, q[..k]) + cut);
    }
  }

  /** Only a failed socket write closes the channel and cancels its key. */
  lemma FlushedCloses(c: LengthCodec, m: Manager, ch: ChannelId, fault: WriteFault, k: nat)
    requires ch in m.keys && ch in m.pending && FaultFits(m, ch, fault)
    requires k == StopIndex(m.pending[ch], fault, 0)
    ensures var m' := Flushed(c, m, ch, fault);
      var q := m.pending[ch];
      && (k < |q| && |q[k]| <= MAX_SHORT ==> ch in m'.closed && ch in m'.keys && !m'.keys[ch].valid)
      && (k == |q| || |q[k]| > MAX_SHORT ==> m'.closed == m.closed && ch in m'.keys && m'.keys[ch].valid == m.keys[ch].valid)
  {
    FlushedStopsAt(c, m, ch, fault, k);
  }

  /** write touches only the channel it flushes. */
  lemma FlushedTouchesOnlyItsChannel(c: LengthCodec, m: Manager, ch: ChannelId, fault: WriteFault, o: ChannelId)
    requires ch in m.keys && FaultFits(m, ch, fault)
    requires o != ch
    ensures var m' := Flushed(c, m, ch, fault);
      && QueueOf(m', o) == QueueOf(m, o) && WireOf(m', o) == WireOf(m, o)
      && (o in m'.keys <==> o in m.keys) && (o in m.keys ==> m'.keys[o] == m.keys[o])
      && (o in m'.closed <==> o in m.closed)
      && m'.changes == m.changes
  {
  }
}
