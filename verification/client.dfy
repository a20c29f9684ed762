/**
 * The multi-torrent client's bookkeeping (MultiTorrentClient.java): the
 * counters of the control loop, the dispatch of incoming frames between
 * handshakes and peer messages, handshake validation, the two channel maps
 * (channel to torrent-and-peer association, channel to peer), the connect
 * decision for discovered peers, and torrent registration.
 *
 * Handshake.parse/craft, PeerMessage parsing and crafting, the hex encoder,
 * the JDK's rendering of addresses and the remote end of each socket are not
 * part of this model; they are carried in `Env` as functions.
 */
module Client {
  import opened Common
  import PeerIdentity
  import Coordinator
  import CommunicationManager

  /** Optimistic unchokes happen once every OPTIMISTIC_UNCHOKE_ITERATIONS + 1 loop iterations. */
  const OPTIMISTIC_UNCHOKE_ITERATIONS: nat := 3

  /** Peer rates are reset once every RATE_COMPUTATION_ITERATIONS + 1 loop iterations. */
  const RATE_COMPUTATION_ITERATIONS: nat := 2

  /** A complete torrent stops dialling out once it has this many connected peers. */
  const VOLUNTARY_OUTBOUND_CONNECTIONS: nat := 20

  // ---------------------------------------------------------------------
  // The control loop's counters

  datatype Counters = Counters(optimistic: nat, rate: nat)

  /** The countdown at the top of each loop iteration: each counter restarts from its maximum after reaching zero. */
  function Tick(k: Counters): (k': Counters)
    requires k.optimistic <= OPTIMISTIC_UNCHOKE_ITERATIONS && k.rate <= RATE_COMPUTATION_ITERATIONS
    ensures k'.optimistic <= OPTIMISTIC_UNCHOKE_ITERATIONS && k'.rate <= RATE_COMPUTATION_ITERATIONS
    ensures k'.optimistic == (k.optimistic + OPTIMISTIC_UNCHOKE_ITERATIONS) % (OPTIMISTIC_UNCHOKE_ITERATIONS + 1)
    ensures k'.rate == (k.rate + RATE_COMPUTATION_ITERATIONS) % (RATE_COMPUTATION_ITERATIONS + 1)
  {
    Counters(if k.optimistic == 0 then OPTIMISTIC_UNCHOKE_ITERATIONS else k.optimistic - 1,
             if k.rate == 0 then RATE_COMPUTATION_ITERATIONS else k.rate - 1)
  }

  /**
   * The counters as the n-th iteration of the loop sees them, counting
   * iterations from 1, since each iteration ticks before it reads them;
   * After(0) is the initial pair of zeros, which no iteration uses.
   */
  function After(n: nat): (k: Counters)
    ensures k.optimistic <= OPTIMISTIC_UNCHOKE_ITERATIONS && k.rate <= RATE_COMPUTATION_ITERATIONS
  {
    if n == 0 then Counters(0, 0) else Tick(After(n - 1))
  }

  /**
   * The schedule of the loop: the n-th iteration (counting from 1)
   * unchokes optimistically exactly when n is a multiple of 4 (iterations
   * 4, 8, 12, ...), and resets the peer rates exactly when n is a multiple
   * of 3 (iterations 3, 6, 9, ...).
   */
  lemma {:induction false} Schedule(n: nat)
    ensures After(n).optimistic == (4 - n % 4) % 4
    ensures After(n).rate == (3 - n % 3) % 3
    ensures After(n).optimistic == 0 <==> n % 4 == 0
    ensures After(n).rate == 0 <==> n % 3 == 0
  {
    if n > 0 {
      Schedule(n - 1);
    }
  }

  // ---------------------------------------------------------------------
  // State

  /** A parsed handshake: the info-hash and the peer id it carries. */
  datatype Handshake = Handshake(infoHash: Bytes, peerId: Bytes)

  /** The collaborators outside this model. */
  datatype Env = Env(
    hex: Bytes -> string,
    render: string -> string,
    ipOf: ChannelId -> string,
    portOf: ChannelId -> PeerIdentity.Port,
    craftHandshake: (Bytes, Bytes) -> Bytes,
    parseHandshake: Bytes -> Option<Handshake>,
    parseMessage: Bytes -> bool,
    bitfield: set<nat> -> Bytes,
    serverMessage: int -> Bytes,
    baseHandshakeLength: nat)

  /** A peer of one torrent: the torrent's hex info-hash and the peer's reference in it. */
  datatype PeerHandle = PeerHandle(torrent: string, ref: PeerRef)

  /** TorrentPeerWrapper: the torrent a channel talks about and, once known, its peer. */
  datatype Association = Association(peer: Option<PeerRef>, torrent: string)

  /** A peer message handed to its peer. */
  datatype Delivery = Delivery(peer: PeerHandle, frame: Bytes)

  /** A connection attempt to a peer, on the channel it opened. */
  datatype Dial = Dial(peer: PeerHandle, channel: ChannelId)

  datatype Client = Client(
    torrents: map<string, Coordinator.Torrent>,
    associations: map<ChannelId, Association>,
    channelPeers: map<ChannelId, PeerHandle>,
    service: CommunicationManager.Manager,
    serviceAlive: bool,
    announced: seq<string>,
    delivered: seq<Delivery>,
    dialed: seq<Dial>,
    rateResets: seq<string>,
    server: bool,
    id: Bytes)

  /** The outcome of a handler that may throw part-way, keeping what it changed before the throw. */
  datatype Outcome = Outcome(c: Client, thrown: Option<Exception>)

  /** Every torrent's registry is consistent, and every peer the channel map holds exists in its torrent. */
  predicate Wf(cl: Client)
  {
    && (forall h :: h in cl.torrents ==> Coordinator.Registered(cl.torrents[h]))
    && (forall ch :: ch in cl.channelPeers && cl.channelPeers[ch].torrent in cl.torrents ==>
          cl.channelPeers[ch].ref in cl.torrents[cl.channelPeers[ch].torrent].store)
  }

  // ---------------------------------------------------------------------
  // Torrents

  /**
   * addTorrent: the torrent always replaces whatever was registered under
   * its hex info-hash; it is handed to the announce service when it is new,
   * or always when this client is the server.
   */
  function AddTorrent(cl: Client, t: Coordinator.Torrent): (cl': Client)
    requires Wf(cl) && Coordinator.Registered(t)
    requires forall ch :: ch in cl.channelPeers && cl.channelPeers[ch].torrent == t.hexInfoHash ==> cl.channelPeers[ch].ref in t.store
    ensures cl'.torrents == cl.torrents[t.hexInfoHash := t] && Wf(cl')
    ensures cl'.announced == cl.announced + [t.hexInfoHash] || cl'.announced == cl.announced
    ensures cl'.announced == cl.announced + [t.hexInfoHash] <==> t.hexInfoHash !in cl.torrents || cl.server
  {
    var isNew := t.hexInfoHash !in cl.torrents;
    cl.(torrents := cl.torrents[t.hexInfoHash := t],
        announced := if isNew || cl.server then cl.announced + [t.hexInfoHash] else cl.announced)
  }

  /** A client that is not the server announces a torrent once, however often it is added. */
  lemma AddTwiceAnnouncesOnce(cl: Client, t: Coordinator.Torrent)
    requires Wf(cl) && Coordinator.Registered(t) && !cl.server
    requires forall ch :: ch in cl.channelPeers && cl.channelPeers[ch].torrent == t.hexInfoHash ==> cl.channelPeers[ch].ref in t.store
    ensures AddTorrent(AddTorrent(cl, t), t).announced == AddTorrent(cl, t).announced
    ensures AddTorrent(AddTorrent(cl, t), t).torrents == AddTorrent(cl, t).torrents
  {
  }

  // ---------------------------------------------------------------------
  // Handshakes and messages

  /** The leading big-endian 32-bit signed int of a frame (ByteBuffer.getInt). */
  function LeadingInt(frame: Bytes): (v: int)
    requires |frame| >= 4
    ensures -0x8000_0000 <= v < 0x8000_0000
    ensures v >= 0 <==> frame[0] < 128
  {
    var raw := ((frame[0] as int * 256 + frame[1] as int) * 256 + frame[2] as int) * 256 + frame[3] as int;
    if raw >= 0x8000_0000 then raw - 0x1_0000_0000 else raw
  }

  /** handleMessage treats a frame as a handshake when its leading int is not negative and exactly the base handshake length follows it. */
  predicate IsHandshake(env: Env, frame: Bytes)
    requires |frame| >= 4
  {
    LeadingInt(frame) >= 0 && |frame| - 4 == env.baseHandshakeLength
  }

  /**
   * validateHandshake: the frame must parse; a handshake naming a known
   * torrent must carry that torrent's info-hash; and when a peer id is
   * expected, the handshake must carry exactly it. An unknown info-hash is
   * not a reason to reject.
   */
  function ValidateHandshake(env: Env, cl: Client, data: Bytes, expected: Option<Bytes>): (r: Result<Handshake>)
    ensures r.Ok? <==>
      && env.parseHandshake(data).Some?
      && var hs := env.parseHandshake(data).value;
      && (env.hex(hs.infoHash) in cl.torrents ==> hs.infoHash == cl.torrents[env.hex(hs.infoHash)].infoHash)
      && (expected.Some? ==> hs.peerId == expected.value)
    ensures r.Ok? ==> r.value == env.parseHandshake(data).value
    ensures r.Thrown? ==> r.cause == ParseFailure
  {
    match env.parseHandshake(data)
    case None => Thrown(ParseFailure)
    case Some(hs) =>
      var h := env.hex(hs.infoHash);
      if h in cl.torrents && hs.infoHash != cl.torrents[h].infoHash then Thrown(ParseFailure)
      else if expected.Some? && hs.peerId != expected.value then Thrown(ParseFailure)
      else Ok(hs)
  }

  /**
   * With no expected peer id — the only way handleMessage calls it — a
   * handshake for a torrent this client does not know passes validation
   * whatever peer id it carries.
   */
  lemma UnknownTorrentIsNotRejected(env: Env, cl: Client, data: Bytes)
    requires env.parseHandshake(data).Some?
    requires env.hex(env.parseHandshake(data).value.infoHash) !in cl.torrents
    ensures ValidateHandshake(env, cl, data, None) == Ok(env.parseHandshake(data).value)
  {
  }

  /**
   * The reply an inbound handshake gets: our handshake for the same torrent
   * when the channel has no association yet, nothing when it has one (it is
   * the answer to the handshake we sent when the connection completed).
   */
  function Reply(env: Env, cl: Client, ch: ChannelId, hs: Handshake): (cl': Client)
    ensures ch in cl.associations ==> cl' == cl
    ensures ch !in cl.associations ==>
      && cl'.service == CommunicationManager.Send(cl.service, ch, env.craftHandshake(hs.infoHash, cl.id))
      && cl' == cl.(service := cl'.service)
  {
    if ch in cl.associations then cl
    else cl.(service := CommunicationManager.Send(cl.service, ch, env.craftHandshake(hs.infoHash, cl.id)))
  }

  /**
   * handleMessage for one frame on channel `ch`.
   *  - Fewer than four bytes: reading the leading int underflows and throws.
   *  - A handshake that validates is answered when the channel is not yet
   *    associated, and then binds the peer (handleNewPeerConnection); one
   *    that fails validation is dropped.
   *  - Any other frame goes to the channel's peer when the channel has an
   *    association with a peer and the frame parses; otherwise it is dropped.
   */
  function HandleMessage(env: Env, cl: Client, ch: ChannelId, frame: Bytes): (o: Outcome)
    requires Wf(cl)
    ensures Wf(o.c)
    ensures o.thrown == Some(BufferUnderflow) <==> |frame| < 4
    ensures o.thrown.Some? ==> o.thrown == Some(BufferUnderflow) || o.thrown == Some(NullPointer)
    ensures |frame| >= 4 && !IsHandshake(env, frame) ==> o.thrown.None? && o.c == cl.(delivered := o.c.delivered)
    ensures |frame| >= 4 && !IsHandshake(env, frame) && (ch !in cl.associations || cl.associations[ch].peer.None?) ==> o == Outcome(cl, None)
    ensures |frame| >= 4 && IsHandshake(env, frame) && ValidateHandshake(env, cl, frame, None).Thrown? ==> o == Outcome(cl, None)
  {
    if |frame| < 4 then Outcome(cl, Some(BufferUnderflow))
    else if IsHandshake(env, frame) then
      match ValidateHandshake(env, cl, frame, None)
      case Thrown(_) => Outcome(cl, None)
      case Ok(hs) => HandleNewPeerConnection(env, Reply(env, cl, ch, hs), ch, Some(hs.peerId), env.hex(hs.infoHash))
    else if ch !in cl.associations || cl.associations[ch].peer.None? then Outcome(cl, None)
    else
      var a := cl.associations[ch];
      if env.parseMessage(frame) then Outcome(cl.(delivered := cl.delivered + [Delivery(PeerHandle(a.torrent, a.peer.value), frame)]), None)
      else Outcome(cl, None)
  }

  /** A peer message reaches the peer its channel is associated with, and nothing else changes. */
  lemma MessageReachesItsPeer(env: Env, cl: Client, ch: ChannelId, frame: Bytes)
    requires Wf(cl)
    requires |frame| >= 4 && !IsHandshake(env, frame) && env.parseMessage(frame)
    requires ch in cl.associations && cl.associations[ch].peer.Some?
    ensures var o := HandleMessage(env, cl, ch, frame);
      var a := cl.associations[ch];
      o == Outcome(cl.(delivered := cl.delivered + [Delivery(PeerHandle(a.torrent, a.peer.value), frame)]), None)
  {
  }

  /**
   * handleNewData: the frames of one event are handled in order; an
   * exception escaping one of them abandons the rest.
   */
  function HandleNewData(env: Env, cl: Client, ch: ChannelId, frames: seq<Bytes>): (o: Outcome)
    requires Wf(cl)
    ensures Wf(o.c)
    ensures o.thrown.Some? ==> exists i :: 0 <= i < |frames| && (|frames[i]| < 4 || IsHandshake(env, frames[i]))
    decreases |frames|
  {
    if frames == [] then Outcome(cl, None)
    else
      var o := HandleMessage(env, cl, ch, frames[0]);
      if o.thrown.Some? then o else HandleNewData(env, o.c, ch, frames[1..])
  }

  /** Handling two batches of frames one after the other is handling them as one batch. */
  lemma {:induction false} HandleNewDataAppend(env: Env, cl: Client, ch: ChannelId, a: seq<Bytes>, b: seq<Bytes>)
    requires Wf(cl)
    ensures var oa := HandleNewData(env, cl, ch, a);
      HandleNewData(env, cl, ch, a + b) == if oa.thrown.Some? then oa else HandleNewData(env, oa.c, ch, b)
    decreases |a|
  {
    if a != [] {
      assert (a + b)[0] == a[0];
      assert (a + b)[1..] == a[1..] + b;
      var o := HandleMessage(env, cl, ch, a[0]);
      if o.thrown.None? {
        HandleNewDataAppend(env, o.c, ch, a[1..], b);
      }
    } else {
      assert a + b == b;
    }
  }

  // ---------------------------------------------------------------------
  // Connections

  /** Replacing a known torrent by a consistent one whose store has lost no peer keeps the client consistent. */
  lemma ReplaceTorrentKeepsWf(cl: Client, h: string, t': Coordinator.Torrent)
    requires Wf(cl) && h in cl.torrents && Coordinator.Registered(t')
    requires cl.torrents[h].store.Keys <= t'.store.Keys
    ensures Wf(cl.(torrents := cl.torrents[h := t']))
    ensures cl.torrents[h := t'].Keys == cl.torrents.Keys
  {
  }

  /**
   * handleNewConnection: a completed outbound connection gets an
   * association with its torrent and no peer yet, and our handshake for
   * that torrent is queued on it. For an unknown torrent, crafting the
   * handshake dereferences null before anything changes.
   */
  function HandleNewConnection(env: Env, cl: Client, ch: ChannelId, h: string): (o: Outcome)
    requires Wf(cl)
    ensures Wf(o.c)
    ensures h !in cl.torrents ==> o == Outcome(cl, Some(NullPointer))
    ensures h in cl.torrents ==>
      && o.thrown.None?
      && ch in o.c.associations && o.c.associations[ch] == Association(None, h)
      && (forall c :: c != ch ==> (c in o.c.associations <==> c in cl.associations))
      && (forall c :: c != ch && c in cl.associations ==> o.c.associations[c] == cl.associations[c])
      && CommunicationManager.QueueOf(o.c.service, ch)
         == CommunicationManager.QueueOf(cl.service, ch) + [env.craftHandshake(cl.torrents[h].infoHash, cl.id)]
      && (forall c :: c != ch ==> CommunicationManager.QueueOf(o.c.service, c) == CommunicationManager.QueueOf(cl.service, c))
      && o.c.torrents == cl.torrents && o.c.channelPeers == cl.channelPeers
      && o.c == cl.(associations := o.c.associations, service := o.c.service)
  {
    if h !in cl.torrents then Outcome(cl, Some(NullPointer))
    else
      var data := env.craftHandshake(cl.torrents[h].infoHash, cl.id);
      Outcome(cl.(associations := cl.associations[ch := Association(None, h)],
                  service := CommunicationManager.Send(cl.service, ch, data)), None)
  }

  /**
   * An outbound connection is answered without a second handshake: once
   * handleNewConnection has associated the channel, the peer's handshake on
   * it queues nothing before binding the peer.
   */
  lemma ReturnHandshakeIsNotAnswered(env: Env, cl: Client, ch: ChannelId, h: string, hs: Handshake)
    requires Wf(cl) && h in cl.torrents
    ensures var c1 := HandleNewConnection(env, cl, ch, h).c;
      Reply(env, c1, ch, hs) == c1
  {
  }

  /** The search handleNewPeerConnection builds from the channel's remote address and the announced id. */
  function Search(env: Env, ch: ChannelId, peerId: Option<Bytes>): (p: PeerIdentity.Peer)
    ensures PeerIdentity.Valid(p, env.hex) && p.peerId == peerId
    ensures p.address == PeerIdentity.Address(env.render(env.ipOf(ch)), env.ipOf(ch), env.portOf(ch))
  {
    PeerIdentity.NewPeer(PeerIdentity.Address(env.render(env.ipOf(ch)), env.ipOf(ch), env.portOf(ch)), peerId, false, env.hex)
  }

  /** What a newly bound peer is sent: a BITFIELD when we have pieces, followed by a server message when we are the server. */
  function Greeting(env: Env, t: Coordinator.Torrent, server: bool): (msgs: seq<Bytes>)
    ensures |msgs| <= 2 && (msgs == [] <==> t.completed == {})
    ensures msgs != [] ==> msgs[0] == env.bitfield(t.completed) && (|msgs| == 2 <==> server)
  {
    if t.completed == {} then []
    else [env.bitfield(t.completed)] + (if server then [env.serverMessage(t.completion)] else [])
  }

  /** Queues the messages on `ch`, in order. */
  function SendAll(m: CommunicationManager.Manager, ch: ChannelId, msgs: seq<Bytes>): (m': CommunicationManager.Manager)
    ensures CommunicationManager.QueueOf(m', ch) == CommunicationManager.QueueOf(m, ch) + msgs
    ensures forall o :: o != ch ==> CommunicationManager.QueueOf(m', o) == CommunicationManager.QueueOf(m, o)
    decreases |msgs|
  {
    if msgs == [] then m
    else
      var m' := SendAll(CommunicationManager.Send(m, ch, msgs[0]), ch, msgs[1..]);
      assert msgs == [msgs[0]] + msgs[1..];
      m'
  }

  /** The first steps of handleNewPeerConnection on the torrent: the peer is looked up or created, attached to the channel and marked bound. */
  function Bind(env: Env, t: Coordinator.Torrent, ch: ChannelId, peerId: Option<Bytes>): (r: (Coordinator.Torrent, PeerRef))
    requires Coordinator.Registered(t)
    ensures Coordinator.Registered(r.0) && r.1 in r.0.store && t.store.Keys <= r.0.store.Keys
    ensures r.0.connected == t.connected
    ensures r.0.store[r.1].bound && r.0.store[r.1].channel == Some(ch)
  {
    var (t1, ref) := Coordinator.GetOrCreatePeer(t, Search(env, ch, peerId), env.hex, env.render);
    (t1.(store := t1.store[ref := t1.store[ref].(channel := Some(ch), bound := true)]), ref)
  }

  /** The peer bound is the one getOrCreatePeer returns for the search, with the identity it left it. */
  lemma BindsTheLookedUpPeer(env: Env, t: Coordinator.Torrent, ch: ChannelId, peerId: Option<Bytes>)
    requires Coordinator.Registered(t)
    ensures var (t1, ref) := Coordinator.GetOrCreatePeer(t, Search(env, ch, peerId), env.hex, env.render);
      var (t2, r) := Bind(env, t, ch, peerId);
      r == ref && ref in t1.store && t2.store[ref].id == t1.store[ref].id
  {
  }

  /**
   * The torrent's side of handleNewPeerConnection: the peer is bound, then
   * registered as connected under its hex id; the flag says whether that
   * registration happened (a peer with no hex id makes it throw).
   */
  function BindConnected(env: Env, t: Coordinator.Torrent, ch: ChannelId, peerId: Option<Bytes>): (r: (Coordinator.Torrent, PeerRef, bool))
    requires Coordinator.Registered(t)
    ensures Coordinator.Registered(r.0) && r.1 in r.0.store && t.store.Keys <= r.0.store.Keys
  {
    var b := Bind(env, t, ch, peerId);
    match b.0.store[b.1].id.hexPeerId
    case None => (b.0, b.1, false)
    case Some(key) => (b.0.(connected := b.0.connected[key := b.1]), b.1, true)
  }

  /**
   * The bound peer is connected under its hex id exactly when it has one,
   * and every other connected entry stays.
   */
  lemma BindsOnePeer(env: Env, t: Coordinator.Torrent, ch: ChannelId, peerId: Option<Bytes>)
    requires Coordinator.Registered(t)
    ensures var b := Bind(env, t, ch, peerId);
      var r := BindConnected(env, t, ch, peerId);
      var key := b.0.store[b.1].id.hexPeerId;
      && r.1 == b.1 && r.0.store == b.0.store
      && (r.2 <==> key.Some?)
      && (r.2 ==> key.value in r.0.connected && r.0.connected[key.value] == b.1)
  {
    var b := Bind(env, t, ch, peerId);
    var p := b.0.store[b.1];
    if p.id.hexPeerId.Some? {
      var key := p.id.hexPeerId.value;
      assert BindConnected(env, t, ch, peerId) == (b.0.(connected := b.0.connected[key := b.1]), b.1, true);
    } else {
      assert BindConnected(env, t, ch, peerId) == (b.0, b.1, false);
    }
  }

  /** Binding a peer leaves every other connected entry as it was. */
  lemma BindKeepsOtherConnections(env: Env, t: Coordinator.Torrent, ch: ChannelId, peerId: Option<Bytes>)
    requires Coordinator.Registered(t)
    ensures var b := Bind(env, t, ch, peerId);
      var r := BindConnected(env, t, ch, peerId);
      var key := b.0.store[b.1].id.hexPeerId;
      forall k :: k in t.connected && key != Some(k) ==> k in r.0.connected && r.0.connected[k] == t.connected[k]
  {
    var b := Bind(env, t, ch, peerId);
    match b.0.store[b.1].id.hexPeerId
    case None =>
      assert BindConnected(env, t, ch, peerId).0 == b.0;
    case Some(key) =>
      assert BindConnected(env, t, ch, peerId).0 == b.0.(connected := b.0.connected[key := b.1]);
  }

  /** Recording a peer of a known torrent in the channel map keeps the client consistent. */
  lemma AttachKeepsWf(cl: Client, ch: ChannelId, handle: PeerHandle)
    requires Wf(cl) && handle.torrent in cl.torrents && handle.ref in cl.torrents[handle.torrent].store
    ensures Wf(cl.(channelPeers := cl.channelPeers[ch := handle]))
  {
  }

  /**
   * handleNewPeerConnection: the peer is looked up or created from the
   * channel's remote address and the announced id, attached to the channel,
   * associated with it and marked bound; it is then registered as connected
   * under its hex id, recorded in the channel map, and greeted. A peer with
   * no hex id makes the registration throw after the earlier steps have
   * taken effect. An unknown torrent changes nothing.
   */
  function HandleNewPeerConnection(env: Env, cl: Client, ch: ChannelId, peerId: Option<Bytes>, h: string): (o: Outcome)
    requires Wf(cl)
    ensures Wf(o.c) && o.c.torrents.Keys == cl.torrents.Keys
    ensures h !in cl.torrents ==> o == Outcome(cl, None)
    ensures o.thrown.Some? ==> o.thrown == Some(NullPointer)
  {
    if h !in cl.torrents then Outcome(cl, None)
    else
      var (t', ref, ok) := BindConnected(env, cl.torrents[h], ch, peerId);
      ReplaceTorrentKeepsWf(cl, h, t');
      var cl1 := cl.(torrents := cl.torrents[h := t'], associations := cl.associations[ch := Association(Some(ref), h)]);
      if !ok then Outcome(cl1, Some(NullPointer))
      else Outcome(Attach(cl1, ch, PeerHandle(h, ref), Greeting(env, cl.torrents[h], cl.server)), None)
  }

  /** The last steps of handleNewPeerConnection: the peer is recorded for the channel and the greeting queued on it. */
  function Attach(cl: Client, ch: ChannelId, handle: PeerHandle, greeting: seq<Bytes>): (cl': Client)
    requires Wf(cl) && handle.torrent in cl.torrents && handle.ref in cl.torrents[handle.torrent].store
    ensures Wf(cl') && cl'.torrents == cl.torrents && cl'.associations == cl.associations
  {
    AttachKeepsWf(cl, ch, handle);
    cl.(channelPeers := cl.channelPeers[ch := handle], service := SendAll(cl.service, ch, greeting))
  }

  /**
   * After handleNewPeerConnection for a known torrent, the association, the
   * torrent's connected map and the channel map all name the one peer
   * getOrCreatePeer returned — the last two unless the registration threw —
   * and the greeting follows on the channel's queue.
   */
  lemma NewPeerConnectionBindsOnePeer(env: Env, cl: Client, ch: ChannelId, peerId: Option<Bytes>, h: string)
    requires Wf(cl) && h in cl.torrents
    ensures var o := HandleNewPeerConnection(env, cl, ch, peerId, h);
      var (t', ref, ok) := BindConnected(env, cl.torrents[h], ch, peerId);
      && o.c.torrents[h] == t'
      && ch in o.c.associations && o.c.associations[ch] == Association(Some(ref), h)
      && (o.thrown.None? <==> ok)
      && (ok ==>
            && ch in o.c.channelPeers && o.c.channelPeers[ch] == PeerHandle(h, ref)
            && CommunicationManager.QueueOf(o.c.service, ch)
               == CommunicationManager.QueueOf(cl.service, ch) + Greeting(env, cl.torrents[h], cl.server))
      && (!ok ==> o.c.channelPeers == cl.channelPeers && o.c.service == cl.service)
  {
  }
  /**
   * handleNewPeerConnection touches only its torrent and its channel:
   * every other torrent, every other channel's association, channel-map
   * entry and queue, and the rest of the client are unchanged.
   */
  lemma NewPeerConnectionTouchesOnlyItsChannel(env: Env, cl: Client, ch: ChannelId, peerId: Option<Bytes>, h: string)
    requires Wf(cl)
    ensures var o := HandleNewPeerConnection(env, cl, ch, peerId, h);
      && SameOutside(cl.torrents, o.c.torrents, h)
      && SameOutside(cl.associations, o.c.associations, ch)
      && SameOutside(cl.channelPeers, o.c.channelPeers, ch)
      && (forall c :: c != ch ==> CommunicationManager.QueueOf(o.c.service, c) == CommunicationManager.QueueOf(cl.service, c))
      && o.c == cl.(torrents := o.c.torrents, associations := o.c.associations, channelPeers := o.c.channelPeers, service := o.c.service)
  {
    var o := HandleNewPeerConnection(env, cl, ch, peerId, h);
    if h in cl.torrents {
      var (t', ref, ok) := BindConnected(env, cl.torrents[h], ch, peerId);
      var cl1 := cl.(torrents := cl.torrents[h := t'], associations := cl.associations[ch := Association(Some(ref), h)]);
      UpdateSameOutside(cl.torrents, h, t');
      UpdateSameOutside(cl.associations, ch, Association(Some(ref), h));
      UpdateSameOutside(cl.channelPeers, ch, PeerHandle(h, ref));
      if ok {
        var greeting := Greeting(env, cl.torrents[h], cl.server);
        assert o.c == cl1.(channelPeers := cl1.channelPeers[ch := PeerHandle(h, ref)], service := SendAll(cl1.service, ch, greeting));
      } else {
        assert o.c == cl1;
      }
    }
  }


  /** The key a peer is registered under in the connected map: its hex id when it has one, else its host identifier. */
  function ConnectedKey(id: PeerIdentity.Peer): string
  {
    match id.hexPeerId
    case Some(k) => k
    case None => id.hostId
  }

  /** For a consistent peer, the connected key follows the id: its hex encoding when there is an id, the host identifier otherwise. */
  lemma ConnectedKeyFollowsId(id: PeerIdentity.Peer, hex: Bytes -> string)
    requires PeerIdentity.Valid(id, hex)
    ensures PeerIdentity.HasPeerId(id) ==> ConnectedKey(id) == hex(id.peerId.value)
    ensures !PeerIdentity.HasPeerId(id) ==> ConnectedKey(id) == id.hostId
  {
  }

  /** SharingPeer.reset: the peer is choked, not interested, unbound, and has no requested piece. */
  function Reset(p: Coordinator.SharingPeer): (p': Coordinator.SharingPeer)
    ensures p'.id == p.id && p'.channel == p.channel
    ensures p'.choking && !p'.interested && !p'.bound && p'.requestedPiece.None?
  {
    p.(choking := true, interested := false, bound := false, requestedPiece := None)
  }

  /**
   * The torrent's side of handlePeerDisconnected: the peer leaves the
   * connected map, its requested piece is released, and it is reset.
   */
  function Disconnect(t: Coordinator.Torrent, ref: PeerRef): (t': Coordinator.Torrent)
    requires Coordinator.Registered(t) && ref in t.store
    ensures Coordinator.Registered(t') && t'.store.Keys == t.store.Keys
  {
    var t2 := Unregister(t, t.store[ref]);
    t2.(store := t2.store[ref := Reset(t.store[ref])])
  }

  /** The peer's connected entry is dropped and its requested piece released. */
  function Unregister(t: Coordinator.Torrent, p: Coordinator.SharingPeer): (t': Coordinator.Torrent)
    requires Coordinator.Registered(t)
    ensures Coordinator.Registered(t') && t'.store == t.store
    ensures t'.connected == t.connected - {ConnectedKey(p.id)} && t'.peers == t.peers && t'.state == t.state
  {
    var t1 := t.(connected := t.connected - {ConnectedKey(p.id)});
    if p.requestedPiece.Some? then Coordinator.ReleasePiece(t1, p.requestedPiece.value) else t1
  }

  /**
   * After a disconnection the peer is no longer connected while every other
   * connected entry stays; the peer is unbound with no requested piece and
   * keeps its identity; every other peer is untouched.
   */
  lemma DisconnectForgetsPeer(t: Coordinator.Torrent, ref: PeerRef)
    requires Coordinator.Registered(t) && ref in t.store
    ensures var t' := Disconnect(t, ref);
      var key := ConnectedKey(t.store[ref].id);
      && key !in t'.connected
      && (forall k :: k in t.connected && k != key ==> k in t'.connected && t'.connected[k] == t.connected[k])
      && t'.connected.Keys <= t.connected.Keys
      && !t'.store[ref].bound && t'.store[ref].requestedPiece.None? && t'.store[ref].id == t.store[ref].id
      && (forall o :: o in t.store && o != ref ==> t'.store[o] == t.store[o])
      && t'.peers == t.peers && t'.state == t.state
  {
  }

  /** A disconnection releases the peer's requested piece and no other request. */
  lemma DisconnectReleasesPiece(t: Coordinator.Torrent, ref: PeerRef)
    requires Coordinator.Registered(t) && ref in t.store
    ensures var t' := Disconnect(t, ref);
      var piece := t.store[ref].requestedPiece;
      && (piece.Some? ==> piece.value !in t'.requested && piece.value !in t'.requestTimes)
      && (forall p :: p in t.requestTimes && Some(p) != piece ==> p in t'.requestTimes && t'.requestTimes[p] == t.requestTimes[p])
      && (forall p :: p in t.requested && Some(p) != piece ==> p in t'.requested)
      && t'.requested <= t.requested && t'.requestTimes.Keys <= t.requestTimes.Keys
  {
  }

  /**
   * handlePeerDisconnected: the torrent forgets the peer, and the peer's
   * channel leaves both channel maps. A peer of an unknown torrent changes
   * nothing.
   */
  function HandlePeerDisconnected(cl: Client, peer: PeerHandle): (cl': Client)
    requires Wf(cl)
    requires peer.torrent in cl.torrents ==> peer.ref in cl.torrents[peer.torrent].store
    ensures Wf(cl') && cl'.torrents.Keys == cl.torrents.Keys
    ensures peer.torrent !in cl.torrents ==> cl' == cl
  {
    if peer.torrent !in cl.torrents then cl
    else
      var t := cl.torrents[peer.torrent];
      var t' := Disconnect(t, peer.ref);
      ReplaceTorrentKeepsWf(cl, peer.torrent, t');
      var gone: set<ChannelId> := if t.store[peer.ref].channel.Some? then {t.store[peer.ref].channel.value} else {};
      cl.(torrents := cl.torrents[peer.torrent := t'],
          channelPeers := cl.channelPeers - gone,
          associations := cl.associations - gone)
  }

  /**
   * What a disconnection leaves on the client's side: the peer's channel is
   * in neither channel map, every other channel keeps its entries, the
   * torrent is as Disconnect leaves it, and every other torrent and the rest
   * of the client are unchanged.
   */
  lemma DisconnectForgetsChannel(cl: Client, peer: PeerHandle)
    requires Wf(cl) && peer.torrent in cl.torrents && peer.ref in cl.torrents[peer.torrent].store
    ensures var cl' := HandlePeerDisconnected(cl, peer);
      var t := cl.torrents[peer.torrent];
      var gone := t.store[peer.ref].channel;
      && cl'.torrents[peer.torrent] == Disconnect(t, peer.ref)
      && (gone.Some? ==> gone.value !in cl'.channelPeers && gone.value !in cl'.associations)
      && (forall ch :: gone != Some(ch) && ch in cl.channelPeers ==> ch in cl'.channelPeers && cl'.channelPeers[ch] == cl.channelPeers[ch])
      && (forall ch :: gone != Some(ch) && ch in cl.associations ==> ch in cl'.associations && cl'.associations[ch] == cl.associations[ch])
      && cl'.channelPeers.Keys <= cl.channelPeers.Keys && cl'.associations.Keys <= cl.associations.Keys
      && (forall g :: g in cl.torrents && g != peer.torrent ==> cl'.torrents[g] == cl.torrents[g])
      && cl' == cl.(torrents := cl'.torrents, channelPeers := cl'.channelPeers, associations := cl'.associations)
  {
  }

  /** handleBadSocket: the peer recorded for the channel, if any, is disconnected; nothing happens otherwise. */
  function HandleBadSocket(cl: Client, ch: ChannelId): (cl': Client)
    requires Wf(cl)
    ensures Wf(cl')
    ensures ch !in cl.channelPeers ==> cl' == cl
  {
    if ch in cl.channelPeers then HandlePeerDisconnected(cl, cl.channelPeers[ch]) else cl
  }

  /**
   * A bad socket whose peer is still attached to it takes the channel out
   * of both channel maps and unbinds the peer.
   */
  lemma BadSocketClearsChannel(cl: Client, ch: ChannelId)
    requires Wf(cl) && ch in cl.channelPeers
    requires var ph := cl.channelPeers[ch];
      ph.torrent in cl.torrents && cl.torrents[ph.torrent].store[ph.ref].channel == Some(ch)
    ensures var cl' := HandleBadSocket(cl, ch);
      var ph := cl.channelPeers[ch];
      && ch !in cl'.channelPeers && ch !in cl'.associations
      && !cl'.torrents[ph.torrent].store[ph.ref].bound
  {
    DisconnectForgetsChannel(cl, cl.channelPeers[ch]);
  }

  /**
   * handleFailedConnection: the peer's host identifier, and its hex id when
   * it has one, leave the torrent's registry; nothing else changes.
   */
  function HandleFailedConnection(cl: Client, peer: PeerHandle): (cl': Client)
    requires Wf(cl)
    requires peer.torrent in cl.torrents ==> peer.ref in cl.torrents[peer.torrent].store
    ensures Wf(cl') && cl'.torrents.Keys == cl.torrents.Keys
    ensures peer.torrent !in cl.torrents ==> cl' == cl
  {
    if peer.torrent !in cl.torrents then cl
    else
      var t := cl.torrents[peer.torrent];
      var id := t.store[peer.ref].id;
      var t1 := t.(peers := t.peers - {id.hostId});
      var t2 := if PeerIdentity.HasPeerId(id) && id.hexPeerId.Some? then t1.(peers := t1.peers - {id.hexPeerId.value}) else t1;
      ReplaceTorrentKeepsWf(cl, peer.torrent, t2);
      cl.(torrents := cl.torrents[peer.torrent := t2])
  }

  /**
   * After a failed connection the peer can no longer be found by its host
   * identifier nor, for a consistent peer with an id, by its hex id; every
   * other registry key keeps its peer, and nothing outside the registry
   * changes, other torrents included.
   */
  lemma FailedConnectionForgetsPeer(cl: Client, peer: PeerHandle, hex: Bytes -> string)
    requires Wf(cl) && peer.torrent in cl.torrents && peer.ref in cl.torrents[peer.torrent].store
    requires PeerIdentity.Valid(cl.torrents[peer.torrent].store[peer.ref].id, hex)
    ensures var cl' := HandleFailedConnection(cl, peer);
      var t := cl.torrents[peer.torrent];
      var t' := cl'.torrents[peer.torrent];
      var id := t.store[peer.ref].id;
      && id.hostId !in t'.peers
      && (id.peerId.Some? ==> hex(id.peerId.value) !in t'.peers)
      && (forall k :: k in t.peers && k != id.hostId && k != ConnectedKey(id) ==> k in t'.peers && t'.peers[k] == t.peers[k])
      && t'.peers.Keys <= t.peers.Keys
      && t' == t.(peers := t'.peers)
      && (forall g :: g in cl.torrents && g != peer.torrent ==> cl'.torrents[g] == cl.torrents[g])
      && cl' == cl.(torrents := cl'.torrents)
  {
  }

  // ---------------------------------------------------------------------
  // Discovered peers

  /** The connect rule: not to a peer already bound, and not once a complete torrent has enough connected peers. */
  predicate ShouldConnect(t: Coordinator.Torrent, ref: PeerRef)
    requires ref in t.store
  {
    !t.store[ref].bound && !(t.complete && |t.connected| >= VOLUNTARY_OUTBOUND_CONNECTIONS)
  }

  /**
   * The torrent's side of the loop of handleDiscoveredPeers: each peer is
   * looked up or created, and it becomes a connection target when the
   * connect rule allows. The lookups touch only the torrent and the
   * connections only the communication manager, so the targets can be
   * dialled after the loop in the order they were chosen.
   */
  function Targets(env: Env, t: Coordinator.Torrent, discovered: seq<PeerIdentity.Peer>): (r: (Coordinator.Torrent, seq<PeerRef>))
    requires Coordinator.Registered(t)
    requires forall i :: 0 <= i < |discovered| ==> PeerIdentity.Valid(discovered[i], env.hex)
    ensures Coordinator.Registered(r.0) && t.store.Keys <= r.0.store.Keys
    ensures r.0.connected == t.connected && r.0.state == t.state && r.0.complete == t.complete
    ensures |r.1| <= |discovered|
    decreases |discovered|
  {
    if discovered == [] then (t, [])
    else
      var first := Coordinator.GetOrCreatePeer(t, discovered[0], env.hex, env.render);
      var rest := Targets(env, first.0, discovered[1..]);
      if ShouldConnect(first.0, first.1) then (rest.0, [first.1] + rest.1) else rest
  }

  /** Every peer chosen as a target is registered in the torrent the selection leaves. */
  lemma {:induction false} TargetsAreKnownPeers(env: Env, t: Coordinator.Torrent, discovered: seq<PeerIdentity.Peer>)
    requires Coordinator.Registered(t)
    requires forall i :: 0 <= i < |discovered| ==> PeerIdentity.Valid(discovered[i], env.hex)
    ensures forall ref :: ref in Targets(env, t, discovered).1 ==> ref in Targets(env, t, discovered).0.store
    decreases |discovered|
  {
    if discovered != [] {
      var first := Coordinator.GetOrCreatePeer(t, discovered[0], env.hex, env.render);
      var rest := Targets(env, first.0, discovered[1..]);
      TargetsAreKnownPeers(env, first.0, discovered[1..]);
      assert first.1 in rest.0.store;
    }
  }

  /** communicationManager.connect for each target in turn, each on a fresh channel. */
  function ConnectAll(m: CommunicationManager.Manager, hexInfoHash: string, n: nat): (r: (CommunicationManager.Manager, seq<ChannelId>))
    requires CommunicationManager.Fresh(m)
    ensures CommunicationManager.Fresh(r.0) && |r.1| == n
    ensures |r.0.changes| == |m.changes| + n && r.0.changes[..|m.changes|] == m.changes
    ensures forall i :: 0 <= i < n ==> r.0.changes[|m.changes| + i] == CommunicationManager.Register(r.1[i], CommunicationManager.OpConnect, hexInfoHash)
    ensures forall i :: 0 <= i < n ==> r.1[i] !in m.keys && r.1[i] !in m.pending
    ensures forall i, j :: 0 <= i < j < n ==> r.1[i] < r.1[j]
    ensures forall i :: 0 <= i < n ==> m.nextChannel <= r.1[i] < r.0.nextChannel
    ensures m.nextChannel <= r.0.nextChannel
    ensures r.0.pending == m.pending && r.0.keys == m.keys
    decreases n
  {
    if n == 0 then (m, [])
    else
      var (m1, ch) := CommunicationManager.Connect(m, hexInfoHash);
      var (m2, rest) := ConnectAll(m1, hexInfoHash, n - 1);
      (m2, [ch] + rest)
  }

  /** The dial records for targets and the channels opened to them, pairwise. */
  function Dials(h: string, targets: seq<PeerRef>, channels: seq<ChannelId>): (d: seq<Dial>)
    requires |targets| == |channels|
    ensures |d| == |targets|
    ensures forall i :: 0 <= i < |d| ==> d[i] == Dial(PeerHandle(h, targets[i]), channels[i])
  {
    seq(|targets|, i requires 0 <= i < |targets| => Dial(PeerHandle(h, targets[i]), channels[i]))
  }

  /**
   * Dialling the targets of torrent `h`: every target is dialled, in
   * order, each on its own new channel, and each dial queues exactly one
   * request to register its channel for connect readiness under the
   * torrent's hex info-hash.
   */
  function DialAll(m: CommunicationManager.Manager, dialed: seq<Dial>, h: string, hexInfoHash: string, targets: seq<PeerRef>): (r: (CommunicationManager.Manager, seq<Dial>))
    requires CommunicationManager.Fresh(m)
    ensures CommunicationManager.Fresh(r.0) && r.0.pending == m.pending && r.0.keys == m.keys
    ensures |r.1| == |dialed| + |targets| && r.1[..|dialed|] == dialed
    ensures |r.0.changes| == |m.changes| + |targets| && r.0.changes[..|m.changes|] == m.changes
    ensures var d := r.1[|dialed|..];
      var c := r.0.changes[|m.changes|..];
      && |d| == |targets| == |c|
      && (forall i :: 0 <= i < |d| ==>
            && d[i].peer == PeerHandle(h, targets[i])
            && d[i].channel !in m.keys && d[i].channel !in m.pending
            && c[i] == CommunicationManager.Register(d[i].channel, CommunicationManager.OpConnect, hexInfoHash))
      && (forall i, j :: 0 <= i < j < |d| ==> d[i].channel != d[j].channel)
  {
    var (m', channels) := ConnectAll(m, hexInfoHash, |targets|);
    var d := Dials(h, targets, channels);
    assert (dialed + d)[..|dialed|] == dialed;
    assert (dialed + d)[|dialed|..] == d;
    (m', dialed + d)
  }

  /**
   * handleDiscoveredPeers: nothing for an unknown torrent, an empty list, or
   * a dead communication service; otherwise every target of the connect
   * rule is dialled.
   */
  function HandleDiscoveredPeers(env: Env, cl: Client, discovered: seq<PeerIdentity.Peer>, h: string): (cl': Client)
    requires Wf(cl) && CommunicationManager.Fresh(cl.service)
    requires forall i :: 0 <= i < |discovered| ==> PeerIdentity.Valid(discovered[i], env.hex)
    ensures Wf(cl') && cl'.torrents.Keys == cl.torrents.Keys && CommunicationManager.Fresh(cl'.service)
    ensures h !in cl.torrents || discovered == [] || !cl.serviceAlive ==> cl' == cl
    ensures h in cl.torrents && discovered != [] && cl.serviceAlive ==>
      var (t', targets) := Targets(env, cl.torrents[h], discovered);
      && cl'.torrents[h] == t'
      && (cl'.service, cl'.dialed) == DialAll(cl.service, cl.dialed, h, env.hex(cl.torrents[h].infoHash), targets)
  {
    if h !in cl.torrents || discovered == [] || !cl.serviceAlive then cl
    else
      var t := cl.torrents[h];
      var (t', targets) := Targets(env, t, discovered);
      var (m', dialed') := DialAll(cl.service, cl.dialed, h, env.hex(t.infoHash), targets);
      ReplaceTorrentKeepsWf(cl, h, t');
      cl.(torrents := cl.torrents[h := t'], service := m', dialed := dialed')
  }
  /**
   * handleDiscoveredPeers touches only the torrent it is for, the
   * communication service and the dial log: every other torrent, both
   * channel maps and the rest of the client are unchanged.
   */
  lemma DiscoveredPeersTouchOnlyTheirTorrent(env: Env, cl: Client, discovered: seq<PeerIdentity.Peer>, h: string)
    requires Wf(cl) && CommunicationManager.Fresh(cl.service)
    requires forall i :: 0 <= i < |discovered| ==> PeerIdentity.Valid(discovered[i], env.hex)
    ensures var cl' := HandleDiscoveredPeers(env, cl, discovered, h);
      && SameOutside(cl.torrents, cl'.torrents, h)
      && cl'.associations == cl.associations && cl'.channelPeers == cl.channelPeers
      && cl' == cl.(torrents := cl'.torrents, service := cl'.service, dialed := cl'.dialed)
  {
    if h in cl.torrents && discovered != [] && cl.serviceAlive {
      var t := cl.torrents[h];
      var (t', targets) := Targets(env, t, discovered);
      var (m', dialed') := DialAll(cl.service, cl.dialed, h, env.hex(t.infoHash), targets);
      assert HandleDiscoveredPeers(env, cl, discovered, h) == cl.(torrents := cl.torrents[h := t'], service := m', dialed := dialed');
      UpdateSameOutside(cl.torrents, h, t');
    } else {
      assert HandleDiscoveredPeers(env, cl, discovered, h) == cl;
    }
  }


  /** A complete torrent that already has enough connected peers chooses no target, whatever it discovers. */
  lemma {:induction false} SaturatedSeederDialsNobody(env: Env, t: Coordinator.Torrent, discovered: seq<PeerIdentity.Peer>)
    requires Coordinator.Registered(t)
    requires forall i :: 0 <= i < |discovered| ==> PeerIdentity.Valid(discovered[i], env.hex)
    requires t.complete && |t.connected| >= VOLUNTARY_OUTBOUND_CONNECTIONS
    ensures Targets(env, t, discovered).1 == []
    decreases |discovered|
  {
    if discovered != [] {
      var (t1, ref) := Coordinator.GetOrCreatePeer(t, discovered[0], env.hex, env.render);
      SaturatedSeederDialsNobody(env, t1, discovered[1..]);
    }
  }

  /**
   * The connect rule decides each discovered peer: the first one's match is
   * a target exactly when the rule allows it at that point, and the
   * remaining targets are those of the rest of the list.
   */
  lemma FirstTargetFollowsRule(env: Env, t: Coordinator.Torrent, discovered: seq<PeerIdentity.Peer>)
    requires Coordinator.Registered(t)
    requires forall i :: 0 <= i < |discovered| ==> PeerIdentity.Valid(discovered[i], env.hex)
    requires discovered != []
    ensures var (t1, ref) := Coordinator.GetOrCreatePeer(t, discovered[0], env.hex, env.render);
      var rest := Targets(env, t1, discovered[1..]).1;
      && ref in t1.store
      && Targets(env, t, discovered).1 == (if ShouldConnect(t1, ref) then [ref] + rest else rest)
  {
  }

  // ---------------------------------------------------------------------
  // The control loop

  /** What the scheduler needs for one torrent: the walk order, the random pick and the sweep order. */
  datatype Plan = Plan(walk: seq<string>, pick: nat, sweep: seq<nat>)

  /** Only a sharing or seeding torrent takes part in an iteration. */
  predicate Active(t: Coordinator.Torrent)
  {
    t.state == Some(Coordinator.Sharing) || t.state == Some(Coordinator.Seeding)
  }

  /** The plan fits the torrent it is for. */
  predicate Fits(t: Coordinator.Torrent, plan: Plan)
  {
    IsOrdering(plan.walk, t.connected.Keys) && IsOrdering(plan.sweep, t.requestTimes.Keys)
  }

  /**
   * One torrent's turn in an iteration: an active torrent runs the
   * scheduler and, on a rate-reset iteration, has its peer rates reset
   * unless the scheduler threw first. Any exception is caught and logged;
   * what the scheduler changed before it stays. The boolean says whether
   * the scheduler completed.
   */
  function TurnOf(t: Coordinator.Torrent, plan: Plan, optimistic: bool, now: int, timeout: int, open: set<ChannelId>): (r: (Coordinator.Torrent, bool))
    requires Coordinator.Registered(t) && Fits(t, plan)
    ensures Coordinator.Registered(r.0) && r.0.store.Keys == t.store.Keys
    ensures !Active(t) ==> r == (t, false)
  {
    if !Active(t) then (t, false)
    else
      var e := Coordinator.UnchokePeers(t, optimistic, plan.walk, plan.pick, now, timeout, open, plan.sweep);
      (e.t, e.thrown.None?)
  }

  /** The order lists keys of `ts`, each once. */
  predicate Distinct<T>(ts: map<string, T>, order: seq<string>)
  {
    && (forall i :: 0 <= i < |order| ==> order[i] in ts)
    && (forall i, j :: 0 <= i < j < |order| ==> order[i] != order[j])
  }

  /** After the first torrent's turn, the rest of the order still lists distinct torrents whose turns can be taken. */
  lemma TailStillPlanned<T>(ts: map<string, T>, order: seq<string>, turn: (string, T) --> (T, bool), v: T)
    requires Distinct(ts, order) && order != []
    requires forall i :: 0 <= i < |order| ==> turn.requires(order[i], ts[order[i]])
    ensures order[0] !in order[1..]
    ensures Distinct(ts[order[0] := v], order[1..])
    ensures forall i :: 0 <= i < |order[1..]| ==> turn.requires(order[1..][i], ts[order[0] := v][order[1..][i]])
  {
    assert forall i :: 1 <= i < |order| ==> order[i] != order[0] && order[1..][i - 1] == order[i];
  }

  /**
   * The torrents of the iteration, visited in the map's iteration order
   * `order`: each takes its turn, and when `resetting` holds, the log
   * `resets` gains the torrents whose turn completed. The loop does not
   * depend on what a turn does, so it is stated for any turn.
   */
  function RunTurns<T>(ts: map<string, T>, resets: seq<string>, order: seq<string>,
                       turn: (string, T) --> (T, bool), resetting: bool): (r: (map<string, T>, seq<string>))
    requires Distinct(ts, order)
    requires forall i :: 0 <= i < |order| ==> turn.requires(order[i], ts[order[i]])
    ensures r.0.Keys == ts.Keys
    ensures forall h :: h in ts && h !in order ==> r.0[h] == ts[h]
    decreases |order|
  {
    if order == [] then (ts, resets)
    else
      var h := order[0];
      var step := turn(h, ts[h]);
      var v, ok := step.0, step.1;
      TailStillPlanned(ts, order, turn, v);
      RunTurns(ts[h := v], if resetting && ok then resets + [h] else resets, order[1..], turn, resetting)
  }

  /**
   * Each torrent of the iteration is handled on its own: every torrent
   * ends as its own turn leaves it, whatever happened to the torrents
   * before it; an exception in one does not skip the others.
   */
  lemma {:induction false} EveryTorrentTakesItsTurn<T>(ts: map<string, T>, resets: seq<string>, order: seq<string>,
                                                       turn: (string, T) --> (T, bool), resetting: bool)
    requires Distinct(ts, order)
    requires forall i :: 0 <= i < |order| ==> turn.requires(order[i], ts[order[i]])
    ensures var r := RunTurns(ts, resets, order, turn, resetting);
      forall i :: 0 <= i < |order| ==> r.0[order[i]] == turn(order[i], ts[order[i]]).0
    decreases |order|
  {
    if order != [] {
      var h := order[0];
      var step := turn(h, ts[h]);
      var v, ok := step.0, step.1;
      var resets' := if resetting && ok then resets + [h] else resets;
      var ts' := ts[h := v];
      assert forall i :: 1 <= i < |order| ==> order[i] != h && order[1..][i - 1] == order[i];
      EveryTorrentTakesItsTurn(ts', resets', order[1..], turn, resetting);
    }
  }

  /**
   * The torrents whose rates an iteration resets, as a reference: on a
   * rate-reset iteration, those in `order` whose turn completes when taken
   * on the torrent as it was at the start of the iteration.
   */
  function CompletedTurns<T>(ts: map<string, T>, order: seq<string>, turn: (string, T) --> (T, bool), resetting: bool): (done: seq<string>)
    requires forall i :: 0 <= i < |order| ==> order[i] in ts && turn.requires(order[i], ts[order[i]])
    ensures |done| <= |order|
    decreases |order|
  {
    if order == [] || !resetting then []
    else
      var rest := CompletedTurns(ts, order[1..], turn, resetting);
      if turn(order[0], ts[order[0]]).1 then [order[0]] + rest else rest
  }

  /** A torrent's rates are reset exactly when the iteration resets rates and its turn completes. */
  lemma {:induction false} CompletedTurnsMembers<T>(ts: map<string, T>, order: seq<string>, turn: (string, T) --> (T, bool), resetting: bool)
    requires forall i :: 0 <= i < |order| ==> order[i] in ts && turn.requires(order[i], ts[order[i]])
    ensures forall h :: h in CompletedTurns(ts, order, turn, resetting) <==> resetting && h in order && turn(h, ts[h]).1
    decreases |order|
  {
    if order != [] && resetting {
      CompletedTurnsMembers(ts, order[1..], turn, resetting);
      assert forall h :: h in order <==> h == order[0] || h in order[1..];
    }
  }

  /** Changing a torrent outside the order does not change which turns complete. */
  lemma {:induction false} CompletedTurnsFrame<T>(ts: map<string, T>, order: seq<string>, turn: (string, T) --> (T, bool),
                                                  resetting: bool, h: string, v: T)
    requires forall i :: 0 <= i < |order| ==> order[i] in ts && turn.requires(order[i], ts[order[i]])
    requires h !in order
    ensures forall i :: 0 <= i < |order| ==> order[i] in ts[h := v] && turn.requires(order[i], ts[h := v][order[i]])
    ensures CompletedTurns(ts[h := v], order, turn, resetting) == CompletedTurns(ts, order, turn, resetting)
    decreases |order|
  {
    assert forall i :: 0 <= i < |order| ==> order[i] != h;
    if order != [] && resetting {
      assert h !in order[1..];
      CompletedTurnsFrame(ts, order[1..], turn, resetting, h, v);
    }
  }

  /**
   * The rate-reset log gains, in iteration order, exactly the torrents
   * whose turn completed, and only on a rate-reset iteration.
   */
  lemma {:induction false} RatesResetAfterCompletedTurns<T>(ts: map<string, T>, resets: seq<string>, order: seq<string>,
                                                            turn: (string, T) --> (T, bool), resetting: bool)
    requires Distinct(ts, order)
    requires forall i :: 0 <= i < |order| ==> turn.requires(order[i], ts[order[i]])
    ensures RunTurns(ts, resets, order, turn, resetting).1 == resets + CompletedTurns(ts, order, turn, resetting)
    decreases |order|
  {
    if order == [] {
      assert resets + [] == resets;
    } else {
      var h := order[0];
      var step := turn(h, ts[h]);
      var resets' := if resetting && step.1 then resets + [h] else resets;
      TailStillPlanned(ts, order, turn, step.0);
      RatesResetAfterCompletedTurns(ts[h := step.0], resets', order[1..], turn, resetting);
      CompletedTurnsFrame(ts, order[1..], turn, resetting, h, step.0);
      if resetting && step.1 {
        var tail := CompletedTurns(ts, order[1..], turn, resetting);
        assert resets' + tail == resets + ([h] + tail);
      }
    }
  }

  /** When the order visits every torrent, every torrent ends as its own turn leaves it. */
  lemma EveryKeyTakesItsTurn<T>(ts: map<string, T>, resets: seq<string>, order: seq<string>,
                                turn: (string, T) --> (T, bool), resetting: bool)
    requires Distinct(ts, order) && forall h :: h in ts ==> h in order
    requires forall i :: 0 <= i < |order| ==> turn.requires(order[i], ts[order[i]])
    ensures var r := RunTurns(ts, resets, order, turn, resetting);
      forall h :: h in ts ==> turn.requires(h, ts[h]) && r.0[h] == turn(h, ts[h]).0
  {
    EveryTorrentTakesItsTurn(ts, resets, order, turn, resetting);
    forall h | h in ts ensures turn.requires(h, ts[h]) && RunTurns(ts, resets, order, turn, resetting).0[h] == turn(h, ts[h]).0 {
      var i :| 0 <= i < |order| && order[i] == h;
    }
  }

  /** Replacing the torrents by consistent ones with the same keys and the same peers keeps the client consistent. */
  lemma SameStoresKeepWf(cl: Client, ts: map<string, Coordinator.Torrent>)
    requires Wf(cl) && ts.Keys == cl.torrents.Keys
    requires forall h :: h in ts ==> Coordinator.Registered(ts[h]) && ts[h].store.Keys == cl.torrents[h].store.Keys
    ensures Wf(cl.(torrents := ts))
  {
  }

  /** The turn of the torrent `h` in an iteration. */
  function TurnFor(plans: string -> Plan, optimistic: bool, now: int, timeout: int, open: set<ChannelId>): (string, Coordinator.Torrent) --> (Coordinator.Torrent, bool)
  {
    (h: string, t: Coordinator.Torrent) requires Coordinator.Registered(t) && Fits(t, plans(h)) =>
      TurnOf(t, plans(h), optimistic, now, timeout, open)
  }

  /** A turn keeps the torrent's registry consistent and its peers. */
  lemma TurnKeepsRegistry(plans: string -> Plan, optimistic: bool, now: int, timeout: int, open: set<ChannelId>,
                          h: string, t: Coordinator.Torrent)
    requires Coordinator.Registered(t) && Fits(t, plans(h))
    ensures var turn := TurnFor(plans, optimistic, now, timeout, open);
      turn.requires(h, t) && Coordinator.Registered(turn(h, t).0) && turn(h, t).0.store.Keys == t.store.Keys
  {
  }

  /** The turns of an iteration keep the client consistent. */
  lemma TurnsKeepWf(cl: Client, order: seq<string>, plans: string -> Plan, optimistic: bool, resetting: bool,
                    now: int, timeout: int, open: set<ChannelId>)
    requires Wf(cl) && IsOrdering(order, cl.torrents.Keys)
    requires forall h :: h in cl.torrents ==> Fits(cl.torrents[h], plans(h))
    ensures var turn := TurnFor(plans, optimistic, now, timeout, open);
      Wf(cl.(torrents := RunTurns(cl.torrents, cl.rateResets, order, turn, resetting).0))
  {
    var turn := TurnFor(plans, optimistic, now, timeout, open);
    var ts := RunTurns(cl.torrents, cl.rateResets, order, turn, resetting).0;
    EveryKeyTakesItsTurn(cl.torrents, cl.rateResets, order, turn, resetting);
    forall h | h in ts ensures Coordinator.Registered(ts[h]) && ts[h].store.Keys == cl.torrents[h].store.Keys {
      TurnKeepsRegistry(plans, optimistic, now, timeout, open, h, cl.torrents[h]);
    }
    SameStoresKeepWf(cl, ts);
  }

  /**
   * One iteration of the control loop: the counters count down, then every
   * torrent takes its turn, optimistic when the optimistic counter is zero,
   * with rates reset when the rate counter is zero.
   */
  function Iteration(cl: Client, k: Counters, order: seq<string>, plans: string -> Plan,
                     now: int, timeout: int, open: set<ChannelId>): (r: (Client, Counters))
    requires Wf(cl) && IsOrdering(order, cl.torrents.Keys)
    requires k.optimistic <= OPTIMISTIC_UNCHOKE_ITERATIONS && k.rate <= RATE_COMPUTATION_ITERATIONS
    requires forall h :: h in cl.torrents ==> Fits(cl.torrents[h], plans(h))
    ensures r.1 == Tick(k) && Wf(r.0) && r.0.torrents.Keys == cl.torrents.Keys
    ensures forall h :: h in cl.torrents ==>
      r.0.torrents[h] == TurnFor(plans, r.1.optimistic == 0, now, timeout, open)(h, cl.torrents[h]).0
  {
    var k' := Tick(k);
    var turn := TurnFor(plans, k'.optimistic == 0, now, timeout, open);
    var (ts, resets) := RunTurns(cl.torrents, cl.rateResets, order, turn, k'.rate == 0);
    EveryKeyTakesItsTurn(cl.torrents, cl.rateResets, order, turn, k'.rate == 0);
    TurnsKeepWf(cl, order, plans, k'.optimistic == 0, k'.rate == 0, now, timeout, open);
    (cl.(torrents := ts, rateResets := resets), k')
  }
}
