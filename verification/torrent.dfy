/**
 * The per-torrent coordinator (ClientSharedTorrent.java): the registry of
 * known peers, the lifecycle state with its observer notifications, the
 * choke scheduler with its piece-request timeout sweep, and piece release.
 *
 * SharedTorrent, SharingPeer and Client.ClientState are not part of this
 * model; only the fields and flags the coordinator reads and writes are kept.
 * Calls into them whose effect is not visible here (stop, close, finish, the
 * seeding timer, handlePeerReady) are recorded in order in `calls`.
 */
module Coordinator {
  import opened Common
  import PeerIdentity

  /** Interested peers unchoked per pass (MultiTorrentClient.MAX_DOWNLOADERS_UNCHOKE). */
  const MAX_DOWNLOADERS_UNCHOKE: nat := 4

  datatype ClientState = Waiting | Validating | Sharing | Seeding | Error | Done

  /**
   * The parts of a SharingPeer the coordinator and the client touch: its
   * identity, whether we choke it, whether it is interested, whether it is
   * bound to a live connection, its channel, and the piece it has requested.
   */
  datatype SharingPeer = SharingPeer(
    id: PeerIdentity.Peer,
    choking: bool,
    interested: bool,
    bound: bool,
    channel: Option<ChannelId>,
    requestedPiece: Option<nat>)

  /** A requested piece: who asked for it and when (milliseconds). */
  datatype PieceRequest = PieceRequest(peer: PeerRef, time: int)

  /** Calls into collaborators whose effect is outside this model. */
  datatype Call = Stop | Close | Finish | ScheduleStop(millis: int) | PeerReady(peer: PeerRef)

  datatype Torrent = Torrent(
    infoHash: Bytes,
    hexInfoHash: string,
    store: map<PeerRef, SharingPeer>,
    nextRef: PeerRef,
    peers: map<string, PeerRef>,
    connected: map<string, PeerRef>,
    state: Option<ClientState>,
    changed: bool,
    notified: seq<ClientState>,
    completed: set<nat>,
    complete: bool,
    completion: int,
    requested: set<nat>,
    requestTimes: map<nat, PieceRequest>,
    seed: int,
    stop: bool,
    calls: seq<Call>)

  /** The outcome of an operation that may throw part-way, keeping what it changed before the throw. */
  datatype Effect = Effect(t: Torrent, thrown: Option<Exception>)

  /** Every peer the maps and the request table refer to exists, and fresh references are unused. */
  predicate Registered(t: Torrent)
  {
    && (forall k :: k in t.peers ==> t.peers[k] in t.store)
    && (forall k :: k in t.connected ==> t.connected[k] in t.store)
    && (forall p :: p in t.requestTimes ==> t.requestTimes[p].peer in t.store)
    && (forall r :: r in t.store ==> r < t.nextRef)
  }

  // ---------------------------------------------------------------------
  // Lifecycle

  /**
   * setState: the new state is always stored; observers are notified of it
   * when the changed mark is set, which happens when the state differs.
   * Notifying clears the mark.
   */
  function SetState(t: Torrent, s: ClientState): (t': Torrent)
    ensures t'.state == Some(s) && !t'.changed
    ensures t'.notified == t.notified + [s] || t'.notified == t.notified
    ensures !t.changed ==> (t'.notified == t.notified + [s] <==> t.state != Some(s))
    ensures t'.store == t.store && t'.peers == t.peers && t'.connected == t.connected && t'.calls == t.calls
  {
    var mark := t.changed || t.state != Some(s);
    t.(state := Some(s), changed := false, notified := if mark then t.notified + [s] else t.notified)
  }

  /** Setting the state it already has notifies nobody, so a repeated setState is silent. */
  lemma {:induction false} SetStateIdempotent(t: Torrent, s: ClientState)
    ensures SetState(SetState(t, s), s).notified == SetState(t, s).notified
    ensures SetState(SetState(t, s), s).state == SetState(t, s).state
  {
    var t1 := SetState(t, s);
    assert t1.state == Some(s) && !t1.changed;
  }

  /**
   * seed: nothing when already seeding; with a seed time of zero, stop is
   * called and the state is left alone; otherwise the torrent enters SEEDING,
   * and a positive seed time also schedules the stop after that many seconds.
   */
  function Seed(t: Torrent): (t': Torrent)
    ensures t.state == Some(Seeding) ==> t' == t
    ensures t.state != Some(Seeding) && t.seed == 0 ==> t'.state == t.state && t'.calls == t.calls + [Stop]
    ensures t.state != Some(Seeding) && t.seed != 0 ==> t'.state == Some(Seeding)
    ensures t.state != Some(Seeding) && t.seed < 0 ==> t'.calls == t.calls
    ensures t.state != Some(Seeding) && t.seed > 0 ==> t'.calls == t.calls + [ScheduleStop(t.seed * 1000)]
  {
    if t.state == Some(Seeding) then t
    else if t.seed == 0 then t.(calls := t.calls + [Stop])
    else
      var t1 := SetState(t, Seeding);
      if t.seed < 0 then t1 else t1.(calls := t1.calls + [ScheduleStop(t.seed * 1000)])
  }

  /**
   * initialize: the torrent is VALIDATING while its local data is checked
   * (`initialized` and `complete` are what that check leaves behind). It
   * ends in ERROR with the storage closed when the check failed, otherwise
   * seeds when complete or enters SHARING; the early-stop flag then calls finish.
   */
  function Initialize(t: Torrent, initialized: bool, complete: bool): (t': Torrent)
    ensures !initialized ==> t'.state == Some(Error) && t'.calls == t.calls + [Close]
    ensures initialized && !complete ==> t'.state == Some(Sharing)
    ensures initialized && complete && t.seed != 0 ==> t'.state == Some(Seeding)
    ensures initialized && complete && t.seed == 0 ==> t'.state == Some(Validating)
    ensures |t.calls| <= |t'.calls|
    ensures initialized && !t.stop ==> Finish !in t'.calls[|t.calls|..]
  {
    var t1 := SetState(t, Validating).(complete := complete);
    if !initialized then
      var t2 := SetState(t1, Error);
      t2.(calls := t2.calls + [Close])
    else
      var t2 := if complete then Seed(t1) else SetState(t1, Sharing);
      if t2.stop then t2.(calls := t2.calls + [Finish]) else t2
  }

  /** share: records the seed time, clears the stop flag, and initializes. */
  function Share(t: Torrent, seed: int, initialized: bool, complete: bool): (t': Torrent)
    ensures |t.calls| <= |t'.calls| && Finish !in t'.calls[|t.calls|..]
    ensures t'.seed == seed && !t'.stop
  {
    Initialize(t.(seed := seed, stop := false), initialized, complete)
  }

  /**
   * The lifecycle the states follow when a torrent is shared from any state
   * but VALIDATING (a new torrent has none yet): the observers see VALIDATING
   * first and then exactly one of ERROR, SHARING or SEEDING, or nothing more
   * when a complete torrent with no seed time is stopped.
   */
  lemma ShareNotifies(t: Torrent, seed: int, initialized: bool, complete: bool)
    requires t.state != Some(Validating) && !t.changed
    ensures var t' := Share(t, seed, initialized, complete);
      t'.notified == t.notified + [Validating] + (
        if !initialized then [Error]
        else if !complete then [Sharing]
        else if seed == 0 then []
        else [Seeding])
  {
  }

  // ---------------------------------------------------------------------
  // Piece requests

  /** releasePiece: only that index's requested mark and timing entry go. */
  function ReleasePiece(t: Torrent, index: nat): (t': Torrent)
    ensures index !in t'.requested && index !in t'.requestTimes
    ensures forall p :: p != index ==> (p in t'.requested <==> p in t.requested)
    ensures forall p :: p != index ==> (p in t'.requestTimes <==> p in t.requestTimes)
    ensures forall p :: p != index && p in t.requestTimes ==> t'.requestTimes[p] == t.requestTimes[p]
    ensures t'.store == t.store && t'.peers == t.peers && t'.connected == t.connected && t'.state == t.state
  {
    t.(requested := t.requested - {index}, requestTimes := t.requestTimes - {index})
  }

  // ---------------------------------------------------------------------
  // The peer registry

  /**
   * getOrCreatePeer. `render` gives the `%s` text of the address the JDK
   * builds from an IP literal, which is what a freshly created peer's host
   * identifier is made from.
   *  - A search with an id registered under its hex id finds that peer, which
   *    is then also registered under its own and the search's host identifiers.
   *  - Otherwise a peer registered under the search's host identifier is
   *    found; a search id is stored on it and registered too.
   *  - Otherwise one new peer is created and registered under its host
   *    identifier and, when it has one, its hex id.
   * No registry key is ever removed.
   */
  function GetOrCreatePeer(t: Torrent, search: PeerIdentity.Peer, hex: Bytes -> string, render: string -> string): (r: (Torrent, PeerRef))
    requires PeerIdentity.Valid(search, hex)
    requires Registered(t)
    ensures Registered(r.0) && r.1 in r.0.store
    ensures t.peers.Keys <= r.0.peers.Keys && t.store.Keys <= r.0.store.Keys
    ensures ByHex(t, search) || search.hostId in t.peers <==> r.0.store.Keys == t.store.Keys
    ensures r.0.connected == t.connected && r.0.requestTimes == t.requestTimes && r.0.state == t.state
  {
    if ByHex(t, search) then FoundByHex(t, search)
    else if search.hostId in t.peers then FoundByHost(t, search, hex)
    else Create(t, search, hex, render)
  }

  /** The search has an id and a peer is registered under its hex form. */
  predicate ByHex(t: Torrent, search: PeerIdentity.Peer)
  {
    search.peerId.Some? && search.hexPeerId.Some? && search.hexPeerId.value in t.peers
  }

  /** The peer registered under the search's hex id, now also under both host identifiers. */
  function FoundByHex(t: Torrent, search: PeerIdentity.Peer): (r: (Torrent, PeerRef))
    requires Registered(t) && ByHex(t, search)
    ensures r.1 == t.peers[search.hexPeerId.value] && r.0.store == t.store && r.0.nextRef == t.nextRef
    ensures search.hostId in r.0.peers && r.0.peers[search.hostId] == r.1
    ensures r.1 in t.store && t.store[r.1].id.hostId in r.0.peers && r.0.peers[t.store[r.1].id.hostId] == r.1
    ensures r.0.peers.Keys == t.peers.Keys + {search.hostId, t.store[r.1].id.hostId}
    ensures forall k :: k in t.peers && k != search.hostId && k != t.store[r.1].id.hostId ==> r.0.peers[k] == t.peers[k]
    ensures Registered(r.0)
    ensures r.0.connected == t.connected && r.0.requestTimes == t.requestTimes && r.0.state == t.state
  {
    var ref := t.peers[search.hexPeerId.value];
    (t.(peers := t.peers[t.store[ref].id.hostId := ref][search.hostId := ref]), ref)
  }

  /** The peer registered under the search's host identifier, given the search's id if it has one. */
  function FoundByHost(t: Torrent, search: PeerIdentity.Peer, hex: Bytes -> string): (r: (Torrent, PeerRef))
    requires Registered(t) && search.hostId in t.peers
    requires PeerIdentity.Valid(search, hex)
    ensures r.1 == t.peers[search.hostId] && r.0.store.Keys == t.store.Keys && r.0.nextRef == t.nextRef
    ensures r.1 in r.0.store && r.0.store[r.1].id.hostId == t.store[r.1].id.hostId
    ensures search.peerId.Some? ==> && search.hexPeerId.value in r.0.peers && r.0.peers[search.hexPeerId.value] == r.1
                                    && r.0.store[r.1].id.peerId == search.peerId
    ensures search.peerId.None? ==> r.0 == t
    ensures r.0.peers.Keys == t.peers.Keys + (if search.peerId.Some? then {search.hexPeerId.value} else {})
    ensures forall o :: o in t.store && o != r.1 ==> r.0.store[o] == t.store[o]
    ensures Registered(r.0)
    ensures r.0.connected == t.connected && r.0.requestTimes == t.requestTimes && r.0.state == t.state
  {
    var ref := t.peers[search.hostId];
    if search.peerId.Some? then
      var p := t.store[ref];
      var p' := p.(id := PeerIdentity.SetPeerId(p.id, search.peerId, hex));
      (t.(store := t.store[ref := p'], peers := t.peers[search.hexPeerId.value := ref]), ref)
    else
      (t, ref)
  }

  /** The SharingPeer constructor as getOrCreatePeer calls it: from the search's IP, port and id. */
  function NewSharingPeer(search: PeerIdentity.Peer, hex: Bytes -> string, render: string -> string): (p: SharingPeer)
    ensures p.id.address == PeerIdentity.Address(render(search.address.ip), search.address.ip, search.address.port)
    ensures p.id.peerId == search.peerId && PeerIdentity.Valid(p.id, hex)
    ensures p.choking && !p.interested && !p.bound && p.channel.None? && p.requestedPiece.None?
  {
    var address := PeerIdentity.Address(render(search.address.ip), search.address.ip, search.address.port);
    SharingPeer(PeerIdentity.NewPeer(address, search.peerId, false, hex), true, false, false, None, None)
  }

  /**
   * A new peer for the search's IP, port and id (choking, not interested,
   * unbound), registered under its own host identifier and its hex id.
   */
  function Create(t: Torrent, search: PeerIdentity.Peer, hex: Bytes -> string, render: string -> string): (r: (Torrent, PeerRef))
    requires Registered(t)
    ensures r.1 == t.nextRef && r.1 !in t.store && r.0.nextRef == t.nextRef + 1
    ensures r.0.store.Keys == t.store.Keys + {r.1} && forall o :: o in t.store ==> r.0.store[o] == t.store[o]
    ensures Registered(r.0)
    ensures t.peers.Keys <= r.0.peers.Keys
    ensures r.0.connected == t.connected && r.0.requestTimes == t.requestTimes && r.0.state == t.state
  {
    var ref := t.nextRef;
    var p := NewSharingPeer(search, hex, render);
    var peers1 := t.peers[p.id.hostId := ref];
    var peers2 := if p.id.peerId.Some? then peers1[p.id.hexPeerId.value := ref] else peers1;
    (t.(store := t.store[ref := p], nextRef := ref + 1, peers := peers2), ref)
  }

  /**
   * The created peer carries the search's address, rendered, and its id,
   * and is registered under its host identifier and, when it has an id,
   * under the hex form of that id.
   */
  lemma CreateNamesThePeer(t: Torrent, search: PeerIdentity.Peer, hex: Bytes -> string, render: string -> string)
    requires Registered(t)
    ensures var r := Create(t, search, hex, render);
      var id := r.0.store[r.1].id;
      && id.address == PeerIdentity.Address(render(search.address.ip), search.address.ip, search.address.port)
      && id.peerId == search.peerId && PeerIdentity.Valid(id, hex)
      && id.hostId in r.0.peers && r.0.peers[id.hostId] == r.1
      && (id.peerId.Some? ==> id.hexPeerId.value in r.0.peers && r.0.peers[id.hexPeerId.value] == r.1)
  {
  }

  /**
   * Looking the same peer up twice finds the same peer and creates nothing
   * the second time, provided the search has an id whose hex form holds no
   * ':', or its address renders the way the JDK renders its IP literal (so
   * that a peer created for it is registered under the search's host
   * identifier).
   */
  lemma GetOrCreatePeerIsStable(t: Torrent, search: PeerIdentity.Peer, hex: Bytes -> string, render: string -> string)
    requires PeerIdentity.Valid(search, hex) && Registered(t)
    requires search.peerId.Some? ==> ':' !in search.hexPeerId.value
    requires search.peerId.None? ==> render(search.address.ip) == search.address.text
    ensures var (t1, r1) := GetOrCreatePeer(t, search, hex, render);
      var (t2, r2) := GetOrCreatePeer(t1, search, hex, render);
      r2 == r1 && t2.store.Keys == t1.store.Keys && t2.nextRef == t1.nextRef
  {
    var (t1, r1) := GetOrCreatePeer(t, search, hex, render);
    if search.peerId.Some? {
      var h := search.hexPeerId.value;
      HexIsNotHostId(h, search.hostId, search.address);
      if !ByHex(t, search) && search.hostId !in t.peers {
        HexIsNotHostId(h, t1.store[r1].id.hostId, t1.store[r1].id.address);
      }
      assert ByHex(t1, search);
    } else if search.hostId !in t.peers {
      assert t1.store[r1].id.address.text == search.address.text;
      PeerIdentity.HostIdInjective(t1.store[r1].id.address, search.address);
    }
  }

  /** A hex id never collides with a host identifier: only the latter holds a ':'. */
  lemma HexIsNotHostId(h: string, hostId: string, a: PeerIdentity.Address)
    requires ':' !in h && hostId == PeerIdentity.HostId(a)
    ensures h != hostId
  {
    assert hostId[|a.text|] == ':';
  }

  // ---------------------------------------------------------------------
  // The choke scheduler

  /** The rate comparators: by download rate while sharing, by upload rate while seeding. */
  datatype Ranking = ByDownloadRate | ByUploadRate

  /** getPeerRateComparator: only a sharing or seeding torrent can rank its peers. */
  function RankingFor(state: Option<ClientState>): (r: Result<Ranking>)
    ensures r.Ok? <==> state == Some(Sharing) || state == Some(Seeding)
    ensures r.Thrown? ==> r.cause == IllegalState
    ensures r.Ok? ==> (r.value == ByDownloadRate <==> state == Some(Sharing))
  {
    match state
    case Some(Sharing) => Ok(ByDownloadRate)
    case Some(Seeding) => Ok(ByUploadRate)
    case _ => Thrown(IllegalState)
  }

  /** The peers met along an iteration order of the connected map. */
  function WalkRefs(t: Torrent, walk: seq<string>): (refs: seq<PeerRef>)
    requires forall i :: 0 <= i < |walk| ==> walk[i] in t.connected
    ensures |refs| == |walk| && forall i :: 0 <= i < |walk| ==> refs[i] == t.connected[walk[i]]
    ensures Registered(t) ==> AllStored(t.store, refs)
  {
    seq(|walk|, i requires 0 <= i < |walk| => t.connected[walk[i]])
  }

  /** Every peer of `refs` has a record in `store`. */
  predicate AllStored(store: map<PeerRef, SharingPeer>, refs: seq<PeerRef>)
  {
    forall j :: 0 <= j < |refs| ==> refs[j] in store
  }

  /** `s'` differs from `store` in the choking flags at most. */
  predicate OnlyChokingChanges(store: map<PeerRef, SharingPeer>, s': map<PeerRef, SharingPeer>)
  {
    s'.Keys == store.Keys && forall o :: o in store ==> s'[o] == store[o].(choking := s'[o].choking)
  }

  /**
   * The walk of unchokePeers, from position `i` of `refs` with `downloaders`
   * counted so far: while fewer than four interested peers have been
   * counted, every choking peer met is unchoked, and counted when it is
   * interested. It returns the records and the position where it stopped;
   * the peers from there on form the choke list.
   */
  function Walk(store: map<PeerRef, SharingPeer>, refs: seq<PeerRef>, i: nat, downloaders: nat): (r: (map<PeerRef, SharingPeer>, nat))
    requires i <= |refs| && AllStored(store, refs)
    ensures i <= r.1 <= |refs| && r.0.Keys == store.Keys
    decreases |refs| - i
  {
    if i == |refs| || downloaders >= MAX_DOWNLOADERS_UNCHOKE then (store, i)
    else
      var p := store[refs[i]];
      if p.choking then
        Walk(store[refs[i] := p.(choking := false)], refs, i + 1, if p.interested then downloaders + 1 else downloaders)
      else
        Walk(store, refs, i + 1, downloaders)
  }

  /**
   * The walk only unchokes: it changes nothing but choking flags, every
   * peer it passes ends unchoked, and every record it changed belongs to a
   * peer it passed.
   */
  lemma WalkOnlyUnchokes(store: map<PeerRef, SharingPeer>, refs: seq<PeerRef>, i: nat, downloaders: nat)
    requires i <= |refs| && AllStored(store, refs)
    ensures var (s', k) := Walk(store, refs, i, downloaders);
      && OnlyChokingChanges(store, s')
      && (forall j :: i <= j < k ==> !s'[refs[j]].choking)
      && (forall o :: o in store && s'[o] != store[o] ==> exists j :: i <= j < k && refs[j] == o)
  {
    WalkOnlyClearsChoking(store, refs, i, downloaders);
    WalkUnchokesPassed(store, refs, i, downloaders);
    WalkChangesOnlyPassed(store, refs, i, downloaders);
  }

  /** The first part of WalkOnlyUnchokes: only choking flags change, and an unchoked peer stays unchoked. */
  lemma {:induction false} WalkOnlyClearsChoking(store: map<PeerRef, SharingPeer>, refs: seq<PeerRef>, i: nat, downloaders: nat)
    requires i <= |refs| && AllStored(store, refs)
    ensures var s' := Walk(store, refs, i, downloaders).0;
      && OnlyChokingChanges(store, s')
      && (forall o :: o in store && !store[o].choking ==> !s'[o].choking)
    decreases |refs| - i
  {
    if i < |refs| && downloaders < MAX_DOWNLOADERS_UNCHOKE {
      var p := store[refs[i]];
      var s1 := if p.choking then store[refs[i] := p.(choking := false)] else store;
      var d1 := if p.choking && p.interested then downloaders + 1 else downloaders;
      assert Walk(store, refs, i, downloaders) == Walk(s1, refs, i + 1, d1);
      WalkOnlyClearsChoking(s1, refs, i + 1, d1);
    }
  }

  /** The second part of WalkOnlyUnchokes: every peer passed ends unchoked. */
  lemma {:induction false} WalkUnchokesPassed(store: map<PeerRef, SharingPeer>, refs: seq<PeerRef>, i: nat, downloaders: nat)
    requires i <= |refs| && AllStored(store, refs)
    ensures var (s', k) := Walk(store, refs, i, downloaders);
      forall j :: i <= j < k ==> !s'[refs[j]].choking
    decreases |refs| - i
  {
    if i < |refs| && downloaders < MAX_DOWNLOADERS_UNCHOKE {
      var p := store[refs[i]];
      var s1 := if p.choking then store[refs[i] := p.(choking := false)] else store;
      var d1 := if p.choking && p.interested then downloaders + 1 else downloaders;
      assert Walk(store, refs, i, downloaders) == Walk(s1, refs, i + 1, d1);
      WalkUnchokesPassed(s1, refs, i + 1, d1);
      WalkOnlyClearsChoking(s1, refs, i + 1, d1);
    }
  }

  /** The last part of WalkOnlyUnchokes: a record the walk changed belongs to a peer it passed. */
  lemma {:induction false} WalkChangesOnlyPassed(store: map<PeerRef, SharingPeer>, refs: seq<PeerRef>, i: nat, downloaders: nat)
    requires i <= |refs| && AllStored(store, refs)
    ensures var (s', k) := Walk(store, refs, i, downloaders);
      forall o :: o in store && s'[o] != store[o] ==> exists j :: i <= j < k && refs[j] == o
    decreases |refs| - i
  {
    if i < |refs| && downloaders < MAX_DOWNLOADERS_UNCHOKE {
      var p := store[refs[i]];
      var s1 := if p.choking then store[refs[i] := p.(choking := false)] else store;
      var d1 := if p.choking && p.interested then downloaders + 1 else downloaders;
      assert Walk(store, refs, i, downloaders) == Walk(s1, refs, i + 1, d1);
      WalkChangesOnlyPassed(s1, refs, i + 1, d1);
      var (s', k) := Walk(s1, refs, i + 1, d1);
      forall o | o in store && s'[o] != store[o] ensures exists j :: i <= j < k && refs[j] == o {
        if o == refs[i] {
          assert refs[i] == o;
        } else {
          assert s1[o] == store[o];
        }
      }
    }
  }

  /** The peers met at positions `i` up to `k` of `refs` that are choking and interested in `store`, each counted once. */
  function Downloaders(store: map<PeerRef, SharingPeer>, refs: seq<PeerRef>, i: nat, k: nat): set<PeerRef>
    requires i <= k <= |refs|
  {
    set j | i <= j < k && refs[j] in store && store[refs[j]].choking && store[refs[j]].interested :: refs[j]
  }

  /**
   * One step of the walk moves its first peer out of the range; that peer
   * leaves the set unless it was an interested choking peer, and once
   * unchoked it is not found again later in the range.
   */
  lemma DownloadersStep(store: map<PeerRef, SharingPeer>, refs: seq<PeerRef>, i: nat, k: nat)
    requires i < k <= |refs| && AllStored(store, refs)
    ensures var p := store[refs[i]];
      var s1 := if p.choking then store[refs[i] := p.(choking := false)] else store;
      && refs[i] !in Downloaders(s1, refs, i + 1, k)
      && Downloaders(store, refs, i, k) == Downloaders(s1, refs, i + 1, k) + (if p.choking && p.interested then {refs[i]} else {})
  {
    var p := store[refs[i]];
    var s1 := if p.choking then store[refs[i] := p.(choking := false)] else store;
    var d0 := Downloaders(store, refs, i, k);
    var d1 := Downloaders(s1, refs, i + 1, k);
    var extra: set<PeerRef> := if p.choking && p.interested then {refs[i]} else {};
    forall o | o in d0 ensures o in d1 + extra {
      var j :| i <= j < k && refs[j] in store && store[refs[j]].choking && store[refs[j]].interested && refs[j] == o;
      if o != refs[i] {
        assert s1[refs[j]] == store[refs[j]];
      }
    }
    forall o | o in d1 ensures o in d0 && o != refs[i] {
      var j :| i + 1 <= j < k && refs[j] in s1 && s1[refs[j]].choking && s1[refs[j]].interested && refs[j] == o;
      assert s1[refs[j]] == store[refs[j]];
    }
  }

  /**
   * Whatever the walk order, and even when a peer is met twice, the walk
   * unchokes at most four distinct interested choking peers, counting those
   * already counted, and exactly four when a choke list remains.
   */
  lemma {:induction false} WalkCapsDownloaders(store: map<PeerRef, SharingPeer>, refs: seq<PeerRef>, i: nat, downloaders: nat)
    requires i <= |refs| && AllStored(store, refs)
    requires downloaders <= MAX_DOWNLOADERS_UNCHOKE
    ensures var k := Walk(store, refs, i, downloaders).1;
      && downloaders + |Downloaders(store, refs, i, k)| <= MAX_DOWNLOADERS_UNCHOKE
      && (k < |refs| ==> downloaders + |Downloaders(store, refs, i, k)| == MAX_DOWNLOADERS_UNCHOKE)
    decreases |refs| - i
  {
    var k := Walk(store, refs, i, downloaders).1;
    if i < |refs| && downloaders < MAX_DOWNLOADERS_UNCHOKE {
      var p := store[refs[i]];
      var s1 := if p.choking then store[refs[i] := p.(choking := false)] else store;
      var d1 := if p.choking && p.interested then downloaders + 1 else downloaders;
      assert Walk(store, refs, i, downloaders) == Walk(s1, refs, i + 1, d1);
      WalkCapsDownloaders(s1, refs, i + 1, d1);
      DownloadersStep(store, refs, i, k);
      var rest := Downloaders(s1, refs, i + 1, k);
      assert downloaders + |Downloaders(store, refs, i, k)| == d1 + |rest| by {
        if p.choking && p.interested {
          assert Downloaders(store, refs, i, k) == rest + {refs[i]};
          assert |rest + {refs[i]}| == |rest| + 1;
        }
      }
    } else {
      assert Downloaders(store, refs, i, k) == {};
    }
  }

  /**
   * The choke phase: every peer on the choke list is choked, except the
   * `lucky` one when the pass is optimistic, which is left as it was.
   */
  function ChokeAll(store: map<PeerRef, SharingPeer>, choked: seq<PeerRef>, optimistic: bool, lucky: PeerRef): (s': map<PeerRef, SharingPeer>)
    ensures OnlyChokingChanges(store, s')
    ensures forall o :: o in store && o in choked && !(optimistic && o == lucky) ==> s'[o].choking
    ensures forall o :: o in store && (o !in choked || (optimistic && o == lucky)) ==> s'[o] == store[o]
  {
    map o | o in store :: if o in choked && !(optimistic && o == lucky) then store[o].(choking := true) else store[o]
  }

  /** Where the walk over `refs` stops. */
  function WalkStop(store: map<PeerRef, SharingPeer>, refs: seq<PeerRef>): (k: nat)
    requires AllStored(store, refs)
    ensures k <= |refs|
  {
    Walk(store, refs, 0, 0).1
  }

  /** The random member of the choke list that an optimistic pass spares. */
  function Lucky(store: map<PeerRef, SharingPeer>, refs: seq<PeerRef>, pick: nat): (r: PeerRef)
    requires AllStored(store, refs) && WalkStop(store, refs) < |refs|
    ensures r in refs[WalkStop(store, refs)..] && r in store
  {
    var k := WalkStop(store, refs);
    refs[k + pick % (|refs| - k)]
  }

  /** The walk followed by the choke phase. `pick` selects the random member of the choke list. */
  function ChokePass(store: map<PeerRef, SharingPeer>, refs: seq<PeerRef>, optimistic: bool, pick: nat): (s': map<PeerRef, SharingPeer>)
    requires AllStored(store, refs)
    ensures OnlyChokingChanges(store, s')
  {
    WalkOnlyUnchokes(store, refs, 0, 0);
    var (s1, k) := Walk(store, refs, 0, 0);
    if k == |refs| then s1 else ChokeAll(s1, refs[k..], optimistic, Lucky(store, refs, pick))
  }

  /**
   * The choke decisions of one pass, for every walk order: a choke list
   * remains only once four distinct interested choking peers have been
   * unchoked, and at most four were; every peer met before it and not on it
   * is left unchoked; every peer on it is choked, except the random one on
   * an optimistic pass, which keeps the flag the walk left it, and so its
   * record when the walk did not meet it earlier. A peer met both before
   * and on the choke list is thus unchoked and then choked again.
   */
  lemma ChokePassDecisions(store: map<PeerRef, SharingPeer>, refs: seq<PeerRef>, optimistic: bool, pick: nat)
    requires AllStored(store, refs)
    ensures var k := WalkStop(store, refs);
      var s' := ChokePass(store, refs, optimistic, pick);
      && |Downloaders(store, refs, 0, k)| <= MAX_DOWNLOADERS_UNCHOKE
      && (k < |refs| ==> |Downloaders(store, refs, 0, k)| == MAX_DOWNLOADERS_UNCHOKE)
      && (forall j :: 0 <= j < k && refs[j] !in refs[k..] ==> !s'[refs[j]].choking)
      && (forall j :: k <= j < |refs| && !(optimistic && refs[j] == Lucky(store, refs, pick)) ==> s'[refs[j]].choking)
      && (k < |refs| && optimistic ==> s'[Lucky(store, refs, pick)] == Walk(store, refs, 0, 0).0[Lucky(store, refs, pick)])
      && (k < |refs| && optimistic && Lucky(store, refs, pick) !in refs[..k] ==> s'[Lucky(store, refs, pick)] == store[Lucky(store, refs, pick)])
  {
    WalkCapsDownloaders(store, refs, 0, 0);
    var k := WalkStop(store, refs);
    WalkOnlyUnchokes(store, refs, 0, 0);
    if k < |refs| {
      WalkedStayUnchoked(store, refs, optimistic, pick);
      ChokeListChoked(store, refs, optimistic, pick);
      if optimistic {
        LuckyKeepsRecord(store, refs, pick);
      }
    }
  }

  /** The peers the walk passed that are not on the choke list stay unchoked. */
  lemma WalkedStayUnchoked(store: map<PeerRef, SharingPeer>, refs: seq<PeerRef>, optimistic: bool, pick: nat)
    requires AllStored(store, refs) && WalkStop(store, refs) < |refs|
    ensures var s' := ChokePass(store, refs, optimistic, pick);
      var k := WalkStop(store, refs);
      forall j :: 0 <= j < k && refs[j] !in refs[k..] ==> !s'[refs[j]].choking
  {
    WalkOnlyUnchokes(store, refs, 0, 0);
  }

  /** Every peer on the choke list but the spared one ends choked. */
  lemma ChokeListChoked(store: map<PeerRef, SharingPeer>, refs: seq<PeerRef>, optimistic: bool, pick: nat)
    requires AllStored(store, refs) && WalkStop(store, refs) < |refs|
    ensures var s' := ChokePass(store, refs, optimistic, pick);
      forall j :: WalkStop(store, refs) <= j < |refs| && !(optimistic && refs[j] == Lucky(store, refs, pick)) ==> s'[refs[j]].choking
  {
    WalkOnlyUnchokes(store, refs, 0, 0);
    var (s1, k) := Walk(store, refs, 0, 0);
    var choked := refs[k..];
    forall j | k <= j < |refs| ensures refs[j] in choked {
      assert choked[j - k] == refs[j];
    }
  }

  /**
   * The peer an optimistic pass spares keeps the record the walk left it,
   * which is its record before the pass when the walk did not meet it first.
   */
  lemma LuckyKeepsRecord(store: map<PeerRef, SharingPeer>, refs: seq<PeerRef>, pick: nat)
    requires AllStored(store, refs) && WalkStop(store, refs) < |refs|
    ensures var lucky := Lucky(store, refs, pick);
      ChokePass(store, refs, true, pick)[lucky] == Walk(store, refs, 0, 0).0[lucky]
    ensures var lucky := Lucky(store, refs, pick);
      lucky !in refs[..WalkStop(store, refs)] ==> ChokePass(store, refs, true, pick)[lucky] == store[lucky]
  {
    WalkOnlyUnchokes(store, refs, 0, 0);
    var (s1, k) := Walk(store, refs, 0, 0);
    var lucky := Lucky(store, refs, pick);
    assert lucky in refs[k..];
  }

  /** Four interested choking peers 0 to 3. */
  function FourWaiting(id: PeerIdentity.Peer): map<PeerRef, SharingPeer>
  {
    var p := SharingPeer(id, true, true, false, None, None);
    map[0 := p, 1 := p, 2 := p, 3 := p]
  }

  /**
   * The connected map can hold one peer under two keys, so the walk can
   * meet it twice. Met first and last, peer 0 is unchoked by the walk and
   * choked again from the choke list by a pass that is not optimistic.
   */
  lemma MetTwiceIsChokedAgain(id: PeerIdentity.Peer)
    ensures var store := FourWaiting(id);
      var refs := [0, 1, 2, 3, 0];
      && WalkStop(store, refs) == 4
      && !Walk(store, refs, 0, 0).0[0].choking
      && ChokePass(store, refs, false, 0)[0].choking
  {
  }


  /**
   * unchokePeers. `walk` is the order in which the priority queue's iterator
   * meets the connected peers (that iterator follows no priority order) and
   * `pick` selects the random member of the choke list; the timeout sweep
   * follows (see `Sweep`).
   *  - A torrent neither sharing nor seeding throws before anything changes.
   *  - With no connected peers nothing changes, not even the sweep.
   */
  function UnchokePeers(t: Torrent, optimistic: bool, walk: seq<string>, pick: nat,
                        now: int, timeout: int, open: set<ChannelId>, sweep: seq<nat>): (e: Effect)
    requires Registered(t)
    requires IsOrdering(walk, t.connected.Keys)
    requires IsOrdering(sweep, t.requestTimes.Keys)
    ensures RankingFor(t.state).Thrown? ==> e == Effect(t, Some(IllegalState))
    ensures RankingFor(t.state).Ok? && t.connected == map[] ==> e == Effect(t, None)
    ensures e.thrown.Some? ==> e.thrown == Some(IllegalState) || e.thrown == Some(NullPointer)
    ensures e.t.peers == t.peers && e.t.connected == t.connected && e.t.state == t.state && e.t.nextRef == t.nextRef
    ensures SameIdentities(t.store, e.t.store) && Registered(e.t)
  {
    if RankingFor(t.state).Thrown? then Effect(t, Some(IllegalState))
    else if |t.connected| == 0 then Effect(t, None)
    else
      var s' := ChokePass(t.store, WalkRefs(t, walk), optimistic, pick);
      var w := Sweep(Channels(t.store), Requests(t.requested, t.requestTimes, {}, t.calls), sweep, now, timeout, open);
      Effect(t.(requested := w.r.requested, requestTimes := w.r.times, store := ClearRequests(s', w.r.cleared), calls := w.r.calls), w.thrown)
  }

  /** Every peer keeps its identity and its channel. */
  predicate SameIdentities(store: map<PeerRef, SharingPeer>, s': map<PeerRef, SharingPeer>)
  {
    s'.Keys == store.Keys && forall o :: o in store ==> s'[o].id == store[o].id && s'[o].channel == store[o].channel
  }

  /** clearRequests on each of the `cleared` peers: their requested piece is forgotten, nothing else changes. */
  function ClearRequests(store: map<PeerRef, SharingPeer>, cleared: set<PeerRef>): (s': map<PeerRef, SharingPeer>)
    ensures s'.Keys == store.Keys
    ensures forall o :: o in store ==> s'[o] == store[o].(requestedPiece := s'[o].requestedPiece)
    ensures forall o :: o in store ==> (s'[o].requestedPiece.None? <==> o in cleared || store[o].requestedPiece.None?)
  {
    map o | o in store :: if o in cleared then store[o].(requestedPiece := None) else store[o]
  }

  /**
   * One pass of the scheduler over a sharing or seeding torrent with
   * connected peers that does not throw: the choking flags are those the
   * walk and the choke phase decide, the request table and the requested
   * marks lose exactly the expired entries, exactly their peers forget
   * their requested piece, and exactly those of them with an open channel
   * are told to request again.
   */
  lemma UnchokePeersEffect(t: Torrent, optimistic: bool, walk: seq<string>, pick: nat,
                           now: int, timeout: int, open: set<ChannelId>, sweep: seq<nat>)
    requires Registered(t)
    requires IsOrdering(walk, t.connected.Keys)
    requires IsOrdering(sweep, t.requestTimes.Keys)
    requires RankingFor(t.state).Ok? && t.connected != map[]
    ensures var e := UnchokePeers(t, optimistic, walk, pick, now, timeout, open, sweep);
      var s' := ChokePass(t.store, WalkRefs(t, walk), optimistic, pick);
      var gone := ExpiredIn(t.requestTimes, sweep, now, timeout);
      var cleared := ExpiredPeers(t.requestTimes, sweep, now, timeout);
      e.thrown.None? ==>
        && (forall o :: o in t.store ==> e.t.store[o].choking == s'[o].choking)
        && e.t.requestTimes == t.requestTimes - gone
        && e.t.requested == t.requested - gone
        && e.t.calls == t.calls + ReadyCalls(Channels(t.store), t.requestTimes, sweep, now, timeout, open)
        && (forall o :: o in t.store ==> (e.t.store[o].requestedPiece.None? <==> o in cleared || t.store[o].requestedPiece.None?))
  {
    var r := Requests(t.requested, t.requestTimes, {}, t.calls);
    var channels := Channels(t.store);
    SweepDropsExactlyExpired(channels, r, sweep, now, timeout, open);
    SweepClearsExpiredPeers(channels, r, sweep, now, timeout, open);
    SweepReadiesOpenPeers(channels, r, sweep, now, timeout, open);
  }

  // The timeout sweep reads the peers' channels and writes the request
  // state below; the peers whose request it clears are collected in
  // `cleared` and have their requested piece reset afterwards.

  /** The channel of every known peer. */
  function Channels(store: map<PeerRef, SharingPeer>): (ch: map<PeerRef, Option<ChannelId>>)
    ensures ch.Keys == store.Keys && forall o :: o in store ==> ch[o] == store[o].channel
  {
    map o | o in store :: store[o].channel
  }

  /** The requested marks, the request table, the peers whose request was cleared, and the call log. */
  datatype Requests = Requests(requested: set<nat>, times: map<nat, PieceRequest>, cleared: set<PeerRef>, calls: seq<Call>)

  /** Every entry of the request table belongs to a known peer. */
  predicate Owned(channels: map<PeerRef, Option<ChannelId>>, times: map<nat, PieceRequest>)
  {
    forall p :: p in times ==> times[p].peer in channels
  }

  /** A sweep's outcome: what it left, and what it threw part-way, if anything. */
  datatype Swept = Swept(r: Requests, thrown: Option<Exception>)

  /** A request that has been waiting at least `timeout` milliseconds. */
  predicate Expired(e: PieceRequest, now: int, timeout: int)
  {
    now - e.time >= timeout
  }

  /** The peer-ready calls a sweep over `order` makes: one per expired entry whose peer's channel is open. */
  function ReadyCalls(channels: map<PeerRef, Option<ChannelId>>, times: map<nat, PieceRequest>, order: seq<nat>,
                      now: int, timeout: int, open: set<ChannelId>): seq<Call>
    requires Owned(channels, times)
  {
    if order == [] then []
    else
      var p := order[0];
      (if p in times && Expired(times[p], now, timeout) && channels[times[p].peer].Some? && channels[times[p].peer].value in open
       then [PeerReady(times[p].peer)] else [])
      + ReadyCalls(channels, times, order[1..], now, timeout, open)
  }

  /** The peer-ready calls of an order are those of its first entry followed by those of the rest. */
  lemma ReadyCallsCons(channels: map<PeerRef, Option<ChannelId>>, times: map<nat, PieceRequest>, order: seq<nat>,
                       now: int, timeout: int, open: set<ChannelId>)
    requires Owned(channels, times) && order != []
    ensures ReadyCalls(channels, times, order, now, timeout, open)
            == ReadyCalls(channels, times, [order[0]], now, timeout, open) + ReadyCalls(channels, times, order[1..], now, timeout, open)
  {
    assert [order[0]][1..] == [];
  }

  /** The peer-ready calls depend only on the listed entries. */
  lemma {:induction false} ReadyCallsFrame(channels: map<PeerRef, Option<ChannelId>>, t1: map<nat, PieceRequest>, t2: map<nat, PieceRequest>,
                                           order: seq<nat>, now: int, timeout: int, open: set<ChannelId>)
    requires Owned(channels, t1) && Owned(channels, t2)
    requires forall i :: 0 <= i < |order| ==> (order[i] in t1 <==> order[i] in t2)
    requires forall i :: 0 <= i < |order| && order[i] in t1 ==> t1[order[i]] == t2[order[i]]
    ensures ReadyCalls(channels, t1, order, now, timeout, open) == ReadyCalls(channels, t2, order, now, timeout, open)
    decreases |order|
  {
    if order != [] {
      ReadyCallsFrame(channels, t1, t2, order[1..], now, timeout, open);
    }
  }

  /**
   * One entry of the timeout sweep: an expired entry loses its requested
   * mark and its table entry, its peer's request is cleared, and the peer is
   * told to request again when its channel is open. A peer with no channel
   * makes the open-check throw, after the entry has already gone. An entry
   * no longer in the table is passed over.
   */
  function SweepOne(channels: map<PeerRef, Option<ChannelId>>, r: Requests, p: nat, now: int, timeout: int, open: set<ChannelId>): (e: Swept)
    requires Owned(channels, r.times)
    ensures !(p in r.times && Expired(r.times[p], now, timeout)) ==> e == Swept(r, None)
    ensures p in r.times && Expired(r.times[p], now, timeout) ==>
      && e.r.times == r.times - {p} && e.r.requested == r.requested - {p}
      && e.r.cleared == r.cleared + {r.times[p].peer}
      && (e.thrown.Some? <==> channels[r.times[p].peer].None?)
    ensures e.r.calls == r.calls + ReadyCalls(channels, r.times, [p], now, timeout, open)
    ensures e.thrown.Some? ==> e.thrown == Some(NullPointer)
  {
    if p !in r.times || !Expired(r.times[p], now, timeout) then Swept(r, None)
    else
      var q := r.times[p].peer;
      var r1 := Requests(r.requested - {p}, r.times - {p}, r.cleared + {q}, r.calls);
      match channels[q]
      case None => Swept(r1, Some(NullPointer))
      case Some(ch) => if ch in open then Swept(r1.(calls := r1.calls + [PeerReady(q)]), None) else Swept(r1, None)
  }

  /**
   * The timeout sweep over the request table in iteration order `order`: it
   * only drops table entries, and can only throw for a peer without a channel.
   */
  function Sweep(channels: map<PeerRef, Option<ChannelId>>, r: Requests, order: seq<nat>, now: int, timeout: int, open: set<ChannelId>): (e: Swept)
    requires Owned(channels, r.times)
    ensures forall p :: p in e.r.times ==> p in r.times && e.r.times[p] == r.times[p]
    ensures e.thrown.Some? ==> e.thrown == Some(NullPointer)
    decreases |order|
  {
    if order == [] then Swept(r, None)
    else
      var e1 := SweepOne(channels, r, order[0], now, timeout, open);
      if e1.thrown.Some? then e1 else Sweep(channels, e1.r, order[1..], now, timeout, open)
  }

  /** The table entries of `order` that have expired. */
  function ExpiredIn(times: map<nat, PieceRequest>, order: seq<nat>, now: int, timeout: int): set<nat>
  {
    set p | p in order && p in times && Expired(times[p], now, timeout)
  }

  /** The peers those entries belong to. */
  function ExpiredPeers(times: map<nat, PieceRequest>, order: seq<nat>, now: int, timeout: int): set<PeerRef>
  {
    set p | p in order && p in times && Expired(times[p], now, timeout) :: times[p].peer
  }

  /** The entries still expired after the first step are those of the rest of the order. */
  lemma ExpiredAfterStep(times: map<nat, PieceRequest>, order: seq<nat>, now: int, timeout: int)
    requires order != []
    ensures var p := order[0];
      var times1 := if p in times && Expired(times[p], now, timeout) then times - {p} else times;
      var mine := if p in times && Expired(times[p], now, timeout) then {p} else {};
      && ExpiredIn(times, order, now, timeout) == ExpiredIn(times1, order[1..], now, timeout) + mine
      && ExpiredPeers(times, order, now, timeout)
         == ExpiredPeers(times1, order[1..], now, timeout) + (if mine == {} then {} else {times[p].peer})
  {
    var p := order[0];
    assert forall q :: q in order <==> q == p || q in order[1..];
  }

  /**
   * Unless a peer without a channel makes it throw, the sweep removes
   * exactly the expired entries from the request table, with their
   * requested marks.
   */
  lemma {:induction false} SweepDropsExactlyExpired(channels: map<PeerRef, Option<ChannelId>>, r: Requests, order: seq<nat>,
                                                    now: int, timeout: int, open: set<ChannelId>)
    requires Owned(channels, r.times)
    ensures var e := Sweep(channels, r, order, now, timeout, open);
      var gone := ExpiredIn(r.times, order, now, timeout);
      e.thrown.None? ==> e.r.times == r.times - gone && e.r.requested == r.requested - gone
    decreases |order|
  {
    if order != [] {
      var e1 := SweepOne(channels, r, order[0], now, timeout, open);
      if e1.thrown.None? {
        SweepDropsExactlyExpired(channels, e1.r, order[1..], now, timeout, open);
        ExpiredAfterStep(r.times, order, now, timeout);
      }
    }
  }

  /** Unless the sweep throws, it clears the requests of exactly the peers of expired entries. */
  lemma {:induction false} SweepClearsExpiredPeers(channels: map<PeerRef, Option<ChannelId>>, r: Requests, order: seq<nat>,
                                                   now: int, timeout: int, open: set<ChannelId>)
    requires Owned(channels, r.times)
    ensures var e := Sweep(channels, r, order, now, timeout, open);
      e.thrown.None? ==> e.r.cleared == r.cleared + ExpiredPeers(r.times, order, now, timeout)
    decreases |order|
  {
    if order != [] {
      var e1 := SweepOne(channels, r, order[0], now, timeout, open);
      if e1.thrown.None? {
        SweepClearsExpiredPeers(channels, e1.r, order[1..], now, timeout, open);
        ExpiredAfterStep(r.times, order, now, timeout);
      }
    }
  }

  /** The order lists no entry twice. */
  predicate NoRepeats(order: seq<nat>)
  {
    forall i, j :: 0 <= i < j < |order| ==> order[i] != order[j]
  }

  /**
   * Unless the sweep throws, it tells exactly the peers of expired entries
   * whose channel is open to request again, in table order.
   */
  lemma {:induction false} SweepReadiesOpenPeers(channels: map<PeerRef, Option<ChannelId>>, r: Requests, order: seq<nat>,
                                                 now: int, timeout: int, open: set<ChannelId>)
    requires Owned(channels, r.times) && NoRepeats(order)
    ensures var e := Sweep(channels, r, order, now, timeout, open);
      e.thrown.None? ==> e.r.calls == r.calls + ReadyCalls(channels, r.times, order, now, timeout, open)
    decreases |order|
  {
    if order != [] {
      var p, tail := order[0], order[1..];
      var e1 := SweepOne(channels, r, p, now, timeout, open);
      if e1.thrown.None? {
        assert NoRepeats(tail) && p !in tail;
        SweepReadiesOpenPeers(channels, e1.r, tail, now, timeout, open);
        ReadyCallsFrame(channels, e1.r.times, r.times, tail, now, timeout, open);
        ReadyCallsCons(channels, r.times, order, now, timeout, open);
      }
    }
  }
}
