# ttorrent multi-torrent core, modelled in Dafny

This project models the sequential core of ttorrent's non-blocking,
multi-torrent BitTorrent client and proves properties of it. Every
operation is a pure function over immutable state. Anything the client
cannot decide by itself is passed in as a parameter:

- iteration orders, the random pick and the clock;
- whether a socket write fails;
- the behaviour of collaborators whose code is outside the model.

| file | module | models |
|---|---|---|
| `common.dfy` | `Common` | optional values, outcomes that may throw, bytes, opaque channel and peer ids |
| `framing.dfy` | `Framing` | the repository's own two-byte length-prefixed transport framing: a reference grammar for buffered streams, its uniqueness, and the encode/parse round trip |
| `read_worker.dfy` | `ReadWorker` | `ReadWorker`: the work queue of data events, one accumulation buffer per selection key, frame extraction, buffer regrowth, delivery of one batch per event |
| `reactor.dfy` | `CommunicationManager` | `PeerCommunicationManager`: `send`, `connect`, the change-request drain at the top of the selector loop, and `write` (FIFO framing and flushing of a channel's pending payloads) |
| `write_worker.dfy` | `WriteWorker` | `WriteWorker`: its FIFO of writable keys and `writeData` |
| `peer.dfy` | `PeerIdentity` | `Peer`: the host identifier, setting and clearing the peer id, `looksLike`, the short hex id and `toString` |
| `torrent.dfy` | `Coordinator` | `ClientSharedTorrent`: the lifecycle (`setState`, `seed`, `initialize`, `share`), the two-key peer registry (`getOrCreatePeer`), the choke scheduler (`unchokePeers`) with its piece-request timeout sweep, and `releasePiece` |
| `client.dfy` | `Client` | `MultiTorrentClient`: the control loop's counters and iteration, handshake and message dispatch, `validateHandshake`, the channel maps kept by the connection handlers, the connect decision for discovered peers, and `addTorrent` |

The prefix codec (`TwoByteMessageLength`) is not part of this model, so it
is carried as a pair of functions. Properties that need it to behave are
stated under two predicates:

- `Faithful`: it reads back every length up to 32767.
- `Canonical`: every pair of prefix bytes is what the writer emits for the
  length it declares.

`Framing.BigEndianIsFaithfulAndCanonical` shows that both can hold at once.

Three behaviours of the code are kept as written:

- `WriteWorker.writeData` neither closes the channel nor drops the head
  payload when a socket write fails. The exception escapes to the worker
  loop, which logs it. `PeerCommunicationManager.write` does close the
  channel.
- A change request to register a closed channel, or one whose key is
  cancelled but still held, throws out of the drain loop. The request list
  is then not cleared (see "## Findings").
- `WriteWorker.writeData` on a key cancelled while it waited throws
  `CancelledKeyException` when it restores read interest. The worker loop
  catches only `IOException`, so the worker ends.

## Model

Source paths are relative to the repository root.

| member | source | states |
|---|---|---|
| Framing.Encode | src/main/java/com/turn/ttorrent/client/nio/PeerCommunicationManager.java:152-161 | a frame is two prefix bytes followed by the payload, unchanged |
| Framing.ShapesPartition | src/main/java/com/turn/ttorrent/client/nio/ReadWorker.java:98-133 | the front of a buffered stream is in exactly one of three shapes: waiting for more bytes, a negative declared length, or a whole frame |
| Framing.ParsesIsUnique | src/main/java/com/turn/ttorrent/client/nio/ReadWorker.java:74-82 | cutting frames off the front is deterministic: a stream splits into at most one list of frames and one remainder |
| Framing.ParsesRestIsSuffix | src/main/java/com/turn/ttorrent/client/nio/ReadWorker.java:138-143 | the bytes left after the frames are the tail of the stream |
| Framing.ParsesReassembles | src/main/java/com/turn/ttorrent/client/nio/ReadWorker.java:74-82 | with a canonical codec, each frame written with its prefix, followed by the leftover, gives back the buffered stream |
| Framing.EncodeAllParses | src/main/java/com/turn/ttorrent/client/nio/PeerCommunicationManager.java:150-197 | round trip: payloads of at most 32767 bytes, written back to back and followed by bytes that hold no whole frame, parse back to exactly those payloads in order |
| Framing.ParsesExtend | src/main/java/com/turn/ttorrent/client/nio/ReadWorker.java:68-82 | parsing is incremental: parsing a stream and then its remainder extended by new bytes parses the extended stream into the concatenated frames |
| Framing.BigEndianIsFaithfulAndCanonical | src/main/java/com/turn/ttorrent/client/nio/PeerCommunicationManager.java:155 | the two assumptions on the unseen prefix codec can be met together: the two-byte big-endian codec meets both |
| ReadWorker.ProcessData | src/main/java/com/turn/ttorrent/client/nio/ReadWorker.java:50-57 | exactly one event joins the tail of the queue, for the given key, holding a copy of exactly the first `count` bytes; earlier events keep their order and nothing else changes |
| ReadWorker.Append | src/main/java/com/turn/ttorrent/client/nio/ReadWorker.java:68-72 | the chunk is appended whole exactly when it fits in the free capacity; otherwise the buffer is unchanged (no partial put); the capacity never changes |
| ReadWorker.ReadMessage | src/main/java/com/turn/ttorrent/client/nio/ReadWorker.java:91-145 | a frame comes out exactly when a whole frame sits at the front, and the frame-size failure happens exactly for a negative declared length; the frame is exactly the declared number of bytes after the prefix, and prefix, frame and the compacted rest make up the old bytes; with no frame, the bytes stay; a full buffer whose pending frame does not fit is regrown to exactly the declared length plus 2; otherwise the buffer is unchanged |
| ReadWorker.ExtractAll | src/main/java/com/turn/ttorrent/client/nio/ReadWorker.java:74-82 | the frames extracted and the bytes left are the reference parse of the buffered bytes; extraction fails exactly when what is left starts with a negative length; otherwise what is left still fits and the capacity never shrinks; for a buffer of at least two bytes, it is left waiting with room to spare |
| ReadWorker.HandleData | src/main/java/com/turn/ttorrent/client/nio/ReadWorker.java:59-89 | handling one event keeps every buffer in the waiting shape and the queue as it is, changes no other key's buffer, and, unless the worker stops, delivers exactly one batch for the event's key after the earlier ones |
| ReadWorker.Step | src/main/java/com/turn/ttorrent/client/nio/ReadWorker.java:34-46 | events are handled one at a time, oldest first; every buffer stays in the waiting shape between events |
| ReadWorker.DefaultBufferIsSettled | src/main/java/com/turn/ttorrent/client/nio/ReadWorker.java:62-66 | the fresh 30720-byte buffer a key gets on first data is in the waiting shape |
| ReadWorker.StepTouchesOnlyItsKey | src/main/java/com/turn/ttorrent/client/nio/ReadWorker.java:60-66 | buffers are per key: an event changes only its own key's buffer, and a key seen for the first time gets a buffer of capacity at least 30720 |
| ReadWorker.StepDeliversOneBatch | src/main/java/com/turn/ttorrent/client/nio/ReadWorker.java:84-88 | unless the worker stops, each handled event delivers exactly one batch, possibly empty, for its own key, after the earlier batches |
| ReadWorker.StepParsesStream | src/main/java/com/turn/ttorrent/client/nio/ReadWorker.java:68-82 | when the chunk fits, the delivered frames and the new buffer contents are the reference parse of the old buffered bytes followed by the chunk |
| ReadWorker.StepDropsOversizedChunk | src/main/java/com/turn/ttorrent/client/nio/ReadWorker.java:68-72 | a chunk larger than the free space is dropped whole: the buffer is unchanged and the batch is empty |
| ReadWorker.StepStopsOnNegativeLength | src/main/java/com/turn/ttorrent/client/nio/ReadWorker.java:74-134 | for the reference parse of the buffered bytes followed by the chunk, the worker stops exactly when the bytes left after the whole frames start with a negative declared length |
| ReadWorker.StepWaitsForFrame | src/main/java/com/turn/ttorrent/client/nio/ReadWorker.java:117-123 | a chunk that fits but leaves the pending frame incomplete is buffered whole, and the batch delivered is empty |
| ReadWorker.EarlyReadWaits | src/main/java/com/turn/ttorrent/client/nio/ReadWorker.java:117-123 | each of the first three 8192-byte reads of a 32002-byte frame is buffered whole and delivers an empty batch |
| ReadWorker.AsWrittenLosesFourthChunk | src/main/java/com/turn/ttorrent/client/nio/ReadWorker.java:68-72 | as written, the last read, the remaining 7426 bytes of that frame, is lost: after the four reads the buffer holds 24576 bytes, not the whole frame sent, and none of the four batches holds a frame |
| ReadWorker.AppendGrowing | src/main/java/com/turn/ttorrent/client/nio/ReadWorker.java:68-72 | corrected append: the chunk is always appended whole, and the capacity grows when needed |
| ReadWorker.StepGrowing | src/main/java/com/turn/ttorrent/client/nio/ReadWorker.java:59-89 | the corrected turn still handles the oldest event and keeps every buffer in the waiting shape |
| ReadWorker.StepGrowingKeepsStream | src/main/java/com/turn/ttorrent/client/nio/ReadWorker.java:59-89 | corrected behaviour loses no byte: if everything a key sent parses into the frames delivered so far plus its buffer, this still holds after any further event, whatever its size, unless the worker stops |
| CommunicationManager.Send | src/main/java/com/turn/ttorrent/client/nio/PeerCommunicationManager.java:305-322 | the payload joins the tail of the channel's queue, which is created if absent; exactly one write-interest request for the channel is queued; other channels' queues and the keys are unchanged |
| CommunicationManager.Connect | src/main/java/com/turn/ttorrent/client/nio/PeerCommunicationManager.java:290-303 | a fresh channel, with no key and no queue, is opened, and exactly one request to register it for connect readiness, carrying the hex info-hash, is queued |
| CommunicationManager.ApplyChange | src/main/java/com/turn/ttorrent/client/nio/PeerCommunicationManager.java:86-106 | an interest change on a channel with no key or a cancelled key reports a bad socket and changes no key; otherwise it sets only that key's interest; a registration throws exactly for a closed channel or a cancelled key, and otherwise installs a valid key with the attachment |
| CommunicationManager.IsBadSocket | src/main/java/com/turn/ttorrent/client/nio/PeerCommunicationManager.java:88-101 | an interest change reports a bad socket when its channel has no key or a cancelled one |
| CommunicationManager.RegisterThrows | src/main/java/com/turn/ttorrent/client/nio/PeerCommunicationManager.java:103-104 | a registration throws when its channel is closed, or its key is cancelled but still held |
| CommunicationManager.DrainFrom | src/main/java/com/turn/ttorrent/client/nio/PeerCommunicationManager.java:84-107 | the drain keeps the request list, queues, wire and closed set; it fires at most one bad-socket notice per request; it can only abort on a registration |
| CommunicationManager.DrainFromAppend | src/main/java/com/turn/ttorrent/client/nio/PeerCommunicationManager.java:84-107 | requests are applied in insertion order: draining `a + b` is draining `a`, then, unless that threw, draining `b` from where `a` left off, with the notices joined in order |
| CommunicationManager.DrainTouchesOnlyNamed | src/main/java/com/turn/ttorrent/client/nio/PeerCommunicationManager.java:84-107 | a channel no request names keeps its key and gets no bad-socket notice |
| CommunicationManager.DrainWithoutRegistrations | src/main/java/com/turn/ttorrent/client/nio/PeerCommunicationManager.java:84-102 | a list of interest changes only never aborts and adds or removes no key; each valid key ends with the interest of the last request naming it, and every other key is unchanged |
| CommunicationManager.DrainReportsBadChannels | src/main/java/com/turn/ttorrent/client/nio/PeerCommunicationManager.java:88-101 | for interest changes only, the notices are exactly the channels whose requests find no usable key, in request order |
| CommunicationManager.DrainChanges | src/main/java/com/turn/ttorrent/client/nio/PeerCommunicationManager.java:83-110 | the request list is empty after a drain that did not throw, and untouched after one that did; queues and wire are not touched |
| CommunicationManager.AsWrittenDrainStalls | src/main/java/com/turn/ttorrent/client/nio/PeerCommunicationManager.java:83-110 | as written, a failing registration queued before a write request aborts the drain before that request and before the list is cleared, so the next pass meets the same list and aborts the same way, forever; the corrected drain applies the write request |
| CommunicationManager.DrainEach | src/main/java/com/turn/ttorrent/client/nio/PeerCommunicationManager.java:84-107 | corrected drain of a list: a failing request is dropped, so it never aborts; the list, queues, wire and closed set are kept, and a valid key stays valid |
| CommunicationManager.DrainAll | src/main/java/com/turn/ttorrent/client/nio/PeerCommunicationManager.java:83-110 | corrected drain: it never aborts and always ends with an empty request list; queues, wire and closed set are kept |
| CommunicationManager.DrainEachAgrees | src/main/java/com/turn/ttorrent/client/nio/PeerCommunicationManager.java:84-107 | whenever the drain as written does not throw, the corrected drain does exactly the same |
| CommunicationManager.DrainAllAgrees | src/main/java/com/turn/ttorrent/client/nio/PeerCommunicationManager.java:83-110 | whenever the drain as written does not throw, the corrected drain leaves exactly the same state |
| CommunicationManager.DrainAllAppliesLastRequest | src/main/java/com/turn/ttorrent/client/nio/PeerCommunicationManager.java:83-110 | under the corrected drain, a final interest change for a channel with a valid key always takes effect, whatever failed before it |
| CommunicationManager.SendThenDrainSetsWriteInterest | src/main/java/com/turn/ttorrent/client/nio/PeerCommunicationManager.java:88-96 | a send to a channel with a valid key, once drained, leaves that key with write interest and the payload queued, with no bad-socket notice |
| CommunicationManager.SendThenDrainReportsBadSocket | src/main/java/com/turn/ttorrent/client/nio/PeerCommunicationManager.java:88-101 | a send to a channel with no key or a cancelled key is reported as exactly one bad socket, and no key changes |
| CommunicationManager.StopIndex | src/main/java/com/turn/ttorrent/client/nio/PeerCommunicationManager.java:150-197 | flushing stops at the first payload that is over 32767 bytes or whose write fails; every payload before it is short and written without failure |
| CommunicationManager.FlushQueue | src/main/java/com/turn/ttorrent/client/nio/PeerCommunicationManager.java:150-197 | the write loop stops where `StopIndex` says and puts out exactly the frames of the payloads before that point |
| CommunicationManager.Flushed | src/main/java/com/turn/ttorrent/client/nio/PeerCommunicationManager.java:144-205 | closed form of `write` on a channel: with no queue nothing changes; a failed write closes the channel, cancels its key and drops the head; an oversized payload stops the loop with interest kept; otherwise the queue ends empty with read interest |
| CommunicationManager.Write | src/main/java/com/turn/ttorrent/client/nio/PeerCommunicationManager.java:144-205 | the loop's effect is the closed-form `Flushed`: drained (queue empty, read interest), stuck at an oversized payload (interest kept), or broken by a failed write (channel closed, key cancelled, head dropped) |
| CommunicationManager.FlushedDeliversInOrder | src/main/java/com/turn/ttorrent/client/nio/PeerCommunicationManager.java:150-197 | write and read agree: earlier wire bytes stay, and the bytes one write adds parse into exactly the payloads it sent, in queue order; the queue left is a suffix of the old one that lacks those payloads and at most the failed one; the channel is closed and its key cancelled exactly on a failed write, and otherwise the key's validity is kept |
| CommunicationManager.FlushedAppendsFrames | src/main/java/com/turn/ttorrent/client/nio/PeerCommunicationManager.java:150-190 | earlier wire bytes are kept, and the new bytes parse back to the payloads sent |
| CommunicationManager.FlushedLeavesSuffix | src/main/java/com/turn/ttorrent/client/nio/PeerCommunicationManager.java:185-196 | a payload leaves the queue only once written whole, except the head dropped by a failed write; what stays is a suffix of the queue |
| CommunicationManager.FlushedWire | src/main/java/com/turn/ttorrent/client/nio/PeerCommunicationManager.java:150-197 | the wire gains the whole frames before the stopping point plus a cut-short frame on a failed write; the queue keeps the rest, minus a failed head |
| CommunicationManager.FlushedCloses | src/main/java/com/turn/ttorrent/client/nio/PeerCommunicationManager.java:178-187 | the channel is closed and its key cancelled exactly when a socket write fails |
| CommunicationManager.CutFrameIsIncomplete | src/main/java/com/turn/ttorrent/client/nio/PeerCommunicationManager.java:165-188 | the bytes of a frame cut short by a failed write never read as a whole frame |
| CommunicationManager.FlushedTouchesOnlyItsChannel | src/main/java/com/turn/ttorrent/client/nio/PeerCommunicationManager.java:144-205 | write changes no other channel's queue, wire, key or closed state, and queues no request |
| WriteWorker.ProcessData | src/main/java/com/turn/ttorrent/client/nio/WriteWorker.java:49-54 | the key joins the tail of the work queue; nothing else changes |
| WriteWorker.Cancel | src/main/java/com/turn/ttorrent/client/nio/WriteWorker.java:95-98 | a key cancelled while it waits is recorded; nothing else changes |
| WriteWorker.Step | src/main/java/com/turn/ttorrent/client/nio/WriteWorker.java:29-47 | one turn serves the head key and removes it; at most one error is logged; no other channel's queue, wire or interest changes; a cancelled key whose list drains ends the worker |
| WriteWorker.StepDrainsIffNoFailure | src/main/java/com/turn/ttorrent/client/nio/WriteWorker.java:40-98 | the channel's list ends empty exactly when no payload is oversized and no write fails; then, for a key that is not cancelled, the key gets read interest and the worker lives on with nothing logged; for a cancelled key, setting the interest throws an exception the loop does not catch, the interest is unchanged and the worker ends |
| WriteWorker.StepFlushes | src/main/java/com/turn/ttorrent/client/nio/WriteWorker.java:40-98 | once the stopping point is known: the worker survives exactly when a failed write stops the loop, or the list drains and the key is not cancelled; unless an oversized payload stops it, the list keeps the payloads from that point on and the wire gains the whole frames before it and a cut-short frame on a failed write; an error is logged exactly for a failed write |
| WriteWorker.StepKeepsUnsentPayloads | src/main/java/com/turn/ttorrent/client/nio/WriteWorker.java:40-44 | in a turn not stopped by an oversized payload, the list keeps exactly the payloads from the first one not sent whole, a failed one included; earlier wire bytes stay, and the new ones parse back to the payloads sent, in order; an error is logged only for a failed write |
| WriteWorker.ArrivalDoesNotJumpQueue | src/main/java/com/turn/ttorrent/client/nio/WriteWorker.java:29-54 | keys are served in arrival order: a key handed over while others wait changes neither which key is served next nor what that turn does |
| WriteWorker.StepSeesOnlyHead | src/main/java/com/turn/ttorrent/client/nio/WriteWorker.java:39-41 | a turn depends on the work queue only through its head |
| PeerIdentity.Decimal | src/main/java/com/turn/ttorrent/common/Peer.java:96-98 | the `%d` rendering of a port: at least one digit, all digits, no leading zero |
| PeerIdentity.DecimalRoundTrip | src/main/java/com/turn/ttorrent/common/Peer.java:96-98 | reading the decimal rendering back gives the number |
| PeerIdentity.HostId | src/main/java/com/turn/ttorrent/common/Peer.java:96-98 | the host identifier starts with the address text followed by `:` |
| PeerIdentity.HostIdNamesPort | src/main/java/com/turn/ttorrent/common/Peer.java:96-98 | the port can be read back from the host identifier, after its last `:`, whatever the address text holds |
| PeerIdentity.HostIdInjective | src/main/java/com/turn/ttorrent/common/Peer.java:96-98 | two addresses have the same host identifier exactly when their text and port agree |
| PeerIdentity.HasPeerId | src/main/java/com/turn/ttorrent/common/Peer.java:107-109 | a peer has an id exactly when one is set |
| PeerIdentity.SetPeerId | src/main/java/com/turn/ttorrent/common/Peer.java:123-131 | the id is stored as given; the address and host identifier are untouched; a peer whose host identifier renders its address comes out consistent, its hex id present exactly when the id is and holding that id's encoding |
| PeerIdentity.NewPeer | src/main/java/com/turn/ttorrent/common/Peer.java:94-102 | a constructed peer is consistent: its host identifier renders its address, and its hex id follows its id |
| PeerIdentity.SetPeerIdKeepsHostId | src/main/java/com/turn/ttorrent/common/Peer.java:123-131 | after any run of id updates, the host identifier is still the one fixed at construction, and the peer has an id exactly when the last update set one |
| PeerIdentity.LooksLike | src/main/java/com/turn/ttorrent/common/Peer.java:216-225 | a missing peer is never alike; otherwise the host identifiers must agree, and the hex ids too when this peer has an id |
| PeerIdentity.LooksLikeReflexive | src/main/java/com/turn/ttorrent/common/Peer.java:216-225 | every consistent peer looks like itself |
| PeerIdentity.LooksLikeTransitive | src/main/java/com/turn/ttorrent/common/Peer.java:216-225 | resemblance chains between consistent peers |
| PeerIdentity.LooksLikeAsymmetric | src/main/java/com/turn/ttorrent/common/Peer.java:216-225 | a peer with no id looks like a peer at the same address that has one, but not the other way round |
| PeerIdentity.LooksLikeMeansSameEndpoint | src/main/java/com/turn/ttorrent/common/Peer.java:216-225 | for consistent peers: resemblance implies the same address text and port; the same endpoint suffices when this peer has no id; when it has one, the other has the same hex id |
| PeerIdentity.LastSix | src/main/java/com/turn/ttorrent/common/Peer.java:145 | the substring succeeds exactly for strings of at least six characters and gives their last six; otherwise it is an index failure |
| PeerIdentity.ShortHexPeerId | src/main/java/com/turn/ttorrent/common/Peer.java:143-146 | a peer with no hex id fails on null; otherwise the short id exists exactly when the hex id has at least six characters, and then it is `..` followed by the last six characters of the hex id, upper-cased |
| PeerIdentity.ShortHexPeerIdsAgree | src/main/java/com/turn/ttorrent/common/Peer.java:143-146 | for hex ids in the same letter case, two short ids agree exactly when the last six characters of the hex ids agree: upper-casing loses nothing |
| PeerIdentity.ToString | src/main/java/com/turn/ttorrent/common/Peer.java:198-210 | a peer with no id always renders; a peer with an id but no hex id fails on null; a peer with an id and a hex id renders exactly when the hex id has at least six characters; only a peer with an id can fail |
| PeerIdentity.ToStringShowsIdentity | src/main/java/com/turn/ttorrent/common/Peer.java:198-210 | a consistent peer whose hex id, if any, has at least six characters always renders, as `peer://`, its IP, `:`, its port, `/`, and then `?` when it has no id, or else the last six characters of its hex id |
| Coordinator.SetState | src/main/java/com/turn/ttorrent/client/ClientSharedTorrent.java:400-406 | the state is always stored and the changed mark cleared; observers see the new state at most once, and, starting unmarked, exactly when it differs from the old one |
| Coordinator.SetStateIdempotent | src/main/java/com/turn/ttorrent/client/ClientSharedTorrent.java:400-406 | setting the same state twice notifies no more than setting it once |
| Coordinator.Seed | src/main/java/com/turn/ttorrent/client/ClientSharedTorrent.java:145-169 | nothing happens when already seeding; with seed time 0 the torrent is stopped and the state kept; otherwise it enters SEEDING, and a positive seed time also schedules a stop after that many seconds |
| Coordinator.Initialize | src/main/java/com/turn/ttorrent/client/ClientSharedTorrent.java:83-114 | a failed data check ends in ERROR with storage closed; otherwise an incomplete torrent is SHARING, and a complete one seeds (SEEDING, or still VALIDATING with seed time 0); finish is called only for an early stop |
| Coordinator.Share | src/main/java/com/turn/ttorrent/client/ClientSharedTorrent.java:139-143 | the seed time is recorded, the stop flag cleared, and so finish is never called |
| Coordinator.ShareNotifies | src/main/java/com/turn/ttorrent/client/ClientSharedTorrent.java:83-114 | when a torrent in any state but VALIDATING, a new one included, is shared, the lifecycle observers see VALIDATING, then ERROR, SHARING or SEEDING, or nothing more for a complete torrent with seed time 0 |
| Coordinator.ReleasePiece | src/main/java/com/turn/ttorrent/client/ClientSharedTorrent.java:280-283 | only that index's requested mark and timing entry go; every other entry and the registry are untouched |
| Coordinator.GetOrCreatePeer | src/main/java/com/turn/ttorrent/client/ClientSharedTorrent.java:343-376 | the returned peer is registered; no registry key is removed; a new peer is created exactly when neither the search's hex id nor its host identifier is registered |
| Coordinator.FoundByHex | src/main/java/com/turn/ttorrent/client/ClientSharedTorrent.java:347-353 | the peer registered under the search's hex id is returned and gains its own and the search's host identifiers as keys; no peer is created and no other key changes |
| Coordinator.FoundByHost | src/main/java/com/turn/ttorrent/client/ClientSharedTorrent.java:356-364 | the peer registered under the search's host identifier is returned; when the search has an id, the peer takes it and is registered under its hex form; no peer is created and no other peer changes |
| Coordinator.NewSharingPeer | src/main/java/com/turn/ttorrent/client/ClientSharedTorrent.java:366-367 | a new peer has the search's IP, port and id and is consistent; it starts choking, uninterested, unbound, without a channel or a requested piece |
| Coordinator.Create | src/main/java/com/turn/ttorrent/client/ClientSharedTorrent.java:366-374 | exactly one peer, under an unused reference, is added; every existing peer and key stays |
| Coordinator.CreateNamesThePeer | src/main/java/com/turn/ttorrent/client/ClientSharedTorrent.java:366-374 | the new peer carries the search's address and id and is registered under its host identifier and, when it has an id, under the hex form of that id |
| Coordinator.GetOrCreatePeerIsStable | src/main/java/com/turn/ttorrent/client/ClientSharedTorrent.java:343-376 | looking the same peer up twice finds the same peer and creates nothing the second time (for a hex id with no `:`, or an address that renders like its IP literal) |
| Coordinator.HexIsNotHostId | src/main/java/com/turn/ttorrent/client/ClientSharedTorrent.java:347-372 | the registry's two kinds of key never collide: a string with no `:`, such as a hex id, is never a host identifier |
| Coordinator.RankingFor | src/main/java/com/turn/ttorrent/client/ClientSharedTorrent.java:289-298 | peers can be ranked exactly when the torrent is SHARING (by download rate) or SEEDING (by upload rate); otherwise it is an illegal-state failure |
| Coordinator.Walk | src/main/java/com/turn/ttorrent/client/ClientSharedTorrent.java:221-242 | the walk stops at a position within the peers met, and no peer record appears or disappears |
| Coordinator.WalkOnlyUnchokes | src/main/java/com/turn/ttorrent/client/ClientSharedTorrent.java:226-237 | the walk changes only choking flags; every peer it passes ends unchoked; every record it changed belongs to a peer it passed |
| Coordinator.WalkCapsDownloaders | src/main/java/com/turn/ttorrent/client/ClientSharedTorrent.java:221-242 | for every walk order, even one that meets a peer twice, the walk meets at most four distinct interested choking peers before the choke list, and exactly four when a choke list remains |
| Coordinator.Lucky | src/main/java/com/turn/ttorrent/client/ClientSharedTorrent.java:246-248 | the peer an optimistic pass spares is a registered peer on the choke list |
| Coordinator.ChokeAll | src/main/java/com/turn/ttorrent/client/ClientSharedTorrent.java:244-258 | every peer on the choke list ends choked, except the random one on an optimistic pass; every other record is unchanged |
| Coordinator.ChokePass | src/main/java/com/turn/ttorrent/client/ClientSharedTorrent.java:221-258 | the walk and the choke phase together change only choking flags |
| Coordinator.ChokePassDecisions | src/main/java/com/turn/ttorrent/client/ClientSharedTorrent.java:221-258 | for every walk order: at most four distinct interested choking peers are met before the choke list, and exactly four if a choke list remains; every peer met before it and not on it ends unchoked; every peer on it ends choked except the spared one, which keeps the flag the walk left it, and so its record when the walk did not meet it before |
| Coordinator.MetTwiceIsChokedAgain | src/main/java/com/turn/ttorrent/client/ClientSharedTorrent.java:209-258 | a peer the connected map holds under two keys can be met twice: met first and last, it is unchoked by the walk and then choked again from the choke list |
| Coordinator.UnchokePeers | src/main/java/com/turn/ttorrent/client/ClientSharedTorrent.java:206-278 | a torrent neither sharing nor seeding throws before changing anything, even with no peers; with no connected peers nothing changes, not even the sweep; the only exceptions are that illegal state and a null dereference; the registry, connected map, state and peer identities are always kept |
| Coordinator.UnchokePeersEffect | src/main/java/com/turn/ttorrent/client/ClientSharedTorrent.java:206-278 | a pass that does not throw sets the choking flags the walk and choke phase decide; the request table and requested marks lose exactly the expired entries; exactly their peers forget their requested piece; exactly those with an open channel are told to request again |
| Coordinator.Expired | src/main/java/com/turn/ttorrent/client/ClientSharedTorrent.java:263 | a request has expired once it has waited at least the timeout |
| Coordinator.ClearRequests | src/main/java/com/turn/ttorrent/client/ClientSharedTorrent.java:267 | exactly the given peers, plus those with none, end without a requested piece; nothing else about any peer changes |
| Coordinator.SweepOne | src/main/java/com/turn/ttorrent/client/ClientSharedTorrent.java:261-276 | an entry that has not expired is left alone; an expired one loses its mark and entry and clears its peer's request; the peer is told to request again if its channel is open, and a peer without a channel throws |
| Coordinator.Sweep | src/main/java/com/turn/ttorrent/client/ClientSharedTorrent.java:260-277 | the sweep only removes table entries, and can only fail on a peer without a channel |
| Coordinator.SweepDropsExactlyExpired | src/main/java/com/turn/ttorrent/client/ClientSharedTorrent.java:260-268 | unless it throws, the sweep removes exactly the entries at least the timeout old, with their requested marks; younger entries stay |
| Coordinator.SweepClearsExpiredPeers | src/main/java/com/turn/ttorrent/client/ClientSharedTorrent.java:263-267 | unless it throws, exactly the peers of expired entries have their requests cleared |
| Coordinator.SweepReadiesOpenPeers | src/main/java/com/turn/ttorrent/client/ClientSharedTorrent.java:270-275 | unless it throws, the peers of expired entries whose channel is open, and only those, are told to request again, in table order |
| Client.After | src/main/java/com/turn/ttorrent/client/MultiTorrentClient.java:490-502 | the counters as the n-th iteration sees them stay within their ranges |
| Client.Tick | src/main/java/com/turn/ttorrent/client/MultiTorrentClient.java:494-502 | each counter counts down and restarts from its maximum after zero, staying within range |
| Client.Schedule | src/main/java/com/turn/ttorrent/client/MultiTorrentClient.java:490-502 | the n-th iteration, counting from 1, unchokes optimistically exactly when n is a multiple of 4 (4, 8, 12, ...) and resets rates exactly when n is a multiple of 3 (3, 6, 9, ...); After(0) is the initial pair of zeros, which no iteration uses |
| Client.Iteration | src/main/java/com/turn/ttorrent/client/MultiTorrentClient.java:493-519 | one loop iteration ticks the counters, and every torrent ends as its own turn leaves it, optimistic exactly when the optimistic counter is zero; the client stays consistent |
| Client.Active | src/main/java/com/turn/ttorrent/client/MultiTorrentClient.java:505-507 | only a sharing or seeding torrent takes part in an iteration |
| Client.TurnOf | src/main/java/com/turn/ttorrent/client/MultiTorrentClient.java:504-518 | a torrent that is neither sharing nor seeding is skipped unchanged; a turn keeps the registry consistent |
| Client.RunTurns | src/main/java/com/turn/ttorrent/client/MultiTorrentClient.java:504-519 | every torrent stays, and torrents the order does not visit are unchanged |
| Client.EveryTorrentTakesItsTurn | src/main/java/com/turn/ttorrent/client/MultiTorrentClient.java:504-519 | each torrent ends as its own turn leaves it, whatever happened to the others; an exception in one does not skip the rest |
| Client.EveryKeyTakesItsTurn | src/main/java/com/turn/ttorrent/client/MultiTorrentClient.java:504 | when the order visits every torrent, every torrent takes its turn |
| Client.CompletedTurnsMembers | src/main/java/com/turn/ttorrent/client/MultiTorrentClient.java:512-514 | a torrent's rates are reset exactly on a rate-reset iteration when its scheduler pass completed |
| Client.RatesResetAfterCompletedTurns | src/main/java/com/turn/ttorrent/client/MultiTorrentClient.java:508-518 | the rate-reset log gains exactly the torrents whose turn completed, in iteration order, and only on a rate-reset iteration |
| Client.AddTorrent | src/main/java/com/turn/ttorrent/client/MultiTorrentClient.java:133-144 | the torrent always replaces the entry under its hex info-hash; it is announced exactly when it is new or this client is the server |
| Client.AddTwiceAnnouncesOnce | src/main/java/com/turn/ttorrent/client/MultiTorrentClient.java:133-144 | a client that is not the server announces a torrent once, however often it is added |
| Client.IsHandshake | src/main/java/com/turn/ttorrent/client/MultiTorrentClient.java:189-192 | a frame is taken for a handshake when its leading int is not negative and exactly the base handshake length follows it |
| Client.LeadingInt | src/main/java/com/turn/ttorrent/client/MultiTorrentClient.java:189 | the leading 32-bit signed int is in range, and is non-negative exactly when the top bit of the first byte is clear |
| Client.ValidateHandshake | src/main/java/com/turn/ttorrent/client/MultiTorrentClient.java:251-275 | validation passes exactly when the handshake parses, carries the known torrent's info-hash if that torrent is known, and carries the expected peer id if one is given; it returns the parsed handshake |
| Client.UnknownTorrentIsNotRejected | src/main/java/com/turn/ttorrent/client/MultiTorrentClient.java:195 | with no expected id, the only way it is called, a handshake for an unknown torrent always passes |
| Client.Reply | src/main/java/com/turn/ttorrent/client/MultiTorrentClient.java:197-206 | an inbound handshake on an unassociated channel is answered with our handshake for the same torrent; on an associated channel nothing is sent |
| Client.HandleMessage | src/main/java/com/turn/ttorrent/client/MultiTorrentClient.java:187-233 | it throws an underflow exactly for frames under four bytes; a non-handshake frame changes nothing but the delivery log, and nothing at all on a channel with no bound peer; a handshake that fails validation is dropped |
| Client.MessageReachesItsPeer | src/main/java/com/turn/ttorrent/client/MultiTorrentClient.java:218-224 | a parsable peer message reaches exactly the peer its channel is associated with, and nothing else changes |
| Client.HandleNewData | src/main/java/com/turn/ttorrent/client/MultiTorrentClient.java:176-180 | the frames are handled in order; only a short frame or a handshake can make it throw |
| Client.HandleNewDataAppend | src/main/java/com/turn/ttorrent/client/MultiTorrentClient.java:176-180 | handling two batches one after the other is handling them as one batch |
| Client.HandleNewConnection | src/main/java/com/turn/ttorrent/client/MultiTorrentClient.java:164-173 | a completed outbound connection gets an association with its torrent and no peer, and our handshake is queued on it; every other channel keeps its association and its queue, and nothing else in the client changes; an unknown torrent throws before anything changes |
| Client.ReturnHandshakeIsNotAnswered | src/main/java/com/turn/ttorrent/client/MultiTorrentClient.java:203-206 | after handleNewConnection, the peer's return handshake on that channel gets no reply |
| Client.Search | src/main/java/com/turn/ttorrent/client/MultiTorrentClient.java:285-290 | the search is a consistent peer built from the channel's remote IP and port and the announced id |
| Client.SendAll | src/main/java/com/turn/ttorrent/client/MultiTorrentClient.java:306-314 | the messages join the tail of the channel's queue, in order; no other channel's queue changes |
| Client.Greeting | src/main/java/com/turn/ttorrent/client/MultiTorrentClient.java:306-314 | a BITFIELD is sent exactly when the torrent has completed pieces, followed by a server message exactly when this client is the server |
| Client.Bind | src/main/java/com/turn/ttorrent/client/MultiTorrentClient.java:292-299 | the looked-up peer is bound to the channel; no peer is lost and the connected map is untouched |
| Client.BindsTheLookedUpPeer | src/main/java/com/turn/ttorrent/client/MultiTorrentClient.java:292-293 | the peer bound is the one getOrCreatePeer returns for the search, with the identity it left it |
| Client.BindConnected | src/main/java/com/turn/ttorrent/client/MultiTorrentClient.java:292-301 | the bound peer stays registered and no peer is lost |
| Client.BindsOnePeer | src/main/java/com/turn/ttorrent/client/MultiTorrentClient.java:301 | the bound peer is entered in the connected map under its hex id exactly when it has one |
| Client.BindKeepsOtherConnections | src/main/java/com/turn/ttorrent/client/MultiTorrentClient.java:301 | every other connected entry stays as it was |
| Client.HandleNewPeerConnection | src/main/java/com/turn/ttorrent/client/MultiTorrentClient.java:277-315 | an unknown torrent changes nothing; otherwise the client stays consistent, and only a null dereference can escape |
| Client.Attach | src/main/java/com/turn/ttorrent/client/MultiTorrentClient.java:302-314 | recording the peer for the channel and queueing its greeting keeps the client consistent and leaves torrents and associations alone |
| Client.NewPeerConnectionBindsOnePeer | src/main/java/com/turn/ttorrent/client/MultiTorrentClient.java:277-315 | the association, the connected map and the channel map all name the one peer getOrCreatePeer returned, the last two unless the registration threw; the greeting follows on the channel's queue; after a throw the channel map and queues are untouched |
| Client.NewPeerConnectionTouchesOnlyItsChannel | src/main/java/com/turn/ttorrent/client/MultiTorrentClient.java:277-315 | every other torrent, and every other channel's association, channel-map entry and queue, are left as they were; nothing else in the client changes |
| Client.ConnectedKey | src/main/java/com/turn/ttorrent/client/MultiTorrentClient.java:404-406 | the connected map's key for a peer: its hex id when it has one, else its host identifier |
| Client.ConnectedKeyFollowsId | src/main/java/com/turn/ttorrent/client/MultiTorrentClient.java:404-406 | a disconnected peer's connected entry is looked up under the hex form of its id when it has one, else under its host identifier |
| Client.Unregister | src/main/java/com/turn/ttorrent/client/MultiTorrentClient.java:404-417 | exactly the peer's connected entry is removed; the registry and the state stay |
| Client.Disconnect | src/main/java/com/turn/ttorrent/client/MultiTorrentClient.java:404-422 | the torrent stays consistent and keeps every peer |
| Client.Reset | src/main/java/com/turn/ttorrent/client/MultiTorrentClient.java:421 | a reset peer is choking, not interested, unbound and without a requested piece; its identity and channel stay |
| Client.DisconnectForgetsPeer | src/main/java/com/turn/ttorrent/client/MultiTorrentClient.java:404-422 | the peer is no longer connected and every other connected entry stays; the peer is unbound with no requested piece and keeps its identity; every other peer is untouched |
| Client.DisconnectReleasesPiece | src/main/java/com/turn/ttorrent/client/MultiTorrentClient.java:415-417 | the peer's requested piece is released and no other request |
| Client.HandlePeerDisconnected | src/main/java/com/turn/ttorrent/client/MultiTorrentClient.java:396-423 | a peer of an unknown torrent changes nothing; otherwise the client stays consistent and keeps its torrents |
| Client.DisconnectForgetsChannel | src/main/java/com/turn/ttorrent/client/MultiTorrentClient.java:415-422 | the peer's channel leaves both channel maps, every other channel keeps its entries, and the torrent is as the disconnection leaves it; every other torrent and the rest of the client are unchanged |
| Client.HandleBadSocket | src/main/java/com/turn/ttorrent/client/MultiTorrentClient.java:586-593 | a channel with no recorded peer changes nothing |
| Client.BadSocketClearsChannel | src/main/java/com/turn/ttorrent/client/MultiTorrentClient.java:586-593 | a bad socket whose peer is attached to it leaves both channel maps, and the peer is unbound |
| Client.HandleFailedConnection | src/main/java/com/turn/ttorrent/client/MultiTorrentClient.java:317-331 | a peer of an unknown torrent changes nothing; otherwise the client stays consistent |
| Client.FailedConnectionForgetsPeer | src/main/java/com/turn/ttorrent/client/MultiTorrentClient.java:317-331 | the peer can no longer be found by its host identifier, nor by its hex id when it has one; every other key keeps its peer; every other torrent is unchanged, and nothing outside the registry changes |
| Client.Targets | src/main/java/com/turn/ttorrent/client/MultiTorrentClient.java:459-482 | looking the discovered peers up loses no peer and leaves the connected map, state and completion alone; at most one target per discovered peer |
| Client.TargetsAreKnownPeers | src/main/java/com/turn/ttorrent/client/MultiTorrentClient.java:459-477 | every target is a registered peer of the torrent |
| Client.ShouldConnect | src/main/java/com/turn/ttorrent/client/MultiTorrentClient.java:469-473 | a discovered peer is dialled unless it is already connected, or the torrent is complete and has at least 20 connected peers |
| Client.FirstTargetFollowsRule | src/main/java/com/turn/ttorrent/client/MultiTorrentClient.java:459-477 | a discovered peer's match is dialled exactly when it is not connected and the torrent is not both complete and holding at least 20 connected peers |
| Client.SaturatedSeederDialsNobody | src/main/java/com/turn/ttorrent/client/MultiTorrentClient.java:469-473 | a complete torrent with at least 20 connected peers dials nobody, whatever it discovers |
| Client.ConnectAll | src/main/java/com/turn/ttorrent/client/MultiTorrentClient.java:475-477 | each connect opens its own fresh channel and queues exactly one registration for it, in order |
| Client.DialAll | src/main/java/com/turn/ttorrent/client/MultiTorrentClient.java:459-482 | every target is dialled in order, each on its own new channel, and each dial queues exactly one connect registration under the torrent's hex info-hash |
| Client.HandleDiscoveredPeers | src/main/java/com/turn/ttorrent/client/MultiTorrentClient.java:437-483 | an unknown torrent, an empty list or a dead service changes nothing; otherwise the torrent is as the lookups leave it and exactly the targets of the connect rule are dialled |
| Client.DiscoveredPeersTouchOnlyTheirTorrent | src/main/java/com/turn/ttorrent/client/MultiTorrentClient.java:437-483 | every other torrent, both channel maps and the rest of the client are unchanged; only the torrent, the communication manager and the dial log can change |

## Left out

- The selector loop, `accept`, `read`, `finishConnection`, port binding, the worker threads, `synchronized`, `wait`/`notify` and the seeding `Timer`: socket I/O, concurrency and timers. Each operation is one atomic step.
- Socket writes are total, or fail at a given payload after a given number of bytes (`WriteFault`). The `IOException` a real `connect` can raise is not modelled.
- `WriteWorker` is modelled on its own. `PeerCommunicationManager` hands writable keys to its own `write` (PeerCommunicationManager.java:131-132), so no shown code ever feeds a `WriteWorker`.
- `TwoByteMessageLength`, `Torrent.byteArrayToHexString`, `Handshake.parse`/`craft`, `PeerMessage` parsing and crafting, the JDK's rendering of an `InetAddress`, and a channel's remote address are parameters. TwoByteMessageLength.java, Handshake.java, PeerMessage.java, SharingPeer.java and SharedTorrent.java are not part of this model.
- The clock (one reading per timeout sweep, where the code reads it once per entry), `PIECE_TIMEOUT_MILLIS`, the random pick of the optimistic unchoke, whether a channel is open, and the iteration orders of the priority queue, the request table and the torrent map are parameters. Properties hold for every order.
- Float rate accounting, the rate comparators, `info` and the effect of `resetPeerRates`: floating point. The walk order replaces the ranking, and the rate resets a loop iteration performs are recorded in a log.
- `SharingPeer` is reduced to the fields these operations touch. `reset()` is taken to choke, unbind and forget interest and the requested piece. `isConnected()` is taken to be the bound flag. `clearRequests()` is taken to forget the requested piece and change nothing else (Coordinator.ClearRequests). A new `SharingPeer` is taken to start choking, uninterested, unbound, with no channel and no requested piece (Coordinator.NewSharingPeer).
- `handlePieceCompleted` and the tracker announce: piece validation and network I/O.
- `start`, `stop`, the constructors, `share(String)` and the listeners that do nothing.
- Client.HandleDiscoveredPeers: choosing the targets and dialling them are separate passes. The lookups touch only the torrent and the connects only the communication manager, so the outcome equals the interleaved loop.
- Client.Iteration: whether a scheduler pass completes is read from the torrents as they stand at the start of the iteration. No turn touches another torrent, so this is the same outcome.
- PeerIdentity.ShortHexPeerId: the upper-casing is ASCII only. It agrees with Java's locale-sensitive `toUpperCase` on the hexadecimal digits the id encoding produces, not on every string.
- Client.AddTorrent: requires that channel-map entries for the torrent's hash name peers of the new torrent, so that the client stays consistent after the replacement.
- ReadWorker.ProcessData: requires `count` to be at most the array length. Otherwise `System.arraycopy` throws in the caller's thread.

## Findings

| source | as written | input that shows it | evidently intended | confidence | as-written member | corrected member |
|---|---|---|---|---|---|---|
| src/main/java/com/turn/ttorrent/client/nio/ReadWorker.java:68-72 | A chunk that overflows the key's buffer is dropped by the caught `BufferOverflowException`. The buffer only regrows (lines 105-116) when it is exactly full, so a chunk that overflows a partly filled buffer is lost from the stream. | A frame declaring 32000 bytes, 32002 bytes with its prefix, read on a fresh key as three 8192-byte chunks and a last one of 7426 bytes. The first three fill 24576 of the 30720 bytes, so the last does not fit and is discarded. The frame never completes although every byte of it was read. | Every byte read reaches the stream: a chunk that does not fit enlarges the buffer. | not executed | ReadWorker.AsWrittenLosesFourthChunk | ReadWorker.StepGrowingKeepsStream |
| src/main/java/com/turn/ttorrent/client/nio/PeerCommunicationManager.java:83-140 | A REGISTER request that throws (a channel closed before the drain) leaves the loop before `changeRequests.clear()`. The catch at lines 136-140 goes straight back to the top of the loop, so the next pass replays the same list, meets the same failure, and never reaches `select()` again. | A connect registration for channel 1, closed before the drain, queued ahead of a write request for channel 2, whose key is valid. | A failing request is dropped, the later requests are still applied, and the list is cleared. | not executed | CommunicationManager.AsWrittenDrainStalls | CommunicationManager.DrainAllAppliesLastRequest |
