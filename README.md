# udp_tunnel — a Dafny model of its core

udp_tunnel carries TCP-like byte streams between two hosts behind NAT over
UDP. It has three layers, and this project models the logic of each:

- **Reliable connections** (`connection.rb`, module `Reliable` in
  `reliable.dfy`). A `Connection` slices outgoing messages into numbered
  chunks of at most 1024 bytes and keeps them in a send window until the
  peer acknowledges them. It reassembles incoming chunks in order in a
  sparse receive buffer, delivers the filled prefix, and records when each
  missing sequence number was first seen. A gap that stays missing longer
  than 200 time units is requested again, with back-off. The
  `ConnectionManager` routes each decoded frame to the connection of its
  (ip, port, connection id). An ACK with both counters zero opens a new
  connection.
- **Stream multiplexing** (`usocket.rb`, module `Mux` in `mux.dfy`). A
  `Client` carries many streams over one connection. Each message is framed
  as type (`O` open, `D` data, `X` close) ‖ 4-byte stream id ‖ 4-byte
  big-endian length ‖ payload. Incoming bytes are buffered until whole
  frames can be taken off the front. A `USocket` is one stream's end, with
  a closed flag and a read queue.
- **STUN discovery** (`stun.rb`, module `Stun` in `stun.dfy`). The program
  sends a Binding Request (section 6 of RFC 5389). It checks that the
  answer echoes the request's 16 bytes, walks the type-length-value
  attributes and reads the port and address from MAPPED-ADDRESS (section
  15.1 of RFC 5389). It requires two servers to agree.

Module `Wire` (`wire.dfy`) holds what they share: the byte type, Ruby's
`pack('n')`/`pack('N')` (which keep the low 16/32 bits) and `unpack1`, and
the `Option`/`Result` wrappers. `None`/`Err` stand for Ruby's `nil` and its
exceptions.

The objects the source updates in place are classes with `modifies`
clauses: `Connection`, `ConnectionManager`, `USocket` and `Client`. The
methods of `Connection` and `USocket` state their new state as pure
functions of the old state (`AckSend`, `Reserve`, `Place`/`ReadyCount`,
`Stamped`/`Due`/`AfterRequest`, `Retransmits`). The `ConnectionManager`
methods state that the routed connection changes as `Connection.Ack`,
`Data`, `Resend` and `TriggerClose` promise, that REQ and unknown frame
types touch no connection, and that every other connection is untouched.
`Client.Feed` states the frames taken (`Split`), the new stream table
(`Apply` of the old one), the end state of each old stream (`Track`) and
the ids appended to the accept queue (`Accepted`). The properties are
proved as lemmas about those functions. Each loop of the
source is a `while` loop with its invariants. Loops that only compute
values from the connection's state sit in their own heap-free methods.
Datagrams written to the network are appended to a `sent` log. The clock is
an integer parameter `now`. Random bytes and received datagrams are
parameters.

## Model

| member | source | states |
|---|---|---|
| `Reliable.Datagram` | connection.rb:148-150 | a frame is the type byte, then the connection id, then the payload, at those exact offsets |
| `Reliable.ChunksSplitMessage` | connection.rb:89 | slicing a message gives non-empty chunks of at most 1024 bytes, all full except the last; their concatenation is the message; there are ⌈len/1024⌉ of them |
| `Reliable.SliceMessage` | connection.rb:89-93 | the slicing loop yields exactly those chunks, and one DATA frame per chunk numbered from the given base in order |
| `Reliable.Connection.constructor` | connection.rb:52-66 | a new connection has empty windows at sequence 0, no gaps, open state, an empty queue, and satisfies the reassembly and window invariants |
| `Reliable.Connection.SendData` | connection.rb:88-94 | the chunks are appended to the send window, and each goes out as a DATA frame numbered `send_idx + position`; the window stays in step with everything ever sent |
| `Reliable.Connection.SendAck` | connection.rb:105-107 | one ACK frame carrying the receive cursor and the total sent count, which equals the number of chunks ever sent |
| `Reliable.AckDropsAcknowledged` | connection.rb:110-111 | an acknowledgement inside the window drops exactly the acknowledged chunks and keeps the total sent count |
| `Reliable.StaleAckMovesBaseBack` | connection.rb:110-111 | a stale acknowledgement moves the send base back without touching the buffer, so the reported total sent count shrinks |
| `Reliable.Connection.AdvanceSendWindow` | connection.rb:110-111 | the new send window is `AckSend` of the old one; an in-window acknowledgement keeps the window equal to the unacknowledged tail of all chunks sent |
| `Reliable.Reserve` | connection.rb:112 | corrected slot reservation: existing slots are kept, the buffer reaches up to the peer's sent count, and every added slot is empty |
| `Reliable.ReserveAsWrittenAgrees` | connection.rb:112 | wherever the line as written does not raise, it computes `Reserve` |
| `Reliable.ReserveAsWrittenRaises` | connection.rb:112 | as written, the line raises IndexError when `recv_idx - sent_count` reaches past the buffer, e.g. recv_idx = sent_count = 1 with an empty buffer |
| `Reliable.Connection.ReserveSlots` | connection.rb:112 | the receive buffer becomes `Reserve` of the old one, and the reassembly invariant is kept |
| `Reliable.Connection.Ack` | connection.rb:109-115 | `Acked`: window per `AckSend`, buffer per `Reserve`, `last_ack` is now, then one gap request whose frame and new gap times are given by `DueIds`/`AfterRequest`; every gap has a time afterwards, and ids that enter the gap table lie above every id already in it; invariants kept |
| `Reliable.Place` | connection.rb:118 | storing at offset i sets slot i, keeps every other slot, and pads with empty slots up to i |
| `Reliable.DuplicateChunkFillsWrongSlot` | connection.rb:118 | as written, a duplicate of the last delivered chunk (offset -1) fills the buffer's last slot, which belongs to a later sequence number |
| `Reliable.ReadyCount` | connection.rb:120-123 | the delivered count covers filled slots only and stops at the first empty slot or at the end |
| `Reliable.PlaceDeliversAtHead` | connection.rb:117-123 | storing into a compact buffer delivers something iff the chunk is the next expected one, which then comes first; what is left is compact |
| `Reliable.DrainReady` | connection.rb:120-123 | the delivery loop takes exactly the filled prefix and leaves a buffer whose head is empty |
| `Reliable.Connection.Store` | connection.rb:118-123 | a chunk below `recv_idx` changes nothing (corrected); otherwise the filled prefix after placing it is delivered in order and `recv_idx` advances by its length; its gap is forgotten; the invariant is kept |
| `Reliable.Connection.Data` | connection.rb:117-125 | `Received`: the effect of `Store`, then one gap request as in `ack`; the send side is untouched; every gap has a time afterwards, and new gap ids lie above the old ones |
| `Reliable.RetransmitsAsWrittenAgrees` | connection.rb:127-132 | on indices not below `send_idx`, the loop as written sends exactly `Retransmits`, and raises iff some index lies past the window |
| `Reliable.StaleResendSendsWrongChunk` | connection.rb:129 | as written, a resend of the chunk just before the window retransmits the window's last chunk under the older number; the corrected version sends nothing |
| `Reliable.RetransmitsRepeatOriginals` | connection.rb:127-132 | when the window holds the unacknowledged tail of the chunks sent, each retransmission is identical to the DATA frame first sent for that index |
| `Reliable.CollectRetransmits` | connection.rb:128-131 | the resend loop yields `Retransmits`, and reports success iff no index lies past the window |
| `Reliable.Connection.Resend` | connection.rb:127-132 | appends `Retransmits` of the window to the sent log and changes no window; `ok` iff no index lies past the window |
| `Reliable.Stamped` | connection.rb:136-139 | after stamping, the gap table's keys are the old keys plus every empty slot; old times are kept and new gaps get `now` |
| `Reliable.StampGaps` | connection.rb:136-139 | the stamping loop computes `Stamped` |
| `Reliable.DueMembers` | connection.rb:141-143 | an id is selected iff it is an empty slot with a recorded time more than 200 before now |
| `Reliable.DueAscending` | connection.rb:141-143 | the selected ids lie in the buffer's range, strictly ascending |
| `Reliable.SelectDue` | connection.rb:141-143 | the selection loop computes `Due` |
| `Reliable.Postpone` | connection.rb:144 | every selected id's time becomes now + 200 and every other time is kept |
| `Reliable.RequestOnlyOverdue` | connection.rb:134-146 | a request asks for a gap iff its earlier recorded time is more than 200 old, so a new gap is never asked for at once; afterwards every gap has a time; unrequested times are kept |
| `Reliable.RequestBackoff` | connection.rb:140-144 | an id requested at `now` gets time now + 200 and is not requested again by any request up to now + 400 |
| `Reliable.Connection.RequestResend` | connection.rb:134-146 | the gap table becomes `AfterRequest`; one RESEND frame with `DueIds` is sent, even when empty; every gap has a time afterwards; the buffers are untouched and the invariant is kept |
| `Reliable.ReservedGapsFollow` | connection.rb:112 | when every gap had a time, the ids that reserving slots and one request add to the gap table lie above every id already in it |
| `Reliable.PlaceKeepsGaps` | connection.rb:118-123 | storing a chunk and delivering the filled prefix leaves every other id with a time an empty slot of what remains |
| `Reliable.PlaceNewGapsPast` | connection.rb:118-123 | an empty slot left after storing a chunk that was not a gap before lies past the old end of the buffer |
| `Reliable.NewGapsAboveOld` | connection.rb:136-139 | when the new buffer's fresh gaps lie past the old buffer, every id a request adds to the table lies above every id already there |
| `Reliable.StoredGapsFollow` | connection.rb:117-124 | when every gap had a time, the ids that storing a chunk and one request add to the gap table lie above every id already in it |
| `Reliable.Closing` | connection.rb:74-78 | closing ends in the closed state and queues the end-of-stream `nil` iff the connection was open |
| `Reliable.ClosingIdempotent` | connection.rb:74-78 | closing twice is closing once; closing an open connection adds exactly one queue entry |
| `Reliable.Connection.TriggerClose` | connection.rb:74-78 | state and queue become `Closing` of the old ones; nothing else changes |
| `Reliable.Connection.Close` | connection.rb:68-72 | nothing changes when already closed; otherwise as `trigger_close` |
| `Reliable.ConnectionManager.constructor` | connection.rb:2-5 | no connections and no replies |
| `Reliable.AckOnEmpty` | connection.rb:26-30 | on a new connection, an ACK with both counters zero moves no window, adds no gap and requests nothing |
| `Reliable.ConnectionManager.Dispatch` | connection.rb:21-38 | REQ is answered with a one-byte ACK; an ACK from an unknown key with both counters zero creates a connection that has sent one empty RESEND and nothing else (`OpenedByAck`); ACK and DATA for a known key have the effect of `ack` and `data` (`Acked`, `Received`), new gap ids last; RESEND appends `Retransmits` and keeps both windows, the state and `last_ack`; REQ and unknown frame types leave every connection unchanged; frames for unknown keys change nothing; CLOSE closes and forgets the key, keeping every other field of the closed connection; other keys' connections are untouched; `ok` fails only on a resend past the window |
| `Reliable.ConnectionManager.OnAck` | connection.rb:24-30 | an unknown key gets a fresh connection in the `OpenedByAck` state only when both counters are zero, and nothing happens otherwise; a known connection changes as `Acked` states |
| `Reliable.ConnectionManager.OnData` | connection.rb:31-32 | only the key's own connection changes, and it changes as `Received` states |
| `Reliable.ConnectionManager.OnResend` | connection.rb:33-34 | only the key's own connection changes; its windows, state and `last_ack` stay; it appends `Retransmits`; `ok` as in `resend` |
| `Reliable.ConnectionManager.OnClose` | connection.rb:35-37 | the key leaves the table; its connection was closed, with at most one end-of-stream marker, and its windows, buffers, gap table, sent log and `last_ack` are kept |
| `Wire.Be16RoundTrip` | stun.rb:40 | unpacking a 16-bit packing gives back the value's low 16 bits |
| `Wire.Be32RoundTrip` | usocket.rb:36 | unpacking a 32-bit packing gives back the value's low 32 bits |
| `Wire.Be32OfValue` | usocket.rb:65 | packing the value read from four bytes gives back those bytes |
| `Mux.Encode` | usocket.rb:35-37 | a frame is 9 + payload bytes: the type, the 4-byte id, the big-endian payload length, then the payload |
| `Mux.Split` | usocket.rb:62-67 | the parse loop leaves a remainder that holds no whole frame |
| `Mux.SplitAppend` | usocket.rb:61-67 | parsing is incremental: parsing a + b gives the frames of a, then the frames of a's remainder followed by b |
| `Mux.SplitEncoded` | usocket.rb:62-66 | frames written by `send_ctrl` are read back as exactly those frames, in order |
| `Mux.PartialFrameWaits` | usocket.rb:62 | no frame is taken while fewer than 9 + length bytes of it are buffered |
| `Mux.FeedAllIsSplit` | usocket.rb:55-67 | however the byte stream is cut into `:data` events, the frames parsed are those of the whole stream at once |
| `Mux.FramesSurviveAnySplit` | usocket.rb:61-66 | frames sent with `send_ctrl` and received in arbitrary pieces come out exactly, with nothing left over |
| `Mux.USocket.constructor` | usocket.rb:3-9 | a new stream end is open with an empty read queue |
| `Mux.USocket.ReadPartial` | usocket.rb:13-16 | once closed, reads return empty without taking from the queue; otherwise the next payload is taken, and the end-of-stream marker reads as empty |
| `Mux.USocket.HandleClose` | usocket.rb:18-22 | afterwards closed; the end-of-stream marker is queued only on the first call |
| `Mux.USocket.HandleData` | usocket.rb:24-26 | the payload is queued at the back |
| `Mux.USocket.SendCtrl` | usocket.rb:35-37 | exactly one message, the encoded frame, goes to the connection |
| `Mux.USocket.Close` | usocket.rb:28-33 | the first call sends one `X` frame with an empty payload and deregisters the id; later calls change nothing |
| `Mux.USocket.Write` | usocket.rb:39-42 | one `D` frame iff the stream is open and the data is non-empty; otherwise nothing is sent |
| `Mux.Client.constructor` | usocket.rb:48-53 | no streams, no buffered bytes, receive loop running |
| `Mux.Client.Remove` | usocket.rb:91-93 | exactly that id leaves the table |
| `Mux.Client.Connect` | usocket.rb:95-100 | a fresh open stream is registered under the id and announced with one `O` frame with an empty payload |
| `Mux.Track` | usocket.rb:76-89 | a stream that leaves the table is closed; its read queue only grows; a closed stream stays closed |
| `Mux.ApplyKeys` | usocket.rb:76-89 | the ids registered after a run of frames are `StreamsAfter` those frames |
| `Mux.TrackAgrees` | usocket.rb:76-89 | a stream still registered after a run of frames has the state that `Apply` gives its id |
| `Mux.Client.HandleData` | usocket.rb:76-89 | the stream table becomes `Step` of the old one; each old stream moves by `TrackStep`; `O` for an unknown id when accepting registers a fresh stream and appends it once to the accept queue, and the accept queue is unchanged otherwise |
| `Mux.Client.Accept` | usocket.rb:78-83 | a fresh open stream holding the payload, if any, is registered under the id and appended to the accept queue |
| `Mux.Client.CloseStream` | usocket.rb:84-85 | the id leaves the table and its stream ends as `Closed` of its old state |
| `Mux.Client.Deliver` | usocket.rb:86-87 | the payload is queued on the registered stream; no other entry of the table changes |
| `Mux.Client.HandleFrame` | usocket.rb:66 | one frame moves the table by `Step`, each tracked stream by `TrackStep`, and the accepted ids as `Accepted` does |
| `Mux.Client.HandleNext` | usocket.rb:62-66 | the frame is `Head` of the buffered bytes, which lose exactly its bytes, and it is handled as `HandleFrame` states |
| `Mux.Client.HandleFrames` | usocket.rb:61-67 | the loop takes exactly the `Split` frames of the buffered bytes plus the new ones and keeps the remainder; the client ends as `Apply`, `Tracked` and `Accepted` give |
| `Mux.Client.Feed` | usocket.rb:60-67 | the frames handled are exactly `Split` of the old remainder plus the new bytes, and the rest is kept; the table becomes `Apply` of the old one over those frames; each old stream ends as `Track` gives; with an accept queue, its old entries stay and the new entries carry the `Accepted` ids in order |
| `Mux.Client.Shutdown` | usocket.rb:68-72 | every registered stream is closed, with one end-of-stream marker at most; the table is emptied; `:close` stops the loop |
| `Stun.Request` | stun.rb:28-29 | 20 bytes: message type 1 (Binding Request), length 0, then the 16 random bytes |
| `Stun.WalkAttributes` | stun.rb:32-38 | the attribute loop computes `Attributes` |
| `Stun.AttributeRoundTrip` | stun.rb:34-38 | a well-formed attribute is read back whole, and the walk resumes right after its value |
| `Stun.LaterAttributeWins` | stun.rb:37 | of two attributes of one type, the later value is kept |
| `Stun.ShortValueKept` | stun.rb:36 | a value cut short by the end of the data is kept as far as it goes |
| `Stun.PaddingNotSkipped` | stun.rb:35-36 | the 4-byte padding of RFC 5389 is not skipped: a 1-byte value followed by its padding makes the walk fail |
| `Stun.TransactionCheck` | stun.rb:30-31 | an answer is refused as invalid iff bytes 4...20 of the received data are not the request's bytes |
| `Stun.Test` | stun.rb:27-43 | computes `ParseResponse`: the transaction check, the walk, a required MAPPED-ADDRESS of at least 4 bytes, then port from bytes 2..3 and address from byte 4 on |
| `Stun.MappedAddressRoundTrip` | stun.rb:32-42 | an answer of any header, the request bytes and one MAPPED-ADDRESS yields exactly that attribute's port and address |
| `Stun.GetIpPort` | stun.rb:17-25 | succeeds iff both results succeed and are equal, returning that value; the first error wins; different answers give the symmetric-NAT error |

## Left out

- Sockets, threads, `Thread::Queue` blocking, `Time.now`, `SecureRandom` and `recvfrom` are not modelled. The clock is the parameter `now`. Random bytes and received datagrams are parameters. Written datagrams go to the `sent` log, the `replies` log or `ConnectionLog`.
- `ConnectionManager#run_recv` byte decoding (connection.rb:14-20, 25, 32, 34) is left out. As written it cannot work: `data[0]` is a one-character String, so no `when` with an Integer matches. `TYPE_CLOSE` is not defined, so reaching that `when` raises NameError. `msg = data[4..]` starts inside the 5-byte header that `socket_send` writes. `unpack1('NN')` returns only the first counter, and `unpack1('N*')` only the first index. `Dispatch` takes the decoded frame (`Inbound`) that the code evidently means.
- Reliable.ConnectionManager.OnAck: connection.rb:28 passes `socket`, but `ConnectionManager` has no local or method of that name, only `@socket` (connection.rb:2-3). As written, the first ACK from a new peer raises NameError and no connection is created. The model creates the connection, as the code evidently means with `@socket`.
- `Connection#send_close` (connection.rb:100-103) sends a frame of the undefined type `TYPE_CLOSE`, so it is not modelled.
- `ConnectionManager#connect` and `#run` (connection.rb:42-48) have empty bodies.
- `Connection#read` (connection.rb:84-86) is a blocking dequeue. The queue is observable as `messages`.
- Reliable.Connection.Store: connection.rb:122 reads `trigger_message msg @recv_buffer.shift`, which Ruby parses as a call to an undefined method `msg`. The model delivers the shifted chunk, as evidently intended.
- Reliable.Connection.Close: `@manager.delete` (connection.rb:71) calls a method `ConnectionManager` does not have. The model does the `trigger_close` part only.
- Reliable.Connection.SendData: Ruby `String` has no `each_slice`. The message is modelled as a byte sequence sliced into 1024-byte chunks.
- Reliable.Connection.RequestResend: the timeout compares differences of `Time` values, which count seconds, with 200 (connection.rb:135-144). The model keeps the source's unit, so a gap is requested after 200 seconds, not after 200 milliseconds. This is modelled as written.
- Reliable.Due: Ruby iterates `@unreceiveds.keys` in insertion order, and the model lists the requested ids in ascending order. The two orders agree because every id added to the table lies above the ids already there (`NewGapsLast`, ensured by `Connection.Ack` and `Connection.Data`), one request stamps new gaps in ascending order, and reassigning an existing key keeps its place in a Ruby hash. The hash's order itself is not modelled.
- Mux.Client.Feed: a stream accepted and closed in the same batch is described only through the accept queue's ids. Its final closed state is not stated, and neither is the freshness of the accepted sockets. `Mux.Client.HandleData` states both for one frame.
- Mux.USocket.ReadPartial: the blocking wait on an empty open queue is not modelled. The method requires a closed stream or a non-empty queue.
- Mux.USocket.SendCtrl: `rescue exit` (usocket.rb:36) ends the process when the connection raises. This is not modelled.
- Mux.Client.HandleData: for an `O` frame with a payload, usocket.rb:83 calls `socket.handle_data` with no argument, which raises ArgumentError in the receive thread. The model hands the payload to the new stream, as evidently intended.
- Mux.Client.Feed: `Client#run_recv` expects `[type, data]` pairs from `@connection.read` (usocket.rb:58). `Connection#read` returns a bare chunk or `nil`, so as written `type` is the whole chunk and no branch matches. The model takes the `:data` event the code evidently means. `data.chars` is modelled as the chunk's bytes.
- Mux.Client.Shutdown: `Connection#read` yields only chunks and the end-of-stream `nil`, so the `:reset` and `:close` events of usocket.rb:68 never arrive as written either. The model takes the events the code evidently means.
- Mux.USocket.ReadPartial: once `handle_close` has run, payloads still queued are never returned, because `readpartial` answers `''` first. This is modelled as written, not corrected.
- `USocket#flush` (a no-op) and the `Server` class (usocket.rb:103-125, an accept loop over threads) are not modelled.
- Stun: `ADDRS.sample` and the network round trip are not modelled. `GetIpPort` takes the two outcomes of `test`.
- Stun.Request: the 16 random bytes stand where RFC 5389 puts the fixed magic cookie 0x2112A442 and a 12-byte transaction id. This is modelled as written.
- Stun.Test: the answer's message type is never checked, e.g. for a Binding Success Response 0x0101, so any header is accepted. This is modelled as written.
- Stun.Test: the error datatype names the distinct Ruby exceptions. A header cut to 1-3 bytes makes `shift(nil)` raise TypeError (`TruncatedAttribute`). A missing type-1 attribute raises NoMethodError on `nil` (`MissingMappedAddress`). A value under 4 bytes makes `value[4..]` nil (`ShortMappedAddress`).

## Findings

| source | as written | input that shows it | evidently intended | confidence | as-written member | corrected member |
|---|---|---|---|---|---|---|
| connection.rb:112 | `@recv_buffer[sent_count - 1 - @recv_idx] ||= nil` runs whenever `sent_count > 0`; a negative index before the start of the array raises IndexError | recv_idx = 1, sent_count = 1, empty receive buffer: the ACK a peer sends once all its data is delivered | reserve slots only when the peer has sent more than has been delivered | not executed | `Reliable.ReserveAsWrittenRaises` | `Reliable.Reserve` |
| connection.rb:118 | `@recv_buffer[idx - @recv_idx] = msg` with idx below recv_idx counts from the end of the buffer | recv_idx = 5, buffer [nil, nil], a duplicate DATA for idx 4: sequence 6 is marked received with chunk 4's bytes | ignore chunks already delivered | not executed | `Reliable.DuplicateChunkFillsWrongSlot` | `Reliable.Connection.Store` |
| connection.rb:129 | `@send_buffer[idx - @send_idx]` with idx below send_idx counts from the end of the window | send_idx = 5, window [a, b], RESEND for 4: a frame numbered 4 carrying b (chunk 6) | skip indices the peer has acknowledged | not executed | `Reliable.StaleResendSendsWrongChunk` | `Reliable.CollectRetransmits` |
