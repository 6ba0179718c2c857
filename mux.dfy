/** The stream multiplexer of usocket.rb. A `Client` carries many streams
    over one connection's ordered byte stream, framing each message as
    type ‖ 4-byte stream id ‖ 4-byte big-endian length ‖ payload; a
    `USocket` is one stream's end with a closed flag and a read queue. The
    connection is seen here only as the log of messages handed to its
    `send_data`. */
module Mux {
  import opened Wire

  /** Frame types: 'O' open, 'D' data, 'X' close. */
  const OPEN: byte := 0x4F
  const DATA: byte := 0x44
  const CLOSE: byte := 0x58

  /** type (1) + stream id (4) + length (4). */
  const HEADER_SIZE: nat := 9

  type StreamId = s: seq<byte> | |s| == 4 witness [0, 0, 0, 0]

  datatype Frame = Frame(kind: byte, id: StreamId, payload: seq<byte>)

  /** A frame whose length fits the 4-byte length field. */
  predicate Encodable(f: Frame)
  {
    |f.payload| < TWO32
  }

  /** `send_ctrl`: type ‖ id ‖ `[data.size].pack('N')` ‖ data. */
  function Encode(f: Frame): (r: seq<byte>)
    ensures |r| == HEADER_SIZE + |f.payload|
    ensures r[0] == f.kind && r[1..5] == f.id && r[5..9] == Be32(|f.payload|) && r[9..] == f.payload
  {
    [f.kind] + f.id + Be32(|f.payload|) + f.payload
  }

  /** The byte stream of several frames sent one after the other. */
  function EncodeAll(fs: seq<Frame>): seq<byte>
  {
    if fs == [] then [] else Encode(fs[0]) + EncodeAll(fs[1..])
  }

  /** Whether a whole frame (header and all `length` payload bytes) sits at
      the front of the buffer. */
  predicate HasFrame(buf: seq<byte>)
  {
    |buf| >= HEADER_SIZE && |buf| >= FrameSize(buf)
  }

  /** Header plus declared payload length of the frame at the front. */
  function FrameSize(buf: seq<byte>): (n: nat)
    requires |buf| >= HEADER_SIZE
    ensures n >= HEADER_SIZE
  {
    HEADER_SIZE + Be32Value(buf[5..9])
  }

  /** The frame at the front of the buffer. */
  function Head(buf: seq<byte>): Frame
    requires HasFrame(buf)
  {
    Frame(buf[0], buf[1..5], buf[HEADER_SIZE..FrameSize(buf)])
  }

  /** The `while` loop of `run_recv` (usocket.rb:62-67) as a function: the
      whole frames at the front of a buffer, and what is left, which holds
      no whole frame. */
  function Split(buf: seq<byte>): (r: (seq<Frame>, seq<byte>))
    ensures !HasFrame(r.1)
    decreases |buf|
  {
    if HasFrame(buf) then
      var tail := Split(buf[FrameSize(buf)..]);
      ([Head(buf)] + tail.0, tail.1)
    else
      ([], buf)
  }

  /** Bytes appended behind a whole frame do not change that frame. */
  lemma HeadOfLonger(a: seq<byte>, b: seq<byte>)
    requires HasFrame(a)
    ensures HasFrame(a + b) && FrameSize(a + b) == FrameSize(a) && Head(a + b) == Head(a)
    ensures (a + b)[FrameSize(a)..] == a[FrameSize(a)..] + b
  {
    assert (a + b)[5..9] == a[5..9];
    assert (a + b)[1..5] == a[1..5];
    assert (a + b)[HEADER_SIZE..FrameSize(a)] == a[HEADER_SIZE..FrameSize(a)];
  }

  /** Parsing is incremental: parsing `a + b` takes the frames of `a`, then
      the frames of whatever `a` left over followed by `b`. */
  lemma {:induction false} SplitAppend(a: seq<byte>, b: seq<byte>)
    ensures Split(a + b).0 == Split(a).0 + Split(Split(a).1 + b).0
    ensures Split(a + b).1 == Split(Split(a).1 + b).1
    decreases |a|
  {
    if HasFrame(a) {
      HeadOfLonger(a, b);
      SplitAppend(a[FrameSize(a)..], b);
    } else {
      assert Split(a) == ([], a);
    }
  }

  /** An encoded frame at the front of a buffer is read back as itself. */
  lemma HeadOfEncoded(f: Frame, rest: seq<byte>)
    requires Encodable(f)
    ensures HasFrame(Encode(f) + rest) && FrameSize(Encode(f) + rest) == HEADER_SIZE + |f.payload|
    ensures Head(Encode(f) + rest) == f && (Encode(f) + rest)[FrameSize(Encode(f) + rest)..] == rest
  {
    var buf := Encode(f) + rest;
    Be32RoundTrip(|f.payload|);
    assert buf[5..9] == Be32(|f.payload|);
    assert buf[1..5] == f.id;
    assert buf[HEADER_SIZE..HEADER_SIZE + |f.payload|] == f.payload;
    assert buf[HEADER_SIZE + |f.payload|..] == rest;
  }

  /** Parsing encoded frames followed by anything gives back those frames,
      then whatever the rest parses to. */
  lemma {:induction false} SplitEncoded(fs: seq<Frame>, tail: seq<byte>)
    requires forall f | f in fs :: Encodable(f)
    ensures Split(EncodeAll(fs) + tail).0 == fs + Split(tail).0
    ensures Split(EncodeAll(fs) + tail).1 == Split(tail).1
    decreases |fs|
  {
    if fs != [] {
      var rest := EncodeAll(fs[1..]) + tail;
      EncodeAllCons(fs, tail);
      SplitEncodedStep(fs[0], rest);
      SplitEncoded(fs[1..], tail);
      ConsAppend(fs, Split(tail).0);
    } else {
      assert EncodeAll(fs) + tail == tail;
      assert fs + Split(tail).0 == Split(tail).0;
    }
  }

  lemma EncodeAllCons(fs: seq<Frame>, tail: seq<byte>)
    requires fs != []
    ensures EncodeAll(fs) + tail == Encode(fs[0]) + (EncodeAll(fs[1..]) + tail)
  {
    var e, r := Encode(fs[0]), EncodeAll(fs[1..]);
    assert EncodeAll(fs) == e + r;
    assert (e + r) + tail == e + (r + tail);
  }

  lemma ConsAppend<T>(xs: seq<T>, ys: seq<T>)
    requires xs != []
    ensures [xs[0]] + (xs[1..] + ys) == xs + ys
  {
    assert xs == [xs[0]] + xs[1..];
  }

  lemma SplitEncodedStep(f: Frame, rest: seq<byte>)
    requires Encodable(f)
    ensures Split(Encode(f) + rest).0 == [f] + Split(rest).0
    ensures Split(Encode(f) + rest).1 == Split(rest).1
  {
    HeadOfEncoded(f, rest);
  }

  /** A buffer holding only part of one encoded frame yields nothing yet. */
  lemma PartialFrameWaits(f: Frame, k: nat)
    requires Encodable(f) && k < |Encode(f)|
    ensures Split(Encode(f)[..k]) == ([], Encode(f)[..k])
  {
    if k >= HEADER_SIZE {
      Be32RoundTrip(|f.payload|);
      assert Encode(f)[..k][5..9] == Be32(|f.payload|);
    }
  }

  /** What a client has parsed after `:data` events carrying `chunks`, with
      `rest` left over before them: the frames, and the new leftover. */
  function FeedAll(rest: seq<byte>, chunks: seq<seq<byte>>): (seq<Frame>, seq<byte>)
  {
    if chunks == [] then ([], rest)
    else
      var before := FeedAll(rest, chunks[..|chunks| - 1]);
      var now := Split(before.1 + chunks[|chunks| - 1]);
      (before.0 + now.0, now.1)
  }

  /** However the byte stream is cut into events, the frames parsed are
      those of the whole stream at once. */
  lemma {:induction false} FeedAllIsSplit(rest: seq<byte>, chunks: seq<seq<byte>>)
    requires !HasFrame(rest)
    ensures FeedAll(rest, chunks) == Split(rest + Flatten(chunks))
    decreases |chunks|
  {
    if chunks != [] {
      var init := chunks[..|chunks| - 1];
      var last := chunks[|chunks| - 1];
      var whole := rest + Flatten(init);
      FeedAllIsSplit(rest, init);
      var now := Split(Split(whole).1 + last);
      assert FeedAll(rest, chunks) == (Split(whole).0 + now.0, now.1);
      SplitAppend(whole, last);
      assert Flatten(chunks) == Flatten(init) + last;
      assert rest + Flatten(chunks) == whole + last;
    } else {
      assert rest + Flatten(chunks) == rest;
    }
  }

  /** Frames sent with `send_ctrl` and received cut into arbitrary events
      come out exactly, in order, with nothing left over. */
  lemma FramesSurviveAnySplit(fs: seq<Frame>, chunks: seq<seq<byte>>)
    requires forall f | f in fs :: Encodable(f)
    requires Flatten(chunks) == EncodeAll(fs)
    ensures FeedAll([], chunks) == (fs, [])
  {
    FeedAllIsSplit([], chunks);
    SplitEncoded(fs, []);
    assert [] + Flatten(chunks) == EncodeAll(fs) + [];
    assert Split([]) == ([], []);
    assert fs + [] == fs;
  }

  /** The stream ids registered after frames are applied to the table:
      'O' registers an unknown id when the client accepts streams, 'X'
      removes, anything else leaves the table as it is. */
  function StreamsAfter(ids: set<StreamId>, frames: seq<Frame>, accepting: bool): set<StreamId>
  {
    if frames == [] then ids
    else
      var before := StreamsAfter(ids, frames[..|frames| - 1], accepting);
      var f := frames[|frames| - 1];
      if f.kind == OPEN && accepting then before + {f.id}
      else if f.kind == CLOSE then before - {f.id}
      else before
  }

  /** One turn of the parsing loop, seen from the frames taken so far. */
  lemma SplitFront(buf: seq<byte>, taken: seq<Frame>)
    requires HasFrame(buf)
    ensures taken + Split(buf).0 == (taken + [Head(buf)]) + Split(buf[FrameSize(buf)..]).0
    ensures Split(buf).1 == Split(buf[FrameSize(buf)..]).1
  {
  }

  /** What the client can see of one stream: its closed flag and its read
      queue of payloads, `None` standing for the end-of-stream `nil`. */
  datatype Stream = Stream(closed: bool, queue: seq<Option<seq<byte>>>)

  /** The registered streams, by id. */
  type Table = map<StreamId, Stream>

  /** A stream accepted from an 'O' frame: open, holding the frame's
      payload when it is not empty. */
  function Opened(payload: seq<byte>): Stream
  {
    Stream(false, if payload == [] then [] else [Some(payload)])
  }

  /** `handle_data` on a stream: one more payload queued. */
  function Queued(s: Stream, payload: seq<byte>): Stream
  {
    Stream(s.closed, s.queue + [Some(payload)])
  }

  /** `handle_close` on a stream: closed, with the end-of-stream marker
      queued the first time only. */
  function Closed(s: Stream): Stream
  {
    Stream(true, if s.closed then s.queue else s.queue + [None])
  }

  /** `handle_data(id, type, data)` (usocket.rb:76-89) on the table of
      registered streams. */
  function Step(t: Table, f: Frame, accepting: bool): Table
  {
    if f.kind == OPEN then
      if f.id in t || !accepting then t else t[f.id := Opened(f.payload)]
    else if f.kind == CLOSE then t - {f.id}
    else if f.kind == DATA && f.id in t then t[f.id := Queued(t[f.id], f.payload)]
    else t
  }

  /** The table after the frames are handled one after the other. */
  function Apply(t: Table, frames: seq<Frame>, accepting: bool): Table
  {
    if frames == [] then t
    else Step(Apply(t, frames[..|frames| - 1], accepting), frames[|frames| - 1], accepting)
  }

  /** One frame seen from a stream that was registered under `id`, paired
      with whether it is still the one registered there: its payloads while
      it is registered, its close on the first 'X' for its id, and nothing
      once it has left the table. */
  function TrackStep(st: (Stream, bool), id: StreamId, f: Frame): (Stream, bool)
  {
    if !st.1 || f.id != id then st
    else if f.kind == CLOSE then (Closed(st.0), false)
    else if f.kind == DATA then (Queued(st.0, f.payload), true)
    else st
  }

  /** A registered stream after the frames are handled. A stream that has
      left the table is closed, and nothing is ever taken off a queue. */
  function Track(s: Stream, id: StreamId, frames: seq<Frame>): (r: (Stream, bool))
    ensures r.1 || r.0.closed
    ensures |r.0.queue| >= |s.queue| && r.0.queue[..|s.queue|] == s.queue
    ensures s.closed ==> r.0.closed
  {
    if frames == [] then (s, true)
    else TrackStep(Track(s, id, frames[..|frames| - 1]), id, frames[|frames| - 1])
  }

  /** The ids of the streams that 'O' frames register, in order, for a client
      that accepts streams. */
  function Accepted(ids: set<StreamId>, frames: seq<Frame>): seq<StreamId>
  {
    if frames == [] then []
    else
      var init := frames[..|frames| - 1];
      var f := frames[|frames| - 1];
      Accepted(ids, init) + (if f.kind == OPEN && f.id !in StreamsAfter(ids, init, true) then [f.id] else [])
  }

  /** The ids left registered by `Apply` are those `StreamsAfter` gives. */
  lemma {:induction false} ApplyKeys(t: Table, frames: seq<Frame>, accepting: bool)
    ensures Apply(t, frames, accepting).Keys == StreamsAfter(t.Keys, frames, accepting)
    decreases |frames|
  {
    if frames != [] {
      ApplyKeys(t, frames[..|frames| - 1], accepting);
    }
  }

  /** A stream still registered after the frames is, in the table, exactly
      what tracking it on its own gives. */
  lemma {:induction false} TrackAgrees(t: Table, id: StreamId, frames: seq<Frame>, accepting: bool)
    requires id in t
    ensures Track(t[id], id, frames).1 ==>
      id in Apply(t, frames, accepting) && Apply(t, frames, accepting)[id] == Track(t[id], id, frames).0
    decreases |frames|
  {
    if frames != [] {
      TrackAgrees(t, id, frames[..|frames| - 1], accepting);
    }
  }

  lemma ApplySnoc(t: Table, frames: seq<Frame>, f: Frame, accepting: bool)
    ensures Apply(t, frames + [f], accepting) == Step(Apply(t, frames, accepting), f, accepting)
    ensures forall s: Stream, id: StreamId :: Track(s, id, frames + [f]) == TrackStep(Track(s, id, frames), id, f)
  {
    assert (frames + [f])[..|frames|] == frames;
  }

  lemma AcceptedSnoc(ids: set<StreamId>, frames: seq<Frame>, f: Frame)
    ensures Accepted(ids, frames + [f])
      == Accepted(ids, frames) + (if f.kind == OPEN && f.id !in StreamsAfter(ids, frames, true) then [f.id] else [])
  {
    assert (frames + [f])[..|frames|] == frames;
  }

  /** Each socket of `orig` with the state and registration it has after
      the frames, starting registered. */
  ghost function Tracked(orig: map<USocket, Stream>, frames: seq<Frame>): map<USocket, (Stream, bool)>
  {
    map s | s in orig :: Track(orig[s], s.id, frames)
  }

  /** Every tracked socket after one more frame. */
  ghost function Advance(want: map<USocket, (Stream, bool)>, f: Frame): map<USocket, (Stream, bool)>
  {
    map s | s in want :: TrackStep(want[s], s.id, f)
  }

  /** The ids of the streams the frames put in the accept queue, if there
      is one. */
  function Expected(t: Table, frames: seq<Frame>, accepting: bool): seq<StreamId>
  {
    if accepting then Accepted(t.Keys, frames) else []
  }

  /** One more frame, in terms of one more step of each reference function. */
  lemma FeedStep(t: Table, orig: map<USocket, Stream>, frames: seq<Frame>, f: Frame, accepting: bool)
    ensures Apply(t, frames + [f], accepting) == Step(Apply(t, frames, accepting), f, accepting)
    ensures Tracked(orig, frames + [f]) == Advance(Tracked(orig, frames), f)
    ensures Expected(t, frames + [f], accepting)
      == Expected(t, frames, accepting)
         + if f.kind == OPEN && accepting && f.id !in Apply(t, frames, accepting) then [f.id] else []
  {
    ApplySnoc(t, frames, f, accepting);
    if accepting {
      AcceptedSnoc(t.Keys, frames, f);
      ApplyKeys(t, frames, true);
    }
  }

  // ---------------------------------------------------------------------
  // Objects

  /** The underlying connection, as the messages handed to `send_data`. */
  class ConnectionLog {
    var messages: seq<seq<byte>>

    constructor ()
      ensures messages == []
    {
      messages := [];
    }

    method SendData(m: seq<byte>)
      modifies this
      ensures messages == old(messages) + [m]
    {
      messages := messages + [m];
    }
  }

  /** A server's queue of accepted streams. */
  class AcceptQueue {
    var sockets: seq<USocket>

    constructor ()
      ensures sockets == []
    {
      sockets := [];
    }
  }

  /** The stream ids of a run of sockets, in order. */
  function Ids(qs: seq<USocket>): seq<StreamId>
  {
    seq(|qs|, i requires 0 <= i < |qs| => qs[i].id)
  }

  class USocket {
    const connection: ConnectionLog
    const client: Client
    const id: StreamId
    var closed: bool
    /** Received payloads, and `None` for the end-of-stream `nil`. */
    var readQueue: seq<Option<seq<byte>>>

    constructor (connection: ConnectionLog, client: Client, id: StreamId)
      ensures this.connection == connection && this.client == client && this.id == id
      ensures !closed && readQueue == []
    {
      this.connection, this.client, this.id := connection, client, id;
      closed, readQueue := false, [];
    }

    /** `readpartial`: the empty string once closed (without taking from the
        queue); otherwise the next queued payload, or the empty string for
        the end-of-stream marker. */
    method ReadPartial() returns (data: seq<byte>)
      requires closed || readQueue != []
      modifies this
      ensures closed == old(closed)
      ensures old(closed) ==> data == [] && readQueue == old(readQueue)
      ensures !old(closed) ==>
        readQueue == old(readQueue)[1..]
        && data == match old(readQueue)[0] case Some(d) => d case None => []
    {
      if closed {
        return [];
      }
      var head := readQueue[0];
      readQueue := readQueue[1..];
      data := match head case Some(d) => d case None => [];
    }

    /** `handle_close`: mark closed and queue the end-of-stream marker, once. */
    method HandleClose()
      modifies this
      ensures closed
      ensures readQueue == if old(closed) then old(readQueue) else old(readQueue) + [None]
    {
      if closed {
        return;
      }
      closed := true;
      readQueue := readQueue + [None];
    }

    /** `handle_data`: queue a received payload. */
    method HandleData(data: seq<byte>)
      modifies this
      ensures readQueue == old(readQueue) + [Some(data)] && closed == old(closed)
    {
      readQueue := readQueue + [Some(data)];
    }

    /** `send_ctrl`: one framed message on the connection. */
    method SendCtrl(kind: byte, data: seq<byte>)
      modifies connection
      ensures connection.messages == old(connection.messages) + [Encode(Frame(kind, id, data))]
    {
      connection.SendData([kind] + id + Be32(|data|) + data);
    }

    /** `close`: the first call marks the stream closed, sends one 'X' frame
        and deregisters the id from the client; later calls do nothing. */
    method Close()
      modifies this, connection, client
      ensures closed && readQueue == old(readQueue)
      ensures old(closed) ==> unchanged(connection, client)
      ensures !old(closed) ==>
        connection.messages == old(connection.messages) + [Encode(Frame(CLOSE, id, []))]
        && client.sockets == old(client.sockets) - {id}
      ensures client.rest == old(client.rest) && client.running == old(client.running)
    {
      if closed {
        return;
      }
      closed := true;
      SendCtrl(CLOSE, []);
      client.Remove(id);
    }

    /** `write`: a 'D' frame, only while open and only for non-empty data. */
    method Write(data: seq<byte>)
      modifies connection
      ensures !closed && data != [] ==>
        connection.messages == old(connection.messages) + [Encode(Frame(DATA, id, data))]
      ensures closed || data == [] ==> connection.messages == old(connection.messages)
    {
      if closed {
        return;
      }
      if data != [] {
        SendCtrl(DATA, data);
      }
    }
  }

  class Client {
    const connection: ConnectionLog
    const acceptQueue: AcceptQueue?
    var sockets: map<StreamId, USocket>
    /** Bytes received but not yet framed (`rest` in `run_recv`). */
    var rest: seq<byte>
    /** False once a `:close` event has ended the receive loop. */
    var running: bool

    constructor (connection: ConnectionLog, acceptQueue: AcceptQueue?)
      ensures this.connection == connection && this.acceptQueue == acceptQueue
      ensures sockets == map[] && rest == [] && running && Valid()
    {
      this.connection, this.acceptQueue := connection, acceptQueue;
      sockets, rest, running := map[], [], true;
    }

    function AcceptSet(): set<object>
    {
      if acceptQueue == null then {} else {acceptQueue}
    }

    /** Every registered stream is filed under its own id and belongs to
        this client and its connection. */
    ghost predicate Valid()
      reads this`sockets, sockets.Values
    {
      forall id :: id in sockets ==>
        sockets[id].id == id && sockets[id].client == this && sockets[id].connection == connection
    }

    /** The registered streams as values. */
    ghost function View(): Table
      reads this`sockets, sockets.Values
    {
      map id | id in sockets :: Stream(sockets[id].closed, sockets[id].readQueue)
    }

    /** `remove` */
    method Remove(id: StreamId)
      modifies this
      ensures sockets == old(sockets) - {id}
      ensures rest == old(rest) && running == old(running)
      ensures old(Valid()) ==> Valid()
    {
      sockets := sockets - {id};
    }

    /** `connect`: register a new stream under `id` (a fresh random id in the
        source, passed in here) and announce it with an empty 'O' frame. */
    method Connect(id: StreamId) returns (s: USocket)
      requires Valid()
      modifies this, connection
      ensures fresh(s) && s.id == id && s.client == this && s.connection == connection
      ensures !s.closed && s.readQueue == []
      ensures sockets == old(sockets)[id := s]
      ensures connection.messages == old(connection.messages) + [Encode(Frame(OPEN, id, []))]
      ensures rest == old(rest) && running == old(running)
      ensures Valid()
    {
      s := new USocket(connection, this, id);
      sockets := sockets[id := s];
      s.SendCtrl(OPEN, []);
    }

    /** `handle_data`: apply one frame to the stream table. The registered
        streams change as `Step` says, each registered socket as `TrackStep`
        says, and a stream accepted from an 'O' frame joins the accept queue. */
    method HandleData(id: StreamId, kind: byte, data: seq<byte>)
      requires Valid()
      modifies this, sockets.Values, AcceptSet()
      ensures Valid() && View() == Step(old(View()), Frame(kind, id, data), acceptQueue != null)
      ensures forall s :: s in old(sockets.Values) ==>
        (Stream(s.closed, s.readQueue), s.id in sockets && sockets[s.id] == s)
          == TrackStep((Stream(old(s.closed), old(s.readQueue)), true), s.id, Frame(kind, id, data))
      ensures forall s :: s in sockets.Values ==> s in old(sockets.Values) || fresh(s)
      ensures kind == OPEN && id !in old(sockets) && acceptQueue != null ==>
        id in sockets && fresh(sockets[id]) && acceptQueue.sockets == old(acceptQueue.sockets) + [sockets[id]]
      ensures !(kind == OPEN && id !in old(sockets) && acceptQueue != null) ==> unchanged(AcceptSet())
      ensures rest == old(rest) && running == old(running)
    {
      if kind == OPEN {
        if id in sockets || acceptQueue == null {
          return;
        }
        Accept(id, data);
      } else if kind == CLOSE {
        if id in sockets {
          CloseStream(id);
        }
      } else if kind == DATA {
        if id in sockets {
          Deliver(id, data);
        }
      }
    }

    /** An 'O' frame for an unregistered id, on a client that accepts
        streams: a new open stream holding the frame's payload, if any, is
        registered and queued for `accept`. */
    method Accept(id: StreamId, data: seq<byte>)
      requires Valid() && id !in sockets && acceptQueue != null
      modifies this, acceptQueue
      ensures Valid() && id in sockets && fresh(sockets[id]) && sockets == old(sockets)[id := sockets[id]]
      ensures View() == old(View())[id := Opened(data)]
      ensures acceptQueue.sockets == old(acceptQueue.sockets) + [sockets[id]]
      ensures rest == old(rest) && running == old(running)
    {
      ghost var before := View();
      var s := new USocket(connection, this, id);
      sockets := sockets[id := s];
      acceptQueue.sockets := acceptQueue.sockets + [s];
      if data != [] {
        s.HandleData(data);
      }
      forall k | k in sockets
        ensures View()[k] == before[id := Opened(data)][k]
      {
      }
    }

    /** An 'X' frame for a registered id: the stream leaves the table and is
        closed. */
    method CloseStream(id: StreamId)
      requires Valid() && id in sockets
      modifies this, sockets[id]
      ensures Valid() && sockets == old(sockets) - {id}
      ensures View() == old(View()) - {id}
      ensures Stream(old(sockets[id]).closed, old(sockets[id]).readQueue) == Closed(old(View())[id])
      ensures rest == old(rest) && running == old(running)
    {
      var s := sockets[id];
      sockets := sockets - {id};
      s.HandleClose();
    }

    /** A 'D' frame for a registered id: the payload is queued. */
    method Deliver(id: StreamId, data: seq<byte>)
      requires Valid() && id in sockets
      modifies sockets[id]
      ensures Valid() && View() == old(View())[id := Queued(old(View())[id], data)]
    {
      sockets[id].HandleData(data);
    }

    /** The client is as expected: its registered streams are `t`; each
        socket of `want` has the state and registration given there; and the
        accept queue is the queue `q0` followed by streams with the ids `ids`. */
    ghost predicate Matches(t: Table, want: map<USocket, (Stream, bool)>, q0: seq<USocket>, ids: seq<StreamId>)
      reads this`sockets, sockets.Values, AcceptSet(), want.Keys
    {
      Valid() && View() == t
      && (forall s :: s in want ==> (Stream(s.closed, s.readQueue), s.id in sockets && sockets[s.id] == s) == want[s])
      && (acceptQueue != null ==>
            |q0| <= |acceptQueue.sockets| && acceptQueue.sockets[..|q0|] == q0
            && Ids(acceptQueue.sockets[|q0|..]) == ids)
    }

    /** The registered sockets with their states. */
    ghost function Snapshot(): map<USocket, Stream>
      reads this`sockets, sockets.Values
    {
      map s | s in sockets.Values :: Stream(s.closed, s.readQueue)
    }

    /** The streams waiting in the accept queue. */
    function Waiting(): seq<USocket>
      reads AcceptSet()
    {
      if acceptQueue == null then [] else acceptQueue.sockets
    }

    /** Before any frame of a batch, the client matches its own state. */
    lemma MatchesAtStart()
      requires Valid()
      ensures Matches(View(), Tracked(Snapshot(), []), Waiting(), [])
    {
      forall s | s in Snapshot()
        ensures s.id in sockets && sockets[s.id] == s
      {
        var id :| id in sockets && sockets[id] == s;
      }
    }

    /** The `:data` branch of `run_recv`: append the bytes, then take and
        handle every whole frame at the front. Returns the frames handled. */
    method Feed(data: seq<byte>) returns (frames: seq<Frame>)
      requires running && Valid()
      modifies this, sockets.Values, AcceptSet()
      ensures frames == Split(old(rest) + data).0 && rest == Split(old(rest) + data).1
      ensures Valid() && View() == Apply(old(View()), frames, acceptQueue != null)
      ensures forall s :: s in old(sockets.Values) ==>
        (Stream(s.closed, s.readQueue), s.id in sockets && sockets[s.id] == s)
          == Track(Stream(old(s.closed), old(s.readQueue)), s.id, frames)
      ensures acceptQueue != null ==>
        var n := |old(acceptQueue.sockets)|;
        |acceptQueue.sockets| == n + |Accepted(old(View()).Keys, frames)|
        && acceptQueue.sockets[..n] == old(acceptQueue.sockets)
        && Ids(acceptQueue.sockets[n..]) == Accepted(old(View()).Keys, frames)
      ensures running
    {
      MatchesAtStart();
      ghost var t0, orig, q0 := View(), Snapshot(), Waiting();
      frames := HandleFrames(data, t0, orig, q0);
      ghost var want := Tracked(orig, frames);
      assert View() == Apply(t0, frames, acceptQueue != null) && t0 == old(View()) && orig == old(Snapshot());
      forall s | s in old(sockets.Values)
        ensures (Stream(s.closed, s.readQueue), s.id in sockets && sockets[s.id] == s)
          == Track(Stream(old(s.closed), old(s.readQueue)), s.id, frames)
      {
        assert s in orig && orig[s] == Stream(old(s.closed), old(s.readQueue));
        assert want[s] == Track(orig[s], s.id, frames);
      }
      if acceptQueue != null {
        assert q0 == old(acceptQueue.sockets);
      }
    }

    /** The parsing loop of the `:data` branch: handle every whole frame at
        the front of the buffered bytes followed by `data`, and keep the
        bytes left over. */
    method HandleFrames(data: seq<byte>, ghost t0: Table, ghost orig: map<USocket, Stream>, ghost q0: seq<USocket>)
        returns (frames: seq<Frame>)
      requires Matches(t0, Tracked(orig, []), q0, [])
      modifies this, sockets.Values, AcceptSet()
      ensures frames == Split(old(rest) + data).0 && rest == Split(old(rest) + data).1
      ensures Matches(Apply(t0, frames, acceptQueue != null), Tracked(orig, frames), q0,
                      Expected(t0, frames, acceptQueue != null))
      ensures running == old(running)
    {
      rest := rest + data;
      frames := [];
      assert [] + Split(rest).0 == Split(rest).0;
      while HasFrame(rest)
        invariant Split(old(rest) + data).0 == frames + Split(rest).0
        invariant Split(old(rest) + data).1 == Split(rest).1
        invariant Matches(Apply(t0, frames, acceptQueue != null), Tracked(orig, frames), q0,
                          Expected(t0, frames, acceptQueue != null))
        invariant forall s :: s in sockets.Values ==> s in old(sockets.Values) || fresh(s)
        invariant running == old(running)
        decreases |rest|
      {
        SplitFront(rest, frames);
        var f := HandleNext(Apply(t0, frames, acceptQueue != null), Tracked(orig, frames), q0,
                            Expected(t0, frames, acceptQueue != null));
        FeedStep(t0, orig, frames, f, acceptQueue != null);
        frames := frames + [f];
      }
    }

    /** One turn of the parsing loop: take the frame at the front of the
        buffered bytes and handle it. */
    method HandleNext(ghost t: Table, ghost want: map<USocket, (Stream, bool)>, ghost q0: seq<USocket>, ghost ids: seq<StreamId>)
        returns (f: Frame)
      requires HasFrame(rest) && Matches(t, want, q0, ids)
      modifies this, sockets.Values, AcceptSet()
      ensures f == Head(old(rest)) && rest == old(rest)[FrameSize(old(rest))..]
      ensures Matches(Step(t, f, acceptQueue != null), Advance(want, f), q0,
                      ids + if f.kind == OPEN && acceptQueue != null && f.id !in t then [f.id] else [])
      ensures forall s :: s in sockets.Values ==> s in old(sockets.Values) || fresh(s)
      ensures running == old(running)
    {
      f := Head(rest);
      rest := rest[FrameSize(rest)..];
      HandleFrame(f, t, want, q0, ids);
    }

    /** Handle one frame, seen from the expected state of the client. */
    method HandleFrame(f: Frame, ghost t: Table, ghost want: map<USocket, (Stream, bool)>, ghost q0: seq<USocket>, ghost ids: seq<StreamId>)
      requires Matches(t, want, q0, ids)
      modifies this, sockets.Values, AcceptSet()
      ensures Matches(Step(t, f, acceptQueue != null), Advance(want, f), q0,
                      ids + if f.kind == OPEN && acceptQueue != null && f.id !in t then [f.id] else [])
      ensures forall s :: s in sockets.Values ==> s in old(sockets.Values) || fresh(s)
      ensures rest == old(rest) && running == old(running)
    {
      HandleData(f.id, f.kind, f.payload);
      forall s | s in want
        ensures (Stream(s.closed, s.readQueue), s.id in sockets && sockets[s.id] == s) == Advance(want, f)[s]
      {
        if !(s in old(sockets.Values)) {
          assert !(s.id in old(sockets) && old(sockets[s.id]) == s);
        }
      }
    }

    /** The `:reset` / `:close` branch of `run_recv`: close every registered
        stream and clear the table; `:close` also ends the loop. */
    method Shutdown(endLoop: bool)
      modifies this, sockets.Values
      ensures sockets == map[] && rest == old(rest)
      ensures running == (old(running) && !endLoop)
      ensures forall s :: s in old(sockets.Values) ==>
        s.closed && s.readQueue == if old(s.closed) then old(s.readQueue) else old(s.readQueue) + [None]
    {
      var todo := sockets.Values;
      while todo != {}
        invariant todo <= old(sockets.Values)
        invariant sockets == old(sockets) && rest == old(rest) && running == old(running)
        invariant forall s :: s in old(sockets.Values) && s !in todo ==>
          s.closed && s.readQueue == if old(s.closed) then old(s.readQueue) else old(s.readQueue) + [None]
        invariant forall s :: s in todo ==> unchanged(s)
        decreases todo
      {
        var s :| s in todo;
        s.HandleClose();
        todo := todo - {s};
      }
      sockets := map[];
      running := running && !endLoop;
    }
  }
}
