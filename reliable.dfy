/** The per-peer reliability engine of connection.rb: a `Connection` keeps a
    send window (`sendIdx`, `sendBuffer`), a sparse reassembly buffer
    (`recvIdx`, `recvBuffer`), the first-seen times of missing sequence
    numbers (`unreceiveds`), its open/closed state, the queue of delivered
    messages and a log of the datagrams it writes to its peer. The
    `ConnectionManager` routes decoded frames to connections by
    (ip, port, connection id). Time is an abstract integer clock. */
module Reliable {
  import opened Wire

  type Chunk = seq<byte>

  /** A reassembly slot: `None` is Ruby's `nil`, a sequence not yet received. */
  type Slot = Option<Chunk>

  /** Frame type bytes (connection.rb:7-10). The close frame's type has no value. */
  const TYPE_REQ: byte := 0
  const TYPE_ACK: byte := 1
  const TYPE_DATA: byte := 2
  const TYPE_RESEND: byte := 3

  /** `each_slice 1024` in `send_data`. */
  const CHUNK_SIZE: nat := 1024

  /** `timeout = 200` in `request_resend`. */
  const RESEND_TIMEOUT: int := 200

  function Min(a: nat, b: nat): nat { if a <= b then a else b }

  function Nones(n: nat): (r: seq<Slot>)
    ensures |r| == n && forall i :: 0 <= i < n ==> r[i].None?
  {
    seq(n, _ => None)
  }

  // ---------------------------------------------------------------------
  // Framing (`socket_send`)

  /** `socket_send`: type byte, then the connection id, then the payload. */
  function Datagram(kind: byte, connId: seq<byte>, payload: seq<byte>): (d: seq<byte>)
    ensures |d| == 1 + |connId| + |payload|
    ensures d[0] == kind && d[1..1 + |connId|] == connId && d[1 + |connId|..] == payload
  {
    [kind] + connId + payload
  }

  /** A DATA frame: the 4-byte sequence number, then the chunk. */
  function DataFrame(connId: seq<byte>, idx: nat, chunk: Chunk): seq<byte>
  {
    Datagram(TYPE_DATA, connId, Be32(idx) + chunk)
  }

  /** The DATA frames of chunks numbered from `first` on. */
  function DataFrames(connId: seq<byte>, first: nat, cs: seq<Chunk>): seq<seq<byte>>
  {
    seq(|cs|, j requires 0 <= j < |cs| => DataFrame(connId, first + j, cs[j]))
  }

  /** The ACK frame of `send_ack`: receive cursor and total sent count. */
  function AckFrame(connId: seq<byte>, recvIdx: nat, sentCount: nat): seq<byte>
  {
    Datagram(TYPE_ACK, connId, Be32(recvIdx) + Be32(sentCount))
  }

  /** `ids.pack('N*')`. */
  function PackIds(ids: seq<nat>): (r: seq<byte>)
    ensures |r| == 4 * |ids|
  {
    if ids == [] then [] else Be32(ids[0]) + PackIds(ids[1..])
  }

  /** The RESEND frame of `request_resend`. */
  function ResendFrame(connId: seq<byte>, ids: seq<nat>): seq<byte>
  {
    Datagram(TYPE_RESEND, connId, PackIds(ids))
  }

  // ---------------------------------------------------------------------
  // Chunking (`send_data`)

  /** `message.each_slice 1024`. */
  function Chunks(m: seq<byte>): seq<Chunk>
    decreases |m|
  {
    if |m| == 0 then []
    else if |m| <= CHUNK_SIZE then [m]
    else [m[..CHUNK_SIZE]] + Chunks(m[CHUNK_SIZE..])
  }

  /** The chunks are non-empty, at most 1024 long, all full but the last,
      and their concatenation is the message. */
  lemma {:induction false} ChunksSplitMessage(m: seq<byte>)
    ensures Flatten(Chunks(m)) == m
    ensures forall j :: 0 <= j < |Chunks(m)| ==> 0 < |Chunks(m)[j]| <= CHUNK_SIZE
    ensures forall j :: 0 <= j < |Chunks(m)| - 1 ==> |Chunks(m)[j]| == CHUNK_SIZE
    ensures |Chunks(m)| == (|m| + CHUNK_SIZE - 1) / CHUNK_SIZE
    decreases |m|
  {
    if |m| == 0 {
    } else if |m| <= CHUNK_SIZE {
      FlattenCons(m, []);
    } else {
      ChunksSplitMessage(m[CHUNK_SIZE..]);
      FlattenCons(m[..CHUNK_SIZE], Chunks(m[CHUNK_SIZE..]));
      assert m == m[..CHUNK_SIZE] + m[CHUNK_SIZE..];
    }
  }

  // ---------------------------------------------------------------------
  // Acknowledgement (`ack`)

  /** Lines 110-111: drop `reachedIdx - sendIdx` leading chunks (all of them
      if fewer are held) and move the base to `reachedIdx`, even backwards. */
  function AckSend(sendIdx: nat, buf: seq<Chunk>, reachedIdx: nat): (nat, seq<Chunk>)
  {
    if reachedIdx > sendIdx then (reachedIdx, buf[Min(reachedIdx - sendIdx, |buf|)..])
    else (reachedIdx, buf)
  }

  /** An acknowledgement inside the window drops exactly the acknowledged
      chunks and keeps the total sent count `sendIdx + |sendBuffer|`. */
  lemma AckDropsAcknowledged(sendIdx: nat, buf: seq<Chunk>, reachedIdx: nat)
    requires sendIdx <= reachedIdx <= sendIdx + |buf|
    ensures AckSend(sendIdx, buf, reachedIdx).0 == reachedIdx
    ensures AckSend(sendIdx, buf, reachedIdx).1 == buf[reachedIdx - sendIdx..]
    ensures AckSend(sendIdx, buf, reachedIdx).0 + |AckSend(sendIdx, buf, reachedIdx).1| == sendIdx + |buf|
  {
  }

  /** As written, a stale acknowledgement moves the base backwards without
      touching the buffer, so the reported total sent count shrinks and each
      held chunk is afterwards paired with a smaller sequence number. */
  lemma StaleAckMovesBaseBack(sendIdx: nat, buf: seq<Chunk>, reachedIdx: nat)
    requires reachedIdx < sendIdx
    ensures AckSend(sendIdx, buf, reachedIdx) == (reachedIdx, buf)
    ensures AckSend(sendIdx, buf, reachedIdx).0 + |AckSend(sendIdx, buf, reachedIdx).1| < sendIdx + |buf|
  {
  }

  /** Line 112 with the negative-index case read as a no-op: when the peer
      reports more sent chunks than this side has consumed, the buffer is
      extended with empty slots up to `sentCount - recvIdx` slots. */
  function Reserve(buf: seq<Slot>, recvIdx: nat, sentCount: nat): (r: seq<Slot>)
    ensures |r| >= |buf| && r[..|buf|] == buf
    ensures sentCount > recvIdx ==> |r| >= sentCount - recvIdx
    ensures |r| > |buf| ==> |r| == sentCount - recvIdx
    ensures forall i :: |buf| <= i < |r| ==> r[i].None?
  {
    if sentCount > recvIdx && sentCount - recvIdx > |buf| then buf + Nones(sentCount - recvIdx - |buf|)
    else buf
  }

  /** Line 112 as written: `@recv_buffer[sentCount - 1 - recvIdx] ||= nil`.
      A non-negative index past the end extends the array with `nil`; a
      negative index counts from the end and raises IndexError (`None`
      here) when it reaches before the start. */
  function ReserveAsWritten(buf: seq<Slot>, recvIdx: nat, sentCount: nat): Option<seq<Slot>>
  {
    if sentCount == 0 then Some(buf)
    else
      var i := sentCount as int - 1 - recvIdx as int;
      if i >= |buf| then Some(buf + Nones(i + 1 - |buf|))
      else if i >= 0 then Some(buf)
      else if -i <= |buf| then Some(buf)
      else None
  }

  /** Where the source does not raise, it computes `Reserve`. */
  lemma ReserveAsWrittenAgrees(buf: seq<Slot>, recvIdx: nat, sentCount: nat)
    requires ReserveAsWritten(buf, recvIdx, sentCount).Some?
    ensures ReserveAsWritten(buf, recvIdx, sentCount).value == Reserve(buf, recvIdx, sentCount)
  {
  }

  /** The source raises on the acknowledgement a peer sends once everything
      it sent has been delivered here (`sentCount == recvIdx`, buffer
      drained), and in general whenever `recvIdx - sentCount` reaches past
      the buffer. */
  lemma ReserveAsWrittenRaises(buf: seq<Slot>, recvIdx: nat, sentCount: nat)
    requires 0 < sentCount <= recvIdx && recvIdx - sentCount >= |buf|
    ensures ReserveAsWritten(buf, recvIdx, sentCount) == None
    ensures ReserveAsWritten([], 1, 1) == None
  {
  }

  // ---------------------------------------------------------------------
  // Reassembly (`data`)

  /** `@recv_buffer[i] = msg`: overwrite slot i, or extend with empty slots
      up to it. */
  function Place(buf: seq<Slot>, i: nat, msg: Chunk): (r: seq<Slot>)
    ensures |r| == if i < |buf| then |buf| else i + 1
    ensures r[i] == Some(msg)
    ensures forall j :: 0 <= j < |buf| && j != i ==> r[j] == buf[j]
    ensures forall j :: |buf| <= j < |r| && j != i ==> r[j].None?
  {
    if i < |buf| then buf[i := Some(msg)] else buf + Nones(i - |buf|) + [Some(msg)]
  }

  /** The number of filled slots before the first empty one: what the
      `while @recv_buffer.first` loop delivers. */
  function ReadyCount(buf: seq<Slot>): (n: nat)
    ensures n <= |buf|
    ensures forall j :: 0 <= j < n ==> buf[j].Some?
    ensures n == |buf| || buf[n].None?
  {
    if buf == [] || buf[0].None? then 0 else 1 + ReadyCount(buf[1..])
  }

  /** A buffer whose next expected slot is still missing. */
  predicate Compact(buf: seq<Slot>)
  {
    buf == [] || buf[0].None?
  }

  /** Storing a chunk into a compact buffer delivers something exactly when
      the chunk is the next expected one, and then the chunk comes first;
      what is left is compact again. */
  lemma PlaceDeliversAtHead(buf: seq<Slot>, i: nat, msg: Chunk)
    requires Compact(buf)
    ensures ReadyCount(Place(buf, i, msg)) > 0 <==> i == 0
    ensures i == 0 ==> Place(buf, i, msg)[0] == Some(msg)
    ensures Compact(Place(buf, i, msg)[ReadyCount(Place(buf, i, msg))..])
  {
  }

  /** Line 118 as written for any index: `@recv_buffer[idx - @recv_idx] = msg`
      with a negative offset counts from the end of the buffer, and raises
      IndexError (`None` here) when it reaches before the start. */
  function PlaceAsWritten(buf: seq<Slot>, i: int, msg: Chunk): Option<seq<Slot>>
  {
    if i >= 0 then Some(Place(buf, i, msg))
    else if -i <= |buf| then Some(buf[|buf| + i := Some(msg)])
    else None
  }

  /** As written, a duplicate of the last delivered chunk (offset -1) fills
      the buffer's last slot: a later sequence number is then taken as
      received, with the duplicate's bytes. */
  lemma DuplicateChunkFillsWrongSlot(buf: seq<Slot>, msg: Chunk)
    requires |buf| >= 2 && buf[|buf| - 1].None?
    ensures PlaceAsWritten(buf, -1, msg).Some?
    ensures PlaceAsWritten(buf, -1, msg).value[|buf| - 1] == Some(msg)
    ensures PlaceAsWritten(buf, -1, msg).value[..|buf| - 1] == buf[..|buf| - 1]
    ensures PlaceAsWritten([None, None], -1, msg) == Some([None, Some(msg)])
  {
    var two: seq<Slot> := [None, None];
    assert two[1 := Some(msg)] == [None, Some(msg)];
  }

  // ---------------------------------------------------------------------
  // Retransmission (`resend`)

  /** The frames `resend` writes, as intended: one per requested index in
      the window, skipping indices the peer has already acknowledged, and
      stopping at the first index past the buffer, where `String + nil`
      raises. */
  function Retransmits(connId: seq<byte>, sendIdx: nat, buf: seq<Chunk>, idxs: seq<nat>): seq<seq<byte>>
  {
    if idxs == [] then []
    else if idxs[0] < sendIdx then Retransmits(connId, sendIdx, buf, idxs[1..])
    else if idxs[0] >= sendIdx + |buf| then []
    else [DataFrame(connId, idxs[0], buf[idxs[0] - sendIdx])] + Retransmits(connId, sendIdx, buf, idxs[1..])
  }

  /** Lines 128-131 as written: `@send_buffer[idx - @send_idx]` with a
      negative offset counts from the end of the buffer. The frames written,
      and whether the loop raised (a `nil` chunk). */
  function RetransmitsAsWritten(connId: seq<byte>, sendIdx: nat, buf: seq<Chunk>, idxs: seq<nat>): (seq<seq<byte>>, bool)
  {
    if idxs == [] then ([], false)
    else
      var i := idxs[0] as int - sendIdx as int;
      if i >= |buf| || i < -|buf| then ([], true)
      else
        var chunk := if i >= 0 then buf[i] else buf[|buf| + i];
        var tail := RetransmitsAsWritten(connId, sendIdx, buf, idxs[1..]);
        ([DataFrame(connId, idxs[0], chunk)] + tail.0, tail.1)
  }

  /** On indices the window has not yet passed, the source computes
      `Retransmits`, and raises exactly when an index lies past the buffer. */
  lemma {:induction false} RetransmitsAsWrittenAgrees(connId: seq<byte>, sendIdx: nat, buf: seq<Chunk>, idxs: seq<nat>)
    requires forall i :: 0 <= i < |idxs| ==> idxs[i] >= sendIdx
    ensures RetransmitsAsWritten(connId, sendIdx, buf, idxs).0 == Retransmits(connId, sendIdx, buf, idxs)
    ensures RetransmitsAsWritten(connId, sendIdx, buf, idxs).1 <==>
      exists i :: 0 <= i < |idxs| && idxs[i] >= sendIdx + |buf|
    decreases |idxs|
  {
    if idxs != [] {
      RetransmitsAsWrittenAgrees(connId, sendIdx, buf, idxs[1..]);
      if idxs[0] < sendIdx + |buf| {
        forall i | 0 <= i < |idxs| && idxs[i] >= sendIdx + |buf|
          ensures 0 <= i - 1 < |idxs[1..]| && idxs[1..][i - 1] >= sendIdx + |buf|
        {
        }
        forall i | 0 <= i < |idxs[1..]| && idxs[1..][i] >= sendIdx + |buf|
          ensures idxs[i + 1] >= sendIdx + |buf|
        {
        }
      }
    }
  }

  /** As written, a resend request for the chunk just before the window
      (already acknowledged) retransmits the window's last chunk under that
      older sequence number. */
  lemma StaleResendSendsWrongChunk(connId: seq<byte>, sendIdx: nat, a: Chunk, b: Chunk)
    requires sendIdx >= 1
    ensures RetransmitsAsWritten(connId, sendIdx, [a, b], [sendIdx - 1]) == ([DataFrame(connId, sendIdx - 1, b)], false)
    ensures Retransmits(connId, sendIdx, [a, b], [sendIdx - 1]) == []
  {
    var idxs := [sendIdx - 1];
    assert idxs[1..] == [];
    assert RetransmitsAsWritten(connId, sendIdx, [a, b], idxs[1..]) == ([], false);
    assert [DataFrame(connId, sendIdx - 1, b)] + [] == [DataFrame(connId, sendIdx - 1, b)];
  }

  /** When the buffer holds exactly the chunks sent with sequence numbers
      `sendIdx..`, a resend of held indices repeats, frame for frame, the
      DATA frames that were first sent for those indices. */
  lemma {:induction false} RetransmitsRepeatOriginals(connId: seq<byte>, outgoing: seq<Chunk>, sendIdx: nat, idxs: seq<nat>)
    requires sendIdx <= |outgoing|
    requires forall i :: 0 <= i < |idxs| ==> sendIdx <= idxs[i] < |outgoing|
    ensures Retransmits(connId, sendIdx, outgoing[sendIdx..], idxs)
         == seq(|idxs|, k requires 0 <= k < |idxs| => DataFrames(connId, 0, outgoing)[idxs[k]])
  {
    if idxs != [] {
      RetransmitsRepeatOriginals(connId, outgoing, sendIdx, idxs[1..]);
      var all := DataFrames(connId, 0, outgoing);
      var want := seq(|idxs|, k requires 0 <= k < |idxs| => all[idxs[k]]);
      assert outgoing[sendIdx..][idxs[0] - sendIdx] == outgoing[idxs[0]];
      assert want == [all[idxs[0]]] + seq(|idxs| - 1, k requires 0 <= k < |idxs| - 1 => all[idxs[1..][k]]);
    }
  }

  // ---------------------------------------------------------------------
  // Gap tracking (`request_resend`)

  /** Sequence number k names an empty slot of a buffer based at `base`. */
  predicate IsGap(buf: seq<Slot>, base: nat, k: nat)
  {
    base <= k < base + |buf| && buf[k - base].None?
  }

  /** Sequence numbers of the empty slots of a buffer based at `base`. */
  function Gaps(buf: seq<Slot>, base: nat): set<nat>
  {
    set k: nat | k < base + |buf| && IsGap(buf, base, k)
  }

  /** Lines 136-139: every gap gets a first-seen time; `||=` keeps a time
      that is already there. */
  function Stamped(u: map<nat, int>, buf: seq<Slot>, base: nat, now: int): (s: map<nat, int>)
    ensures s.Keys == u.Keys + Gaps(buf, base)
    ensures forall k :: k in u ==> s[k] == u[k]
    ensures forall k :: k in s && k !in u ==> s[k] == now
  {
    map k | k in u.Keys + Gaps(buf, base) :: if k in u then u[k] else now
  }

  /** One more slot stamps its id when it is a gap without a time. */
  lemma StampedStep(u: map<nat, int>, buf: seq<Slot>, base: nat, now: int, i: nat)
    requires i < |buf|
    ensures var s := Stamped(u, buf[..i], base, now);
      Stamped(u, buf[..i + 1], base, now)
        == if buf[i].None? && base + i !in s then s[base + i := now] else s
  {
    var g := Gaps(buf[..i], base);
    var g' := Gaps(buf[..i + 1], base);
    forall k: nat
      ensures k in g' <==> k in g || (k == base + i && buf[i].None?)
    {
      if k != base + i {
        assert IsGap(buf[..i + 1], base, k) <==> IsGap(buf[..i], base, k);
      } else {
        assert IsGap(buf[..i + 1], base, k) <==> buf[i].None?;
      }
    }
  }

  /** Lines 141-143: the gaps whose recorded time is more than the timeout
      before `now`, in ascending order. */
  function Due(s: map<nat, int>, buf: seq<Slot>, base: nat, now: int): seq<nat>
    decreases |buf|
  {
    if buf == [] then []
    else
      var last := base + |buf| - 1;
      Due(s, buf[..|buf| - 1], base, now)
        + (if buf[|buf| - 1].None? && last in s && now - s[last] > RESEND_TIMEOUT then [last] else [])
  }

  /** Sequence number k is due at `now`: an empty slot whose recorded time
      is more than the timeout old. */
  predicate IsDue(s: map<nat, int>, buf: seq<Slot>, base: nat, now: int, k: nat)
  {
    IsGap(buf, base, k) && k in s && now - s[k] > RESEND_TIMEOUT
  }

  /** One more slot adds its id at the end exactly when it is due. */
  lemma DueStep(s: map<nat, int>, buf: seq<Slot>, base: nat, now: int, i: nat)
    requires i < |buf|
    ensures Due(s, buf[..i + 1], base, now)
         == Due(s, buf[..i], base, now)
            + (if buf[i].None? && base + i in s && now - s[base + i] > RESEND_TIMEOUT then [base + i] else [])
  {
    assert buf[..i + 1][..i] == buf[..i];
  }

  /** An id is due exactly when it is a gap, has a recorded time and that
      time is more than the timeout old. */
  lemma {:induction false} DueMembers(s: map<nat, int>, buf: seq<Slot>, base: nat, now: int)
    ensures forall k :: k in Due(s, buf, base, now) <==> IsDue(s, buf, base, now, k)
    decreases |buf|
  {
    if buf != [] {
      var init := buf[..|buf| - 1];
      var last := base + |buf| - 1;
      DueMembers(s, init, base, now);
      forall k: nat
        ensures k in Due(s, buf, base, now) <==> IsDue(s, buf, base, now, k)
      {
        if k != last {
          assert IsGap(buf, base, k) <==> IsGap(init, base, k);
        }
      }
    }
  }

  /** The due ids lie in the buffer's range and come strictly ascending. */
  lemma {:induction false} DueAscending(s: map<nat, int>, buf: seq<Slot>, base: nat, now: int)
    ensures forall i :: 0 <= i < |Due(s, buf, base, now)| ==> base <= Due(s, buf, base, now)[i] < base + |buf|
    ensures forall i, j :: 0 <= i < j < |Due(s, buf, base, now)| ==> Due(s, buf, base, now)[i] < Due(s, buf, base, now)[j]
    decreases |buf|
  {
    if buf != [] {
      DueAscending(s, buf[..|buf| - 1], base, now);
    }
  }

  /** Line 144: each requested id's time moves to `now + timeout`. */
  function Rescheduled(s: map<nat, int>, due: seq<nat>, now: int): (r: map<nat, int>)
    ensures r.Keys == s.Keys
  {
    map k | k in s :: if k in due then now + RESEND_TIMEOUT else s[k]
  }

  /** The ids one `request_resend` at `now` asks for. */
  function DueIds(u: map<nat, int>, buf: seq<Slot>, base: nat, now: int): seq<nat>
  {
    Due(Stamped(u, buf, base, now), buf, base, now)
  }

  /** The gap times after one `request_resend` at `now`. */
  function AfterRequest(u: map<nat, int>, buf: seq<Slot>, base: nat, now: int): map<nat, int>
  {
    var s := Stamped(u, buf, base, now);
    Rescheduled(s, Due(s, buf, base, now), now)
  }

  /** A request asks only for gaps whose first-seen time (the one already
      recorded, or `now` for a new gap) is more than the timeout old; a
      gap seen for the first time is never requested at once; every gap
      afterwards has a time, and the time of an id not requested is kept. */
  lemma RequestOnlyOverdue(u: map<nat, int>, buf: seq<Slot>, base: nat, now: int)
    ensures forall k :: k in DueIds(u, buf, base, now) <==>
      (k in Gaps(buf, base) && k in u && now - u[k] > RESEND_TIMEOUT)
    ensures Gaps(buf, base) <= AfterRequest(u, buf, base, now).Keys
    ensures forall k :: k in u && k !in DueIds(u, buf, base, now) ==> AfterRequest(u, buf, base, now)[k] == u[k]
  {
    DueMembers(Stamped(u, buf, base, now), buf, base, now);
    forall k: nat | k in u && k !in DueIds(u, buf, base, now)
      ensures AfterRequest(u, buf, base, now)[k] == u[k]
    {
    }
  }

  /** An id requested at `now` is not requested again by any later request
      at a time up to `now + 2 * timeout`, as long as its time has not been
      touched in between. */
  lemma RequestBackoff(u: map<nat, int>, buf: seq<Slot>, base: nat, now: int,
                       u': map<nat, int>, buf': seq<Slot>, base': nat, later: int, k: nat)
    requires k in DueIds(u, buf, base, now)
    requires k in u' && u'[k] == now + RESEND_TIMEOUT
    requires later <= now + 2 * RESEND_TIMEOUT
    ensures k in AfterRequest(u, buf, base, now) && AfterRequest(u, buf, base, now)[k] == now + RESEND_TIMEOUT
    ensures k !in DueIds(u', buf', base', later)
  {
    var s := Stamped(u, buf, base, now);
    DueMembers(s, buf, base, now);
    DueMembers(Stamped(u', buf', base', later), buf', base', later);
  }

  /** Reserving slots adds gaps only past the end of the buffer: when every
      gap already had a time, each id that enters the gap table lies above
      every id already in it. */
  lemma ReservedGapsFollow(u: map<nat, int>, buf: seq<Slot>, base: nat, sentCount: nat, now: int)
    requires Gaps(buf, base) <= u.Keys
    requires forall k :: k in u ==> IsGap(buf, base, k)
    ensures forall k, k' :: k in u && k' in AfterRequest(u, Reserve(buf, base, sentCount), base, now) && k' !in u ==> k < k'
  {
    var r := Reserve(buf, base, sentCount);
    forall k, k' | k in u && k' in AfterRequest(u, r, base, now) && k' !in u
      ensures k < k'
    {
      assert IsGap(r, base, k');
    }
  }

  /** Storing a chunk fills no gap but its own: every other id with a time
      is still a gap of what is left after the filled prefix is delivered. */
  lemma PlaceKeepsGaps(u: map<nat, int>, buf: seq<Slot>, base: nat, i: nat, msg: Chunk)
    requires forall k :: k in u ==> IsGap(buf, base, k)
    ensures var placed := Place(buf, i, msg);
      var n := ReadyCount(placed);
      forall k :: k in u && k != base + i ==> IsGap(placed[n..], base + n, k)
  {
    var placed := Place(buf, i, msg);
    var n := ReadyCount(placed);
    forall k | k in u && k != base + i
      ensures IsGap(placed[n..], base + n, k)
    {
      assert IsGap(buf, base, k);
      assert placed[k - base].None?;
    }
  }

  /** A gap left after storing a chunk that the buffer did not have lies
      past the old end of the buffer. */
  lemma PlaceNewGapsPast(buf: seq<Slot>, base: nat, i: nat, msg: Chunk)
    ensures var placed := Place(buf, i, msg);
      var n := ReadyCount(placed);
      forall k' :: k' in Gaps(placed[n..], base + n) && k' !in Gaps(buf, base) ==> base + |buf| <= k'
  {
    var placed := Place(buf, i, msg);
    var n := ReadyCount(placed);
    forall k' | k' in Gaps(placed[n..], base + n) && k' !in Gaps(buf, base)
      ensures base + |buf| <= k'
    {
      assert placed[k' - base].None?;
    }
  }

  /** When every id with a time is a gap of `buf`, every gap of `buf` has a
      time, and the gaps of the next buffer that `buf` did not have lie past
      its end, then a request on the next buffer adds only ids above every id
      already in the table. */
  lemma NewGapsAboveOld(u: map<nat, int>, buf: seq<Slot>, base: nat,
                        u': map<nat, int>, buf': seq<Slot>, base': nat, now: int)
    requires Gaps(buf, base) <= u.Keys
    requires forall k :: k in u ==> IsGap(buf, base, k)
    requires u'.Keys <= u.Keys
    requires forall k' :: k' in Gaps(buf', base') && k' !in Gaps(buf, base) ==> base + |buf| <= k'
    ensures forall k, k' :: k in u && k' in AfterRequest(u', buf', base', now) && k' !in u ==> k < k'
  {
    forall k, k' | k in u && k' in AfterRequest(u', buf', base', now) && k' !in u
      ensures k < k'
    {
      assert k' in Gaps(buf', base');
      assert IsGap(buf, base, k);
    }
  }

  /** The same as ReservedGapsFollow for storing a chunk and delivering the
      filled prefix: every new gap id lies above every id already in the
      table. */
  lemma StoredGapsFollow(u: map<nat, int>, buf: seq<Slot>, base: nat, i: nat, msg: Chunk, now: int)
    requires Gaps(buf, base) <= u.Keys
    requires forall k :: k in u ==> IsGap(buf, base, k)
    ensures var placed := Place(buf, i, msg);
      var n := ReadyCount(placed);
      forall k, k' :: k in u && k' in AfterRequest(u - {base + i}, placed[n..], base + n, now) && k' !in u ==> k < k'
  {
    var placed := Place(buf, i, msg);
    var n := ReadyCount(placed);
    PlaceNewGapsPast(buf, base, i, msg);
    NewGapsAboveOld(u, buf, base, u - {base + i}, placed[n..], base + n, now);
  }

  // ---------------------------------------------------------------------
  // Closing (`close`, `trigger_close`)

  datatype State = Open | Closed

  /** `trigger_close`: enter the closed state and queue the end-of-stream
      `nil`, unless already closed. */
  function Closing(state: State, messages: seq<Slot>): (r: (State, seq<Slot>))
    ensures r.0 == Closed
    ensures r.1 == if state == Closed then messages else messages + [None]
  {
    if state == Closed then (state, messages) else (Closed, messages + [None])
  }

  /** Closing twice is closing once: the end-of-stream marker is queued once. */
  lemma ClosingIdempotent(state: State, messages: seq<Slot>)
    ensures Closing(Closing(state, messages).0, Closing(state, messages).1) == Closing(state, messages)
    ensures state == Open ==> |Closing(state, messages).1| == |messages| + 1
  {
  }

  /** A receive buffer whose next expected slot is missing, and whose gap
      table names only its empty slots. */
  ghost predicate GapsTracked(buf: seq<Slot>, base: nat, u: map<nat, int>)
  {
    Compact(buf) && forall k :: k in u ==> IsGap(buf, base, k)
  }

  // ---------------------------------------------------------------------
  // The connection

  class Connection {
    const ip: string
    const port: nat
    const connId: seq<byte>

    var sendIdx: nat
    var sendBuffer: seq<Chunk>
    var recvIdx: nat
    var recvBuffer: seq<Slot>
    var unreceiveds: map<nat, int>
    var state: State
    /** The `@messages` queue: delivered chunks, and `None` for end of stream. */
    var messages: seq<Slot>
    var lastAck: int
    /** Every datagram written to (ip, port), oldest first. */
    var sent: seq<seq<byte>>

    /** Every chunk ever handed to the send window; chunk j has sequence j. */
    ghost var Outgoing: seq<Chunk>

    /** The reassembly invariant: the next expected slot is empty, and every
        tracked gap is an empty slot of the buffer. */
    ghost predicate Valid()
      reads this
    {
      GapsTracked(recvBuffer, recvIdx, unreceiveds)
    }

    /** The send window holds exactly the unacknowledged tail of `Outgoing`.
        Kept by sending and by acknowledgements inside the window. */
    ghost predicate InSync()
      reads this
    {
      sendIdx + |sendBuffer| == |Outgoing| && sendBuffer == Outgoing[sendIdx..]
    }

    /** Every empty slot of the receive buffer has a first-seen time. Each
        public operation ends with `request_resend`, which makes this true. */
    ghost predicate Timed()
      reads this
    {
      Gaps(recvBuffer, recvIdx) <= unreceiveds.Keys
    }

    /** Ids that entered the gap table lie above every id that was already in
        it. Since a Ruby hash iterates in insertion order, this is why the ids
        of `@unreceiveds.keys` come in ascending order, the order `Due` uses. */
    twostate predicate NewGapsLast()
      reads this
    {
      forall k, k' :: k in old(unreceiveds) && k' in unreceiveds && k' !in old(unreceiveds) ==> k < k'
    }

    /** The effect of `ack`: the send window per `AckSend`, the receive
        buffer per `Reserve`, `last_ack` set, and one gap request. */
    twostate predicate Acked(reachedIdx: nat, sentCount: nat, now: int)
      reads this
    {
      (sendIdx, sendBuffer) == AckSend(old(sendIdx), old(sendBuffer), reachedIdx)
      && recvIdx == old(recvIdx) && recvBuffer == Reserve(old(recvBuffer), recvIdx, sentCount)
      && unreceiveds == AfterRequest(old(unreceiveds), recvBuffer, recvIdx, now)
      && sent == old(sent) + [ResendFrame(connId, DueIds(old(unreceiveds), recvBuffer, recvIdx, now))]
      && lastAck == now
      && Outgoing == old(Outgoing) && messages == old(messages) && state == old(state)
    }

    /** The effect of `data`: a chunk already delivered leaves the buffer
        as it is; otherwise the filled prefix after placing the chunk is
        delivered in order and the cursor advances by its length. Its gap
        is forgotten, then one gap request is made. */
    twostate predicate Received(idx: nat, msg: Chunk, now: int)
      reads this
    {
      (idx < old(recvIdx) ==>
        recvIdx == old(recvIdx) && recvBuffer == old(recvBuffer) && messages == old(messages))
      && (idx >= old(recvIdx) ==>
        var placed := Place(old(recvBuffer), idx - old(recvIdx), msg);
        var n := ReadyCount(placed);
        recvIdx == old(recvIdx) + n && recvBuffer == placed[n..] && messages == old(messages) + placed[..n])
      && unreceiveds == AfterRequest(old(unreceiveds) - {idx}, recvBuffer, recvIdx, now)
      && sent == old(sent) + [ResendFrame(connId, DueIds(old(unreceiveds) - {idx}, recvBuffer, recvIdx, now))]
      && sendIdx == old(sendIdx) && sendBuffer == old(sendBuffer) && Outgoing == old(Outgoing)
      && state == old(state) && lastAck == old(lastAck)
    }

    /** The state of a connection just created for `key` by an ACK with both
        counters zero: nothing sent or received, open, and the one empty
        RESEND frame of the `ack` that follows. */
    ghost predicate OpenedByAck(key: Key, now: int)
      reads this
    {
      ip == key.ip && port == key.port && connId == key.connId
      && sendIdx == 0 && sendBuffer == [] && Outgoing == []
      && recvIdx == 0 && recvBuffer == [] && unreceiveds == map[] && messages == []
      && state == Open && lastAck == now && sent == [ResendFrame(connId, [])]
    }

    ghost function SendSide(): (nat, seq<Chunk>, seq<Chunk>)
      reads this
    {
      (sendIdx, sendBuffer, Outgoing)
    }

    ghost function RecvSide(): (nat, seq<Slot>, map<nat, int>, seq<Slot>)
      reads this
    {
      (recvIdx, recvBuffer, unreceiveds, messages)
    }

    constructor (ip: string, port: nat, connId: seq<byte>, now: int)
      ensures this.ip == ip && this.port == port && this.connId == connId
      ensures sendIdx == 0 && sendBuffer == [] && recvIdx == 0 && recvBuffer == []
      ensures unreceiveds == map[] && state == Open && messages == [] && lastAck == now
      ensures sent == [] && Outgoing == []
      ensures Valid() && InSync() && Timed()
    {
      this.ip, this.port, this.connId := ip, port, connId;
      sendIdx, sendBuffer, recvIdx, recvBuffer := 0, [], 0, [];
      unreceiveds, state, messages, lastAck := map[], Open, [], now;
      sent, Outgoing := [], [];
    }

    /** `closed?` */
    function IsClosed(): bool
      reads this
    {
      state == Closed
    }

    /** `trigger_close` */
    method TriggerClose()
      modifies this
      ensures (state, messages) == Closing(old(state), old(messages))
      ensures SendSide() == old(SendSide()) && recvIdx == old(recvIdx) && recvBuffer == old(recvBuffer)
      ensures unreceiveds == old(unreceiveds) && sent == old(sent) && lastAck == old(lastAck)
    {
      if state == Closed {
        return;
      }
      state := Closed;
      messages := messages + [None];
    }

    /** `close`: does nothing when already closed; otherwise `trigger_close`.
        (Its removal from the manager calls a method that does not exist.) */
    method Close()
      modifies this
      ensures old(state) == Closed ==> unchanged(this)
      ensures (state, messages) == Closing(old(state), old(messages))
      ensures SendSide() == old(SendSide()) && recvIdx == old(recvIdx) && recvBuffer == old(recvBuffer)
      ensures unreceiveds == old(unreceiveds) && sent == old(sent) && lastAck == old(lastAck)
    {
      if IsClosed() {
        return;
      }
      TriggerClose();
    }

    /** `send_data`: slice the message into chunks of at most 1024 bytes,
        append each to the send window and send it as a DATA frame numbered
        with its position after the window's base. */
    method SendData(message: seq<byte>)
      modifies this
      ensures sendBuffer == old(sendBuffer) + Chunks(message)
      ensures sent == old(sent) + DataFrames(connId, old(sendIdx + |sendBuffer|), Chunks(message))
      ensures Outgoing == old(Outgoing) + Chunks(message)
      ensures old(InSync()) ==> InSync()
      ensures sendIdx == old(sendIdx) && RecvSide() == old(RecvSide())
      ensures state == old(state) && lastAck == old(lastAck)
    {
      var chunks, frames := SliceMessage(connId, sendIdx + |sendBuffer|, message);
      assert InSync() ==> (Outgoing + chunks)[sendIdx..] == Outgoing[sendIdx..] + chunks;
      sendBuffer, sent, Outgoing := sendBuffer + chunks, sent + frames, Outgoing + chunks;
    }

    /** `send_ack`: report the receive cursor and the total sent count. */
    method SendAck()
      modifies this
      ensures sent == old(sent) + [AckFrame(connId, recvIdx, sendIdx + |sendBuffer|)]
      ensures InSync() ==> sent[|sent| - 1] == AckFrame(connId, recvIdx, |Outgoing|)
      ensures SendSide() == old(SendSide()) && RecvSide() == old(RecvSide())
      ensures state == old(state) && lastAck == old(lastAck)
    {
      sent := sent + [AckFrame(connId, recvIdx, sendIdx + |sendBuffer|)];
    }

    /** `ack`: drop the acknowledged chunks, move the send base, reserve an
        empty slot for the peer's last sent chunk, note the time and
        request any overdue gaps. */
    method Ack(reachedIdx: nat, sentCount: nat, now: int)
      requires Valid()
      modifies this
      ensures Valid() && Timed() && Acked(reachedIdx, sentCount, now)
      ensures old(InSync()) && old(sendIdx) <= reachedIdx <= old(sendIdx + |sendBuffer|) ==> InSync()
      ensures old(Timed()) ==> NewGapsLast()
    {
      ghost var u, buf := unreceiveds, recvBuffer;
      ghost var timed := Timed();
      AdvanceSendWindow(reachedIdx);
      ReserveSlots(sentCount);
      lastAck := now;
      RequestResend(now);
      if timed {
        ReservedGapsFollow(u, buf, recvIdx, sentCount, now);
      }
    }

    /** Lines 109-110 of `ack`: drop what the peer has, move the send base. */
    method AdvanceSendWindow(reachedIdx: nat)
      modifies this
      ensures (sendIdx, sendBuffer) == AckSend(old(sendIdx), old(sendBuffer), reachedIdx)
      ensures old(InSync()) && old(sendIdx) <= reachedIdx <= old(sendIdx + |sendBuffer|) ==> InSync()
      ensures RecvSide() == old(RecvSide()) && Outgoing == old(Outgoing)
      ensures state == old(state) && lastAck == old(lastAck) && sent == old(sent)
    {
      if reachedIdx > sendIdx {
        sendBuffer := sendBuffer[Min(reachedIdx - sendIdx, |sendBuffer|)..];
      }
      sendIdx := reachedIdx;
    }

    /** Line 112 of `ack` as intended: make room up to the peer's sent count. */
    method ReserveSlots(sentCount: nat)
      requires Valid()
      modifies this
      ensures Valid()
      ensures recvBuffer == Reserve(old(recvBuffer), recvIdx, sentCount)
      ensures recvIdx == old(recvIdx) && unreceiveds == old(unreceiveds) && messages == old(messages)
      ensures SendSide() == old(SendSide()) && state == old(state) && lastAck == old(lastAck) && sent == old(sent)
    {
      var r := Reserve(recvBuffer, recvIdx, sentCount);
      forall k | k in unreceiveds
        ensures IsGap(r, recvIdx, k)
      {
        assert IsGap(recvBuffer, recvIdx, k);
        assert r[k - recvIdx] == recvBuffer[k - recvIdx];
      }
      recvBuffer := r;
    }

    /** `data`: store the chunk at its slot, forget its gap, deliver the
        filled prefix in order and request any overdue gaps. A chunk already
        delivered is not stored again. */
    method Data(idx: nat, msg: Chunk, now: int)
      requires Valid()
      modifies this
      ensures Valid() && Timed() && Received(idx, msg, now)
      ensures old(Timed()) ==> NewGapsLast()
    {
      ghost var u, buf, base := unreceiveds, recvBuffer, recvIdx;
      ghost var timed := Timed();
      Store(idx, msg);
      RequestResend(now);
      if timed && idx >= base {
        StoredGapsFollow(u, buf, base, idx - base, msg, now);
      }
    }

    /** Lines 118-123 of `data`: the store and the delivery loop. */
    method Store(idx: nat, msg: Chunk)
      requires Valid()
      modifies this
      ensures Valid()
      ensures idx < old(recvIdx) ==>
        recvIdx == old(recvIdx) && recvBuffer == old(recvBuffer) && messages == old(messages)
      ensures idx >= old(recvIdx) ==>
        var placed := Place(old(recvBuffer), idx - old(recvIdx), msg);
        var n := ReadyCount(placed);
        recvIdx == old(recvIdx) + n && recvBuffer == placed[n..] && messages == old(messages) + placed[..n]
      ensures unreceiveds == old(unreceiveds) - {idx}
      ensures SendSide() == old(SendSide()) && state == old(state) && lastAck == old(lastAck) && sent == old(sent)
    {
      if idx < recvIdx {
        unreceiveds := unreceiveds - {idx};
      } else {
        var placed := Place(recvBuffer, idx - recvIdx, msg);
        var delivered, rest := DrainReady(placed);
        var u := unreceiveds - {idx};
        PlaceKeepsGaps(unreceiveds, recvBuffer, recvIdx, idx - recvIdx, msg);
        assert GapsTracked(rest, recvIdx + |delivered|, u);
        recvBuffer, recvIdx, messages, unreceiveds := rest, recvIdx + |delivered|, messages + delivered, u;
      }
    }

    /** `resend`: retransmit each requested chunk from the send window,
        skipping chunks already acknowledged. `ok` is false when an index
        lies past the window: the source raises there, after sending the
        frames before it. */
    method Resend(idxs: seq<nat>) returns (ok: bool)
      modifies this
      ensures SendSide() == old(SendSide()) && RecvSide() == old(RecvSide())
      ensures state == old(state) && lastAck == old(lastAck)
      ensures ok <==> forall i :: 0 <= i < |idxs| ==> idxs[i] < sendIdx + |sendBuffer|
      ensures sent == old(sent) + Retransmits(connId, sendIdx, sendBuffer, idxs)
    {
      var frames;
      frames, ok := CollectRetransmits(connId, sendIdx, sendBuffer, idxs);
      sent := sent + frames;
    }

    /** `request_resend`: give every gap a first-seen time, request the
        overdue ones in one RESEND frame (sent even when empty) and push
        their times forward by the timeout. */
    method RequestResend(now: int)
      requires Valid()
      modifies this
      ensures Valid()
      ensures Timed()
      ensures unreceiveds == AfterRequest(old(unreceiveds), recvBuffer, recvIdx, now)
      ensures sent == old(sent) + [ResendFrame(connId, DueIds(old(unreceiveds), recvBuffer, recvIdx, now))]
      ensures recvIdx == old(recvIdx) && recvBuffer == old(recvBuffer) && messages == old(messages)
      ensures SendSide() == old(SendSide()) && state == old(state) && lastAck == old(lastAck)
    {
      RequestOnlyOverdue(unreceiveds, recvBuffer, recvIdx, now);
      var stamped := StampGaps(unreceiveds, recvBuffer, recvIdx, now);
      var ids := SelectDue(stamped, recvBuffer, recvIdx, now);
      DueMembers(stamped, recvBuffer, recvIdx, now);
      forall j | 0 <= j < |ids|
        ensures ids[j] in stamped
      {
        assert IsDue(stamped, recvBuffer, recvIdx, now, ids[j]);
      }
      var u := Postpone(stamped, ids, now);
      forall k | k in u
        ensures IsGap(recvBuffer, recvIdx, k)
      {
        assert k in unreceiveds || k in Gaps(recvBuffer, recvIdx);
      }
      assert GapsTracked(recvBuffer, recvIdx, u) && Gaps(recvBuffer, recvIdx) <= u.Keys;
      unreceiveds := u;
      sent := sent + [ResendFrame(connId, ids)];
    }
  }

  /** The loop of `send_data` (lines 89-93): slice the message, and number
      each slice with its position after `first`, the window's end. */
  method SliceMessage(connId: seq<byte>, first: nat, message: seq<byte>)
    returns (chunks: seq<Chunk>, frames: seq<seq<byte>>)
    ensures chunks == Chunks(message)
    ensures frames == DataFrames(connId, first, chunks)
  {
    chunks, frames := [], [];
    var rest := message;
    while |rest| > 0
      invariant chunks + Chunks(rest) == Chunks(message)
      invariant frames == DataFrames(connId, first, chunks)
      decreases |rest|
    {
      var n := if |rest| < CHUNK_SIZE then |rest| else CHUNK_SIZE;
      var msg := rest[..n];
      ChunksFront(rest);
      DataFramesSnoc(connId, first, chunks, msg);
      var idx := first + |chunks|;
      frames := frames + [DataFrame(connId, idx, msg)];
      chunks := chunks + [msg];
      rest := rest[n..];
    }
  }

  lemma ChunksFront(m: seq<byte>)
    requires |m| > 0
    ensures var n := if |m| < CHUNK_SIZE then |m| else CHUNK_SIZE;
      Chunks(m) == [m[..n]] + Chunks(m[n..])
  {
    if |m| <= CHUNK_SIZE {
      assert m[..|m|] == m;
      assert Chunks(m[|m|..]) == [];
    }
  }

  lemma DataFramesSnoc(connId: seq<byte>, first: nat, cs: seq<Chunk>, c: Chunk)
    ensures DataFrames(connId, first, cs + [c]) == DataFrames(connId, first, cs) + [DataFrame(connId, first + |cs|, c)]
  {
  }

  /** The loop of `resend` (lines 127-131): the DATA frame of each requested
      index in turn; `ok` is false where an index past the buffer stops it. */
  method CollectRetransmits(connId: seq<byte>, sendIdx: nat, buf: seq<Chunk>, idxs: seq<nat>)
    returns (frames: seq<seq<byte>>, ok: bool)
    ensures ok <==> forall i :: 0 <= i < |idxs| ==> idxs[i] < sendIdx + |buf|
    ensures frames == Retransmits(connId, sendIdx, buf, idxs)
  {
    frames := [];
    var i := 0;
    while i < |idxs|
      invariant 0 <= i <= |idxs|
      invariant forall j :: 0 <= j < i ==> idxs[j] < sendIdx + |buf|
      invariant frames + Retransmits(connId, sendIdx, buf, idxs[i..]) == Retransmits(connId, sendIdx, buf, idxs)
    {
      var idx := idxs[i];
      if idx >= sendIdx + |buf| {
        assert frames + [] == frames;
        return frames, false;
      }
      assert idxs[i..][1..] == idxs[i + 1..];
      if idx >= sendIdx {
        frames := frames + [DataFrame(connId, idx, buf[idx - sendIdx])];
      }
      i := i + 1;
    }
    assert frames + [] == frames;
    return frames, true;
  }

  /** The delivery loop of `data` (lines 120-123): take filled slots off the
      front until the first empty one. */
  method DrainReady(buf: seq<Slot>) returns (delivered: seq<Slot>, rest: seq<Slot>)
    ensures delivered == buf[..ReadyCount(buf)] && rest == buf[ReadyCount(buf)..]
    ensures Compact(rest)
  {
    delivered, rest := [], buf;
    while rest != [] && rest[0].Some?
      invariant |delivered| <= ReadyCount(buf)
      invariant delivered == buf[..|delivered|] && rest == buf[|delivered|..]
      decreases |rest|
    {
      delivered := delivered + [rest[0]];
      rest := rest[1..];
    }
  }

  /** Lines 136-139 of `request_resend`: `@unreceiveds[id] ||= current` for
      every empty slot. */
  method StampGaps(u: map<nat, int>, buf: seq<Slot>, base: nat, now: int) returns (s: map<nat, int>)
    ensures s == Stamped(u, buf, base, now)
  {
    s := u;
    var i := 0;
    while i < |buf|
      invariant 0 <= i <= |buf|
      invariant s == Stamped(u, buf[..i], base, now)
    {
      StampedStep(u, buf, base, now, i);
      if buf[i].None? && base + i !in s {
        s := s[base + i := now];
      }
      i := i + 1;
    }
    assert buf[..i] == buf;
  }

  /** Lines 141-143: the ids whose time is more than the timeout old, in the
      order the slots come. */
  method SelectDue(s: map<nat, int>, buf: seq<Slot>, base: nat, now: int) returns (ids: seq<nat>)
    ensures ids == Due(s, buf, base, now)
  {
    ids := [];
    var i := 0;
    while i < |buf|
      invariant 0 <= i <= |buf|
      invariant ids == Due(s, buf[..i], base, now)
    {
      DueStep(s, buf, base, now, i);
      var id := base + i;
      if buf[i].None? && id in s && now - s[id] > RESEND_TIMEOUT {
        ids := ids + [id];
      }
      i := i + 1;
    }
    assert buf[..i] == buf;
  }

  /** Line 144: `ids.each { @unreceiveds[_1] = current + timeout }`. */
  method Postpone(s: map<nat, int>, ids: seq<nat>, now: int) returns (r: map<nat, int>)
    requires forall j :: 0 <= j < |ids| ==> ids[j] in s
    ensures r == Rescheduled(s, ids, now)
  {
    r := s;
    var j := 0;
    while j < |ids|
      invariant 0 <= j <= |ids|
      invariant r == map k | k in s :: if k in ids[..j] then now + RESEND_TIMEOUT else s[k]
    {
      assert ids[..j + 1] == ids[..j] + [ids[j]];
      r := r[ids[j] := now + RESEND_TIMEOUT];
      j := j + 1;
    }
    assert ids[..j] == ids;
  }

  // ---------------------------------------------------------------------
  // The manager's dispatch rule (`ConnectionManager#run_recv`)

  /** A connection table key: remote ip, remote port, connection id. */
  datatype Key = Key(ip: string, port: nat, connId: seq<byte>)

  /** A datagram after decoding of its type byte and fields. */
  datatype Inbound =
    | InReq
    | InAck(reachedIdx: nat, sentCount: nat)
    | InData(idx: nat, payload: Chunk)
    | InResend(idxs: seq<nat>)
    | InClose
    | InOther

  /** An acknowledgement of nothing, on a connection that holds nothing,
      changes nothing but sends an empty RESEND frame. */
  lemma AckOnEmpty(now: int)
    ensures AckSend(0, [], 0) == (0, [])
    ensures Reserve([], 0, 0) == []
    ensures AfterRequest(map[], [], 0, now) == map[]
    ensures DueIds(map[], [], 0, now) == []
  {
    assert Gaps([], 0) == {};
  }

  class ConnectionManager {
    var connections: map<Key, Connection>
    /** Datagrams the manager writes itself, with their destination. */
    var replies: seq<(Key, seq<byte>)>

    /** Every connection is valid, has a time for each of its gaps and is
        filed under its own key. */
    ghost predicate Valid()
      reads this, connections.Values
    {
      forall k :: k in connections ==>
        connections[k].Valid() && connections[k].Timed()
        && Key(connections[k].ip, connections[k].port, connections[k].connId) == k
    }

    constructor ()
      ensures connections == map[] && replies == [] && Valid()
    {
      connections, replies := map[], [];
    }

    /** One turn of the receive loop for a datagram from `key`. `ok` is false
        where the source raises out of the loop (a resend past the window). */
    method Dispatch(key: Key, frame: Inbound, now: int) returns (ok: bool)
      requires Valid()
      modifies this, connections.Values
      ensures Valid()
      ensures forall k :: k in old(connections) && k != key ==>
        k in connections && connections[k] == old(connections[k]) && unchanged(connections[k])
      ensures frame.InReq? ==> connections == old(connections) && replies == old(replies) + [(key, [TYPE_ACK])]
      ensures (frame.InReq? || frame.InOther?) ==> forall k :: k in old(connections) ==> unchanged(old(connections)[k])
      ensures !frame.InReq? ==> replies == old(replies)
      ensures frame.InAck? && key !in old(connections) && frame.reachedIdx == 0 && frame.sentCount == 0 ==>
        key in connections && fresh(connections[key]) && connections == old(connections)[key := connections[key]]
        && connections[key].OpenedByAck(key, now)
      ensures frame.InAck? && key !in old(connections) && !(frame.reachedIdx == 0 && frame.sentCount == 0) ==>
        connections == old(connections)
      ensures frame.InAck? && key in old(connections) ==>
        connections == old(connections) && connections[key].Acked(frame.reachedIdx, frame.sentCount, now)
        && connections[key].NewGapsLast()
      ensures (frame.InData? || frame.InResend? || frame.InOther?) ==> connections == old(connections)
      ensures frame.InData? && key in old(connections) ==>
        connections[key].Received(frame.idx, frame.payload, now) && connections[key].NewGapsLast()
      ensures frame.InResend? && key in old(connections) ==>
        var c := connections[key];
        c.SendSide() == old(c.SendSide()) && c.RecvSide() == old(c.RecvSide())
        && c.state == old(c.state) && c.lastAck == old(c.lastAck)
        && c.sent == old(c.sent) + Retransmits(c.connId, c.sendIdx, c.sendBuffer, frame.idxs)
      ensures frame.InClose? ==> connections == old(connections) - {key}
      ensures frame.InClose? && key in old(connections) ==>
        var c := old(connections[key]);
        c.state == Closed && c.messages == Closing(old(c.state), old(c.messages)).1
        && c.SendSide() == old(c.SendSide()) && c.recvIdx == old(c.recvIdx) && c.recvBuffer == old(c.recvBuffer)
        && c.unreceiveds == old(c.unreceiveds) && c.sent == old(c.sent) && c.lastAck == old(c.lastAck)
      ensures ok <==> (!(frame.InResend? && key in old(connections)) ||
        forall i :: 0 <= i < |frame.idxs| ==>
          frame.idxs[i] < old(connections[key].sendIdx) + |old(connections[key].sendBuffer)|)
    {
      ok := true;
      match frame {
        case InReq =>
          replies := replies + [(key, [TYPE_ACK])];
        case InAck(ridx, scnt) =>
          OnAck(key, ridx, scnt, now);
        case InData(idx, payload) =>
          OnData(key, idx, payload, now);
        case InResend(idxs) =>
          ok := OnResend(key, idxs);
        case InClose =>
          OnClose(key);
        case InOther =>
      }
    }

    /** Lines 24-30: an ACK from an unknown peer opens a connection only when
        both counters are zero; the connection, new or known, processes it. */
    method OnAck(key: Key, ridx: nat, scnt: nat, now: int)
      requires Valid()
      modifies this, connections.Values
      ensures Valid() && replies == old(replies)
      ensures forall k :: k in old(connections) && k != key ==>
        k in connections && connections[k] == old(connections[k]) && unchanged(connections[k])
      ensures key !in old(connections) && ridx == 0 && scnt == 0 ==>
        key in connections && fresh(connections[key]) && connections == old(connections)[key := connections[key]]
        && connections[key].OpenedByAck(key, now)
      ensures key !in old(connections) && !(ridx == 0 && scnt == 0) ==> connections == old(connections)
      ensures key in old(connections) ==>
        connections == old(connections) && connections[key].Acked(ridx, scnt, now)
        && connections[key].NewGapsLast()
    {
      if key in connections {
        connections[key].Ack(ridx, scnt, now);
      } else if ridx == 0 && scnt == 0 {
        var c := new Connection(key.ip, key.port, key.connId, now);
        c.Ack(0, 0, now);
        AckOnEmpty(now);
        connections := connections[key := c];
      }
    }

    /** Line 32: a DATA frame goes to a known connection only. */
    method OnData(key: Key, idx: nat, payload: Chunk, now: int)
      requires Valid()
      modifies connections.Values
      ensures Valid()
      ensures forall k :: k in connections && k != key ==> unchanged(connections[k])
      ensures key in connections ==>
        connections[key].Received(idx, payload, now) && connections[key].NewGapsLast()
    {
      if key in connections {
        connections[key].Data(idx, payload, now);
      }
    }

    /** Line 34: a RESEND frame goes to a known connection only. */
    method OnResend(key: Key, idxs: seq<nat>) returns (ok: bool)
      requires Valid()
      modifies connections.Values
      ensures Valid()
      ensures forall k :: k in connections && k != key ==> unchanged(connections[k])
      ensures key in connections ==>
        var c := connections[key];
        c.SendSide() == old(c.SendSide()) && c.RecvSide() == old(c.RecvSide())
        && c.state == old(c.state) && c.lastAck == old(c.lastAck)
        && c.sent == old(c.sent) + Retransmits(c.connId, c.sendIdx, c.sendBuffer, idxs)
      ensures ok <==> (key !in connections ||
        forall i :: 0 <= i < |idxs| ==> idxs[i] < old(connections[key].sendIdx) + |old(connections[key].sendBuffer)|)
    {
      ok := true;
      if key in connections {
        ok := connections[key].Resend(idxs);
      }
    }

    /** Lines 36-37: close the connection, if any, and forget the key. */
    method OnClose(key: Key)
      requires Valid()
      modifies this, connections.Values
      ensures Valid() && replies == old(replies)
      ensures connections == old(connections) - {key}
      ensures forall k :: k in connections ==> unchanged(connections[k])
      ensures key in old(connections) ==>
        var c := old(connections[key]);
        c.state == Closed && c.messages == Closing(old(c.state), old(c.messages)).1
        && c.SendSide() == old(c.SendSide()) && c.recvIdx == old(c.recvIdx) && c.recvBuffer == old(c.recvBuffer)
        && c.unreceiveds == old(c.unreceiveds) && c.sent == old(c.sent) && c.lastAck == old(c.lastAck)
    {
      if key in connections {
        connections[key].TriggerClose();
      }
      connections := connections - {key};
    }
  }
}
