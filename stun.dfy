/** The STUN client of stun.rb: the Binding Request it sends, the checks and
    the attribute walk it applies to the answer, and the agreement test
    between two servers' answers. The UDP round trip and the choice of
    servers are not modelled: the random request bytes and the received
    datagram are parameters. */
module Stun {
  import opened Wire

  /** Message type 0x0001, Binding Request (section 6 of RFC 5389). */
  const BINDING_REQUEST: nat := 1
  /** Attribute type 0x0001, MAPPED-ADDRESS (section 15.1 of RFC 5389). */
  const MAPPED_ADDRESS: nat := 1
  /** `recvfrom 1024` keeps at most this many bytes of a datagram. */
  const RECV_SIZE: nat := 1024
  const ID_SIZE: nat := 16

  datatype StunError =
    | InvalidResponse       // bytes 4...20 of the answer are not the request's
    | TruncatedAttribute    // 1 to 3 bytes left where an attribute header starts
    | MissingMappedAddress  // no attribute of type 1
    | ShortMappedAddress    // the type-1 value has fewer than 4 bytes
    | SymmetricNat          // two servers saw different addresses

  datatype Endpoint = Endpoint(ip: seq<byte>, port: nat)

  type Attrs = map<nat, seq<byte>>

  /** The request of `test`: type 1, length 0, then the 16 random bytes
      (which stand where RFC 5389 puts its magic cookie and transaction id). */
  function Request(id: seq<byte>): (r: seq<byte>)
    requires |id| == ID_SIZE
    ensures |r| == 20
    ensures Be16Value(r[0..2]) == BINDING_REQUEST && Be16Value(r[2..4]) == 0 && r[4..] == id
  {
    Be16(BINDING_REQUEST) + Be16(0) + id
  }

  /** One attribute as a server writes it: type, value length, value. */
  function EncodeAttribute(t: nat, v: seq<byte>): seq<byte>
  {
    Be16(t) + Be16(|v|) + v
  }

  /** The `until` loop of `test` as a function: each attribute's 2-byte type
      and 2-byte length, then up to `length` value bytes (fewer if the data
      ends), no padding skipped; a later attribute of a type replaces an
      earlier one. A header cut short is an error. */
  function Attributes(s: seq<byte>, acc: Attrs): Result<Attrs, StunError>
    decreases |s|
  {
    if s == [] then Ok(acc)
    else if |s| < 4 then Err(TruncatedAttribute)
    else
      var end := if 4 + Be16Value(s[2..4]) <= |s| then 4 + Be16Value(s[2..4]) else |s|;
      Attributes(s[end..], acc[Be16Value(s[0..2]) := s[4..end]])
  }

  /** The loop itself, over a shrinking buffer and a growing table. */
  method WalkAttributes(s: seq<byte>) returns (r: Result<Attrs, StunError>)
    ensures r == Attributes(s, map[])
  {
    var chars := s;
    var attrs: Attrs := map[];
    while chars != []
      invariant Attributes(chars, attrs) == Attributes(s, map[])
      decreases |chars|
    {
      if |chars| < 4 {
        return Err(TruncatedAttribute);
      }
      var t := Be16Value(chars[0..2]);
      var size := Be16Value(chars[2..4]);
      var end := if 4 + size <= |chars| then 4 + size else |chars|;
      attrs := attrs[t := chars[4..end]];
      chars := chars[end..];
    }
    return Ok(attrs);
  }

  /** Port and address from a MAPPED-ADDRESS value: bytes 2..3 big-endian,
      then everything from byte 4 on; the family byte is not looked at. */
  function MappedAddress(value: seq<byte>): Result<Endpoint, StunError>
  {
    if |value| < 4 then Err(ShortMappedAddress)
    else Ok(Endpoint(value[4..], Be16Value(value[2..4])))
  }

  /** Whether bytes 4...20 of the answer repeat the request's 16 bytes. */
  predicate Answers(id: seq<byte>, data: seq<byte>)
  {
    |data| >= 20 && data[4..20] == id
  }

  /** What `test` returns, or the error it raises, for the request bytes
      `id` and the datagram the server sent back. */
  function ParseResponse(id: seq<byte>, datagram: seq<byte>): (r: Result<Endpoint, StunError>)
    requires |id| == ID_SIZE
  {
    var data := if |datagram| <= RECV_SIZE then datagram else datagram[..RECV_SIZE];
    if !Answers(id, data) then Err(InvalidResponse)
    else match Attributes(data[20..], map[])
      case Err(e) => Err(e)
      case Ok(attrs) =>
        if MAPPED_ADDRESS !in attrs then Err(MissingMappedAddress)
        else MappedAddress(attrs[MAPPED_ADDRESS])
  }

  /** `test` after the round trip. */
  method Test(id: seq<byte>, datagram: seq<byte>) returns (r: Result<Endpoint, StunError>)
    requires |id| == ID_SIZE
    ensures r == ParseResponse(id, datagram)
  {
    var data := if |datagram| <= RECV_SIZE then datagram else datagram[..RECV_SIZE];
    if !(|data| >= 20 && data[4..20] == id) {
      return Err(InvalidResponse);
    }
    var attrs := WalkAttributes(data[20..]);
    if attrs.Err? {
      return Err(attrs.error);
    }
    if MAPPED_ADDRESS !in attrs.value {
      return Err(MissingMappedAddress);
    }
    var value := attrs.value[MAPPED_ADDRESS];
    if |value| < 4 {
      return Err(ShortMappedAddress);
    }
    return Ok(Endpoint(value[4..], Be16Value(value[2..4])));
  }

  /** `get_ip_port` on the outcomes of its two `test` calls: the first error
      raised wins; otherwise the answers must be equal. */
  function GetIpPort(first: Result<Endpoint, StunError>, second: Result<Endpoint, StunError>): (r: Result<Endpoint, StunError>)
    ensures r.Ok? <==> first.Ok? && second.Ok? && first.value == second.value
    ensures r.Ok? ==> r.value == first.value
    ensures first.Err? ==> r == first
    ensures first.Ok? && second.Err? ==> r == second
    ensures first.Ok? && second.Ok? && first.value != second.value ==> r == Err(SymmetricNat)
  {
    match first
    case Err(_) => first
    case Ok(a) =>
      match second
      case Err(_) => second
      case Ok(b) => if a == b then first else Err(SymmetricNat)
  }

  // ---------------------------------------------------------------------
  // Properties

  /** An answer that does not carry the request's bytes at 4...20 is refused,
      and only such an answer is refused as invalid. */
  lemma TransactionCheck(id: seq<byte>, datagram: seq<byte>)
    requires |id| == ID_SIZE
    ensures var data := if |datagram| <= RECV_SIZE then datagram else datagram[..RECV_SIZE];
      ParseResponse(id, datagram) == Err(InvalidResponse) <==> !Answers(id, data)
  {
    var data := if |datagram| <= RECV_SIZE then datagram else datagram[..RECV_SIZE];
    if Answers(id, data) {
      AttributesNeverInvalid(data[20..], map[]);
    }
  }

  /** The attribute walk never reports a transaction mismatch. */
  lemma {:induction false} AttributesNeverInvalid(s: seq<byte>, acc: Attrs)
    ensures Attributes(s, acc) != Err(InvalidResponse)
    decreases |s|
  {
    if |s| >= 4 {
      var end := if 4 + Be16Value(s[2..4]) <= |s| then 4 + Be16Value(s[2..4]) else |s|;
      AttributesNeverInvalid(s[end..], acc[Be16Value(s[0..2]) := s[4..end]]);
    }
  }

  /** A well-formed attribute at the front is read back whole and the walk
      goes on right after its value. */
  lemma AttributeRoundTrip(t: nat, v: seq<byte>, rest: seq<byte>, acc: Attrs)
    requires t < TWO16 && |v| < TWO16
    ensures Attributes(EncodeAttribute(t, v) + rest, acc) == Attributes(rest, acc[t := v])
  {
    var s := EncodeAttribute(t, v) + rest;
    Be16RoundTrip(t);
    Be16RoundTrip(|v|);
    assert s[0..2] == Be16(t);
    assert s[2..4] == Be16(|v|);
    assert s[4..4 + |v|] == v;
    assert s[4 + |v|..] == rest;
  }

  /** Of two attributes of one type, the later one is kept. */
  lemma LaterAttributeWins(t: nat, v1: seq<byte>, v2: seq<byte>, acc: Attrs)
    requires t < TWO16 && |v1| < TWO16 && |v2| < TWO16
    ensures Attributes(EncodeAttribute(t, v1) + EncodeAttribute(t, v2), acc) == Ok(acc[t := v2])
  {
    AttributeRoundTrip(t, v1, EncodeAttribute(t, v2), acc);
    AttributeRoundTrip(t, v2, [], acc[t := v1]);
    assert EncodeAttribute(t, v2) + [] == EncodeAttribute(t, v2);
    assert acc[t := v1][t := v2] == acc[t := v2];
  }

  /** A value ending before its declared length is kept as far as it goes. */
  lemma ShortValueKept(t: nat, n: nat, v: seq<byte>, acc: Attrs)
    requires t < TWO16 && |v| < n < TWO16
    ensures Attributes(Be16(t) + Be16(n) + v, acc) == Ok(acc[t := v])
  {
    var s := Be16(t) + Be16(n) + v;
    Be16RoundTrip(t);
    Be16RoundTrip(n);
    assert s[0..2] == Be16(t);
    assert s[2..4] == Be16(n);
    assert s[4..|s|] == v;
  }

  /** The 4-byte alignment padding that section 15 of RFC 5389 puts after a
      value is not skipped: a 1-byte value followed by its 3 padding bytes
      makes the walk fail. */
  lemma PaddingNotSkipped(t: nat, x: byte, acc: Attrs)
    requires t < TWO16
    ensures Attributes(EncodeAttribute(t, [x]) + [0, 0, 0], acc) == Err(TruncatedAttribute)
  {
    AttributeRoundTrip(t, [x], [0, 0, 0], acc);
  }

  /** An answer made of any 4 header bytes, the request's 16 bytes and one
      MAPPED-ADDRESS attribute yields exactly that attribute's port and
      address. */
  lemma MappedAddressRoundTrip(id: seq<byte>, header: seq<byte>, family: seq<byte>, port: nat, ip: seq<byte>)
    requires |id| == ID_SIZE && |header| == 4 && |family| == 2
    requires port < TWO16 && 28 + |ip| <= RECV_SIZE
    ensures ParseResponse(id, header + id + EncodeAttribute(MAPPED_ADDRESS, family + Be16(port) + ip))
      == Ok(Endpoint(ip, port))
  {
    var v := family + Be16(port) + ip;
    var d := header + id + EncodeAttribute(MAPPED_ADDRESS, v);
    assert d[4..20] == id;
    assert d[20..] == EncodeAttribute(MAPPED_ADDRESS, v) + [];
    AttributeRoundTrip(MAPPED_ADDRESS, v, [], map[]);
    Be16RoundTrip(port);
    assert v[2..4] == Be16(port);
    assert v[4..] == ip;
  }
}
