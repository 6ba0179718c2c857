/** Bytes on the wire: the octet type, Ruby's `pack('n')` / `pack('N')`
    big-endian integer packing (which keeps only the low 16 / 32 bits of
    its argument) and the matching `unpack1`, plus the Option and Result
    wrappers the other modules use for Ruby's `nil` and its exceptions. */
module Wire {

  type byte = b: int | 0 <= b < 256

  const TWO16: nat := 0x1_0000
  const TWO32: nat := 0x1_0000_0000

  datatype Option<+T> = None | Some(value: T)

  datatype Result<+T, +E> = Ok(value: T) | Err(error: E)

  /** `[n].pack('n')`: the low 16 bits of n, most significant byte first. */
  function Be16(n: nat): (r: seq<byte>)
    ensures |r| == 2
  {
    var m := n % TWO16;
    [m / 0x100, m % 0x100]
  }

  /** `[n].pack('N')`: the low 32 bits of n, most significant byte first. */
  function Be32(n: nat): (r: seq<byte>)
    ensures |r| == 4
  {
    var m := n % TWO32;
    var q1 := m / 0x100;
    var q2 := q1 / 0x100;
    [q2 / 0x100, q2 % 0x100, q1 % 0x100, m % 0x100]
  }

  /** `s.unpack1('n')` on exactly two bytes. */
  function Be16Value(s: seq<byte>): (v: nat)
    requires |s| == 2
    ensures v < TWO16
  {
    (s[0] as int) * 0x100 + s[1]
  }

  /** `s.unpack1('N')` on exactly four bytes. */
  function Be32Value(s: seq<byte>): (v: nat)
    requires |s| == 4
    ensures v < TWO32
  {
    (s[0] as int) * 0x100_0000 + (s[1] as int) * 0x1_0000 + (s[2] as int) * 0x100 + s[3]
  }

  /** Unpacking a packed 16-bit value gives back its low 16 bits. */
  lemma Be16RoundTrip(n: nat)
    ensures Be16Value(Be16(n)) == n % TWO16
  {
    var m := n % TWO16;
    assert m == (m / 0x100) * 0x100 + m % 0x100;
  }

  /** Unpacking a packed 32-bit value gives back its low 32 bits. */
  lemma Be32RoundTrip(n: nat)
    ensures Be32Value(Be32(n)) == n % TWO32
  {
    var m := n % TWO32;
    var q1 := m / 0x100;
    var q2 := q1 / 0x100;
    assert m == q1 * 0x100 + m % 0x100;
    assert q1 == q2 * 0x100 + q1 % 0x100;
    assert q2 == (q2 / 0x100) * 0x100 + q2 % 0x100;
  }

  /** Packing the value of four bytes gives back those bytes. */
  lemma Be32OfValue(s: seq<byte>)
    requires |s| == 4
    ensures Be32(Be32Value(s)) == s
  {
    var x2 := (s[0] as int) * 0x100 + s[1];
    var x1 := x2 * 0x100 + s[2];
    assert Be32Value(s) == x1 * 0x100 + s[3];
    DivideByte(x1, s[3]);
    DivideByte(x2, s[2]);
    DivideByte(s[0], s[1]);
  }

  lemma DivideByte(q: nat, r: nat)
    requires r < 0x100
    ensures (q * 0x100 + r) / 0x100 == q && (q * 0x100 + r) % 0x100 == r
  {
  }

  /** The concatenation of a sequence of sequences. */
  function Flatten<T>(ss: seq<seq<T>>): (r: seq<T>)
  {
    if ss == [] then [] else Flatten(ss[..|ss| - 1]) + ss[|ss| - 1]
  }

  lemma {:induction false} FlattenAppend<T>(a: seq<seq<T>>, b: seq<seq<T>>)
    ensures Flatten(a + b) == Flatten(a) + Flatten(b)
    decreases |b|
  {
    if b == [] {
      assert a + b == a;
    } else {
      var init := b[..|b| - 1];
      assert (a + b)[..|a + b| - 1] == a + init;
      assert (a + b)[|a + b| - 1] == b[|b| - 1];
      FlattenAppend(a, init);
    }
  }

  lemma FlattenCons<T>(x: seq<T>, b: seq<seq<T>>)
    ensures Flatten([x] + b) == x + Flatten(b)
  {
    FlattenAppend([x], b);
    assert [x][..0] == [];
  }
}
