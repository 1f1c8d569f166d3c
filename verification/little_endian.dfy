/**
 * Unsigned 32-bit integers as the installer reads them from an index file:
 * little-endian `quint32` fields pulled out of a byte sequence by a
 * `QDataStream`, and `quint32` subtraction, which wraps modulo 2^32.
 */
module LittleEndian {

  const U32Modulus: int := 0x1_0000_0000

  type byte = x: int | 0 <= x < 0x100

  type u32 = x: int | 0 <= x < 0x1_0000_0000

  /** The value of four bytes taken least significant first. */
  function FromBytes(b0: byte, b1: byte, b2: byte, b3: byte): u32
  {
    b0 + 0x100 * b1 + 0x1_0000 * b2 + 0x100_0000 * b3
  }

  /**
   * What `stream >> value` yields for a `quint32` when the stream stands at
   * byte `pos` of `s`: the four bytes from `pos` on, little-endian; a field
   * the file does not hold in full reads as 0 (Qt 5's QDataStream zeroes a
   * value it could not read completely).
   */
  function ReadU32(s: seq<byte>, pos: nat): (v: u32)
    ensures |s| < pos + 4 ==> v == 0
    ensures pos + 4 <= |s| ==> EncodeU32(v) == s[pos..pos + 4]
  {
    if pos + 4 <= |s| then
      EncodeFromBytes(s[pos], s[pos + 1], s[pos + 2], s[pos + 3]);
      FromBytes(s[pos], s[pos + 1], s[pos + 2], s[pos + 3])
    else 0
  }

  /** The four bytes a little-endian writer produces for `v`. */
  function EncodeU32(v: u32): (r: seq<byte>)
    ensures |r| == 4
  {
    [v % 0x100, v / 0x100 % 0x100, v / 0x1_0000 % 0x100, v / 0x100_0000]
  }

  /** Reading a field back where it was written gives the value written. */
  lemma ReadEncoded(prefix: seq<byte>, v: u32, suffix: seq<byte>)
    ensures ReadU32(prefix + EncodeU32(v) + suffix, |prefix|) == v
  {
    var s := prefix + EncodeU32(v) + suffix;
    var p := |prefix|;
    assert s[p..p + 4] == EncodeU32(v);
    assert s[p] == v % 0x100 && s[p + 1] == v / 0x100 % 0x100;
    assert s[p + 2] == v / 0x1_0000 % 0x100 && s[p + 3] == v / 0x100_0000;
    DigitsRecompose(v);
  }

  /** Base-256 digits recompose to the value they came from. */
  lemma DigitsRecompose(v: u32)
    ensures FromBytes(v % 0x100, v / 0x100 % 0x100, v / 0x1_0000 % 0x100, v / 0x100_0000) == v
  {
    var x: int := v;
    var q1 := x / 0x100;
    var q2 := q1 / 0x100;
    var q3 := q2 / 0x100;
    assert x == x % 0x100 + 0x100 * q1;
    assert q1 == q1 % 0x100 + 0x100 * q2;
    assert q2 == q2 % 0x100 + 0x100 * q3;
    assert x / 0x1_0000 == q2;
    assert x / 0x100_0000 == q3;
  }

  /** Four bytes recombined and split again give the same four bytes. */
  lemma EncodeFromBytes(c0: byte, c1: byte, c2: byte, c3: byte)
    ensures EncodeU32(FromBytes(c0, c1, c2, c3)) == [c0, c1, c2, c3]
  {
    var v: int := FromBytes(c0, c1, c2, c3);
    var b0: int, b1: int, b2: int, b3: int := c0, c1, c2, c3;
    assert v == b0 + 0x100 * (b1 + 0x100 * (b2 + 0x100 * b3));
    var v1 := v / 0x100;
    assert v % 0x100 == b0 && v1 == b1 + 0x100 * (b2 + 0x100 * b3);
    var v2 := v1 / 0x100;
    assert v1 % 0x100 == b1 && v2 == b2 + 0x100 * b3;
    assert v / 0x1_0000 == v2;
    assert v2 % 0x100 == b2 && v2 / 0x100 == b3;
    assert v / 0x100_0000 == v2 / 0x100;
  }

  /** Every four bytes are the encoding of the value they read as. */
  lemma EncodeRead(s: seq<byte>)
    requires |s| == 4
    ensures EncodeU32(ReadU32(s, 0)) == s
  {
    assert s[0..4] == s;
  }

  /** A field's value depends on its own four bytes and nothing else. */
  lemma ReadU32Local(s: seq<byte>, t: seq<byte>, pos: nat)
    requires pos + 4 <= |s| && pos + 4 <= |t|
    requires s[pos..pos + 4] == t[pos..pos + 4]
    ensures ReadU32(s, pos) == ReadU32(t, pos)
  {
    assert s[pos] == s[pos..pos + 4][0] && t[pos] == t[pos..pos + 4][0];
    assert s[pos + 1] == s[pos..pos + 4][1] && t[pos + 1] == t[pos..pos + 4][1];
    assert s[pos + 2] == s[pos..pos + 4][2] && t[pos + 2] == t[pos..pos + 4][2];
    assert s[pos + 3] == s[pos..pos + 4][3] && t[pos + 3] == t[pos..pos + 4][3];
  }

  /**
   * `a - b` on `quint32`: the one 32-bit value that, added to `b`, gives `a`
   * modulo 2^32; it is the plain difference when `b <= a`.
   */
  function Sub32(a: u32, b: u32): (r: u32)
    ensures (b + r) % U32Modulus == a
    ensures b <= a ==> r == a - b
    ensures a < b ==> r == a - b + U32Modulus
  {
    (a - b) % U32Modulus
  }

  /** No other 32-bit value has the defining property of `Sub32`. */
  lemma Sub32Unique(a: u32, b: u32, r: u32)
    requires (b + r) % U32Modulus == a
    ensures r == Sub32(a, b)
  {
    if b + r >= U32Modulus {
      assert a == b + r - U32Modulus;
    }
  }
}
