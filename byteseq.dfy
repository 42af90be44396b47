/** Byte strings and the big-endian integer packing that PHP's `pack('N', …)`
    performs. PHP strings are byte strings, so every string of the content
    encryption layer is a `Bytes` value here. */
module ByteSeq {

  type Byte = b: int | 0 <= b < 256
  type Bytes = seq<Byte>

  const TWO_32: nat := 0x1_0000_0000
  const TWO_64: nat := 0x1_0000_0000_0000_0000

  /** 256 to the power n: one more than the largest n-byte value. */
  function Pow256(n: nat): (p: nat)
    ensures p >= 1
  {
    if n == 0 then 1 else 256 * Pow256(n - 1)
  }

  /** The unsigned value of a byte string of any length, read most
      significant byte first. */
  function BigEndianValue(b: Bytes): (v: nat)
    ensures v < Pow256(|b|)
  {
    if b == [] then 0 else BigEndianValue(b[..|b| - 1]) * 256 + b[|b| - 1]
  }

  /** The value of a concatenation: the front is shifted left by the length
      of the back. */
  lemma {:induction false} BigEndianAppend(a: Bytes, b: Bytes)
    ensures BigEndianValue(a + b) == BigEndianValue(a) * Pow256(|b|) + BigEndianValue(b)
    decreases |b|
  {
    if b == [] {
      assert a + b == a;
    } else {
      var front := b[..|b| - 1];
      assert (a + b)[..|a + b| - 1] == a + front;
      BigEndianAppend(a, front);
      var x, p, y, last := BigEndianValue(a), Pow256(|front|), BigEndianValue(front), b[|b| - 1] as int;
      assert BigEndianValue(a + b) == BigEndianValue(a + front) * 256 + last;
      assert BigEndianValue(b) == y * 256 + last;
      assert Pow256(|b|) == 256 * p;
      ShiftByte(x, p);
    }
  }

  /** Shifting by one more byte: multiplying by 256 commutes with scaling. */
  lemma ShiftByte(x: int, p: int)
    ensures (x * p) * 256 == x * (256 * p)
  {
  }

  /** The value of four bytes, written out. */
  lemma BigEndianValueOfFour(b: Bytes)
    requires |b| == 4
    ensures BigEndianValue(b) == ((b[0] as int * 256 + b[1]) * 256 + b[2]) * 256 + b[3]
  {
    var b1, b2, b3 := b[..1], b[..2], b[..3];
    assert b1[..0] == [];
    assert BigEndianValue(b1) == b[0];
    assert b2[..1] == b1;
    assert BigEndianValue(b2) == b[0] as int * 256 + b[1];
    assert b3[..2] == b2;
    assert BigEndianValue(b3) == (b[0] as int * 256 + b[1]) * 256 + b[2];
    assert b[..3] == b3;
  }

  /** `pack('N', v)` for a value that fits in 32 bits: four bytes, most
      significant first. */
  function UInt32BE(v: nat): (r: Bytes)
    requires v < TWO_32
    ensures |r| == 4 && BigEndianValue(r) == v
  {
    DigitsOf(v);
    var r := [v / 0x100_0000, (v / 0x1_0000) % 256, (v / 0x100) % 256, v % 256];
    BigEndianValueOfFour(r);
    r
  }

  /** The base-256 digits of a 32-bit value put it back together. */
  lemma DigitsOf(v: nat)
    requires v < TWO_32
    ensures v / 0x100_0000 < 256
    ensures ((v / 0x100_0000 * 256 + (v / 0x1_0000) % 256) * 256 + (v / 0x100) % 256) * 256 + v % 256 == v
  {
    var q1 := v / 0x100;
    var q2 := q1 / 0x100;
    var q3 := q2 / 0x100;
    assert v == q1 * 256 + v % 256;
    assert q1 == q2 * 256 + q1 % 256;
    assert q2 == q3 * 256 + q2 % 256;
    assert q2 == v / 0x1_0000;
    assert q3 == v / 0x100_0000;
  }

  /** Two 32-bit values pack to the same bytes exactly when they are
      equal. */
  lemma UInt32BEInjective(a: nat, b: nat)
    requires a < TWO_32 && b < TWO_32
    ensures UInt32BE(a) == UInt32BE(b) <==> a == b
  {
    if UInt32BE(a) == UInt32BE(b) {
      assert BigEndianValue(UInt32BE(a)) == BigEndianValue(UInt32BE(b));
    }
  }

  /** Encoding after decoding is the identity: every 4-byte string is the
      packing of exactly one 32-bit value. */
  lemma EncodeDecodeUInt32BE(b: Bytes)
    requires |b| == 4
    ensures BigEndianValue(b) < TWO_32 && UInt32BE(BigEndianValue(b)) == b
  {
    var v := BigEndianValue(b);
    assert Pow256(4) == TWO_32;
    BigEndianInjective(UInt32BE(v), b);
  }

  /** Byte strings of the same length with the same value are equal: the
      last byte is the value modulo 256, the rest is the value divided by
      256. */
  lemma {:induction false} BigEndianInjective(a: Bytes, b: Bytes)
    requires |a| == |b| && BigEndianValue(a) == BigEndianValue(b)
    ensures a == b
    decreases |a|
  {
    if a != [] {
      var n := |a| - 1;
      SplitLowByte(BigEndianValue(a[..n]), a[n]);
      SplitLowByte(BigEndianValue(b[..n]), b[n]);
      BigEndianInjective(a[..n], b[..n]);
      assert a == a[..n] + [a[n]] && b == b[..n] + [b[n]];
    }
  }

  /** Appending a low byte: division and remainder by 256 take it back off. */
  lemma SplitLowByte(q: nat, d: Byte)
    ensures (q * 256 + d) / 256 == q && (q * 256 + d) % 256 == d
  {
  }

  /** The 64-bit big-endian encoding that RFC 7518 prescribes for the AL
      field. */
  function UInt64BE(v: nat): (r: Bytes)
    requires v < TWO_64
    ensures |r| == 8 && BigEndianValue(r) == v
  {
    var r := UInt32BE(v / TWO_32) + UInt32BE(v % TWO_32);
    BigEndianAppend(UInt32BE(v / TWO_32), UInt32BE(v % TWO_32));
    assert Pow256(4) == TWO_32;
    r
  }

  /** A value below 2^32 is packed as four zero bytes and then its 32-bit
      packing. */
  lemma UInt64BEOfSmall(v: nat)
    requires v < TWO_32
    ensures UInt64BE(v) == [0, 0, 0, 0] + UInt32BE(v)
  {
    assert v / TWO_32 == 0 && v % TWO_32 == v;
    assert UInt32BE(0) == [0, 0, 0, 0];
  }

  /** `pack('N2', a, b)`: each argument contributes its low 32 bits as four
      big-endian bytes, so the whole is the 64-bit value with high word a and
      low word b, both taken modulo 2^32. */
  function PackN2(a: nat, b: nat): (r: Bytes)
    ensures |r| == 8
    ensures BigEndianValue(r[..4]) == a % TWO_32 && BigEndianValue(r[4..]) == b % TWO_32
    ensures BigEndianValue(r) == a % TWO_32 * TWO_32 + b % TWO_32
  {
    var r := UInt32BE(a % TWO_32) + UInt32BE(b % TWO_32);
    assert r[..4] == UInt32BE(a % TWO_32) && r[4..] == UInt32BE(b % TWO_32);
    BigEndianAppend(UInt32BE(a % TWO_32), UInt32BE(b % TWO_32));
    assert Pow256(4) == TWO_32;
    r
  }
}
