/** Octets and the Java integer types the codec and the stores work with. */
module Bytes {

  /** An unsigned octet as written to or read from the wire. */
  type Byte = b: int | 0 <= b < 256

  /** A Java `byte` (two's complement). */
  type JavaByte = b: int | -128 <= b < 128

  /** A Java `int` (32-bit two's complement). */
  type Int32 = x: int | -0x8000_0000 <= x < 0x8000_0000

  /** The octet `ByteBuf.writeByte(x)` puts on the wire: the low eight bits of `x`. */
  function LowByte(x: int): Byte
  {
    x % 256
  }

  /** The Java `byte` that `ByteBuf.readByte()` yields for an octet. */
  function ToJavaByte(b: Byte): (r: JavaByte)
    ensures LowByte(r) == b
    ensures r < 0 <==> b >= 128
  {
    if b < 128 then b else b - 256
  }

  /** Writing a Java byte and reading it back gives the same byte. */
  lemma JavaByteRoundTrip(x: JavaByte)
    ensures ToJavaByte(LowByte(x)) == x
  {
  }

  /** The unsigned value of two octets read most significant first. */
  function ReadU16(hi: Byte, lo: Byte): (v: nat)
    ensures v < 65536
    ensures v / 256 == hi && v % 256 == lo
  {
    hi * 256 + lo
  }

  /** `ByteBuf.writeShort(x)`: the low 16 bits of `x`, most significant octet first. */
  function U16(x: int): (r: seq<Byte>)
    ensures |r| == 2
    ensures ReadU16(r[0], r[1]) == x % 65536
  {
    LowSixteen(x);
    [(x / 256) % 256, x % 256]
  }

  lemma LowSixteen(x: int)
    ensures ((x / 256) % 256) * 256 + x % 256 == x % 65536
  {
    var q := x / 256;
    var r := x % 256;
    var a := q / 256;
    var b := q % 256;
    assert x == 256 * q + r;
    assert q == 256 * a + b;
    assert x == 65536 * a + (256 * b + r);
    assert 0 <= 256 * b + r < 65536;
  }

  /** Java `int` addition, which wraps around modulo 2^32. */
  function AddInt32(a: Int32, b: Int32): (r: Int32)
    ensures -0x8000_0000 <= a + b < 0x8000_0000 ==> r == a + b
    ensures (r - (a + b)) % 0x1_0000_0000 == 0
  {
    (a + b + 0x8000_0000) % 0x1_0000_0000 - 0x8000_0000
  }

  /** Java's `%` on `int`: the remainder of division truncated toward zero,
      which takes the sign of the dividend (Dafny's `%` is Euclidean). */
  function JavaRem(a: int, b: int): (r: int)
    requires b > 0
    ensures a >= 0 ==> 0 <= r < b
    ensures a < 0 ==> -b < r <= 0
    ensures Abs(r) == Abs(a) % b
  {
    if a >= 0 then a % b else -((-a) % b)
  }

  function Abs(x: int): nat
  {
    if x < 0 then -x else x
  }

  lemma MulAtLeastOnce(d: int, k: int)
    requires d > 0 && k >= 1
    ensures d * k >= d
  {
  }

  /** Quotient and remainder are the unique `q`, `r` with `x == d * q + r` and `0 <= r < d`. */
  lemma DivMod(x: int, d: int, q: int, r: int)
    requires d > 0 && x == d * q + r && 0 <= r < d
    ensures x / d == q && x % d == r
  {
    var q' := x / d;
    assert x == d * q' + x % d;
    if q' > q {
      MulAtLeastOnce(d, q' - q);
      assert false;
    } else if q' < q {
      MulAtLeastOnce(d, q - q');
      assert false;
    }
  }
}
