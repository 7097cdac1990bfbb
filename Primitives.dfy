/** Java's fixed-width integers, optional and fallible results, and the
    big-endian int encoding used by Netty's ByteBuf and Guava's Ints. */
module Primitives {

  /** The eight bits of a Java byte, read as an unsigned value. */
  newtype byte = x: int | 0 <= x < 0x100

  /** A Java int. */
  newtype int32 = x: int | -0x8000_0000 <= x < 0x8000_0000

  type Bytes = seq<byte>

  datatype Option<+T> = None | Some(value: T)

  datatype Result<+T, +E> = Success(value: T) | Failure(error: E)

  /** The 32 bits of a Java int read as an unsigned number (two's complement). */
  function Unsigned(x: int32): (u: nat)
    ensures u < 0x1_0000_0000
    ensures (u - x as int) % 0x1_0000_0000 == 0
  {
    if x < 0 then x as int + 0x1_0000_0000 else x as int
  }

  /** ByteBuf.writeInt: the four bytes of x, most significant first. */
  function IntBytes(x: int32): (b: Bytes)
    ensures |b| == 4
  {
    var u0 := Unsigned(x);
    var u1 := u0 / 0x100;
    var u2 := u1 / 0x100;
    [(u2 / 0x100) as byte, (u2 % 0x100) as byte, (u1 % 0x100) as byte, (u0 % 0x100) as byte]
  }

  /** Guava's Ints.fromBytes: four bytes, most significant first, as a signed Java int. */
  function IntFromBytes(b0: byte, b1: byte, b2: byte, b3: byte): (x: int32)
    ensures x < 0 <==> b0 >= 0x80
    ensures Unsigned(x) == b0 as int * 0x100_0000 + b1 as int * 0x1_0000 + b2 as int * 0x100 + b3 as int
  {
    var u := b0 as int * 0x100_0000 + b1 as int * 0x1_0000 + b2 as int * 0x100 + b3 as int;
    if u >= 0x8000_0000 then (u - 0x1_0000_0000) as int32 else u as int32
  }

  /** The int stored big-endian at offset k of s. */
  function ReadInt(s: Bytes, k: nat): int32
    requires k + 4 <= |s|
  {
    IntFromBytes(s[k], s[k + 1], s[k + 2], s[k + 3])
  }

  /** Reading back what writeInt wrote gives the original int. */
  lemma IntRoundTrip(x: int32)
    ensures ReadInt(IntBytes(x), 0) == x
  {
    var u0 := Unsigned(x);
    var u1 := u0 / 0x100;
    var u2 := u1 / 0x100;
    assert u0 == u1 * 0x100 + u0 % 0x100;
    assert u1 == u2 * 0x100 + u1 % 0x100;
    assert u2 == (u2 / 0x100) * 0x100 + u2 % 0x100;
    var b := IntBytes(x);
    assert Unsigned(ReadInt(b, 0)) == u0;
  }

  /** Writing back an int read from four bytes gives those bytes. */
  lemma IntBytesOfRead(b: Bytes)
    requires |b| == 4
    ensures IntBytes(ReadInt(b, 0)) == b
  {
    var x := ReadInt(b, 0);
    var u0 := Unsigned(x);
    assert u0 == b[0] as int * 0x100_0000 + b[1] as int * 0x1_0000 + b[2] as int * 0x100 + b[3] as int;
    assert u0 / 0x100 == b[0] as int * 0x1_0000 + b[1] as int * 0x100 + b[2] as int;
    assert u0 / 0x100 / 0x100 == b[0] as int * 0x100 + b[1] as int;
  }

  /** Two ints with the same four bytes are equal: the encoding loses nothing. */
  lemma IntBytesInjective(x: int32, y: int32)
    requires IntBytes(x) == IntBytes(y)
    ensures x == y
  {
    IntRoundTrip(x);
    IntRoundTrip(y);
  }
}
