/** Machine-width numbers and the big-endian length codec of misc.c. */
module ArtNetBytes {

  type byte = x: int | 0 <= x < 0x100
  type word = x: int | 0 <= x < 0x1_0000
  type int32 = x: int | -0x8000_0000 <= x < 0x8000_0000

  /** An IPv4 address; 0 stands for "none". */
  type Addr = x: int | 0 <= x < 0x1_0000_0000

  datatype Option<+T> = None | Some(value: T)

  /** The four bytes of a length field, most significant first. */
  datatype Quad = Quad(b0: byte, b1: byte, b2: byte, b3: byte)

  function Min(a: int, b: int): (m: int)
    ensures m <= a && m <= b && (m == a || m == b)
  {
    if a < b then a else b
  }

  /** C's division, which truncates toward zero. */
  function CDiv(a: int, b: int): (q: int)
    requires b > 0
    ensures a >= 0 ==> 0 <= a - b * q < b
    ensures a <= 0 ==> -b < a - b * q <= 0
  {
    if a >= 0 then a / b else -((-a) / b)
  }

  /** Conversion to a 32-bit signed integer, wrapping as two's complement does. */
  function ToInt32(x: int): (r: int32)
    ensures (r - x) % 0x1_0000_0000 == 0
  {
    var u := x % 0x1_0000_0000;
    if u < 0x8000_0000 then u else u - 0x1_0000_0000
  }

  /** artnet_misc_nbytes_to_32. */
  function NBytesTo32(q: Quad): int32 {
    ToInt32(q.b0 * 0x100_0000 + q.b1 * 0x1_0000 + q.b2 * 0x100 + q.b3)
  }

  /** The bytes artnet_misc_int_to_bytes stores for data: its four base-256 digits. */
  function IntToQuad(data: int32): Quad {
    var u := data % 0x1_0000_0000;
    var v := u / 0x100;
    var w := v / 0x100;
    Quad(w / 0x100, w % 0x100, v % 0x100, u % 0x100)
  }

  /** Stores data, most significant byte first, in the first four bytes of the caller's buffer. */
  method IntToBytes(data: int32, bytes: array<byte>)
    requires bytes.Length >= 4
    modifies bytes
    ensures Quad(bytes[0], bytes[1], bytes[2], bytes[3]) == IntToQuad(data)
    ensures bytes[4..] == old(bytes[4..])
  {
    var rest := data % 0x1_0000_0000;
    bytes[3], rest := rest % 0x100, rest / 0x100;
    bytes[2], rest := rest % 0x100, rest / 0x100;
    bytes[1], rest := rest % 0x100, rest / 0x100;
    bytes[0] := rest;
  }

  /** The bytes of a length are its digits in base 256, the most significant one first. */
  lemma BigEndian(data: int32)
    ensures var q := IntToQuad(data);
      0x100_0000 * q.b0 + 0x1_0000 * q.b1 + 0x100 * q.b2 + q.b3 == if data < 0 then data + 0x1_0000_0000 else data
  {
    var u := data % 0x1_0000_0000;
    var v := u / 0x100;
    var w := v / 0x100;
    assert u == v * 0x100 + u % 0x100;
    assert v == w * 0x100 + v % 0x100;
    assert w == w / 0x100 * 0x100 + w % 0x100;
  }

  /** Every 32-bit length survives the wire, negative ones included. */
  lemma DecodeEncode(data: int32)
    ensures NBytesTo32(IntToQuad(data)) == data
  {
    BigEndian(data);
    hide IntToQuad;
  }

  lemma LastDigit(a: int, d: int)
    requires 0 <= d < 0x100
    ensures (a * 0x100 + d) / 0x100 == a && (a * 0x100 + d) % 0x100 == d
  {
  }

  /** Every four bytes are the encoding of what they decode to: the codec is a bijection. */
  lemma EncodeDecode(q: Quad)
    ensures IntToQuad(NBytesTo32(q)) == q
  {
    var w := q.b0 * 0x100 + q.b1;
    var v := w * 0x100 + q.b2;
    var u := v * 0x100 + q.b3;
    assert NBytesTo32(q) % 0x1_0000_0000 == u;
    hide NBytesTo32;
    LastDigit(q.b0, q.b1);
    LastDigit(w, q.b2);
    LastDigit(v, q.b3);
  }

  /** Doubling a word count below 2^30 in 32-bit arithmetic loses nothing. */
  lemma DoubledCount(q: Quad, count: nat)
    requires NBytesTo32(q) == count && 2 * count < 0x8000_0000
    ensures ToInt32(2 * NBytesTo32(q)) == 2 * count
  {
    hide NBytesTo32;
  }

  /** Doubling in 32-bit arithmetic gives an even number, whatever is lost. */
  lemma DoubledEven(count: int)
    ensures ToInt32(2 * count) % 2 == 0
  {
    var q, r := count / 0x8000_0000, count % 0x8000_0000;
    assert 2 * count == q * 0x1_0000_0000 + 2 * r;
    assert 2 * count % 0x1_0000_0000 == 2 * r;
  }
}
