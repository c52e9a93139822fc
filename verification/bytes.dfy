/** Octets and the big-endian integer readers of the save-file decoder. */
module Bytes {

  /** One octet, as the C code's `u8`. */
  type Byte = b: int | 0 <= b < 0x100

  /** The unsigned 16-bit value stored big-endian at `data[off..off+2]`
      (`read_be16`). */
  function ReadBe16(data: seq<Byte>, off: nat): (r: nat)
    requires off + 2 <= |data|
    ensures r < 0x1_0000
  {
    (data[off] as int) * 0x100 + data[off + 1]
  }

  /** The unsigned 32-bit value stored big-endian at `data[off..off+4]`
      (`read_be32`; the C shifts go through a signed `int`, but the result is
      stored into a `u32`, so the value is the plain 32-bit pattern). */
  function ReadBe32(data: seq<Byte>, off: nat): (r: nat)
    requires off + 4 <= |data|
    ensures r < 0x1_0000_0000
  {
    (data[off] as int) * 0x100_0000 + (data[off + 1] as int) * 0x1_0000
      + (data[off + 2] as int) * 0x100 + data[off + 3]
  }

  /** Division by 256 undoes "times 256 plus an octet". */
  lemma ShiftOctet(q: nat, b: Byte)
    ensures (q * 0x100 + b) / 0x100 == q && (q * 0x100 + b) % 0x100 == b
  {
  }

  lemma Be32Octets(a: Byte, b: Byte, c: Byte, d: Byte)
    ensures var v := a * 0x100_0000 + b * 0x1_0000 + c * 0x100 + d;
      v < 0x1_0000_0000 && EncodeBe32(v) == [a, b, c, d]
  {
    var ab := a * 0x100 + b;
    var abc := ab * 0x100 + c;
    var v := abc * 0x100 + d;
    assert v == a * 0x100_0000 + b * 0x1_0000 + c * 0x100 + d;
    ShiftOctet(abc, d);
    ShiftOctet(ab, c);
    ShiftOctet(a, b);
  }

  /** The two octets that store `v` big-endian. */
  function EncodeBe16(v: nat): (r: seq<Byte>)
    requires v < 0x1_0000
    ensures |r| == 2
  {
    [v / 0x100, v % 0x100]
  }

  /** The four octets that store `v` big-endian. */
  function EncodeBe32(v: nat): (r: seq<Byte>)
    requires v < 0x1_0000_0000
    ensures |r| == 4
  {
    var q := v / 0x100;
    [(q / 0x100) / 0x100, (q / 0x100) % 0x100, q % 0x100, v % 0x100]
  }

  /** The value read is the one whose two-octet encoding is the octets read. */
  lemma ReadBe16Encodes(data: seq<Byte>, off: nat)
    requires off + 2 <= |data|
    ensures EncodeBe16(ReadBe16(data, off)) == data[off..off + 2]
  {
    ShiftOctet(data[off], data[off + 1]);
  }

  /** The value read is the one whose four-octet encoding is the octets read. */
  lemma ReadBe32Encodes(data: seq<Byte>, off: nat)
    requires off + 4 <= |data|
    ensures EncodeBe32(ReadBe32(data, off)) == data[off..off + 4]
  {
    Be32Octets(data[off], data[off + 1], data[off + 2], data[off + 3]);
  }

  lemma Be16RoundTrip(v: nat)
    requires v < 0x1_0000
    ensures ReadBe16(EncodeBe16(v), 0) == v
  {
  }

  lemma Be32RoundTrip(v: nat)
    requires v < 0x1_0000_0000
    ensures ReadBe32(EncodeBe32(v), 0) == v
  {
    var q1, d := v / 0x100, v % 0x100;
    var q2, c := q1 / 0x100, q1 % 0x100;
    var a, b := q2 / 0x100, q2 % 0x100;
    assert v == ((a * 0x100 + b) * 0x100 + c) * 0x100 + d;
  }
}
