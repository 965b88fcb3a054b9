/** Fixed-width integers, C strings and the big-endian (network order) encodings of
    libcdp/stream_reader.c and libcdp/stream_writer.c. */
module Bytes {
  type Byte = x: int | 0 <= x < 0x100
  type U16 = x: int | 0 <= x < 0x1_0000
  type U24 = x: int | 0 <= x < 0x100_0000
  type U32 = x: int | 0 <= x < 0x1_0000_0000

  /** The characters of a NUL-terminated string, without the terminator. */
  type CString = s: seq<Byte> | 0 !in s

  /** Conversion of a signed value to a 64-bit size_t. */
  function SizeT(x: int): nat {
    x % 0x1_0000_0000_0000_0000
  }

  /** Conversion of a wide signed value to a 32-bit int. */
  function Int32(x: int): int {
    var m := x % 0x1_0000_0000;
    if m < 0x8000_0000 then m else m - 0x1_0000_0000
  }

  function Word16(b1: Byte, b0: Byte): U16 {
    0x100 * b1 + b0
  }

  function Word24(b2: Byte, b1: Byte, b0: Byte): U24 {
    0x1_0000 * b2 + 0x100 * b1 + b0
  }

  function Word32(b3: Byte, b2: Byte, b1: Byte, b0: Byte): U32 {
    0x100_0000 * b3 + 0x1_0000 * b2 + 0x100 * b1 + b0
  }

  function Be16(v: U16): seq<Byte> {
    [v / 0x100, v % 0x100]
  }

  function Be24(v: U24): seq<Byte> {
    [v / 0x1_0000, v / 0x100 % 0x100, v % 0x100]
  }

  function Be32(v: U32): seq<Byte> {
    [v / 0x100_0000, v / 0x1_0000 % 0x100, v / 0x100 % 0x100, v % 0x100]
  }

  /** The bytes of an integer as a little-endian host stores them. */
  function Le32(v: U32): seq<Byte> {
    [v % 0x100, v / 0x100 % 0x100, v / 0x1_0000 % 0x100, v / 0x100_0000]
  }

  /** htonl and ntohl on a little-endian host: the four bytes in reverse order. */
  function Swap32(v: U32): U32 {
    Word32(v % 0x100, v / 0x100 % 0x100, v / 0x1_0000 % 0x100, v / 0x100_0000)
  }

  lemma LowByte(h: nat, l: Byte)
    ensures (0x100 * h + l) / 0x100 == h && (0x100 * h + l) % 0x100 == l
  {
  }

  lemma NestedDivision(v: nat)
    ensures v / 0x1_0000 == v / 0x100 / 0x100 && v / 0x100_0000 == v / 0x1_0000 / 0x100
  {
  }

  lemma Word32OfBe32(v: U32)
    ensures Word32(Be32(v)[0], Be32(v)[1], Be32(v)[2], Be32(v)[3]) == v
  {
    NestedDivision(v);
  }

  lemma Be32OfWord32(b3: Byte, b2: Byte, b1: Byte, b0: Byte)
    ensures Be32(Word32(b3, b2, b1, b0)) == [b3, b2, b1, b0]
  {
    NestedDivision(Word32(b3, b2, b1, b0));
    LowByte(0x1_0000 * b3 + 0x100 * b2 + b1, b0);
    LowByte(0x100 * b3 + b2, b1);
    LowByte(b3, b2);
  }

  lemma Swap32OfWord32(b3: Byte, b2: Byte, b1: Byte, b0: Byte)
    ensures Swap32(Word32(b3, b2, b1, b0)) == Word32(b0, b1, b2, b3)
  {
    Be32OfWord32(b3, b2, b1, b0);
  }

  lemma Le32OfWord32(b3: Byte, b2: Byte, b1: Byte, b0: Byte)
    ensures Le32(Word32(b3, b2, b1, b0)) == [b0, b1, b2, b3]
  {
    Be32OfWord32(b3, b2, b1, b0);
    var v := Be32(Word32(b3, b2, b1, b0));
    assert v[3] == b0 && v[2] == b1 && v[1] == b2 && v[0] == b3;
  }

  lemma Word32OfLe32(v: U32)
    ensures Word32(Le32(v)[3], Le32(v)[2], Le32(v)[1], Le32(v)[0]) == v
  {
    Word32OfBe32(v);
  }

  /** Swapped and written in network order, an integer's bytes are in the host's order. */
  lemma Be32OfSwap32(v: U32)
    ensures Be32(Swap32(v)) == Le32(v)
  {
    var l := Le32(v);
    Be32OfWord32(l[0], l[1], l[2], l[3]);
  }
}
