/** Bytes, machine numbers, big-endian fields, and byte strings read as bit strings. */
module Bytes {

  type byte = bv8

  type uint8 = x: nat | x < 0x100
  type uint16 = x: nat | x < 0x1_0000
  type uint32 = x: nat | x < 0x1_0000_0000

  datatype Option<+T> = None | Some(value: T)

  // ----- big-endian fields -----

  function ReadBE16(hi: byte, lo: byte): bv16 {
    ((hi as bv16) << 8) | (lo as bv16)
  }

  function ReadBE32(b0: byte, b1: byte, b2: byte, b3: byte): bv32 {
    ((b0 as bv32) << 24) | ((b1 as bv32) << 16) | ((b2 as bv32) << 8) | (b3 as bv32)
  }

  function BE16(v: bv16): (s: seq<byte>)
    ensures |s| == 2
  {
    [((v >> 8) & 0xFF) as byte, (v & 0xFF) as byte]
  }

  function BE32(v: bv32): (s: seq<byte>)
    ensures |s| == 4
  {
    [((v >> 24) & 0xFF) as byte, ((v >> 16) & 0xFF) as byte, ((v >> 8) & 0xFF) as byte, (v & 0xFF) as byte]
  }

  /** Reading a 16-bit field undoes writing it, in both directions. */
  lemma BE16RoundTrip(v: bv16, hi: byte, lo: byte)
    ensures ReadBE16(BE16(v)[0], BE16(v)[1]) == v
    ensures BE16(ReadBE16(hi, lo)) == [hi, lo]
  {
  }

  lemma BE32RoundTrip(v: bv32, b0: byte, b1: byte, b2: byte, b3: byte)
    ensures ReadBE32(BE32(v)[0], BE32(v)[1], BE32(v)[2], BE32(v)[3]) == v
    ensures BE32(ReadBE32(b0, b1, b2, b3)) == [b0, b1, b2, b3]
  {
  }

  lemma JoinBytes(hi: byte, lo: byte)
    ensures (((hi as bv16) << 8) | (lo as bv16)) as int == 256 * (hi as int) + (lo as int)
  {
  }

  lemma JoinFields(hi: bv16, lo: bv16)
    ensures (((hi as bv32) << 16) | (lo as bv32)) as int == 0x1_0000 * (hi as int) + (lo as int)
  {
  }

  lemma BE16Join(hi: byte, lo: byte)
    ensures ReadBE16(hi, lo) == ((hi as bv16) << 8) | (lo as bv16)
  {
  }

  /** A 16-bit field as a number: the first byte counts 256 times. */
  lemma BE16Value(hi: byte, lo: byte)
    ensures ReadBE16(hi, lo) as int == 256 * (hi as int) + (lo as int)
  {
    hide ReadBE16;
    JoinBytes(hi, lo);
    BE16Join(hi, lo);
  }

  lemma BE16Bytes(v: bv16)
    ensures v as int == 256 * (BE16(v)[0] as int) + (BE16(v)[1] as int)
  {
    hide ReadBE16, BE16;
    BE16RoundTrip(v, 0, 0);
    BE16Value(BE16(v)[0], BE16(v)[1]);
  }

  lemma BE32Halves(b0: byte, b1: byte, b2: byte, b3: byte)
    ensures ReadBE32(b0, b1, b2, b3) == ((ReadBE16(b0, b1) as bv32) << 16) | (ReadBE16(b2, b3) as bv32)
  {
  }

  lemma BE32Value(b0: byte, b1: byte, b2: byte, b3: byte)
    ensures ReadBE32(b0, b1, b2, b3) as int
         == 0x100_0000 * (b0 as int) + 0x1_0000 * (b1 as int) + 256 * (b2 as int) + (b3 as int)
  {
    hide ReadBE16, ReadBE32;
    BE32Halves(b0, b1, b2, b3);
    JoinFields(ReadBE16(b0, b1), ReadBE16(b2, b3));
    BE16Value(b0, b1);
    BE16Value(b2, b3);
  }

  // ----- fields as sizes -----

  function Size(v: bv16): (n: nat)
    ensures n <= 0xFFFF
  {
    v as int
  }

  function Field(n: nat): bv16
    requires n <= 0xFFFF
  {
    n as bv16
  }

  lemma SizeModulo(n: nat)
    requires n <= 0xFFFF
    ensures Size(Field(n)) == n % 0x1_0000
  {
  }

  lemma SizeOfField(n: nat)
    requires n <= 0xFFFF
    ensures Size(Field(n)) == n
  {
    hide Size, Field;
    SizeModulo(n);
  }

  lemma FieldOfSize(v: bv16)
    ensures Field(Size(v)) == v
  {
  }

  // ----- exclusive or of byte strings -----

  function Xor(a: seq<byte>, b: seq<byte>): (r: seq<byte>)
    requires |a| == |b|
    ensures |r| == |a|
    ensures forall i :: 0 <= i < |a| ==> r[i] == a[i] ^ b[i]
  {
    seq(|a|, i requires 0 <= i < |a| => a[i] ^ b[i])
  }

  function Zeros(n: nat): (z: seq<byte>)
    ensures |z| == n && forall i :: 0 <= i < n ==> z[i] == 0
  {
    seq(n, _ => 0)
  }

  // ----- bits, most significant first -----

  /** Bit i of b, counted from the most significant one. */
  predicate ByteBit(b: byte, i: nat)
    requires i < 8
  {
    if i == 0 then b & 0x80 != 0
    else if i == 1 then b & 0x40 != 0
    else if i == 2 then b & 0x20 != 0
    else if i == 3 then b & 0x10 != 0
    else if i == 4 then b & 0x08 != 0
    else if i == 5 then b & 0x04 != 0
    else if i == 6 then b & 0x02 != 0
    else b & 0x01 != 0
  }

  function ByteBits(b: byte): (bits: seq<bool>)
    ensures |bits| == 8
    ensures forall i :: 0 <= i < 8 ==> bits[i] == ByteBit(b, i)
  {
    [b & 0x80 != 0, b & 0x40 != 0, b & 0x20 != 0, b & 0x10 != 0,
     b & 0x08 != 0, b & 0x04 != 0, b & 0x02 != 0, b & 0x01 != 0]
  }

  function MakeByte(bits: seq<bool>): (b: byte)
    requires |bits| == 8
  {
    (if bits[0] then 0x80 else 0) | (if bits[1] then 0x40 else 0) |
    (if bits[2] then 0x20 else 0) | (if bits[3] then 0x10 else 0) |
    (if bits[4] then 0x08 else 0) | (if bits[5] then 0x04 else 0) |
    (if bits[6] then 0x02 else 0) | (if bits[7] then 0x01 else 0)
  }

  lemma MakeByteBits(bits: seq<bool>)
    requires |bits| == 8
    ensures ByteBits(MakeByte(bits)) == bits
  {
  }

  /** A byte is the number its bits spell, the first one worth 128. */
  lemma ByteBitValue(b: byte)
    ensures b as int
         == (if ByteBit(b, 0) then 128 else 0) + (if ByteBit(b, 1) then 64 else 0)
          + (if ByteBit(b, 2) then 32 else 0) + (if ByteBit(b, 3) then 16 else 0)
          + (if ByteBit(b, 4) then 8 else 0) + (if ByteBit(b, 5) then 4 else 0)
          + (if ByteBit(b, 6) then 2 else 0) + (if ByteBit(b, 7) then 1 else 0)
  {
  }

  /** The bits of a byte string in transmission order. */
  function Bits(data: seq<byte>): (bits: seq<bool>)
    ensures |bits| == 8 * |data|
  {
    if data == [] then [] else ByteBits(data[0]) + Bits(data[1..])
  }

  lemma {:induction false} BitsAt(data: seq<byte>, k: nat, i: nat)
    requires k < |data| && i < 8
    ensures Bits(data)[8 * k + i] == ByteBit(data[k], i)
  {
    if k > 0 {
      BitsAt(data[1..], k - 1, i);
      assert Bits(data)[8 * k + i] == Bits(data[1..])[8 * (k - 1) + i];
    }
  }

  function CountTrue(bits: seq<bool>): nat {
    if bits == [] then 0 else (if bits[0] then 1 else 0) + CountTrue(bits[1..])
  }
}
