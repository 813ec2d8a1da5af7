/**
 * The CRC-32 of section 8 of RFC 1952: reflected polynomial 0xEDB88320, register inverted
 * before and after. The table-driven loop is proved to be the bitwise algorithm, and a
 * message followed by its own check value always leaves the same residue.
 */
module Crc32 {
  import opened Bytes

  const INVERTED: bv32 := 0xFFFFFFFF

  // ----- register algebra -----

  function Add(x: bv32, y: bv32): bv32 { x ^ y }

  function Half(x: bv32): bv32 { x >> 1 }

  function DropByte(x: bv32): bv32 { x >> 8 }

  predicate LowBit(x: bv32) { x & 1 != 0 }

  function Low(b: byte): bv32 { b as bv32 }

  function LowByte(x: bv32): byte { (x & 0xFF) as byte }

  lemma AddCommutative(u: bv32, v: bv32)
    ensures Add(u, v) == Add(v, u)
  {
  }

  lemma AddAssociative(u: bv32, v: bv32, w: bv32)
    ensures Add(u, Add(v, w)) == Add(Add(u, v), w)
  {
  }

  lemma AddSelf(x: bv32)
    ensures Add(x, x) == 0 && Add(x, 0) == x && Add(0, x) == x
  {
  }

  lemma AddMovesLeft(u: bv32, v: bv32, w: bv32)
    ensures Add(Add(u, w), v) == Add(Add(u, v), w)
  {
    hide Add;
    AddAssociative(u, w, v);
    AddCommutative(w, v);
    AddAssociative(u, v, w);
  }

  lemma AddInterchange(x: bv32, y: bv32, p: bv32, q: bv32)
    ensures Add(Add(x, p), Add(y, q)) == Add(Add(x, y), Add(p, q))
  {
    hide Add;
    AddAssociative(Add(x, p), y, q);
    AddMovesLeft(x, y, p);
    AddAssociative(Add(x, y), p, q);
  }

  lemma AddCancels(u: bv32, v: bv32, w: bv32)
    ensures Add(Add(u, w), Add(v, w)) == Add(u, v)
  {
    hide Add;
    AddInterchange(u, v, w, w);
    AddSelf(w);
    AddSelf(Add(u, v));
  }

  lemma AddIsZero(x: bv32, y: bv32)
    ensures Add(x, y) == 0 <==> x == y
  {
    hide Add;
    AddSelf(x);
    AddSelf(y);
    if Add(x, y) == 0 {
      AddAssociative(x, y, y);
    }
  }

  lemma HalfLinear(x: bv32, y: bv32)
    ensures Half(Add(x, y)) == Add(Half(x), Half(y))
  {
  }

  lemma LowBitLinear(x: bv32, y: bv32)
    ensures LowBit(Add(x, y)) <==> LowBit(x) != LowBit(y)
  {
  }

  // ----- one division step -----

  function Shift(c: bv32): bv32 {
    if c & 1 != 0 then 0xEDB88320 ^ (c >> 1) else c >> 1
  }

  function Shifts(c: bv32, n: nat): bv32
    decreases n
  {
    if n == 0 then c else Shifts(Shift(c), n - 1)
  }

  lemma ShiftCases(x: bv32)
    ensures Shift(x) == if LowBit(x) then Add(Half(x), 0xEDB88320) else Half(x)
  {
  }

  lemma ShiftLinear(x: bv32, y: bv32)
    ensures Shift(Add(x, y)) == Add(Shift(x), Shift(y))
  {
    hide *;
    ShiftCases(x);
    ShiftCases(y);
    ShiftCases(Add(x, y));
    HalfLinear(x, y);
    LowBitLinear(x, y);
    AddCancels(Half(x), Half(y), 0xEDB88320);
    AddMovesLeft(Half(x), Half(y), 0xEDB88320);
    AddAssociative(Half(x), Half(y), 0xEDB88320);
  }

  lemma {:induction false} ShiftsLinear(x: bv32, y: bv32, n: nat)
    ensures Shifts(Add(x, y), n) == Add(Shifts(x, n), Shifts(y, n))
    decreases n
  {
    hide Shift, Add;
    if n > 0 {
      ShiftLinear(x, y);
      ShiftsLinear(Shift(x), Shift(y), n - 1);
    }
  }

  lemma ShiftZero(x: bv32)
    ensures Shift(x) == 0 <==> x == 0
  {
  }

  lemma {:induction false} ShiftsZero(x: bv32, n: nat)
    ensures Shifts(x, n) == 0 <==> x == 0
    decreases n
  {
    hide Shift;
    if n > 0 {
      ShiftZero(x);
      ShiftsZero(Shift(x), n - 1);
    }
  }

  lemma {:induction false} ShiftsAdd(x: bv32, m: nat, n: nat)
    ensures Shifts(Shifts(x, m), n) == Shifts(x, m + n)
    decreases m
  {
    hide Shift;
    if m > 0 {
      ShiftsAdd(Shift(x), m - 1, n);
    }
  }

  lemma Shifts4(x: bv32)
    ensures Shifts(x, 4) == Shift(Shift(Shift(Shift(x))))
  {
    hide Shift;
    assert Shifts(x, 4) == Shifts(Shift(x), 3);
    assert Shifts(Shift(x), 3) == Shifts(Shift(Shift(x)), 2);
    assert Shifts(Shift(Shift(x)), 2) == Shifts(Shift(Shift(Shift(x))), 1);
  }

  // ----- messages, a byte and a bit at a time -----

  /** The register after one message byte. */
  function Update(c: bv32, b: byte): bv32 {
    Shifts(Add(c, Low(b)), 8)
  }

  function Register(c: bv32, data: seq<byte>): bv32
    decreases |data|
  {
    if data == [] then c else Register(Update(c, data[0]), data[1..])
  }

  /** The check value of a message. */
  function Crc(data: seq<byte>): bv32 {
    Add(Register(INVERTED, data), INVERTED)
  }

  function BitMask(bit: bool): bv32 { if bit then 1 else 0 }

  /** The bitwise algorithm: one message bit enters at the low end. */
  function Feed(c: bv32, bit: bool): bv32 {
    if LowBit(c) != bit then Add(Half(c), 0xEDB88320) else Half(c)
  }

  function FeedBits(c: bv32, bits: seq<bool>): bv32
    decreases |bits|
  {
    if bits == [] then c else FeedBits(Feed(c, bits[0]), bits[1..])
  }

  /** The bits of a message, each byte least significant bit first. */
  function ReflectedBits(data: seq<byte>): seq<bool> {
    if data == [] then [] else LowBits(Low(data[0]), 8) + ReflectedBits(data[1..])
  }

  function LowBits(v: bv32, n: nat): (bits: seq<bool>)
    ensures |bits| == n
    decreases n
  {
    if n == 0 then [] else [LowBit(v)] + LowBits(Half(v), n - 1)
  }

  function Halves(v: bv32, n: nat): bv32
    decreases n
  {
    if n == 0 then v else Halves(Half(v), n - 1)
  }

  lemma FeedIsShift(c: bv32, bit: bool)
    ensures Feed(c, bit) == Shift(Add(c, BitMask(bit)))
  {
    hide Add, Half, LowBit, Shift;
    ShiftCases(Add(c, BitMask(bit)));
    LowBitLinear(c, BitMask(bit));
    HalfLinear(c, BitMask(bit));
    MaskParts(bit);
    AddSelf(Half(c));
  }

  lemma MaskParts(bit: bool)
    ensures LowBit(BitMask(bit)) == bit && Half(BitMask(bit)) == 0
  {
  }

  lemma WithoutLowBit(v: bv32)
    ensures var rest := v & 0xFFFFFFFE;
            v == Add(BitMask(LowBit(v)), rest) && Shift(rest) == Half(v)
  {
  }

  lemma FeedLowBit(c: bv32, v: bv32, n: nat)
    ensures Shifts(Add(c, v), n + 1) == Shifts(Add(Feed(c, LowBit(v)), Half(v)), n)
  {
    hide Shift, Add, LowBit, Half, BitMask, Feed;
    var m, rest := BitMask(LowBit(v)), v & 0xFFFFFFFE;
    WithoutLowBit(v);
    AddAssociative(c, m, rest);
    ShiftLinear(Add(c, m), rest);
    FeedIsShift(c, LowBit(v));
  }

  lemma {:induction false} FeedField(c: bv32, v: bv32, n: nat)
    ensures Shifts(Add(c, v), n) == Add(FeedBits(c, LowBits(v, n)), Halves(v, n))
    decreases n
  {
    hide Shift, Feed, Add, LowBit, Half;
    if n > 0 {
      FeedLowBit(c, v, n - 1);
      FeedField(Feed(c, LowBit(v)), Half(v), n - 1);
      assert LowBits(v, n)[1..] == LowBits(Half(v), n - 1);
    }
  }

  lemma {:induction false} HalvesAdd(v: bv32, m: nat, n: nat)
    ensures Halves(v, m + n) == Halves(Halves(v, m), n)
    decreases m
  {
    hide Half;
    if m > 0 {
      HalvesAdd(Half(v), m - 1, n);
    }
  }

  function FourHalves(v: bv32): bv32 {
    Half(Half(Half(Half(v))))
  }

  lemma Halves4(v: bv32)
    ensures Halves(v, 4) == FourHalves(v)
  {
    hide Half;
    assert Halves(v, 4) == Halves(Half(Half(v)), 2);
  }

  lemma EightHalves(v: bv32)
    ensures FourHalves(FourHalves(v)) == DropByte(v)
  {
  }

  lemma Halves8(v: bv32)
    ensures Halves(v, 8) == DropByte(v)
  {
    hide Halves, Half, FourHalves, DropByte;
    HalvesAdd(v, 4, 4);
    Halves4(v);
    Halves4(FourHalves(v));
    EightHalves(v);
  }

  lemma LowHasOneByte(b: byte)
    ensures DropByte(Low(b)) == 0
  {
  }

  lemma FeedByte(c: bv32, b: byte)
    ensures Update(c, b) == FeedBits(c, LowBits(Low(b), 8))
  {
    hide Shifts, Feed, Add, LowBit, Half, Low, Halves, DropByte;
    FeedField(c, Low(b), 8);
    Halves8(Low(b));
    LowHasOneByte(b);
    AddSelf(FeedBits(c, LowBits(Low(b), 8)));
  }

  lemma {:induction false} FeedConcat(c: bv32, a: seq<bool>, b: seq<bool>)
    ensures FeedBits(c, a + b) == FeedBits(FeedBits(c, a), b)
    decreases |a|
  {
    hide Feed;
    if a == [] {
      assert a + b == b;
    } else {
      assert (a + b)[1..] == a[1..] + b;
      FeedConcat(Feed(c, a[0]), a[1..], b);
    }
  }

  /** The byte-at-a-time register is the one of the bitwise algorithm, for every message. */
  lemma {:induction false} RegisterIsBitwise(c: bv32, data: seq<byte>)
    ensures Register(c, data) == FeedBits(c, ReflectedBits(data))
    decreases |data|
  {
    hide Update, Feed, LowBits, Low;
    if data != [] {
      FeedByte(c, data[0]);
      FeedConcat(c, LowBits(Low(data[0]), 8), ReflectedBits(data[1..]));
      RegisterIsBitwise(Update(c, data[0]), data[1..]);
    }
  }

  lemma {:induction false} RegisterConcat(c: bv32, a: seq<byte>, b: seq<byte>)
    ensures Register(c, a + b) == Register(Register(c, a), b)
    decreases |a|
  {
    hide Update;
    if a == [] {
      assert a + b == b;
    } else {
      assert (a + b)[1..] == a[1..] + b;
      RegisterConcat(Update(c, a[0]), a[1..], b);
    }
  }

  // ----- the residue -----

  function HighPart(v: bv32): bv32 { v & 0xFFFFFF00 }

  lemma FieldParts(v: bv32)
    ensures v == Add(Low(LowByte(v)), HighPart(v))
  {
  }

  lemma HighPartEven(v: bv32)
    ensures var x := HighPart(v);
            && !LowBit(x) && !LowBit(Half(x)) && !LowBit(Half(Half(x))) && !LowBit(Half(Half(Half(x))))
  {
  }

  lemma HighPartEvenAgain(v: bv32)
    ensures var x := FourHalves(HighPart(v));
            && !LowBit(x) && !LowBit(Half(x)) && !LowBit(Half(Half(x))) && !LowBit(Half(Half(Half(x))))
  {
  }

  lemma HighPartDrop(v: bv32)
    ensures DropByte(HighPart(v)) == DropByte(v)
  {
  }

  lemma EvenShift(x: bv32)
    ensures !LowBit(x) ==> Shift(x) == Half(x)
  {
  }

  lemma EvenShifts4(x: bv32)
    requires !LowBit(x) && !LowBit(Half(x)) && !LowBit(Half(Half(x))) && !LowBit(Half(Half(Half(x))))
    ensures Shifts(x, 4) == FourHalves(x)
  {
    hide Shift, Shifts, Half, LowBit;
    Shifts4(x);
    EvenShift(x);
    EvenShift(Half(x));
    EvenShift(Half(Half(x)));
    EvenShift(Half(Half(Half(x))));
  }

  /** A register with an empty low byte is only moved right by eight division steps. */
  lemma EvenShifts8(v: bv32)
    ensures Shifts(HighPart(v), 8) == DropByte(v)
  {
    hide Shift, Shifts, Half, LowBit, FourHalves, HighPart, DropByte;
    var x := HighPart(v);
    HighPartEven(v);
    HighPartEvenAgain(v);
    EvenShifts4(x);
    EvenShifts4(FourHalves(x));
    ShiftsAdd(x, 4, 4);
    EightHalves(x);
    HighPartDrop(v);
  }

  /** The low byte of a pending field can be processed now and the rest later. */
  lemma PeelByte(c: bv32, v: bv32, n: nat)
    ensures Shifts(Add(c, v), 8 + n) == Shifts(Add(Update(c, LowByte(v)), DropByte(v)), n)
  {
    hide Shift, Shifts, Add, Low, LowByte, HighPart, DropByte;
    FieldParts(v);
    AddAssociative(c, Low(LowByte(v)), HighPart(v));
    ShiftsLinear(Add(c, Low(LowByte(v))), HighPart(v), 8);
    EvenShifts8(v);
    ShiftsAdd(Add(c, v), 8, n);
  }

  /** A 32-bit field, least significant byte first. */
  function LE32(v: bv32): (s: seq<byte>)
    ensures |s| == 4
  {
    [(v & 0xFF) as byte, ((v >> 8) & 0xFF) as byte, ((v >> 16) & 0xFF) as byte, ((v >> 24) & 0xFF) as byte]
  }

  lemma FieldBytes(v: bv32)
    ensures LE32(v) == [LowByte(v), LowByte(DropByte(v)), LowByte(DropByte(DropByte(v))),
                        LowByte(DropByte(DropByte(DropByte(v))))]
    ensures DropByte(DropByte(DropByte(DropByte(v)))) == 0
  {
  }

  /** Four bytes act on the register like thirty-two division steps of one field. */
  lemma RegisterField(c: bv32, v: bv32)
    ensures Register(c, LE32(v)) == Shifts(Add(c, v), 32)
  {
    hide Shifts, Add, LowByte, Update, Register, DropByte, LE32;
    var v1 := DropByte(v);
    var v2 := DropByte(v1);
    var v3 := DropByte(v2);
    var c1 := Update(c, LowByte(v));
    var c2 := Update(c1, LowByte(v1));
    var c3 := Update(c2, LowByte(v2));
    var c4 := Update(c3, LowByte(v3));
    FieldBytes(v);
    PeelByte(c, v, 24);
    PeelByte(c1, v1, 16);
    PeelByte(c2, v2, 8);
    PeelByte(c3, v3, 0);
    AddSelf(c4);
    ShiftsNone(c4);
    RegisterFour(c, LowByte(v), LowByte(v1), LowByte(v2), LowByte(v3));
  }

  lemma ShiftsNone(c: bv32)
    ensures Shifts(c, 0) == c
  {
  }

  lemma RegisterFour(c: bv32, b0: byte, b1: byte, b2: byte, b3: byte)
    ensures Register(c, [b0, b1, b2, b3]) == Update(Update(Update(Update(c, b0), b1), b2), b3)
  {
    hide Update, Register;
    var c2 := Update(Update(c, b0), b1);
    RegisterUnfold(c, [b0, b1, b2, b3]);
    RegisterUnfold(Update(c, b0), [b1, b2, b3]);
    RegisterUnfold(c2, [b2, b3]);
    RegisterUnfold(Update(c2, b2), [b3]);
    RegisterUnfold(Update(Update(c2, b2), b3), []);
    assert [b0, b1, b2, b3][1..] == [b1, b2, b3];
    assert [b1, b2, b3][1..] == [b2, b3];
    assert [b2, b3][1..] == [b3];
    assert [b3][1..] == [];
  }

  lemma ConstantSteps()
    ensures Shifts(0xFFFFFFFF, 32) == 0xDEBB20E3
  {
    hide Shifts;
    ShiftsAdd(0xFFFFFFFF, 4, 28);
    ShiftsAdd(0xB2420DE3, 4, 24);
    ShiftsAdd(0x2DFD1072, 4, 20);
    ShiftsAdd(0x39B1F1CF, 4, 16);
    ShiftsAdd(0xBE26ED00, 4, 12);
    ShiftsAdd(0x0BE26ED0, 4, 8);
    ShiftsAdd(0x00BE26ED, 4, 4);
    Shifts4(0xFFFFFFFF);
    Shifts4(0xB2420DE3);
    Shifts4(0x2DFD1072);
    Shifts4(0x39B1F1CF);
    Shifts4(0xBE26ED00);
    Shifts4(0x0BE26ED0);
    Shifts4(0x00BE26ED);
    Shifts4(0x86D830BA);
  }

  /**
   * A message followed by the little-endian form of its check value has check value
   * 0x2144DF1C, and with no other four bytes.
   */
  lemma Residue(data: seq<byte>, v: bv32)
    ensures Crc(data + LE32(v)) == 0x2144DF1C <==> v == Crc(data)
  {
    hide Add, Shifts, Register, LE32;
    var r := Register(INVERTED, data);
    RegisterConcat(INVERTED, data, LE32(v));
    RegisterField(r, v);
    ConstantSteps();
    ResidueConstant();
    var diff := Add(Add(r, v), INVERTED);
    ShiftsLinear(Add(r, v), INVERTED, 32);
    ShiftsZero(diff, 32);
    AddIsZero(Shifts(Add(r, v), 32), 0xDEBB20E3);
    AddIsZero(Add(r, v), INVERTED);
    Invert(r, v);
    InvertedEqual(Shifts(Add(r, v), 32), 0xDEBB20E3);
  }

  lemma ResidueConstant()
    ensures Add(0xDEBB20E3, INVERTED) == 0x2144DF1C
  {
  }

  lemma Invert(r: bv32, v: bv32)
    ensures Add(r, v) == INVERTED <==> v == Add(r, INVERTED)
  {
    hide Add;
    AddAssociative(r, r, v);
    AddAssociative(r, r, INVERTED);
    AddSelf(r);
    AddSelf(v);
    AddSelf(INVERTED);
  }

  lemma InvertedEqual(x: bv32, y: bv32)
    ensures Add(x, INVERTED) == Add(y, INVERTED) <==> x == y
  {
    hide Add;
    AddAssociative(x, INVERTED, INVERTED);
    AddAssociative(y, INVERTED, INVERTED);
    AddSelf(INVERTED);
    AddSelf(x);
    AddSelf(y);
  }

  // ----- the table and the loop -----

  function TableEntry(i: nat): bv32
    requires i < 256
  {
    Shifts(i as bv32, 8)
  }

  function Crc32Table(): (table: seq<bv32>)
    ensures |table| == 256
    ensures forall i :: 0 <= i < 256 ==> table[i] == TableEntry(i)
  {
    seq(256, i requires 0 <= i < 256 => TableEntry(i))
  }

  lemma ShiftBody(c: bv32)
    ensures (if c & 1 != 0 then 0xEDB88320 ^ (c >> 1) else c >> 1) == Shift(c)
  {
  }

  lemma UnfoldShifts(c: bv32, n: nat)
    ensures Shifts(c, n) == if n == 0 then c else Shifts(Shift(c), n - 1)
  {
  }

  lemma EntryStart(i: nat)
    requires i < 256
    ensures Shifts(i as bv32, 8) == TableEntry(i)
  {
  }

  /** The nested loops that fill the table. */
  method MakeCrc32Table() returns (table: array<bv32>)
    ensures fresh(table) && table[..] == Crc32Table()
  {
    hide Shift, Shifts, TableEntry, Crc32Table;
    table := new bv32[256];
    for i := 0 to 256
      invariant forall k :: 0 <= k < i ==> table[k] == TableEntry(k)
    {
      var c: bv32 := i as bv32;
      EntryStart(i);
      for j := 0 to 8
        invariant forall k :: 0 <= k < i ==> table[k] == TableEntry(k)
        invariant Shifts(c, 8 - j) == TableEntry(i)
      {
        ShiftBody(c);
        UnfoldShifts(c, 8 - j);
        c := if c & 1 != 0 then 0xEDB88320 ^ (c >> 1) else c >> 1;
      }
      UnfoldShifts(c, 0);
      table[i] := c;
    }
  }

  /** Which entry a message byte selects. */
  function TableIndex(c: bv32, b: byte): (i: nat)
    ensures i < 256
  {
    ((c ^ (b as bv32)) & 0xFF) as int
  }

  function TableLookup(c: bv32, b: byte): bv32 {
    Crc32Table()[TableIndex(c, b)]
  }

  lemma IndexRoundTrip(x: bv32)
    ensures (x as int) as bv32 == x
  {
  }

  lemma IndexByte(c: bv32, b: byte)
    ensures TableIndex(c, b) as bv32 == Low(LowByte(c) ^ b)
  {
    hide LowByte, Low;
    IndexField(c, b);
    IndexRoundTrip(Low(LowByte(c) ^ b));
  }

  lemma IndexField(c: bv32, b: byte)
    ensures (c ^ (b as bv32)) & 0xFF == Low(LowByte(c) ^ b)
  {
  }

  lemma TableLookupMeaning(c: bv32, b: byte)
    ensures TableLookup(c, b) == Shifts(Low(LowByte(c) ^ b), 8)
  {
    hide Shifts, LowByte, Low, TableIndex;
    IndexByte(c, b);
  }

  lemma LowLinear(a: byte, b: byte)
    ensures Low(a ^ b) == Add(Low(a), Low(b))
  {
  }

  lemma TableStep(c: bv32, b: byte)
    ensures Add(TableLookup(c, b), DropByte(c)) == Update(c, b)
  {
    hide Shifts, Add, Low, LowByte, TableLookup, HighPart, DropByte;
    var rest := HighPart(c);
    FieldParts(c);
    AddMovesLeft(Low(LowByte(c)), Low(b), rest);
    LowLinear(LowByte(c), b);
    ShiftsLinear(Low(LowByte(c) ^ b), rest, 8);
    EvenShifts8(c);
    TableLookupMeaning(c, b);
  }

  lemma LoopBody(entry: bv32, c: bv32)
    ensures Add(entry, DropByte(c)) == entry ^ (c >> 8)
  {
  }

  /** One turn of the loop. */
  method TableUpdate(c: bv32, b: byte) returns (next: bv32)
    ensures next == Update(c, b)
  {
    hide Update, Add, DropByte, Crc32Table, TableIndex;
    TableStep(c, b);
    var entry := Crc32Table()[TableIndex(c, b)];
    LoopBody(entry, c);
    next := entry ^ (c >> 8);
  }

  lemma RegisterUnfold(c: bv32, data: seq<byte>)
    ensures Register(c, data) == if data == [] then c else Register(Update(c, data[0]), data[1..])
  {
    hide Update;
  }

  /** The check value of a buffer, one table lookup a byte. */
  method ComputeCrc32(data: seq<byte>) returns (crc: bv32)
    ensures crc == Crc(data)
    ensures crc == Add(FeedBits(INVERTED, ReflectedBits(data)), INVERTED)
  {
    hide Register, Update;
    crc := 0xFFFFFFFF;
    assert data[0..] == data;
    for i := 0 to |data|
      invariant Register(crc, data[i..]) == Register(INVERTED, data)
    {
      RegisterUnfold(crc, data[i..]);
      assert data[i..][1..] == data[i + 1..];
      crc := TableUpdate(crc, data[i]);
    }
    RegisterUnfold(crc, data[|data|..]);
    RegisterIsBitwise(INVERTED, data);
    crc := crc ^ 0xFFFFFFFF;
  }

  // ----- the check value of a standard text -----

  lemma UpdateIs(c: bv32, b: byte, start: bv32, half: bv32, end: bv32)
    requires Add(c, Low(b)) == start
    requires Shift(Shift(Shift(Shift(start)))) == half && Shift(Shift(Shift(Shift(half)))) == end
    ensures Update(c, b) == end
  {
    hide Shift, Shifts, Add, Low;
    Shifts4(start);
    Shifts4(half);
    ShiftsAdd(start, 4, 4);
  }

  lemma RegisterStep(c: bv32, b: byte, rest: seq<byte>, data: seq<byte>, next: bv32, end: bv32)
    requires data == [b] + rest && Update(c, b) == next && Register(next, rest) == end
    ensures Register(c, data) == end
  {
    hide Update;
    assert data[1..] == rest;
  }

  lemma RegisterSteps(end: bv32)
    ensures Register(end, []) == end
  {
  }

  lemma CheckRegister()
    ensures Register(INVERTED, [0x31, 0x32, 0x33, 0x34, 0x35, 0x36, 0x37, 0x38, 0x39]) == 0x340BC6D9
  {
    hide Update, Register;
    CheckRegisters();
    RegisterSteps(0x340BC6D9);
    RegisterStep(0x651F2550, 0x39, [], [0x39], 0x340BC6D9, 0x340BC6D9);
    RegisterStep(0xAFFC9660, 0x38, [0x39], [0x38, 0x39], 0x651F2550, 0x340BC6D9);
    RegisterStep(0xF68D2C9E, 0x37, [0x38, 0x39], [0x37, 0x38, 0x39], 0xAFFC9660, 0x340BC6D9);
    RegisterStep(0x340AC5E3, 0x36, [0x37, 0x38, 0x39], [0x36, 0x37, 0x38, 0x39], 0xF68D2C9E, 0x340BC6D9);
    RegisterStep(0x641C1F5C, 0x35, [0x36, 0x37, 0x38, 0x39], [0x35, 0x36, 0x37, 0x38, 0x39], 0x340AC5E3, 0x340BC6D9);
    RegisterStep(0x77B79C2D, 0x34, [0x35, 0x36, 0x37, 0x38, 0x39],
                 [0x34, 0x35, 0x36, 0x37, 0x38, 0x39], 0x641C1F5C, 0x340BC6D9);
    RegisterStep(0xB0ACBB32, 0x33, [0x34, 0x35, 0x36, 0x37, 0x38, 0x39],
                 [0x33, 0x34, 0x35, 0x36, 0x37, 0x38, 0x39], 0x77B79C2D, 0x340BC6D9);
    RegisterStep(0x7C231048, 0x32, [0x33, 0x34, 0x35, 0x36, 0x37, 0x38, 0x39],
                 [0x32, 0x33, 0x34, 0x35, 0x36, 0x37, 0x38, 0x39], 0xB0ACBB32, 0x340BC6D9);
    RegisterStep(0xFFFFFFFF, 0x31, [0x32, 0x33, 0x34, 0x35, 0x36, 0x37, 0x38, 0x39],
                 [0x31, 0x32, 0x33, 0x34, 0x35, 0x36, 0x37, 0x38, 0x39], 0x7C231048, 0x340BC6D9);
  }

  lemma CheckInverted()
    ensures Add(0x340BC6D9, INVERTED) == 0xCBF43926
  {
  }

  /** The digits 1 to 9 have the check value CBF43926. */
  lemma CheckValue()
    ensures Crc([0x31, 0x32, 0x33, 0x34, 0x35, 0x36, 0x37, 0x38, 0x39]) == 0xCBF43926
  {
    hide Add, Register;
    CheckRegister();
    CheckInverted();
  }

  lemma CheckRegisters()
    ensures Update(0xFFFFFFFF, 0x31) == 0x7C231048
    ensures Update(0x7C231048, 0x32) == 0xB0ACBB32
    ensures Update(0xB0ACBB32, 0x33) == 0x77B79C2D
    ensures Update(0x77B79C2D, 0x34) == 0x641C1F5C
    ensures Update(0x641C1F5C, 0x35) == 0x340AC5E3
    ensures Update(0x340AC5E3, 0x36) == 0xF68D2C9E
    ensures Update(0xF68D2C9E, 0x37) == 0xAFFC9660
    ensures Update(0xAFFC9660, 0x38) == 0x651F2550
    ensures Update(0x651F2550, 0x39) == 0x340BC6D9
  {
    hide Update;
    UpdateIs(0xFFFFFFFF, 0x31, 0xFFFFFFCE, 0xAFF51D84, 0x7C231048);
    UpdateIs(0x7C231048, 0x32, 0x7C23107A, 0xD11492EF, 0xB0ACBB32);
    UpdateIs(0xB0ACBB32, 0x33, 0xB0ACBB01, 0x16BDDBD4, 0x77B79C2D);
    UpdateIs(0x77B79C2D, 0x34, 0x77B79C19, 0xF774EA85, 0x641C1F5C);
    UpdateIs(0x641C1F5C, 0x35, 0x641C1F69, 0xF64E52B2, 0x340AC5E3);
    UpdateIs(0x340AC5E3, 0x36, 0x340AC5D5, 0x682BFDA9, 0xF68D2C9E);
    UpdateIs(0xF68D2C9E, 0x37, 0xF68D2CA9, 0xFF67418E, 0xAFFC9660);
    UpdateIs(0xAFFC9660, 0x38, 0xAFFC9658, 0xE7474A45, 0x651F2550);
    UpdateIs(0x651F2550, 0x39, 0x651F2569, 0xF65E6112, 0x340BC6D9);
  }
}
