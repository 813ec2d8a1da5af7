/**
 * The CRC-16 that guards a packet: polynomial 0x1021, initial register 0xFFFF,
 * no final exclusive or.
 *
 * `Crc` shifts a register one bit at a time. The table-driven loops of the parser
 * and of the builder are proved against it, and it is proved against schoolbook
 * long division in LongDivision.dfy. The register is a vector over the two-element
 * field: `Add` is its addition, and every lemma here is linear algebra on it. Most
 * proofs hide the bit-level definitions and work with the algebraic laws alone.
 */
module Crc16 {
  import opened Bytes

  const INITIAL: bv16 := 0xFFFF

  // ----- register algebra -----

  function Add(x: bv16, y: bv16): bv16 { x ^ y }

  function Double(x: bv16): bv16 { x << 1 }

  function High(b: byte): bv16 { (b as bv16) << 8 }

  predicate TopBit(x: bv16) { x & 0x8000 != 0 }

  lemma AddCommutative(u: bv16, v: bv16)
    ensures Add(u, v) == Add(v, u)
  {
  }

  lemma AddAssociative(u: bv16, v: bv16, w: bv16)
    ensures Add(u, Add(v, w)) == Add(Add(u, v), w)
  {
  }

  lemma AddMovesLeft(u: bv16, v: bv16, w: bv16)
    ensures Add(Add(u, w), v) == Add(Add(u, v), w)
  {
    hide Add;
    AddAssociative(u, w, v);
    AddCommutative(w, v);
    AddAssociative(u, v, w);
  }

  lemma AddCancels(u: bv16, v: bv16, w: bv16)
    ensures Add(Add(u, w), Add(v, w)) == Add(u, v)
  {
    hide Add;
    AddInterchange(u, v, w, w);
    AddIsZero(w, w);
    AddZero(Add(u, v));
  }

  lemma AddInterchange(x: bv16, y: bv16, p: bv16, q: bv16)
    ensures Add(Add(x, y), Add(p, q)) == Add(Add(x, p), Add(y, q))
    ensures Add(Add(x, p), Add(y, q)) == Add(Add(x, y), Add(p, q))
  {
    hide Add;
    AddAssociative(Add(x, y), p, q);
    AddMovesLeft(x, p, y);
    AddAssociative(Add(x, p), y, q);
  }

  lemma AddZero(x: bv16)
    ensures Add(x, 0) == x && Add(0, x) == x
  {
  }

  lemma AddSelf(x: bv16)
    ensures Add(x, x) == 0
  {
  }

  lemma AddIsZero(x: bv16, y: bv16)
    ensures Add(x, y) == 0 <==> x == y
  {
    hide Add;
    AddSelf(x);
    if Add(x, y) == 0 {
      AddAssociative(x, x, y);
      AddZero(x);
      AddZero(y);
    }
  }

  lemma DoubleLinear(x: bv16, y: bv16)
    ensures Double(Add(x, y)) == Add(Double(x), Double(y))
  {
  }

  lemma TopBitLinear(x: bv16, y: bv16)
    ensures TopBit(Add(x, y)) <==> TopBit(x) != TopBit(y)
  {
  }

  lemma HighLinear(a: byte, b: byte)
    ensures High(a ^ b) == Add(High(a), High(b))
  {
  }

  // ----- one division step -----

  function Shift(crc: bv16): bv16 {
    if crc & 0x8000 != 0 then (crc << 1) ^ 0x1021 else crc << 1
  }

  function Shifts(crc: bv16, n: nat): bv16
    decreases n
  {
    if n == 0 then crc else Shifts(Shift(crc), n - 1)
  }

  lemma ShiftCases(x: bv16)
    ensures Shift(x) == if TopBit(x) then Add(Double(x), 0x1021) else Double(x)
  {
  }

  lemma ShiftLinear(x: bv16, y: bv16)
    ensures Shift(Add(x, y)) == Add(Shift(x), Shift(y))
  {
    hide *;
    ShiftCases(x);
    ShiftCases(y);
    ShiftCases(Add(x, y));
    DoubleLinear(x, y);
    TopBitLinear(x, y);
    AddCancels(Double(x), Double(y), 0x1021);
    AddMovesLeft(Double(x), Double(y), 0x1021);
    AddAssociative(Double(x), Double(y), 0x1021);
  }

  lemma {:induction false} ShiftsLinear(x: bv16, y: bv16, n: nat)
    ensures Shifts(Add(x, y), n) == Add(Shifts(x, n), Shifts(y, n))
    decreases n
  {
    hide Shift, Add;
    if n > 0 {
      ShiftLinear(x, y);
      ShiftsLinear(Shift(x), Shift(y), n - 1);
    }
  }

  lemma ShiftZero(x: bv16)
    ensures Shift(x) == 0 <==> x == 0
  {
  }

  /** Division steps are injective: only the zero register is driven to zero. */
  lemma {:induction false} ShiftsZero(x: bv16, n: nat)
    ensures Shifts(x, n) == 0 <==> x == 0
    decreases n
  {
    hide Shift;
    if n > 0 {
      ShiftZero(x);
      ShiftsZero(Shift(x), n - 1);
    }
  }

  lemma {:induction false} ShiftsAdd(x: bv16, m: nat, n: nat)
    ensures Shifts(Shifts(x, m), n) == Shifts(x, m + n)
    decreases m
  {
    hide Shift;
    if m > 0 {
      ShiftsAdd(Shift(x), m - 1, n);
    }
  }

  // ----- a byte, and a message -----

  /** The register after one message byte. */
  function Update(crc: bv16, b: byte): bv16 {
    Shifts(Add(crc, High(b)), 8)
  }

  /** The register after a message, starting from `crc`. */
  function Crc(crc: bv16, data: seq<byte>): bv16
    decreases |data|
  {
    if data == [] then crc else Crc(Update(crc, data[0]), data[1..])
  }

  lemma UpdateLinear(x: bv16, y: bv16, a: byte, b: byte)
    ensures Update(Add(x, y), a ^ b) == Add(Update(x, a), Update(y, b))
  {
    hide Shifts, Add, High;
    HighLinear(a, b);
    AddInterchange(x, y, High(a), High(b));
    ShiftsLinear(Add(x, High(a)), Add(y, High(b)), 8);
  }

  /** The whole check is linear: the register of a bitwise sum is the sum of the registers. */
  lemma {:induction false} CrcLinear(x: bv16, y: bv16, a: seq<byte>, b: seq<byte>)
    requires |a| == |b|
    ensures Crc(Add(x, y), Xor(a, b)) == Add(Crc(x, a), Crc(y, b))
    decreases |a|
  {
    hide Update, Add;
    if a != [] {
      UpdateLinear(x, y, a[0], b[0]);
      CrcLinear(Update(x, a[0]), Update(y, b[0]), a[1..], b[1..]);
      assert Xor(a, b)[1..] == Xor(a[1..], b[1..]);
    }
  }

  lemma {:induction false} CrcConcat(crc: bv16, a: seq<byte>, b: seq<byte>)
    ensures Crc(crc, a + b) == Crc(Crc(crc, a), b)
    decreases |a|
  {
    hide Update;
    if a == [] {
      assert a + b == b;
    } else {
      assert (a + b)[1..] == a[1..] + b;
      CrcConcat(Update(crc, a[0]), a[1..], b);
    }
  }

  lemma UpdateZeroByte(crc: bv16)
    ensures Update(crc, 0) == Shifts(crc, 8)
  {
    hide Shifts, Add;
    AddZero(crc);
  }

  /** Zero bytes never turn a nonzero register into zero, nor a zero one into nonzero. */
  lemma {:induction false} CrcOfZeros(crc: bv16, data: seq<byte>)
    requires forall i :: 0 <= i < |data| ==> data[i] == 0
    ensures Crc(crc, data) == 0 <==> crc == 0
    decreases |data|
  {
    hide Update;
    if data != [] {
      UpdateZeroByte(crc);
      ShiftsZero(crc, 8);
      CrcOfZeros(Update(crc, data[0]), data[1..]);
    }
  }

  // ----- the residue -----

  lemma Shifts4(x: bv16)
    ensures Shifts(x, 4) == Shift(Shift(Shift(Shift(x))))
  {
    hide Shift;
    assert Shifts(x, 4) == Shifts(Shift(x), 3);
    assert Shifts(Shift(x), 3) == Shifts(Shift(Shift(x)), 2);
    assert Shifts(Shift(Shift(x)), 2) == Shifts(Shift(Shift(Shift(x))), 1);
  }

  lemma SmallShift(x: bv16)
    requires x & 0x8000 == 0
    ensures Shift(x) == x << 1
  {
  }

  /** A register with an empty top half byte is only moved left by four division steps. */
  lemma SmallShifts4(x: bv16)
    requires x & 0xF000 == 0
    ensures Shifts(x, 4) == x << 4
  {
    hide Shift, Shifts;
    Shifts4(x);
    SmallShift(x);
    SmallShift(x << 1);
    SmallShift((x << 1) << 1);
    SmallShift(((x << 1) << 1) << 1);
  }

  lemma LowByteShifts(b: byte)
    ensures Shifts(b as bv16, 8) == High(b)
  {
    hide Shift, Shifts;
    var x := b as bv16;
    SmallShifts4(x);
    SmallShifts4(x << 4);
    ShiftsAdd(x, 4, 4);
  }

  lemma FieldAsSum(hi: byte, lo: byte)
    ensures ReadBE16(hi, lo) == Add(High(hi), lo as bv16)
  {
  }

  /** Two bytes act on the register like sixteen division steps of one big-endian field. */
  lemma UpdateField(crc: bv16, hi: byte, lo: byte)
    ensures Crc(crc, [hi, lo]) == Shifts(Add(crc, ReadBE16(hi, lo)), 16)
  {
    hide Shifts, Add, High, ReadBE16;
    var x, y := Add(crc, High(hi)), lo as bv16;
    assert [hi, lo][1..] == [lo];
    assert Crc(Update(crc, hi), [lo]) == Crc(Update(Update(crc, hi), lo), []);
    LowByteShifts(lo);
    ShiftsLinear(x, y, 8);
    ShiftsAdd(Add(x, y), 8, 8);
    FieldAsSum(hi, lo);
    AddAssociative(crc, High(hi), y);
  }

  /** A message followed by its own check value leaves the zero register, and only its own does. */
  lemma Residue(crc: bv16, data: seq<byte>, hi: byte, lo: byte)
    ensures Crc(crc, data + [hi, lo]) == 0 <==> Crc(crc, data) == ReadBE16(hi, lo)
  {
    hide *;
    var r, v := Crc(crc, data), ReadBE16(hi, lo);
    CrcConcat(crc, data, [hi, lo]);
    UpdateField(r, hi, lo);
    ShiftsZero(Add(r, v), 16);
    AddIsZero(r, v);
  }

  // ----- the lookup table -----

  /** What eight division steps make of the byte i in the high half. */
  function TableEntry(i: nat): bv16
    requires i < 256
  {
    Shifts(High(i as byte), 8)
  }

  function Crc16Table(): (table: seq<bv16>)
    ensures |table| == 256
    ensures forall i :: 0 <= i < 256 ==> table[i] == TableEntry(i)
  {
    seq(256, i requires 0 <= i < 256 => TableEntry(i))
  }

  lemma ShiftBody(crc: bv16)
    ensures (if crc & 0x8000 != 0 then (crc << 1) ^ 0x1021 else crc << 1) == Shift(crc)
  {
  }

  lemma EntryStart(i: nat)
    requires i < 256
    ensures Shifts((i as bv16) << 8, 8) == TableEntry(i)
  {
    hide Shifts;
    assert (i as byte) as bv16 == i as bv16;
  }

  /** The nested loops that fill the table. */
  method MakeCrc16Table() returns (table: array<bv16>)
    ensures fresh(table) && table[..] == Crc16Table()
  {
    hide Shift, Shifts, TableEntry, Crc16Table;
    table := new bv16[256];
    for i := 0 to 256
      invariant forall k :: 0 <= k < i ==> table[k] == TableEntry(k)
    {
      var crc: bv16 := (i as bv16) << 8;
      EntryStart(i);
      for j := 0 to 8
        invariant forall k :: 0 <= k < i ==> table[k] == TableEntry(k)
        invariant Shifts(crc, 8 - j) == TableEntry(i)
      {
        ShiftBody(crc);
        UnfoldShifts(crc, 8 - j);
        crc := if crc & 0x8000 != 0 then (crc << 1) ^ 0x1021 else crc << 1;
      }
      UnfoldShifts(crc, 0);
      table[i] := crc;
    }
  }

  lemma UnfoldShifts(crc: bv16, n: nat)
    ensures Shifts(crc, n) == if n == 0 then crc else Shifts(Shift(crc), n - 1)
  {
  }

  lemma RegisterHalves(crc: bv16)
    ensures crc == Add(High((crc >> 8) as byte), ((crc & 0xFF) as byte) as bv16)
    ensures crc << 8 == High((crc & 0xFF) as byte)
  {
  }

  lemma TableIndex(crc: bv16, b: byte)
    ensures ((crc >> 8) ^ (b as bv16)) & 0xFF == (((crc >> 8) as byte) ^ b) as bv16
  {
  }

  function TableLookup(crc: bv16, b: byte): bv16 {
    Crc16Table()[(((crc >> 8) ^ (b as bv16)) & 0xFF) as int]
  }

  lemma TableLookupMeaning(crc: bv16, b: byte)
    ensures TableLookup(crc, b) == Shifts(High(((crc >> 8) as byte) ^ b), 8)
  {
    hide Shifts, High;
    TableIndex(crc, b);
    IndexRoundTrip(((crc >> 8) as byte) ^ b);
  }

  lemma IndexRoundTrip(b: byte)
    ensures ((b as bv16) as int) as byte == b && (b as bv16) as int < 256
  {
  }

  /** One step of the table-driven loop is eight division steps. */
  lemma TableStep(crc: bv16, b: byte)
    ensures Add(crc << 8, TableLookup(crc, b)) == Update(crc, b)
  {
    hide Shifts, High, Add, TableLookup;
    var hi, lo := (crc >> 8) as byte, (crc & 0xFF) as byte;
    RegisterHalves(crc);
    AddMovesLeft(High(hi), High(b), lo as bv16);
    HighLinear(hi, b);
    ShiftsLinear(High(hi ^ b), lo as bv16, 8);
    LowByteShifts(lo);
    TableLookupMeaning(crc, b);
    AddCommutative(Shifts(High(hi ^ b), 8), High(lo));
  }

  /** The loop body of both table-driven implementations. */
  lemma TableLoopStep(crc: bv16, b: byte)
    ensures (crc << 8) ^ Crc16Table()[(((crc >> 8) ^ (b as bv16)) & 0xFF) as int] == Update(crc, b)
  {
    hide Update, Crc16Table;
    TableStep(crc, b);
  }

  // ----- the check value of a standard text -----

  lemma UpdateIs(crc: bv16, b: byte, start: bv16, half: bv16, end: bv16)
    requires Add(crc, High(b)) == start
    requires Shift(Shift(Shift(Shift(start)))) == half && Shift(Shift(Shift(Shift(half)))) == end
    ensures Update(crc, b) == end
  {
    hide Shift, Shifts, Add, High;
    Shifts4(start);
    Shifts4(half);
    ShiftsAdd(start, 4, 4);
  }

  lemma CrcStep(crc: bv16, b: byte, rest: seq<byte>, data: seq<byte>, next: bv16, end: bv16)
    requires data == [b] + rest && Update(crc, b) == next && Crc(next, rest) == end
    ensures Crc(crc, data) == end
  {
    hide Update;
    assert data[1..] == rest;
  }

  lemma CrcSteps(end: bv16)
    ensures Crc(end, []) == end
  {
  }

  /** The digits 1 to 9 have the check value 29B1. */
  lemma CheckValue()
    ensures Crc(0xFFFF, [0x31, 0x32, 0x33, 0x34, 0x35, 0x36, 0x37, 0x38, 0x39]) == 0x29B1
  {
    hide Update, Crc;
    CheckRegisters();
    CrcSteps(0x29B1);
    CrcStep(0xA12B, 0x39, [], [0x39], 0x29B1, 0x29B1);
    CrcStep(0x7718, 0x38, [0x39], [0x38, 0x39], 0xA12B, 0x29B1);
    CrcStep(0x2EF4, 0x37, [0x38, 0x39], [0x37, 0x38, 0x39], 0x7718, 0x29B1);
    CrcStep(0x4560, 0x36, [0x37, 0x38, 0x39], [0x36, 0x37, 0x38, 0x39], 0x2EF4, 0x29B1);
    CrcStep(0x5349, 0x35, [0x36, 0x37, 0x38, 0x39], [0x35, 0x36, 0x37, 0x38, 0x39], 0x4560, 0x29B1);
    CrcStep(0x5BCE, 0x34, [0x35, 0x36, 0x37, 0x38, 0x39], [0x34, 0x35, 0x36, 0x37, 0x38, 0x39], 0x5349, 0x29B1);
    CrcStep(0x3DBA, 0x33, [0x34, 0x35, 0x36, 0x37, 0x38, 0x39],
            [0x33, 0x34, 0x35, 0x36, 0x37, 0x38, 0x39], 0x5BCE, 0x29B1);
    CrcStep(0xC782, 0x32, [0x33, 0x34, 0x35, 0x36, 0x37, 0x38, 0x39],
            [0x32, 0x33, 0x34, 0x35, 0x36, 0x37, 0x38, 0x39], 0x3DBA, 0x29B1);
    CrcStep(0xFFFF, 0x31, [0x32, 0x33, 0x34, 0x35, 0x36, 0x37, 0x38, 0x39],
            [0x31, 0x32, 0x33, 0x34, 0x35, 0x36, 0x37, 0x38, 0x39], 0xC782, 0x29B1);
  }

  lemma CheckRegisters()
    ensures Update(0xFFFF, 0x31) == 0xC782
    ensures Update(0xC782, 0x32) == 0x3DBA
    ensures Update(0x3DBA, 0x33) == 0x5BCE
    ensures Update(0x5BCE, 0x34) == 0x5349
    ensures Update(0x5349, 0x35) == 0x4560
    ensures Update(0x4560, 0x36) == 0x2EF4
    ensures Update(0x2EF4, 0x37) == 0x7718
    ensures Update(0x7718, 0x38) == 0xA12B
    ensures Update(0xA12B, 0x39) == 0x29B1
  {
    hide Update;
    UpdateIs(0xFFFF, 0x31, 0xCEFF, 0x2E7C, 0xC782);
    UpdateIs(0xC782, 0x32, 0xF582, 0xA9CF, 0x3DBA);
    UpdateIs(0x3DBA, 0x33, 0x0EBA, 0xEBA0, 0x5BCE);
    UpdateIs(0x5BCE, 0x34, 0x6FCE, 0x9C26, 0x5349);
    UpdateIs(0x5349, 0x35, 0x6649, 0x0456, 0x4560);
    UpdateIs(0x4560, 0x36, 0x7360, 0x46E7, 0x2EF4);
    UpdateIs(0x2EF4, 0x37, 0x19F4, 0x8F61, 0x7718);
    UpdateIs(0x7718, 0x38, 0x4F18, 0xB104, 0xA12B);
    UpdateIs(0xA12B, 0x39, 0x982B, 0x1399, 0x29B1);
  }
}
