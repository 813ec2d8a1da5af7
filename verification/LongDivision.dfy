/**
 * The CRC-16 as schoolbook arithmetic: the check value of a message is the remainder
 * left when the message, followed by sixteen zero bits and with its first sixteen bits
 * inverted, is divided by the generator x^16 + x^12 + x^5 + 1 over the two-element field.
 */
module LongDivision {
  import opened Bytes
  import opened Crc16
  import opened BitCrc

  /** The coefficients of the generator polynomial, highest power first. */
  const GENERATOR: seq<bool> :=
    [true, false, false, false, true, false, false, false, false,
     false, false, true, false, false, false, false, true]

  /** The dividend minus the generator, lined up with the dividend's leading bit, which is then dropped. */
  function Subtract(dividend: seq<bool>): (r: seq<bool>)
    requires |dividend| > 16
    ensures |r| == |dividend| - 1
  {
    seq(|dividend| - 1, i requires 0 <= i < |dividend| - 1 =>
      if i < 16 then dividend[i + 1] != GENERATOR[i + 1] else dividend[i + 1])
  }

  /** Long division: what is left once fewer than seventeen bits remain. */
  function Remainder(dividend: seq<bool>): seq<bool>
    requires |dividend| >= 16
    decreases |dividend|
  {
    if |dividend| == 16 then dividend
    else if dividend[0] then Remainder(Subtract(dividend))
    else Remainder(dividend[1..])
  }

  /** The sixteen bits of a register, most significant first. */
  function RegisterBits(x: bv16): (bits: seq<bool>)
    ensures |bits| == 16
  {
    TopBits(x, 16)
  }

  /** The message followed by sixteen zeros, with the bits of `start` added to its front. */
  function Dividend(start: seq<bool>, message: seq<bool>): (d: seq<bool>)
    requires |start| == 16
    ensures |d| == |message| + 16
  {
    seq(|message| + 16, i requires 0 <= i < |message| + 16 =>
      (i < |message| && message[i]) != (i < 16 && start[i]))
  }

  lemma {:induction false} BitOfSum(x: bv16, y: bv16, n: nat, i: nat)
    requires i < n
    ensures TopBits(Add(x, y), n)[i] == (TopBits(x, n)[i] != TopBits(y, n)[i])
    decreases n
  {
    hide Add, TopBit, Double;
    TopBitLinear(x, y);
    DoubleLinear(x, y);
    if i > 0 {
      BitOfSum(Double(x), Double(y), n - 1, i - 1);
    }
  }

  lemma BitOfDouble(x: bv16, i: nat)
    requires i < 16
    ensures RegisterBits(Double(x))[i] == (i < 15 && RegisterBits(x)[i + 1])
  {
    hide TopBits, TopBit, Double, Doubles;
    TopBitsUnfold(x, 16);
    TopBitsSplit(x, 16, 1);
    Doubles16(x);
    TopBitOfZero();
    TopBitsUnfold(0, 0);
    assert TopBits(x, 17)[i + 1] == TopBits(Double(x), 16)[i];
  }

  lemma TopBitsUnfold(x: bv16, n: nat)
    ensures TopBits(x, n + 1) == [TopBit(x)] + TopBits(Double(x), n)
  {
  }

  lemma GeneratorBits()
    ensures RegisterBits(0x1021) == GENERATOR[1..]
  {
    hide TopBits;
    TopBitsSplit(0x1021, 8, 8);
    TopBitsSplit(0x1021, 4, 4);
    TopBitsSplit(Doubles(0x1021, 8), 4, 4);
    FourTopBits(0x1021);
    FourTopBits(0x0210);
    FourTopBits(0x2100);
    FourTopBits(0x1000);
    TopBitsSplit(0x1021, 4, 4);
  }

  lemma {:induction false} ZeroBits(n: nat, i: nat)
    requires i < n
    ensures !TopBits(0, n)[i]
    decreases n
  {
    assert Double(0) == 0;
    if i > 0 {
      ZeroBits(n - 1, i - 1);
    }
  }

  lemma MaskBits(bit: bool, i: nat)
    requires i < 16
    ensures RegisterBits(BitMask(bit))[i] == (i == 0 && bit)
  {
    assert Double(BitMask(bit)) == 0;
    if i > 0 {
      ZeroBits(15, i - 1);
    }
  }

  lemma LeadingBit(x: bv16)
    ensures TopBit(x) == RegisterBits(x)[0]
  {
  }

  lemma FeedAtBit(x: bv16, bit: bool, i: nat)
    requires i < 16
    ensures RegisterBits(Feed(x, bit))[i]
         == ((i < 15 && RegisterBits(x)[i + 1]) != ((RegisterBits(x)[0] != bit) && GENERATOR[i + 1]))
  {
    hide Shift, Add, Double, TopBit, TopBits, BitMask;
    var mask := BitMask(bit);
    var y := Add(x, mask);
    ShiftCases(y);
    LeadingBit(y);
    BitOfSum(x, mask, 16, 0);
    MaskBits(bit, 0);
    BitOfSum(Double(y), 0x1021, 16, i);
    GeneratorBits();
    BitOfDouble(y, i);
    if i < 15 {
      BitOfSum(x, mask, 16, i + 1);
      MaskBits(bit, i + 1);
    }
  }

  /** Feeding one bit is one step of the division. */
  lemma DivisionStep(x: bv16, message: seq<bool>)
    requires message != []
    ensures Remainder(Dividend(RegisterBits(x), message))
         == Remainder(Dividend(RegisterBits(Feed(x, message[0])), message[1..]))
  {
    hide RegisterBits, Feed;
    var d := Dividend(RegisterBits(x), message);
    var d' := Dividend(RegisterBits(Feed(x, message[0])), message[1..]);
    forall i | 0 <= i < 16
      ensures d'[i] == (d[i + 1] != (d[0] && GENERATOR[i + 1]))
    {
      FeedAtBit(x, message[0], i);
    }
    assert if d[0] then d' == Subtract(d) else d' == d[1..];
  }

  lemma {:induction false} RegisterIsRemainder(x: bv16, message: seq<bool>)
    ensures RegisterBits(FeedBits(x, message)) == Remainder(Dividend(RegisterBits(x), message))
    decreases |message|
  {
    hide RegisterBits, Feed, Remainder;
    if message == [] {
      assert Dividend(RegisterBits(x), []) == RegisterBits(x);
      RemainderOfShort(RegisterBits(x));
    } else {
      DivisionStep(x, message);
      RegisterIsRemainder(Feed(x, message[0]), message[1..]);
    }
  }

  lemma RemainderOfShort(d: seq<bool>)
    requires |d| == 16
    ensures Remainder(d) == d
  {
  }

  lemma InitialBits()
    ensures RegisterBits(INITIAL) == seq(16, _ => true)
  {
    hide TopBits;
    TopBitsSplit(0xFFFF, 8, 8);
    TopBitsSplit(0xFFFF, 4, 4);
    TopBitsSplit(Doubles(0xFFFF, 8), 4, 4);
    FourTopBits(0xFFFF);
    FourTopBits(0xFFF0);
    FourTopBits(0xFF00);
    FourTopBits(0xF000);
  }

  /** The packet check value is the remainder of polynomial long division, for every message. */
  lemma CrcIsRemainder(data: seq<byte>)
    ensures RegisterBits(Crc(INITIAL, data))
         == Remainder(Dividend(seq(16, _ => true), Bits(data)))
  {
    hide Feed, Update, FeedBits, Remainder;
    CrcIsFeedBits(INITIAL, data);
    RegisterIsRemainder(INITIAL, Bits(data));
    InitialBits();
  }

  // ----- patterns within seventeen bits -----

  /** Sixteen bits fed into the register are a field added to it and shifted through. */
  lemma FeedField16(crc: bv16, hi: byte, lo: byte)
    ensures FeedBits(crc, ByteBits(hi) + ByteBits(lo)) == Shifts(Add(crc, ReadBE16(hi, lo)), 16)
  {
    hide Feed, FeedBits, ByteBits, Update, Shifts, Add, ReadBE16;
    TwoByteBits(hi, lo);
    CrcIsFeedBits(crc, [hi, lo]);
    UpdateField(crc, hi, lo);
    CrcOfTwo(crc, hi, lo);
  }

  lemma CrcOfTwo(crc: bv16, hi: byte, lo: byte)
    ensures Crc(crc, [hi, lo]) == Update(Update(crc, hi), lo)
  {
    hide Update;
    assert [hi, lo][1..] == [lo] && [lo][1..] == [];
    assert Crc(Update(crc, hi), [lo]) == Crc(Update(Update(crc, hi), lo), []);
  }

  lemma GeneratorBytes(hi: byte, lo: byte)
    ensures ReadBE16(hi, lo) == 0x1021 <==> ByteBits(hi) + ByteBits(lo) == GENERATOR[1..]
  {
    hide ReadBE16, BE16, ByteBits;
    BE16RoundTrip(0x1021, hi, lo);
    LowGenerator();
    if ByteBits(hi) + ByteBits(lo) == GENERATOR[1..] {
      assert ByteBits(hi) == (ByteBits(hi) + ByteBits(lo))[..8] == ByteBits(0x10);
      assert ByteBits(lo) == (ByteBits(hi) + ByteBits(lo))[8..] == ByteBits(0x21);
      SameByte(hi, 0x10);
      SameByte(lo, 0x21);
    }
  }

  lemma LowGenerator()
    ensures BE16(0x1021) == [0x10, 0x21]
    ensures ByteBits(0x10) == GENERATOR[1..][..8] && ByteBits(0x21) == GENERATOR[1..][8..]
  {
  }

  lemma SameByte(a: byte, b: byte)
    requires ByteBits(a) == ByteBits(b)
    ensures a == b
  {
    hide ByteBits;
    BitsOfByte(a);
    BitsOfByte(b);
  }

  lemma BitsOfByte(a: byte)
    ensures MakeByte(ByteBits(a)) == a
  {
  }

  /** Of all seventeen-bit windows that start with a one, the generator alone leaves the zero register. */
  lemma GeneratorOnly(window: seq<bool>)
    requires |window| == 17 && window[0]
    ensures FeedBits(0, window) == 0 <==> window == GENERATOR
  {
    hide Feed, FeedBits, ByteBits, MakeByte, Shift, Shifts, Add, ReadBE16;
    var rest := window[1..];
    var hi, lo := MakeByte(rest[..8]), MakeByte(rest[8..]);
    MakeByteBits(rest[..8]);
    MakeByteBits(rest[8..]);
    assert rest == ByteBits(hi) + ByteBits(lo);
    assert window == [true] + rest && GENERATOR == [true] + GENERATOR[1..];
    FeedConcat(0, [true], rest);
    FeedTop();
    FeedField16(0x1021, hi, lo);
    ShiftsZero(Add(0x1021, ReadBE16(hi, lo)), 16);
    AddIsZero(0x1021, ReadBE16(hi, lo));
    GeneratorBytes(hi, lo);
  }

  lemma FeedTop()
    ensures FeedBits(0, [true]) == 0x1021
  {
    assert [true][1..] == [];
  }

  /** The pattern lies within seventeen positions, the first of which is flipped. */
  ghost predicate Within17(error: seq<bool>, start: nat) {
    && start + 17 <= |error|
    && error[start]
    && AllFalse(error[..start])
    && AllFalse(error[start + 17..])
  }

  /** Such a pattern leaves the zero register if and only if it is the generator. */
  lemma Within17UndetectedIff(error: seq<bool>, start: nat)
    requires Within17(error, start)
    ensures FeedBits(0, error) == 0 <==> error[start..start + 17] == GENERATOR
  {
    hide Feed, FeedBits, AllFalse;
    var before, window, after := error[..start], error[start..start + 17], error[start + 17..];
    assert error == before + (window + after);
    FeedConcat(0, before, window + after);
    FeedFalses(0, before);
    FeedConcat(0, window, after);
    FeedFalses(FeedBits(0, window), after);
    GeneratorOnly(window);
  }
}
