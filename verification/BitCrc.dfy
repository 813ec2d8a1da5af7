/** The CRC-16 register fed one message bit at a time, and the error patterns it cannot miss. */
module BitCrc {
  import opened Bytes
  import opened Crc16

  function BitMask(bit: bool): bv16 { if bit then 0x8000 else 0 }

  /** One message bit enters at the top of the register. */
  function Feed(crc: bv16, bit: bool): bv16 {
    Shift(Add(crc, BitMask(bit)))
  }

  function FeedBits(crc: bv16, bits: seq<bool>): bv16
    decreases |bits|
  {
    if bits == [] then crc else FeedBits(Feed(crc, bits[0]), bits[1..])
  }

  lemma {:induction false} FeedConcat(crc: bv16, a: seq<bool>, b: seq<bool>)
    ensures FeedBits(crc, a + b) == FeedBits(FeedBits(crc, a), b)
    decreases |a|
  {
    hide Feed;
    if a == [] {
      assert a + b == b;
    } else {
      assert (a + b)[1..] == a[1..] + b;
      FeedConcat(Feed(crc, a[0]), a[1..], b);
    }
  }

  // ----- a byte is its eight bits -----

  lemma WithoutTopBit(v: bv16)
    ensures var rest := v & 0x7FFF;
            v == Add(BitMask(TopBit(v)), rest) && Shift(rest) == Double(v)
  {
  }

  /** The top bit of a pending field can be fed now and the rest of the field later. */
  lemma FeedTopBit(crc: bv16, v: bv16, n: nat)
    ensures Shifts(Add(crc, v), n + 1) == Shifts(Add(Feed(crc, TopBit(v)), Double(v)), n)
  {
    hide Shift, Add, TopBit, Double, BitMask;
    var m, rest := BitMask(TopBit(v)), v & 0x7FFF;
    WithoutTopBit(v);
    AddAssociative(crc, m, rest);
    ShiftLinear(Add(crc, m), rest);
  }

  lemma {:induction false} FeedByte(crc: bv16, b: byte)
    ensures Update(crc, b) == FeedBits(crc, ByteBits(b))
  {
    hide Shifts, Feed, Add, TopBit, Double, High, ByteBits;
    FeedField(crc, High(b), 8);
    ByteFieldBits(b);
    AddZero(FeedBits(crc, TopBits(High(b), 8)));
  }

  function TopBits(v: bv16, n: nat): (bits: seq<bool>)
    ensures |bits| == n
    decreases n
  {
    if n == 0 then [] else [TopBit(v)] + TopBits(Double(v), n - 1)
  }

  function Doubles(v: bv16, n: nat): bv16
    decreases n
  {
    if n == 0 then v else Doubles(Double(v), n - 1)
  }

  lemma {:induction false} FeedField(crc: bv16, v: bv16, n: nat)
    ensures Shifts(Add(crc, v), n) == Add(FeedBits(crc, TopBits(v, n)), Doubles(v, n))
    decreases n
  {
    hide Shift, Feed, Add, TopBit, Double;
    if n > 0 {
      FeedTopBit(crc, v, n - 1);
      FeedField(Feed(crc, TopBit(v)), Double(v), n - 1);
      assert TopBits(v, n)[1..] == TopBits(Double(v), n - 1);
    }
  }

  lemma ByteFieldBits(b: byte)
    ensures TopBits(High(b), 8) == ByteBits(b)
    ensures Doubles(High(b), 8) == 0
  {
    hide TopBit, Double, High, ByteBits;
    var d0 := High(b);
    var d1 := Double(d0);
    var d2 := Double(d1);
    var d3 := Double(d2);
    var d4 := Double(d3);
    DoubledByte(b);
    FourTopBits(d0);
    FourTopBits(d4);
    TopBitsSplit(d0, 4, 4);
  }

  lemma FourTopBits(v: bv16)
    ensures TopBits(v, 4)
         == [TopBit(v), TopBit(Double(v)), TopBit(Double(Double(v))), TopBit(Double(Double(Double(v))))]
    ensures Doubles(v, 4) == Double(Double(Double(Double(v))))
  {
    hide TopBit, Double;
    var d1 := Double(v);
    var d2 := Double(d1);
    assert TopBits(v, 4) == [TopBit(v)] + ([TopBit(d1)] + TopBits(d2, 2));
    assert TopBits(d2, 2) == [TopBit(d2)] + ([TopBit(Double(d2))] + TopBits(Double(Double(d2)), 0));
    assert Doubles(v, 4) == Doubles(d2, 2);
  }

  lemma {:induction false} TopBitsSplit(v: bv16, m: nat, n: nat)
    ensures TopBits(v, m + n) == TopBits(v, m) + TopBits(Doubles(v, m), n)
    ensures Doubles(v, m + n) == Doubles(Doubles(v, m), n)
    decreases m
  {
    hide TopBit, Double;
    if m > 0 {
      TopBitsSplit(Double(v), m - 1, n);
    }
  }

  lemma DoubledByte(b: byte)
    ensures var d0 := High(b);
            var d1 := Double(d0);
            var d2 := Double(d1);
            var d3 := Double(d2);
            var d4 := Double(d3);
            var d5 := Double(d4);
            var d6 := Double(d5);
            var d7 := Double(d6);
            && ByteBits(b) == [TopBit(d0), TopBit(d1), TopBit(d2), TopBit(d3),
                               TopBit(d4), TopBit(d5), TopBit(d6), TopBit(d7)]
            && Double(d7) == 0
  {
  }

  /** The byte-at-a-time register is the bit-at-a-time register. */
  lemma {:induction false} CrcIsFeedBits(crc: bv16, data: seq<byte>)
    ensures Crc(crc, data) == FeedBits(crc, Bits(data))
    decreases |data|
  {
    hide Update, Feed, ByteBits;
    if data != [] {
      FeedByte(crc, data[0]);
      FeedConcat(crc, ByteBits(data[0]), Bits(data[1..]));
      CrcIsFeedBits(Update(crc, data[0]), data[1..]);
    }
  }

  // ----- bursts -----

  lemma FeedFalse(crc: bv16)
    ensures Feed(crc, false) == Shift(crc)
  {
    hide Shift, Add;
    AddZero(crc);
  }

  ghost predicate AllFalse(bits: seq<bool>) {
    forall i :: 0 <= i < |bits| ==> !bits[i]
  }

  /** Bits equal to zero keep a zero register zero and a nonzero one nonzero. */
  lemma {:induction false} FeedFalses(crc: bv16, bits: seq<bool>)
    requires AllFalse(bits)
    ensures FeedBits(crc, bits) == 0 <==> crc == 0
    decreases |bits|
  {
    hide Shift, Feed;
    if bits != [] {
      FeedFalse(crc);
      ShiftZero(crc);
      FeedFalses(Feed(crc, false), bits[1..]);
    }
  }

  /** Sixteen bits fed into an empty register vanish only if they are all zero. */
  lemma FeedWindow(bits: seq<bool>)
    requires |bits| == 16
    ensures FeedBits(0, bits) == 0 <==> AllFalse(bits)
  {
    hide Feed, ByteBits, MakeByte, Update, Shifts;
    if !AllFalse(bits) {
      var i :| 0 <= i < 16 && bits[i];
      var hi, lo := MakeByte(bits[..8]), MakeByte(bits[8..]);
      MakeByteBits(bits[..8]);
      MakeByteBits(bits[8..]);
      assert Bits([hi, lo]) == bits by { TwoByteBits(hi, lo); }
      CrcIsFeedBits(0, [hi, lo]);
      UpdateField(0, hi, lo);
      AddZero(ReadBE16(hi, lo));
      ShiftsZero(ReadBE16(hi, lo), 16);
      FieldZero(hi, lo);
      NonzeroByte(if i < 8 then hi else lo, i % 8);
    } else {
      FeedFalses(0, bits);
    }
  }

  lemma TwoByteBits(hi: byte, lo: byte)
    ensures Bits([hi, lo]) == ByteBits(hi) + ByteBits(lo)
  {
    hide ByteBits;
    assert [hi, lo][1..] == [lo] && [lo][1..] == [];
  }

  lemma FieldZero(hi: byte, lo: byte)
    ensures ReadBE16(hi, lo) == 0 <==> hi == 0 && lo == 0
  {
  }

  lemma NonzeroByte(b: byte, i: nat)
    requires i < 8
    ensures ByteBits(b)[i] ==> b != 0
  {
  }

  /** An error pattern whose flipped bits all lie within sixteen consecutive positions. */
  ghost predicate Burst(error: seq<bool>, start: nat) {
    && (forall j :: 0 <= j < |error| && error[j] ==> start <= j < start + 16)
    && (exists j :: 0 <= j < |error| && error[j])
  }

  /** A burst with sixteen zero bits behind it has room for its whole window. */
  lemma BurstWindow(error: seq<bool>, start: nat)
    requires Burst(error, start)
    ensures var padded := error + seq(16, _ => false);
            && start + 16 <= |padded|
            && AllFalse(padded[..start])
            && AllFalse(padded[start + 16..])
            && !AllFalse(padded[start..start + 16])
  {
    var padded := error + seq(16, _ => false);
    var k :| 0 <= k < |error| && error[k];
    assert padded[start..start + 16][k - start] == padded[k] == error[k];
    forall i | start + 16 <= i < |padded|
      ensures !padded[i]
    {
    }
  }

  /** No burst of up to sixteen bits leaves the zero register. */
  lemma BurstDetected(error: seq<bool>, start: nat)
    requires Burst(error, start)
    ensures FeedBits(0, error) != 0
  {
    hide Feed, FeedBits, Burst, AllFalse;
    BurstWindow(error, start);
    var padding := seq(16, _ => false);
    var padded := error + padding;
    var before, window, after := padded[..start], padded[start..start + 16], padded[start + 16..];
    PaddingIsFalse(padding);
    FeedConcat(0, error, padding);
    FeedFalses(FeedBits(0, error), padding);
    assert padded == before + (window + after);
    FeedConcat(0, before, window + after);
    FeedFalses(0, before);
    FeedConcat(0, window, after);
    FeedFalses(FeedBits(0, window), after);
    FeedWindow(window);
  }

  lemma PaddingIsFalse(padding: seq<bool>)
    requires padding == seq(16, _ => false)
    ensures AllFalse(padding)
  {
  }

  // ----- odd numbers of flipped bits -----

  /** Whether the n topmost bits hold an odd number of ones. */
  predicate OddTop(x: bv16, n: nat)
    decreases n
  {
    n > 0 && TopBit(x) != OddTop(Double(x), n - 1)
  }

  lemma {:induction false} OddTopLinear(x: bv16, y: bv16, n: nat)
    ensures OddTop(Add(x, y), n) <==> OddTop(x, n) != OddTop(y, n)
    decreases n
  {
    hide Add, TopBit, Double;
    if n > 0 {
      TopBitLinear(x, y);
      DoubleLinear(x, y);
      OddTopLinear(Double(x), Double(y), n - 1);
    }
  }

  lemma {:induction false} OddTopLast(x: bv16, n: nat)
    ensures OddTop(x, n + 1) <==> OddTop(x, n) != TopBit(Doubles(x, n))
    decreases n
  {
    hide TopBit, Double;
    if n > 0 {
      OddTopLast(Double(x), n - 1);
    }
  }

  lemma Doubles16(x: bv16)
    ensures Doubles(x, 16) == 0
  {
    hide Doubles, TopBit;
    TopBitsSplit(x, 8, 8);
    TopBitsSplit(x, 4, 4);
    TopBitsSplit(Doubles(x, 8), 4, 4);
    FourTopBits(x);
    FourTopBits(Doubles(x, 4));
    FourTopBits(Doubles(x, 8));
    FourTopBits(Doubles(Doubles(x, 8), 4));
  }

  /** Whether the register holds an odd number of ones. */
  predicate Odd(x: bv16) {
    OddTop(x, 16)
  }

  lemma OddDouble(x: bv16)
    ensures Odd(Double(x)) <==> Odd(x) != TopBit(x)
  {
    hide TopBit, Double;
    Doubles16(x);
    OddTopLast(Double(x), 15);
    assert Doubles(x, 16) == Doubles(Double(x), 15);
    assert !TopBit(0) by { TopBitOfZero(); }
  }

  lemma TopBitOfZero()
    ensures !TopBit(0)
  {
  }

  lemma OddTopFour(x: bv16, n: nat)
    ensures OddTop(x, n + 4)
       <==> (TopBit(x) != (TopBit(Double(x)) != (TopBit(Double(Double(x)))
             != (TopBit(Double(Double(Double(x)))) != OddTop(Double(Double(Double(Double(x)))), n)))))
  {
    hide TopBit, Double;
    var d2 := Double(Double(x));
    assert OddTop(x, n + 4) <==> (TopBit(x) != (TopBit(Double(x)) != OddTop(d2, n + 2)));
    assert OddTop(d2, n + 2) <==> (TopBit(d2) != (TopBit(Double(d2)) != OddTop(Double(Double(d2)), n)));
  }

  lemma OddConstants()
    ensures Odd(0x8000) && Odd(0x1021) && !Odd(0)
  {
    hide OddTop;
    OddTopZero(0);
    OddTopFour(0x8000, 12);
    OddTopFour(0, 0);
    OddTopFour(0, 4);
    OddTopFour(0, 8);
    OddTopFour(0, 12);
    OddTopFour(0x1021, 12);
    OddTopFour(0x0210, 8);
    OddTopFour(0x2100, 4);
    OddTopFour(0x1000, 0);
  }

  lemma OddTopZero(x: bv16)
    ensures !OddTop(x, 0)
  {
  }

  /** A division step subtracts four bits or none, so it keeps the parity of the register. */
  lemma OddShift(x: bv16)
    ensures Odd(Shift(x)) <==> Odd(x)
  {
    hide Shift, Add, TopBit, Double, Odd;
    ShiftCases(x);
    OddDouble(x);
    OddSum(Double(x), 0x1021);
    OddConstants();
  }

  lemma OddSum(x: bv16, y: bv16)
    ensures Odd(Add(x, y)) <==> Odd(x) != Odd(y)
  {
    hide Add, OddTop;
    OddTopLinear(x, y, 16);
  }

  lemma OddFeed(crc: bv16, bit: bool)
    ensures Odd(Feed(crc, bit)) <==> Odd(crc) != bit
  {
    hide Shift, Add, Odd;
    OddShift(Add(crc, BitMask(bit)));
    OddSum(crc, BitMask(bit));
    OddConstants();
  }

  lemma {:induction false} OddFeedBits(crc: bv16, bits: seq<bool>)
    ensures Odd(FeedBits(crc, bits)) <==> Odd(crc) != (CountTrue(bits) % 2 == 1)
    decreases |bits|
  {
    hide Feed, Odd;
    if bits != [] {
      OddFeed(crc, bits[0]);
      OddFeedBits(Feed(crc, bits[0]), bits[1..]);
    }
  }

  /** No odd number of flipped bits, wherever they are, leaves the zero register. */
  lemma OddErrorDetected(error: seq<bool>)
    requires CountTrue(error) % 2 == 1
    ensures FeedBits(0, error) != 0
  {
    OddFeedBits(0, error);
  }

  /** Seventeen bits are too many: the generator polynomial itself leaves the zero register. */
  lemma {:induction false} GeneratorUndetected(before: seq<byte>, after: seq<byte>)
    requires forall i :: 0 <= i < |before| ==> before[i] == 0
    requires forall i :: 0 <= i < |after| ==> after[i] == 0
    ensures Crc(0, before + [0x01, 0x10, 0x21] + after) == 0
  {
    var g: seq<byte> := [0x01, 0x10, 0x21];
    CrcConcat(0, before + g, after);
    CrcConcat(0, before, g);
    CrcOfZeros(0, before);
    assert Crc(0, g) == 0 by {
      assert g[1..] == [0x10, 0x21] && g[2..] == [0x21];
    }
    CrcOfZeros(Crc(0, before + g), after);
  }
}
