/** Which transmission errors the packet check catches. */
module Integrity {
  import opened Bytes
  import opened Crc16
  import opened BitCrc
  import opened LongDivision
  import opened Packet
  import opened Period

  /** The register is zero after all the bytes an accepted packet declares, and only then do the check bytes match. */
  lemma ResidueOfPacket(data: seq<byte>, total: nat)
    requires CRC_SIZE <= total <= |data|
    ensures Crc(INITIAL, data[..total]) == 0
       <==> Crc(INITIAL, data[..total - CRC_SIZE]) == ReadBE16(data[total - 2], data[total - 1])
  {
    hide Crc, ReadBE16;
    assert data[..total] == data[..total - CRC_SIZE] + [data[total - 2], data[total - 1]];
    Residue(INITIAL, data[..total - CRC_SIZE], data[total - 2], data[total - 1]);
  }

  lemma MagicDamage(a0: byte, a1: byte, a2: byte, a3: byte, e0: byte, e1: byte, e2: byte, e3: byte)
    ensures ReadBE32(a0 ^ e0, a1 ^ e1, a2 ^ e2, a3 ^ e3) == ReadBE32(a0, a1, a2, a3)
       <==> e0 == 0 && e1 == 0 && e2 == 0 && e3 == 0
  {
    hide ReadBE32, BE32;
    BE32RoundTrip(0, a0, a1, a2, a3);
    BE32RoundTrip(0, a0 ^ e0, a1 ^ e1, a2 ^ e2, a3 ^ e3);
    ByteDamage(a0, e0);
    ByteDamage(a1, e1);
    ByteDamage(a2, e2);
    ByteDamage(a3, e3);
    if ReadBE32(a0 ^ e0, a1 ^ e1, a2 ^ e2, a3 ^ e3) == ReadBE32(a0, a1, a2, a3) {
      var sent, got := [a0, a1, a2, a3], [a0 ^ e0, a1 ^ e1, a2 ^ e2, a3 ^ e3];
      assert sent == got;
      assert sent[0] == got[0] && sent[1] == got[1] && sent[2] == got[2] && sent[3] == got[3];
    }
  }

  lemma ByteDamage(a: byte, e: byte)
    ensures a ^ e == a <==> e == 0
  {
  }

  /** The header bytes an error leaves alone: the magic number is intact. */
  predicate MagicIntact(error: seq<byte>)
    requires |error| >= 4
  {
    error[0] == 0 && error[1] == 0 && error[2] == 0 && error[3] == 0
  }

  function MagicOf(data: seq<byte>): bv32
    requires |data| >= 4
  {
    ReadBE32(data[0], data[1], data[2], data[3])
  }

  lemma HeaderDamage(data: seq<byte>, error: seq<byte>)
    requires |data| == |error| >= HEADER_SIZE
    ensures MagicOf(Xor(data, error)) == MagicOf(data) <==> MagicIntact(error)
    ensures error[6] == 0 && error[7] == 0 ==> DeclaredLength(Xor(data, error)) == DeclaredLength(data)
  {
    hide Size, ReadBE16, ReadBE32;
    ByteDamage(data[6], error[6]);
    ByteDamage(data[7], error[7]);
    MagicDamage(data[0], data[1], data[2], data[3], error[0], error[1], error[2], error[3]);
  }

  lemma AcceptedConditions(data: seq<byte>)
    ensures Accepted(data)
       <==> (&& |data| >= MIN_PKT_SIZE
             && MagicOf(data) == MAGIC_HEADER
             && MIN_PKT_SIZE <= DeclaredLength(data) <= |data|
             && DecodeTLVs(data[HEADER_SIZE..DeclaredLength(data) - CRC_SIZE]).ok
             && Crc(INITIAL, data[..DeclaredLength(data)]) == 0)
  {
    hide Size, ReadBE16, ReadBE32, Crc, DecodeTLVs;
    if |data| >= MIN_PKT_SIZE && MIN_PKT_SIZE <= DeclaredLength(data) <= |data| {
      ResidueOfPacket(data, DeclaredLength(data));
    }
  }

  /** A damaged prefix leaves the zero register exactly when the register of its original equals that of the error. */
  lemma ResidueOfDamage(data: seq<byte>, error: seq<byte>, total: nat)
    requires |error| == |data| && total <= |data|
    ensures Crc(INITIAL, Xor(data, error)[..total]) == 0 <==> Crc(INITIAL, data[..total]) == Crc(0, error[..total])
  {
    hide Crc, Add;
    assert Xor(data, error)[..total] == Xor(data[..total], error[..total]);
    AddZero(INITIAL);
    CrcLinear(INITIAL, 0, data[..total], error[..total]);
    AddIsZero(Crc(INITIAL, data[..total]), Crc(0, error[..total]));
  }

  /**
   * Any damage at all to an accepted packet, its length field included, goes unnoticed exactly
   * when it spares the magic number, the length now declared is one the bytes at hand can have,
   * the region of that length splits into chunks, and over that length the error pattern, from
   * an empty register, has the register of the original bytes.
   */
  lemma DamageAcceptedIff(data: seq<byte>, error: seq<byte>)
    requires Accepted(data) && |error| == |data|
    ensures |data| >= MIN_PKT_SIZE
    ensures var damaged := Xor(data, error);
            var total := DeclaredLength(damaged);
            Accepted(damaged)
            <==> (&& MagicIntact(error)
                  && MIN_PKT_SIZE <= total <= |data|
                  && DecodeTLVs(damaged[HEADER_SIZE..total - CRC_SIZE]).ok
                  && Crc(INITIAL, data[..total]) == Crc(0, error[..total]))
  {
    hide Accepted, DeclaredLength, MagicOf, Crc, DecodeTLVs, MagicIntact;
    AcceptedConditions(data);
    var damaged := Xor(data, error);
    var total := DeclaredLength(damaged);
    AcceptedConditions(damaged);
    HeaderDamage(data, error);
    if total <= |data| {
      ResidueOfDamage(data, error, total);
    }
  }

  /**
   * So an error that spares the length field goes unnoticed exactly when it spares the magic
   * number too, the damaged region still splits into chunks, and the check value of the
   * error pattern itself, from an empty register, is zero.
   */
  lemma UndetectedIff(data: seq<byte>, error: seq<byte>)
    requires Accepted(data) && |error| == |data|
    requires error[6] == 0 && error[7] == 0
    ensures var damaged, total := Xor(data, error), DeclaredLength(data);
            && MIN_PKT_SIZE <= total <= |data|
            && DeclaredLength(damaged) == total
            && (Accepted(damaged)
                <==> (&& MagicIntact(error)
                      && DecodeTLVs(damaged[HEADER_SIZE..total - CRC_SIZE]).ok
                      && Crc(0, error[..total]) == 0))
  {
    hide Accepted, DeclaredLength, MagicOf, Crc, DecodeTLVs, MagicIntact;
    DamageAcceptedIff(data, error);
    AcceptedConditions(data);
    HeaderDamage(data, error);
  }

  /** The bits an error flips within the declared length of a packet. */
  function FlippedBits(data: seq<byte>, error: seq<byte>): seq<bool>
    requires |data| >= HEADER_SIZE && DeclaredLength(data) <= |error|
  {
    Bits(error[..DeclaredLength(data)])
  }

  /** Every burst of up to sixteen bits that spares the length field is caught. */
  lemma BurstRejected(data: seq<byte>, error: seq<byte>, start: nat)
    requires Accepted(data) && |error| == |data|
    requires error[6] == 0 && error[7] == 0
    requires Burst(FlippedBits(data, error), start)
    ensures !Accepted(Xor(data, error))
  {
    hide Accepted, Burst, Crc, DeclaredLength;
    UndetectedIff(data, error);
    CrcIsFeedBits(0, error[..DeclaredLength(data)]);
    BurstDetected(FlippedBits(data, error), start);
  }

  /** Every odd number of flipped bits that spares the length field is caught, however they are spread. */
  lemma OddErrorRejected(data: seq<byte>, error: seq<byte>)
    requires Accepted(data) && |error| == |data|
    requires error[6] == 0 && error[7] == 0
    requires CountTrue(FlippedBits(data, error)) % 2 == 1
    ensures !Accepted(Xor(data, error))
  {
    hide Accepted, Crc, DeclaredLength;
    UndetectedIff(data, error);
    CrcIsFeedBits(0, error[..DeclaredLength(data)]);
    OddErrorDetected(FlippedBits(data, error));
  }

  /**
   * Two flipped bits that spare the length field go unnoticed exactly when they lie a multiple
   * of 32767 bits apart and neither the magic number nor the division into chunks suffers.
   */
  lemma TwoBitErrorAcceptedIff(data: seq<byte>, error: seq<byte>, i: nat, j: nat)
    requires Accepted(data) && |error| == |data|
    requires error[6] == 0 && error[7] == 0
    requires TwoBits(FlippedBits(data, error), i, j)
    ensures var damaged, total := Xor(data, error), DeclaredLength(data);
            && MIN_PKT_SIZE <= total <= |data|
            && (Accepted(damaged)
                <==> (&& (j - i) % PERIOD == 0
                      && MagicIntact(error)
                      && DecodeTLVs(damaged[HEADER_SIZE..total - CRC_SIZE]).ok))
  {
    hide Accepted, TwoBits, Crc, DeclaredLength, DecodeTLVs, MagicIntact;
    UndetectedIff(data, error);
    CrcIsFeedBits(0, error[..DeclaredLength(data)]);
    TwoBitsUndetectedIff(FlippedBits(data, error), i, j);
  }

  /** In a packet of up to 4095 bytes, any one, two or three flipped bits that spare the length field are caught. */
  lemma FewErrorsRejected(data: seq<byte>, error: seq<byte>)
    requires Accepted(data) && |error| == |data|
    requires error[6] == 0 && error[7] == 0
    requires DeclaredLength(data) <= 4095
    requires 1 <= CountTrue(FlippedBits(data, error)) <= 3
    ensures !Accepted(Xor(data, error))
  {
    hide Accepted, Crc, DeclaredLength, CountTrue;
    UndetectedIff(data, error);
    CrcIsFeedBits(0, error[..DeclaredLength(data)]);
    FewErrorsDetected(FlippedBits(data, error));
  }

  /**
   * Of all error patterns within seventeen bits that spare the length field and flip the first
   * of the seventeen, the generator's is the only one that can go unnoticed.
   */
  lemma SeventeenBitsAcceptedIff(data: seq<byte>, error: seq<byte>, start: nat)
    requires Accepted(data) && |error| == |data|
    requires error[6] == 0 && error[7] == 0
    requires Within17(FlippedBits(data, error), start)
    ensures var damaged, total := Xor(data, error), DeclaredLength(data);
            && MIN_PKT_SIZE <= total <= |data|
            && (Accepted(damaged)
                <==> (&& FlippedBits(data, error)[start..start + 17] == GENERATOR
                      && MagicIntact(error)
                      && DecodeTLVs(damaged[HEADER_SIZE..total - CRC_SIZE]).ok))
  {
    hide Accepted, Crc, DeclaredLength, DecodeTLVs, MagicIntact;
    UndetectedIff(data, error);
    CrcIsFeedBits(0, error[..DeclaredLength(data)]);
    Within17UndetectedIff(FlippedBits(data, error), start);
  }

  // ----- damage to the value of a chunk -----

  /** Zero bytes before and behind a pattern do not change whether its check value is zero. */
  lemma CrcBetweenZeros(before: nat, e: seq<byte>, after: nat)
    ensures Crc(0, Zeros(before) + e + Zeros(after)) == 0 <==> Crc(0, e) == 0
  {
    hide Crc;
    CrcConcat(0, Zeros(before) + e, Zeros(after));
    CrcConcat(0, Zeros(before), e);
    CrcOfZeros(0, Zeros(before));
    CrcOfZeros(Crc(0, Zeros(before) + e), Zeros(after));
  }

  /** A damage pattern over the value of one chunk of a packet, no other byte being touched. */
  function ValueDamage(before: seq<TLVChunk>, e: seq<byte>, after: seq<TLVChunk>): (error: seq<byte>)
    ensures |error| == HEADER_SIZE + |EncodeTLVs(before)| + 4 + |e| + |EncodeTLVs(after)| + CRC_SIZE
  {
    Zeros(HEADER_SIZE + (|EncodeTLVs(before)| + 4)) + e + Zeros(|EncodeTLVs(after)| + CRC_SIZE)
  }

  /** The chunk once its value is damaged. */
  function Damaged(c: TLVChunk, e: seq<byte>): TLVChunk
    requires |e| == |c.value|
  {
    c.(value := Xor(c.value, e))
  }

  lemma EncodeAround(before: seq<TLVChunk>, c: TLVChunk, after: seq<TLVChunk>)
    ensures EncodeTLVs(before + [c] + after) == EncodeTLVs(before) + EncodeTLV(c) + EncodeTLVs(after)
    ensures |EncodeTLV(c)| == 4 + |c.value|
  {
    hide EncodeTLVs, BE16;
    EncodeConcat(before + [c], after);
    EncodeAppend(before, c);
  }

  lemma XorConcat(a: seq<byte>, b: seq<byte>, e: seq<byte>, f: seq<byte>)
    requires |a| == |e| && |b| == |f|
    ensures Xor(a + b, e + f) == Xor(a, e) + Xor(b, f)
  {
  }

  lemma ByteZero(a: byte)
    ensures a ^ 0 == a
  {
  }

  lemma XorZeros(a: seq<byte>)
    ensures Xor(a, Zeros(|a|)) == a
  {
    forall i | 0 <= i < |a|
      ensures a[i] ^ 0 == a[i]
    {
      ByteZero(a[i]);
    }
  }

  lemma ChunkDamage(c: TLVChunk, e: seq<byte>)
    requires |e| == |c.value|
    ensures |EncodeTLV(c)| == 4 + |e|
    ensures Xor(EncodeTLV(c), Zeros(4) + e) == EncodeTLV(Damaged(c, e))
  {
    hide BE16;
    var header := BE16(c.kind) + BE16(c.length);
    assert EncodeTLV(c) == header + c.value;
    XorConcat(header, c.value, Zeros(4), e);
    XorZeros(header);
  }

  /** The chunk region of a packet whose damage lies in one value. */
  lemma RegionDamage(before: seq<TLVChunk>, c: TLVChunk, after: seq<TLVChunk>, e: seq<byte>)
    requires |e| == |c.value|
    ensures var region, error := EncodeTLVs(before + [c] + after),
                                 Zeros(|EncodeTLVs(before)| + 4) + e + Zeros(|EncodeTLVs(after)|);
            && |region| == |error|
            && Xor(region, error) == EncodeTLVs(before + [Damaged(c, e)] + after)
  {
    hide EncodeTLVs, EncodeTLV, Xor, Damaged;
    var a, b := EncodeTLVs(before), EncodeTLVs(after);
    EncodeAround(before, c, after);
    EncodeAround(before, Damaged(c, e), after);
    ChunkDamage(c, e);
    XorZeros(a);
    XorZeros(b);
    XorConcat(a, EncodeTLV(c), Zeros(|a|), Zeros(4) + e);
    XorConcat(a + EncodeTLV(c), b, Zeros(|a|) + (Zeros(4) + e), Zeros(|b|));
    assert Zeros(|a| + 4) + e + Zeros(|b|) == (Zeros(|a|) + (Zeros(4) + e)) + Zeros(|b|);
  }

  lemma AcceptedMeansNoError(data: seq<byte>)
    ensures Accepted(data) <==> Parsed(data).error == NoError
  {
  }

  lemma ParsedChunks(data: seq<byte>)
    ensures Accepted(data) ==> Parsed(data).tlvs == DecodeTLVs(data[HEADER_SIZE..DeclaredLength(data) - CRC_SIZE]).tlvs
  {
    hide Size, Crc, DecodeTLVs, ReadBE16, ReadBE32;
  }

  lemma DamagedWellFormed(before: seq<TLVChunk>, c: TLVChunk, after: seq<TLVChunk>, e: seq<byte>)
    requires AllWellFormed(before + [c] + after) && |e| == |c.value|
    ensures AllWellFormed(before + [Damaged(c, e)] + after)
  {
    hide Size, Xor;
    var tlvs, damaged := before + [c] + after, before + [Damaged(c, e)] + after;
    forall i | 0 <= i < |damaged|
      ensures damaged[i].WellFormed()
    {
      assert tlvs[i].WellFormed();
      if i != |before| {
        assert damaged[i] == tlvs[i];
      }
    }
  }

  /**
   * Damage to the value of one chunk of any printed packet goes unnoticed if and only if the
   * check value of the damage pattern is zero; the receiver then sees the damaged value.
   */
  lemma {:induction false} ValueDamageIff(
    sequenceId: bv16, before: seq<TLVChunk>, c: TLVChunk, after: seq<TLVChunk>, e: seq<byte>)
    requires AllWellFormed(before + [c] + after) && Fits(EncodeTLVs(before + [c] + after))
    requires |e| == |c.value|
    ensures var data, error := Built(sequenceId, EncodeTLVs(before + [c] + after)), ValueDamage(before, e, after);
            && |data| == |error|
            && (Accepted(Xor(data, error)) <==> Crc(0, e) == 0)
            && (Accepted(Xor(data, error)) ==> Parsed(Xor(data, error)).tlvs == before + [Damaged(c, e)] + after)
  {
    hide Size, Field, Crc, DecodeTLVs, EncodeTLVs, EncodeTLV, Frame, Built, Accepted, AllWellFormed, Xor, Damaged;
    var payload := EncodeTLVs(before + [c] + after);
    var data, error := Built(sequenceId, payload), ValueDamage(before, e, after);
    EncodeAround(before, c, after);
    BuildThenParse(sequenceId, before + [c] + after, []);
    BuiltLayout(sequenceId, payload, []);
    assert data + [] == data;
    AcceptedMeansNoError(data);
    UndetectedIff(data, error);
    assert error[..|data|] == error;
    CrcBetweenZeros(HEADER_SIZE + (|EncodeTLVs(before)| + 4), e, |EncodeTLVs(after)| + CRC_SIZE);
    RegionDamage(before, c, after, e);
    InnerDamage(data, before, e, after);
    DamagedWellFormed(before, c, after, e);
    EncodeThenDecode(before + [Damaged(c, e)] + after);
    ParsedChunks(Xor(data, error));
  }

  lemma InnerDamage(data: seq<byte>, before: seq<TLVChunk>, e: seq<byte>, after: seq<TLVChunk>)
    requires |data| == |ValueDamage(before, e, after)|
    ensures var damage := Zeros(|EncodeTLVs(before)| + 4) + e + Zeros(|EncodeTLVs(after)|);
            && |data[HEADER_SIZE..|data| - CRC_SIZE]| == |damage|
            && Xor(data, ValueDamage(before, e, after))[HEADER_SIZE..|data| - CRC_SIZE]
            == Xor(data[HEADER_SIZE..|data| - CRC_SIZE], damage)
  {
    hide EncodeTLVs;
    var error := ValueDamage(before, e, after);
    assert error[HEADER_SIZE..|data| - CRC_SIZE]
        == Zeros(|EncodeTLVs(before)| + 4) + e + Zeros(|EncodeTLVs(after)|);
  }

  lemma DamageIsVisible(value: seq<byte>, e: seq<byte>, k: nat)
    requires |e| == |value| && k < |e| && e[k] != 0
    ensures Xor(value, e) != value
  {
    ByteDamage(value[k], e[k]);
    assert Xor(value, e)[k] == value[k] ^ e[k];
  }

  // ----- what does slip through -----

  function GeneratorAt(before: nat, after: nat): (error: seq<byte>)
    ensures |error| == before + 3 + after
  {
    Zeros(before) + [0x01, 0x10, 0x21] + Zeros(after)
  }

  lemma OneChunk(c: TLVChunk)
    requires c.WellFormed()
    ensures [] + [c] + [] == [c] && AllWellFormed([c])
    ensures EncodeTLVs([c]) == EncodeTLV(c) && |EncodeTLV(c)| == 4 + |c.value| && EncodeTLVs([]) == []
  {
    hide BE16, Size;
    assert [c][1..] == [];
  }

  /**
   * Sixteen bits is the exact limit: the seventeen-bit generator pattern, laid over the value
   * of a chunk, turns any packet holding that chunk alone into an accepted packet with another value.
   */
  lemma GeneratorAccepted(sequenceId: bv16, c: TLVChunk, before: nat, after: nat)
    requires c.WellFormed() && |c.value| == before + 3 + after && Fits(EncodeTLVs([c]))
    ensures var damagedValue := Xor(c.value, GeneratorAt(before, after));
            && |Built(sequenceId, EncodeTLVs([c]))| == |GeneratorAt(12 + before, after + 2)|
            && damagedValue != c.value
            && Accepted(Xor(Built(sequenceId, EncodeTLVs([c])), GeneratorAt(12 + before, after + 2)))
            && Parsed(Xor(Built(sequenceId, EncodeTLVs([c])), GeneratorAt(12 + before, after + 2))).tlvs
            == [c.(value := damagedValue)]
  {
    hide Size, Crc, Built, EncodeTLV, EncodeTLVs, Accepted, Xor;
    var e := GeneratorAt(before, after);
    OneChunk(c);
    ValueDamageIff(sequenceId, [], c, [], e);
    GeneratorUndetected(Zeros(before), Zeros(after));
    assert ValueDamage([], e, []) == GeneratorAt(12 + before, after + 2);
    assert e[before] == 0x01;
    DamageIsVisible(c.value, e, before);
    assert [] + [Damaged(c, e)] + [] == [Damaged(c, e)];
  }

  /** One flipped bit at the start of a byte, and one 32767 bits later at the end of another. */
  function PairAt(before: nat, after: nat): (error: seq<byte>)
    ensures |error| == before + 4096 + after
  {
    Zeros(before) + [0x80] + Zeros(4094) + [0x01] + Zeros(after)
  }

  lemma PairBytes(before: nat, after: nat, k: nat)
    requires k < |PairAt(before, after)|
    ensures PairAt(before, after)[k] == if k == before then 0x80 else if k == before + 4095 then 0x01 else 0
  {
  }

  lemma PairByteBits(b: byte, i: nat)
    requires i < 8 && (b == 0 || b == 0x80 || b == 0x01)
    ensures ByteBit(b, i) <==> (b == 0x80 && i == 0) || (b == 0x01 && i == 7)
  {
  }

  lemma PairIsTwoBits(before: nat, after: nat)
    ensures TwoBits(Bits(PairAt(before, after)), 8 * before, 8 * before + PERIOD)
  {
    hide Bits, ByteBit, PairAt;
    var e := PairAt(before, after);
    forall k | 0 <= k < |Bits(e)|
      ensures Bits(e)[k] == (k == 8 * before || k == 8 * before + PERIOD)
    {
      var byteAt, bitAt := k / 8, k % 8;
      BitsAt(e, byteAt, bitAt);
      PairBytes(before, after, byteAt);
      PairByteBits(e[byteAt], bitAt);
    }
  }

  /**
   * The distance 32767 is not out of reach: in any packet with a chunk of at least 4096 bytes,
   * flipping two bits of its value that far apart gives another accepted packet.
   */
  lemma PairAccepted(
    sequenceId: bv16, chunksBefore: seq<TLVChunk>, c: TLVChunk, chunksAfter: seq<TLVChunk>, before: nat, after: nat)
    requires AllWellFormed(chunksBefore + [c] + chunksAfter) && Fits(EncodeTLVs(chunksBefore + [c] + chunksAfter))
    requires |c.value| == before + 4096 + after
    ensures var e := PairAt(before, after);
            var data, error := Built(sequenceId, EncodeTLVs(chunksBefore + [c] + chunksAfter)),
                               ValueDamage(chunksBefore, e, chunksAfter);
            && TwoBits(Bits(e), 8 * before, 8 * before + PERIOD)
            && |data| == |error|
            && Damaged(c, e).value != c.value
            && Accepted(Xor(data, error))
            && Parsed(Xor(data, error)).tlvs == chunksBefore + [Damaged(c, e)] + chunksAfter
  {
    hide Size, Crc, Built, EncodeTLVs, Accepted, Xor, PairAt, TwoBits, AllWellFormed, Bits;
    var e := PairAt(before, after);
    PairIsTwoBits(before, after);
    CrcIsFeedBits(0, e);
    TwoBitsUndetectedIff(Bits(e), 8 * before, 8 * before + PERIOD);
    ValueDamageIff(sequenceId, chunksBefore, c, chunksAfter, e);
    PairBytes(before, after, before);
    DamageIsVisible(c.value, e, before);
  }

  /** Such packets exist: a single chunk of 4096 zero bytes, and the same with its first and last bit set. */
  lemma PairOfPackets(sequenceId: bv16)
    ensures var c, e := TLVChunk(0, Field(4096), Zeros(4096)), PairAt(0, 0);
            && Fits(EncodeTLVs([c]))
            && var data, error := Built(sequenceId, EncodeTLVs([c])), ValueDamage([], e, []);
            && |data| == |error|
            && Accepted(data) && Parsed(data).tlvs == [c]
            && Accepted(Xor(data, error)) && Parsed(Xor(data, error)).tlvs == [Damaged(c, e)]
            && Damaged(c, e) != c
  {
    hide *;
    var c, e := TLVChunk(0, Field(4096), Zeros(4096)), PairAt(0, 0);
    ZeroChunk(c);
    OneChunk(c);
    PairAccepted(sequenceId, [], c, [], 0, 0);
    BuildThenParse(sequenceId, [c], []);
    var data := Built(sequenceId, EncodeTLVs([c]));
    assert data + [] == data;
    AcceptedMeansNoError(data);
    assert [] + [Damaged(c, e)] + [] == [Damaged(c, e)];
  }

  lemma ZeroChunk(c: TLVChunk)
    requires c == TLVChunk(0, Field(4096), Zeros(4096))
    ensures c.WellFormed() && |c.value| == 4096 && Fits(EncodeTLVs([c]))
  {
    hide Size, Field, EncodeTLV, EncodeTLVs, Zeros;
    SizeOfField(4096);
    if c.WellFormed() { OneChunk(c); }
  }

  // ----- damage to the length field -----

  /** Damage that turns one length field into another and touches nothing else. */
  function LengthDamage(from: nat, to: nat, size: nat): (error: seq<byte>)
    requires from <= MAX_PKT_SIZE && to <= MAX_PKT_SIZE && HEADER_SIZE <= size
    ensures |error| == size
  {
    Zeros(6) + Xor(BE16(Field(from)), BE16(Field(to))) + Zeros(size - HEADER_SIZE)
  }

  lemma XorTwice(a: seq<byte>, b: seq<byte>)
    requires |a| == |b|
    ensures Xor(a, Xor(a, b)) == b
  {
    forall i | 0 <= i < |a|
      ensures a[i] ^ (a[i] ^ b[i]) == b[i]
    {
      ByteTwice(a[i], b[i]);
    }
  }

  lemma ByteTwice(a: byte, b: byte)
    ensures a ^ (a ^ b) == b
  {
  }

  lemma MiddleDamage(a: seq<byte>, b: seq<byte>, c: seq<byte>, b': seq<byte>)
    requires |b| == |b'|
    ensures Xor(a + b + c, Zeros(|a|) + Xor(b, b') + Zeros(|c|)) == a + b' + c
  {
    hide Xor, Zeros;
    XorConcat(a + b, c, Zeros(|a|) + Xor(b, b'), Zeros(|c|));
    XorConcat(a, b, Zeros(|a|), Xor(b, b'));
    XorZeros(a);
    XorZeros(c);
    XorTwice(b, b');
  }

  /** A frame with two bytes behind it, taken for its check value, is accepted only if they are. */
  lemma FrameAccepted(sequenceId: bv16, region: seq<byte>, kind: bv16, more: seq<byte>)
    requires Fits(region)
    ensures Accepted(Frame(sequenceId, region) + BE16(kind) + more) ==> kind == Crc(INITIAL, Frame(sequenceId, region))
  {
    hide Size, Field, Crc, Accepted, Parsed, BE16, BE32, ReadBE16, ReadBE32, DecodeTLVs;
    var d, total := Frame(sequenceId, region) + BE16(kind) + more, HEADER_SIZE + |region| + CRC_SIZE;
    var size := BE16(Field(total));
    BE16RoundTrip(Field(total), 0, 0);
    BE16RoundTrip(kind, 0, 0);
    SizeOfField(total);
    assert d[6] == size[0] && d[7] == size[1];
    assert d[total - 2] == BE16(kind)[0] && d[total - 1] == BE16(kind)[1];
    assert d[..total - CRC_SIZE] == Frame(sequenceId, region);
    if Accepted(d) {
      AcceptedFields(d);
    }
  }

  /**
   * The length field decides how much is checked, so damage to it can hide chunks: the length
   * of the packet that would end before a chunk is accepted if and only if the kind of that
   * chunk happens to be the shorter packet's check value, and then the chunk and all that
   * follow it are silently dropped.
   */
  lemma ShorterLengthAcceptedIff(sequenceId: bv16, kept: seq<TLVChunk>, c: TLVChunk, dropped: seq<TLVChunk>)
    requires AllWellFormed(kept) && Fits(EncodeTLVs(kept + [c] + dropped))
    ensures Fits(EncodeTLVs(kept))
    ensures var data := Built(sequenceId, EncodeTLVs(kept + [c] + dropped));
            var error := LengthDamage(|data|, HEADER_SIZE + |EncodeTLVs(kept)| + CRC_SIZE, |data|);
            && (Accepted(Xor(data, error)) <==> c.kind == Crc(INITIAL, Frame(sequenceId, EncodeTLVs(kept))))
            && (Accepted(Xor(data, error)) ==> Parsed(Xor(data, error)).tlvs == kept)
  {
    hide Size, Field, Crc, EncodeTLVs, Accepted, Parsed, Xor, Zeros, AllWellFormed, BE16, BE32;
    hide LengthDamage, EncodeTLV, Frame, Built;
    EncodeAround(kept, c, dropped);
    var region, long := EncodeTLVs(kept), EncodeTLVs(kept + [c] + dropped);
    var short := HEADER_SIZE + |region| + CRC_SIZE;
    var data := Built(sequenceId, long);
    var start, crc := BE32(MAGIC_HEADER) + BE16(sequenceId), BE16(Crc(INITIAL, Frame(sequenceId, long)));
    BuiltParts(sequenceId, long);
    LengthDamaged(start, |data|, short, long + crc);
    var more := BE16(c.length) + c.value + EncodeTLVs(dropped) + crc;
    ChunkBytes(c);
    BuiltParts(sequenceId, region);
    Regroup(start + BE16(Field(short)), region, BE16(c.kind), BE16(c.length) + c.value, EncodeTLVs(dropped), crc);
    FrameAccepted(sequenceId, region, c.kind, more);
    if c.kind == Crc(INITIAL, Frame(sequenceId, region)) {
      BuildThenParse(sequenceId, kept, more);
      AcceptedMeansNoError(Built(sequenceId, region) + more);
    }
  }

  lemma ChunkBytes(c: TLVChunk)
    ensures EncodeTLV(c) == BE16(c.kind) + (BE16(c.length) + c.value)
  {
    hide BE16;
  }

  lemma BuiltParts(sequenceId: bv16, payload: seq<byte>)
    requires Fits(payload)
    ensures var frame, size := Frame(sequenceId, payload), HEADER_SIZE + |payload| + CRC_SIZE;
            && frame == BE32(MAGIC_HEADER) + BE16(sequenceId) + BE16(Field(size)) + payload
            && Built(sequenceId, payload) == frame + BE16(Crc(INITIAL, frame))
            && Built(sequenceId, payload)
            == BE32(MAGIC_HEADER) + BE16(sequenceId) + BE16(Field(size)) + (payload + BE16(Crc(INITIAL, frame)))
            && |Built(sequenceId, payload)| == size
  {
    hide BE16, BE32, Field, Crc;
  }

  lemma LengthDamaged(start: seq<byte>, from: nat, to: nat, rest: seq<byte>)
    requires |start| == 6 && from <= MAX_PKT_SIZE && to <= MAX_PKT_SIZE
    ensures var size := HEADER_SIZE + |rest|;
            && |start + BE16(Field(from)) + rest| == size
            && Xor(start + BE16(Field(from)) + rest, LengthDamage(from, to, size)) == start + BE16(Field(to)) + rest
  {
    hide BE16, Field, Xor;
    MiddleDamage(start, BE16(Field(from)), rest, BE16(Field(to)));
  }

  lemma Regroup(
    start: seq<byte>, region: seq<byte>, kind: seq<byte>, value: seq<byte>, dropped: seq<byte>, crc: seq<byte>)
    ensures start + ((region + (kind + value) + dropped) + crc)
         == (start + region + kind) + (value + dropped + crc)
  {
  }

  /** One flipped bit in the length field can drop a chunk: 24 bytes are taken for 16. */
  lemma LengthBitAccepted(sequenceId: bv16, c: TLVChunk, value: seq<byte>)
    requires c.WellFormed() && |c.value| == 2 && |value| == 4
    ensures Fits(EncodeTLVs([c]))
    ensures var d := TLVChunk(Crc(INITIAL, Frame(sequenceId, EncodeTLVs([c]))), Field(4), value);
            && Fits(EncodeTLVs([c, d]))
            && var data, error := Built(sequenceId, EncodeTLVs([c, d])), Zeros(7) + [0x08] + Zeros(16);
            && |data| == |error| == 24
            && Accepted(data) && Parsed(data).tlvs == [c, d]
            && Accepted(Xor(data, error)) && Parsed(Xor(data, error)).tlvs == [c]
  {
    hide Size, Field, Crc, EncodeTLV, EncodeTLVs, Accepted, Parsed, Xor, Zeros, AllWellFormed, BE16, BE32;
    hide Frame, Built, LengthDamage;
    TwoChunkSizes(c);
    var d := TLVChunk(Crc(INITIAL, Frame(sequenceId, EncodeTLVs([c]))), Field(4), value);
    TwoChunks(c, d);
    ShorterLengthAcceptedIff(sequenceId, [c], d, []);
    BuildThenParse(sequenceId, [c, d], []);
    var data := Built(sequenceId, EncodeTLVs([c, d]));
    assert data + [] == data;
    AcceptedMeansNoError(data);
    LengthBit();
  }

  lemma TwoChunkSizes(c: TLVChunk)
    requires c.WellFormed() && |c.value| == 2
    ensures |EncodeTLVs([c])| == 6 && Fits(EncodeTLVs([c]))
  {
    hide EncodeTLVs, EncodeTLV;
    OneChunk(c);
  }

  lemma TwoChunks(c: TLVChunk, d: TLVChunk)
    requires c.WellFormed() && |c.value| == 2 && d.length == Field(4) && |d.value| == 4
    ensures [c] + [d] + [] == [c, d] && AllWellFormed([c]) && AllWellFormed([c, d])
    ensures |EncodeTLVs([c, d])| == 14 && Fits(EncodeTLVs([c, d]))
  {
    hide EncodeTLVs, EncodeTLV, Size, Field;
    SizeOfField(4);
    OneChunk(c);
    OneChunk(d);
    EncodeConcat([c], [d]);
    assert [c] + [d] == [c, d];
  }

  lemma LengthBit()
    ensures LengthDamage(24, 16, 24) == Zeros(7) + [0x08] + Zeros(16)
  {
    assert BE16(Field(24)) == [0x00, 0x18] && BE16(Field(16)) == [0x00, 0x10];
    assert Xor([0x00, 0x18], [0x00, 0x10]) == [0x00, 0x08];
  }
}
