/** The framed TLV packet: what a parser reports for a byte string, and the byte string a builder prints. */
module Packet {
  import opened Bytes
  import opened Crc16

  const MAGIC_HEADER: bv32 := 0xAF01AF01
  const HEADER_SIZE := 8
  const CRC_SIZE := 2
  const MIN_PKT_SIZE := HEADER_SIZE + CRC_SIZE
  const MAX_PKT_SIZE := 0xFFFF

  /** The outcomes of parsing; the remaining codes of the source belong to the TLV handlers. */
  datatype ErrorCode = NoError | InvalidMagic | PacketTooShort | LengthMismatch | InvalidCRC | TruncatedTLV

  datatype PacketHeader = PacketHeader(magic: bv32, sequenceId: bv16, totalLength: bv16)

  datatype TLVChunk = TLVChunk(kind: bv16, length: bv16, value: seq<byte>) {
    predicate WellFormed() {
      Size(length) == |value|
    }
  }

  datatype ParsedPacket = ParsedPacket(header: PacketHeader, tlvs: seq<TLVChunk>, crc: bv16, error: ErrorCode)

  datatype TLVResult = TLVResult(ok: bool, tlvs: seq<TLVChunk>)

  ghost predicate AllWellFormed(tlvs: seq<TLVChunk>) {
    forall i :: 0 <= i < |tlvs| ==> tlvs[i].WellFormed()
  }

  // ----- the TLV region -----

  function ReadChunk(s: seq<byte>): (c: TLVChunk)
    requires |s| >= 4 && |s| >= 4 + Size(ReadBE16(s[2], s[3]))
  {
    TLVChunk(ReadBE16(s[0], s[1]), ReadBE16(s[2], s[3]), s[4..4 + Size(ReadBE16(s[2], s[3]))])
  }

  /** The chunks read before the region ends or a chunk does not fit. */
  function DecodeTLVs(s: seq<byte>): TLVResult
    decreases |s|
  {
    if s == [] then TLVResult(true, [])
    else if |s| < 4 || |s| < 4 + Size(ReadBE16(s[2], s[3])) then TLVResult(false, [])
    else
      var rest := DecodeTLVs(s[4 + Size(ReadBE16(s[2], s[3]))..]);
      TLVResult(rest.ok, [ReadChunk(s)] + rest.tlvs)
  }

  function EncodeTLV(c: TLVChunk): seq<byte> {
    BE16(c.kind) + BE16(c.length) + c.value
  }

  function EncodeTLVs(tlvs: seq<TLVChunk>): seq<byte> {
    if tlvs == [] then [] else EncodeTLV(tlvs[0]) + EncodeTLVs(tlvs[1..])
  }

  lemma {:induction false} EncodeAppend(tlvs: seq<TLVChunk>, c: TLVChunk)
    ensures EncodeTLVs(tlvs + [c]) == EncodeTLVs(tlvs) + EncodeTLV(c)
    decreases |tlvs|
  {
    if tlvs == [] {
      assert [c][1..] == [];
      assert tlvs + [c] == [c];
    } else {
      assert (tlvs + [c])[1..] == tlvs[1..] + [c];
      EncodeAppend(tlvs[1..], c);
    }
  }

  lemma {:induction false} EncodeConcat(a: seq<TLVChunk>, b: seq<TLVChunk>)
    ensures EncodeTLVs(a + b) == EncodeTLVs(a) + EncodeTLVs(b)
    decreases |a|
  {
    hide EncodeTLV;
    if a == [] {
      assert a + b == b;
    } else {
      assert (a + b)[1..] == a[1..] + b;
      EncodeConcat(a[1..], b);
    }
  }

  lemma EncodeOneDecode(c: TLVChunk, rest: seq<byte>)
    requires c.WellFormed()
    ensures var s := EncodeTLV(c) + rest;
            && DecodeTLVs(s).ok == DecodeTLVs(rest).ok
            && DecodeTLVs(s).tlvs == [c] + DecodeTLVs(rest).tlvs
  {
    hide Size, Field, ReadBE16, BE16;
    var s := EncodeTLV(c) + rest;
    BE16RoundTrip(c.kind, 0, 0);
    BE16RoundTrip(c.length, 0, 0);
    assert s[0] == BE16(c.kind)[0] && s[1] == BE16(c.kind)[1];
    assert s[2] == BE16(c.length)[0] && s[3] == BE16(c.length)[1];
    assert s[4..4 + |c.value|] == c.value;
    assert s[4 + |c.value|..] == rest;
  }

  /** Decoding undoes encoding. */
  lemma {:induction false} EncodeThenDecode(tlvs: seq<TLVChunk>)
    requires AllWellFormed(tlvs)
    ensures DecodeTLVs(EncodeTLVs(tlvs)) == TLVResult(true, tlvs)
    decreases |tlvs|
  {
    hide DecodeTLVs;
    if tlvs == [] {
      DecodeNothing();
    } else {
      EncodeOneDecode(tlvs[0], EncodeTLVs(tlvs[1..]));
      EncodeThenDecode(tlvs[1..]);
    }
  }

  lemma DecodeNothing()
    ensures DecodeTLVs([]) == TLVResult(true, [])
  {
  }

  lemma ReadChunkBytes(s: seq<byte>)
    requires |s| >= 4 && |s| >= 4 + Size(ReadBE16(s[2], s[3]))
    ensures ReadChunk(s).WellFormed()
    ensures s == EncodeTLV(ReadChunk(s)) + s[4 + Size(ReadBE16(s[2], s[3]))..]
  {
    hide Size, Field, ReadBE16, BE16;
    BE16RoundTrip(0, s[0], s[1]);
    BE16RoundTrip(0, s[2], s[3]);
  }

  /** Encoding undoes decoding on every region that decodes. */
  lemma {:induction false} DecodeThenEncode(s: seq<byte>)
    ensures AllWellFormed(DecodeTLVs(s).tlvs)
    ensures DecodeTLVs(s).ok ==> EncodeTLVs(DecodeTLVs(s).tlvs) == s
    decreases |s|
  {
    hide Size, Field, ReadBE16, ReadChunk, EncodeTLV;
    if s != [] && |s| >= 4 && |s| >= 4 + Size(ReadBE16(s[2], s[3])) {
      ReadChunkBytes(s);
      var rest := s[4 + Size(ReadBE16(s[2], s[3]))..];
      DecodeThenEncode(rest);
      var tlvs := DecodeTLVs(s).tlvs;
      assert tlvs[0] == ReadChunk(s) && tlvs[1..] == DecodeTLVs(rest).tlvs;
    }
  }

  /** The region is the printed form of some list of chunks. */
  ghost predicate Printable(region: seq<byte>) {
    exists tlvs :: AllWellFormed(tlvs) && EncodeTLVs(tlvs) == region
  }

  lemma SplitsIff(region: seq<byte>)
    ensures DecodeTLVs(region).ok <==> Printable(region)
  {
    hide DecodeTLVs, EncodeTLVs, AllWellFormed;
    DecodeThenEncode(region);
    forall tlvs | AllWellFormed(tlvs) && EncodeTLVs(tlvs) == region
      ensures DecodeTLVs(region).ok
    {
      EncodeThenDecode(tlvs);
    }
  }

  /** A chunk whose printed form starts a region is the one that is read from it. */
  lemma PrintedChunkFits(c: TLVChunk, s: seq<byte>)
    requires c.WellFormed() && EncodeTLV(c) <= s
    ensures |s| >= 4 && |s| >= 4 + Size(ReadBE16(s[2], s[3]))
  {
    hide Size, ReadBE16, BE16;
    BE16RoundTrip(c.length, 0, 0);
    assert s[2] == EncodeTLV(c)[2] == BE16(c.length)[0];
    assert s[3] == EncodeTLV(c)[3] == BE16(c.length)[1];
  }

  /** The chunks kept print to the start of the region, and where splitting stops no chunk can be printed next. */
  lemma {:induction false} FirstFault(s: seq<byte>)
    ensures EncodeTLVs(DecodeTLVs(s).tlvs) <= s
    ensures var rest := s[|EncodeTLVs(DecodeTLVs(s).tlvs)|..];
            forall c: TLVChunk :: c.WellFormed() ==> !(EncodeTLV(c) <= rest)
    decreases |s|
  {
    hide Size, ReadBE16, ReadChunk, EncodeTLV;
    var kept := DecodeTLVs(s).tlvs;
    if s != [] && |s| >= 4 && |s| >= 4 + Size(ReadBE16(s[2], s[3])) {
      ReadChunkBytes(s);
      var rest := s[4 + Size(ReadBE16(s[2], s[3]))..];
      FirstFault(rest);
      assert kept[0] == ReadChunk(s) && kept[1..] == DecodeTLVs(rest).tlvs;
      var tail := rest[|EncodeTLVs(DecodeTLVs(rest).tlvs)|..];
      assert s[|EncodeTLVs(kept)|..] == tail;
    } else {
      assert EncodeTLVs(kept) == [] && s[0..] == s;
      forall c: TLVChunk | c.WellFormed() && EncodeTLV(c) <= s
        ensures false
      {
        PrintedChunkFits(c, s);
      }
    }
  }

  // ----- the packet -----

  /** What a parser reports for a byte string. */
  function Parsed(data: seq<byte>): ParsedPacket {
    if |data| < MIN_PKT_SIZE then ParsedPacket(PacketHeader(0, 0, 0), [], 0, PacketTooShort)
    else
      var magic := ReadBE32(data[0], data[1], data[2], data[3]);
      if magic != MAGIC_HEADER then ParsedPacket(PacketHeader(magic, 0, 0), [], 0, InvalidMagic)
      else
        var header := PacketHeader(magic, ReadBE16(data[4], data[5]), ReadBE16(data[6], data[7]));
        var total := Size(header.totalLength);
        if total < MIN_PKT_SIZE || total > |data| then ParsedPacket(header, [], 0, LengthMismatch)
        else
          var region := DecodeTLVs(data[HEADER_SIZE..total - CRC_SIZE]);
          if !region.ok then ParsedPacket(header, region.tlvs, 0, TruncatedTLV)
          else
            var crc := ReadBE16(data[total - 2], data[total - 1]);
            ParsedPacket(header, region.tlvs, crc,
                         if Crc(INITIAL, data[..total - CRC_SIZE]) != crc then InvalidCRC else NoError)
  }

  predicate Accepted(data: seq<byte>) {
    Parsed(data).error == NoError
  }

  /** The length the header of a byte string declares. */
  function DeclaredLength(data: seq<byte>): nat
    requires |data| >= HEADER_SIZE
  {
    Size(ReadBE16(data[6], data[7]))
  }

  predicate Fits(payload: seq<byte>) {
    HEADER_SIZE + |payload| + CRC_SIZE <= MAX_PKT_SIZE
  }

  /** Everything the check value covers. */
  function Frame(sequenceId: bv16, payload: seq<byte>): (frame: seq<byte>)
    requires Fits(payload)
    ensures |frame| == HEADER_SIZE + |payload|
  {
    BE32(MAGIC_HEADER) + BE16(sequenceId) + BE16(Field(HEADER_SIZE + |payload| + CRC_SIZE)) + payload
  }

  /** The byte string a builder prints. */
  function Built(sequenceId: bv16, payload: seq<byte>): (packet: seq<byte>)
    requires Fits(payload)
    ensures |packet| == HEADER_SIZE + |payload| + CRC_SIZE
  {
    Frame(sequenceId, payload) + BE16(Crc(INITIAL, Frame(sequenceId, payload)))
  }

  /** Where the fields of a printed packet lie, whatever follows it. */
  lemma BuiltLayout(sequenceId: bv16, payload: seq<byte>, extra: seq<byte>)
    requires Fits(payload)
    ensures var d, total := Built(sequenceId, payload) + extra, HEADER_SIZE + |payload| + CRC_SIZE;
            && ReadBE32(d[0], d[1], d[2], d[3]) == MAGIC_HEADER
            && ReadBE16(d[4], d[5]) == sequenceId
            && Size(ReadBE16(d[6], d[7])) == total
            && d[HEADER_SIZE..total - CRC_SIZE] == payload
            && d[..total - CRC_SIZE] == Frame(sequenceId, payload)
            && ReadBE16(d[total - 2], d[total - 1]) == Crc(INITIAL, Frame(sequenceId, payload))
  {
    hide Size, Field, ReadBE16, ReadBE32, BE16, BE32, Crc;
    var total := HEADER_SIZE + |payload| + CRC_SIZE;
    var frame := Frame(sequenceId, payload);
    var d := Built(sequenceId, payload) + extra;
    var size, crc := BE16(Field(total)), BE16(Crc(INITIAL, frame));
    BE32RoundTrip(MAGIC_HEADER, 0, 0, 0, 0);
    BE16RoundTrip(sequenceId, 0, 0);
    BE16RoundTrip(Field(total), 0, 0);
    BE16RoundTrip(Crc(INITIAL, frame), 0, 0);
    SizeOfField(total);
    assert d[..total - CRC_SIZE] == frame;
    assert d[total - 2] == crc[0] && d[total - 1] == crc[1];
    assert d[4] == BE16(sequenceId)[0] && d[5] == BE16(sequenceId)[1];
    assert d[6] == size[0] && d[7] == size[1];
    var m := BE32(MAGIC_HEADER);
    assert d[0] == m[0] && d[1] == m[1] && d[2] == m[2] && d[3] == m[3];
    assert d[HEADER_SIZE..total - CRC_SIZE] == payload;
  }

  /** Parsing a printed packet, with anything behind it, gives back its sequence number and its chunks. */
  lemma {:induction false} BuildThenParse(sequenceId: bv16, tlvs: seq<TLVChunk>, extra: seq<byte>)
    requires AllWellFormed(tlvs) && Fits(EncodeTLVs(tlvs))
    ensures var payload := EncodeTLVs(tlvs);
            var header := PacketHeader(MAGIC_HEADER, sequenceId, Field(HEADER_SIZE + |payload| + CRC_SIZE));
            && Parsed(Built(sequenceId, payload) + extra)
            == ParsedPacket(header, tlvs, Crc(INITIAL, Frame(sequenceId, payload)), NoError)
  {
    hide Size, Field, ReadBE16, ReadBE32, BE16, BE32, Crc, DecodeTLVs, EncodeTLVs, Frame, Built;
    var payload := EncodeTLVs(tlvs);
    var d := Built(sequenceId, payload) + extra;
    BuiltLayout(sequenceId, payload, extra);
    EncodeThenDecode(tlvs);
    FieldOfSize(ReadBE16(d[6], d[7]));
  }

  /** The bytes of a header, written from the fields they are read as. */
  lemma HeaderBytes(data: seq<byte>)
    requires |data| >= HEADER_SIZE
    ensures data[..HEADER_SIZE]
         == BE32(ReadBE32(data[0], data[1], data[2], data[3])) + BE16(ReadBE16(data[4], data[5]))
          + BE16(ReadBE16(data[6], data[7]))
  {
    hide ReadBE16, ReadBE32, BE16, BE32;
    BE32RoundTrip(0, data[0], data[1], data[2], data[3]);
    BE16RoundTrip(0, data[4], data[5]);
    BE16RoundTrip(0, data[6], data[7]);
  }

  lemma FrameBytes(data: seq<byte>, payload: seq<byte>)
    requires |data| >= MIN_PKT_SIZE && MIN_PKT_SIZE <= DeclaredLength(data) <= |data|
    requires payload == data[HEADER_SIZE..DeclaredLength(data) - CRC_SIZE]
    requires ReadBE32(data[0], data[1], data[2], data[3]) == MAGIC_HEADER
    ensures Fits(payload)
    ensures data[..DeclaredLength(data) - CRC_SIZE] == Frame(ReadBE16(data[4], data[5]), payload)
  {
    hide Size, Field, ReadBE16, ReadBE32, BE16, BE32;
    HeaderBytes(data);
    FieldOfSize(ReadBE16(data[6], data[7]));
    assert data[..DeclaredLength(data) - CRC_SIZE] == data[..HEADER_SIZE] + payload;
  }

  lemma AcceptedFields(data: seq<byte>)
    requires Accepted(data)
    ensures |data| >= MIN_PKT_SIZE && MIN_PKT_SIZE <= DeclaredLength(data) <= |data|
    ensures var p, total := Parsed(data), DeclaredLength(data);
            && Size(p.header.totalLength) == total
            && p.header.sequenceId == ReadBE16(data[4], data[5])
            && ReadBE32(data[0], data[1], data[2], data[3]) == MAGIC_HEADER
            && DecodeTLVs(data[HEADER_SIZE..total - CRC_SIZE]) == TLVResult(true, p.tlvs)
            && Crc(INITIAL, data[..total - CRC_SIZE]) == ReadBE16(data[total - 2], data[total - 1])
  {
    hide Size, ReadBE16, ReadBE32, Crc, DecodeTLVs;
  }

  /** An accepted byte string starts with exactly the packet printed from what was parsed. */
  lemma {:induction false} ParseThenRebuild(data: seq<byte>)
    requires Accepted(data)
    ensures var p, total := Parsed(data), Size(Parsed(data).header.totalLength);
            && AllWellFormed(p.tlvs)
            && MIN_PKT_SIZE <= total <= |data|
            && Fits(EncodeTLVs(p.tlvs))
            && data[..total] == Built(p.header.sequenceId, EncodeTLVs(p.tlvs))
  {
    hide Size, Field, ReadBE16, ReadBE32, BE16, BE32, Crc, DecodeTLVs, EncodeTLVs, Parsed, Accepted, Frame;
    AcceptedFields(data);
    var total := DeclaredLength(data);
    DecodeThenEncode(data[HEADER_SIZE..total - CRC_SIZE]);
    FrameBytes(data, data[HEADER_SIZE..total - CRC_SIZE]);
    BE16RoundTrip(0, data[total - 2], data[total - 1]);
    assert data[..total] == data[..total - CRC_SIZE] + [data[total - 2], data[total - 1]];
  }

  predicate HasMagic(data: seq<byte>) {
    |data| >= MIN_PKT_SIZE && data[..4] == BE32(MAGIC_HEADER)
  }

  predicate HasLength(data: seq<byte>) {
    HasMagic(data) && MIN_PKT_SIZE <= DeclaredLength(data) <= |data|
  }

  ghost predicate HasChunks(data: seq<byte>) {
    HasLength(data) && Printable(data[HEADER_SIZE..DeclaredLength(data) - CRC_SIZE])
  }

  lemma MagicBytes(data: seq<byte>)
    requires |data| >= 4
    ensures ReadBE32(data[0], data[1], data[2], data[3]) == MAGIC_HEADER <==> data[..4] == BE32(MAGIC_HEADER)
  {
    hide ReadBE32, BE32;
    BE32RoundTrip(MAGIC_HEADER, data[0], data[1], data[2], data[3]);
    assert data[..4] == [data[0], data[1], data[2], data[3]];
  }

  /** The report names the first thing that is wrong: size, magic number, length, chunks, check value. */
  lemma RefusalReasons(data: seq<byte>)
    ensures Parsed(data).error == PacketTooShort <==> |data| < MIN_PKT_SIZE
    ensures Parsed(data).error == InvalidMagic <==> |data| >= MIN_PKT_SIZE && !HasMagic(data)
    ensures Parsed(data).error == LengthMismatch <==> HasMagic(data) && !HasLength(data)
    ensures Parsed(data).error == TruncatedTLV <==> HasLength(data) && !HasChunks(data)
    ensures Parsed(data).error == InvalidCRC
       <==> HasChunks(data)
            && data[DeclaredLength(data) - CRC_SIZE..DeclaredLength(data)]
               != BE16(Crc(INITIAL, data[..DeclaredLength(data) - CRC_SIZE]))
  {
    hide Size, ReadBE16, ReadBE32, BE16, BE32, Crc, DecodeTLVs, Printable;
    if |data| >= MIN_PKT_SIZE {
      MagicBytes(data);
      if HasLength(data) {
        var total := DeclaredLength(data);
        SplitsIff(data[HEADER_SIZE..total - CRC_SIZE]);
        var hi, lo, crc := data[total - 2], data[total - 1], Crc(INITIAL, data[..total - CRC_SIZE]);
        BE16RoundTrip(crc, hi, lo);
        assert data[total - CRC_SIZE..total] == [hi, lo];
      }
    }
  }

  ghost predicate StartsWithPacket(data: seq<byte>, sequenceId: bv16, tlvs: seq<TLVChunk>) {
    && AllWellFormed(tlvs)
    && Fits(EncodeTLVs(tlvs))
    && Built(sequenceId, EncodeTLVs(tlvs)) <= data
  }

  /** The parser accepts exactly the byte strings that start with a printed packet. */
  lemma AcceptedIffBuilt(data: seq<byte>)
    ensures Accepted(data) <==> exists sequenceId, tlvs :: StartsWithPacket(data, sequenceId, tlvs)
  {
    hide Size, Field, Parsed, EncodeTLVs, Built, AllWellFormed;
    if Accepted(data) {
      ParseThenRebuild(data);
      var p := Parsed(data);
      assert StartsWithPacket(data, p.header.sequenceId, p.tlvs);
    }
    forall sequenceId, tlvs | StartsWithPacket(data, sequenceId, tlvs)
      ensures Accepted(data)
    {
      var packet := Built(sequenceId, EncodeTLVs(tlvs));
      assert data == packet + data[|packet|..];
      BuildThenParse(sequenceId, tlvs, data[|packet|..]);
    }
  }

  /** Two accepted byte strings of exactly their declared length that parse alike are the same. */
  lemma ParsedInjective(a: seq<byte>, b: seq<byte>)
    requires Accepted(a) && Accepted(b)
    requires |a| == Size(Parsed(a).header.totalLength) && |b| == Size(Parsed(b).header.totalLength)
    requires Parsed(a).header.sequenceId == Parsed(b).header.sequenceId && Parsed(a).tlvs == Parsed(b).tlvs
    ensures a == b
  {
    hide Size, Field, Parsed, EncodeTLVs, Built;
    ParseThenRebuild(a);
    ParseThenRebuild(b);
    assert a[..|a|] == a && b[..|b|] == b;
  }

  /** Bytes past the declared length never matter, whether the packet is accepted or not. */
  lemma TrailingBytesIgnored(data: seq<byte>)
    requires |data| >= HEADER_SIZE && MIN_PKT_SIZE <= DeclaredLength(data) <= |data|
    ensures Parsed(data) == Parsed(data[..DeclaredLength(data)])
  {
    hide Size, Field, ReadBE16, ReadBE32, Crc, DecodeTLVs;
    var total := DeclaredLength(data);
    var cut := data[..total];
    assert cut[..total - CRC_SIZE] == data[..total - CRC_SIZE];
    assert cut[HEADER_SIZE..total - CRC_SIZE] == data[HEADER_SIZE..total - CRC_SIZE];
  }

  // ----- the bytes themselves -----

  /** The bytes of a chunk: two for its kind, two for the size of its value, high byte first, and the value. */
  lemma ChunkFormat(c: TLVChunk)
    requires c.WellFormed()
    ensures var e := EncodeTLV(c);
            && |e| == 4 + |c.value|
            && 256 * (e[0] as int) + (e[1] as int) == c.kind as int
            && 256 * (e[2] as int) + (e[3] as int) == |c.value|
            && e[4..] == c.value
  {
    hide BE16, Size;
    BE16Bytes(c.kind);
    BE16Bytes(c.length);
    SizeValue(c.length);
    var e := EncodeTLV(c);
    assert e[0] == BE16(c.kind)[0] && e[1] == BE16(c.kind)[1];
    assert e[2] == BE16(c.length)[0] && e[3] == BE16(c.length)[1];
  }

  lemma SizeValue(v: bv16)
    ensures Size(v) == v as int
  {
  }

  lemma MagicFormat()
    ensures BE32(MAGIC_HEADER) == [0xAF, 0x01, 0xAF, 0x01]
  {
  }

  /** Where the bytes of a frame lie. */
  lemma FrameLayout(sequenceId: bv16, payload: seq<byte>)
    requires Fits(payload)
    ensures var f, size := Frame(sequenceId, payload), BE16(Field(10 + |payload|));
            && |f| == 8 + |payload| && f[8..] == payload
            && f[..4] == BE32(MAGIC_HEADER)
            && [f[4], f[5]] == BE16(sequenceId)
            && [f[6], f[7]] == size
  {
    hide BE16, BE32, Field;
    var f, size := Frame(sequenceId, payload), BE16(Field(10 + |payload|));
    assert f[4] == BE16(sequenceId)[0] && f[5] == BE16(sequenceId)[1];
    assert f[6] == size[0] && f[7] == size[1];
  }

  lemma SizeBytes(n: nat)
    requires n <= 0xFFFF
    ensures n == 256 * (BE16(Field(n))[0] as int) + (BE16(Field(n))[1] as int)
  {
    hide Size, Field, BE16;
    SizeOfField(n);
    SizeValue(Field(n));
    BE16Bytes(Field(n));
  }

  lemma BuiltSplit(sequenceId: bv16, payload: seq<byte>)
    requires Fits(payload)
    ensures var d, f := Built(sequenceId, payload), Frame(sequenceId, payload);
            var crc := BE16(Crc(0xFFFF, f));
            && |d| == |f| + 2 && d[..|f|] == f && d[|f|] == crc[0] && d[|f| + 1] == crc[1]
            && d[..4] == f[..4] && d[4..8] == [f[4], f[5], f[6], f[7]] && d[8..|f|] == f[8..]
  {
    hide BE16, Crc, Frame;
  }

  /**
   * The bytes of a packet: AF 01 AF 01, then the sequence number and the size of the whole
   * packet, high byte first, then the chunks one after another, then the check value of all
   * that, high byte first. It is printable up to 65535 bytes.
   */
  lemma WireFormat(sequenceId: bv16, tlvs: seq<TLVChunk>)
    ensures Fits(EncodeTLVs(tlvs)) <==> 10 + |EncodeTLVs(tlvs)| <= 65535
    ensures Fits(EncodeTLVs(tlvs)) ==>
              var d := Built(sequenceId, EncodeTLVs(tlvs));
              var n := |d|;
              && n == 10 + |EncodeTLVs(tlvs)|
              && d[..4] == [0xAF, 0x01, 0xAF, 0x01]
              && 256 * (d[4] as int) + (d[5] as int) == sequenceId as int
              && 256 * (d[6] as int) + (d[7] as int) == n
              && d[8..n - 2] == EncodeTLVs(tlvs)
              && 256 * (d[n - 2] as int) + (d[n - 1] as int) == Crc(0xFFFF, d[..n - 2]) as int
  {
    hide BE16, BE32, Field, Crc, EncodeTLVs, Frame, Built;
    if Fits(EncodeTLVs(tlvs)) {
      FrameFormat(sequenceId, EncodeTLVs(tlvs));
      CheckFormat(sequenceId, EncodeTLVs(tlvs));
    }
  }

  lemma FrameFormat(sequenceId: bv16, payload: seq<byte>)
    requires Fits(payload)
    ensures var d := Built(sequenceId, payload);
            && d[..4] == [0xAF, 0x01, 0xAF, 0x01]
            && 256 * (d[4] as int) + (d[5] as int) == sequenceId as int
            && 256 * (d[6] as int) + (d[7] as int) == |d| == 10 + |payload|
            && d[8..|d| - 2] == payload
  {
    hide BE16, BE32, Field, Crc, Frame, Built;
    var d, f := Built(sequenceId, payload), Frame(sequenceId, payload);
    MagicFormat();
    FrameLayout(sequenceId, payload);
    BuiltSplit(sequenceId, payload);
    BE16Bytes(sequenceId);
    SizeBytes(10 + |payload|);
    assert d[4] == d[4..8][0] && d[5] == d[4..8][1] && d[6] == d[4..8][2] && d[7] == d[4..8][3];
    assert f[4] == [f[4], f[5]][0] && f[5] == [f[4], f[5]][1];
    assert f[6] == [f[6], f[7]][0] && f[7] == [f[6], f[7]][1];
  }

  lemma CheckFormat(sequenceId: bv16, payload: seq<byte>)
    requires Fits(payload)
    ensures var d := Built(sequenceId, payload);
            var n := |d|;
            256 * (d[n - 2] as int) + (d[n - 1] as int) == Crc(0xFFFF, d[..n - 2]) as int
  {
    hide BE16, Crc, Frame, Built;
    BuiltSplit(sequenceId, payload);
    BE16Bytes(Crc(0xFFFF, Frame(sequenceId, payload)));
  }

  /** The header of a report holds the bytes it was read from. */
  ghost predicate HeaderFrom(h: PacketHeader, data: seq<byte>)
    requires |data| >= 8
  {
    BE32(h.magic) == data[..4] && BE16(h.sequenceId) == data[4..6] && BE16(h.totalLength) == data[6..8]
  }

  lemma HeaderFields(data: seq<byte>)
    requires |data| >= 8
    ensures BE32(ReadBE32(data[0], data[1], data[2], data[3])) == data[..4]
    ensures BE16(ReadBE16(data[4], data[5])) == data[4..6] && BE16(ReadBE16(data[6], data[7])) == data[6..8]
    ensures DeclaredLength(data) == 256 * (data[6] as int) + (data[7] as int)
  {
    hide ReadBE16, ReadBE32, BE16, BE32, Size;
    BE32RoundTrip(0, data[0], data[1], data[2], data[3]);
    BE16RoundTrip(0, data[4], data[5]);
    BE16RoundTrip(0, data[6], data[7]);
    BE16Value(data[6], data[7]);
    SizeValue(ReadBE16(data[6], data[7]));
  }

  /** Up to the magic number: what a report says of strings that are too short or start otherwise. */
  lemma EarlyRefusal(data: seq<byte>)
    ensures |data| < 10 ==> Parsed(data) == ParsedPacket(PacketHeader(0, 0, 0), [], 0, PacketTooShort)
    ensures |data| >= 10 && data[..4] != [0xAF, 0x01, 0xAF, 0x01] ==>
              && Parsed(data) == ParsedPacket(PacketHeader(Parsed(data).header.magic, 0, 0), [], 0, InvalidMagic)
              && BE32(Parsed(data).header.magic) == data[..4]
  {
    hide ReadBE16, ReadBE32, BE16, BE32, Crc, DecodeTLVs, Size;
    if |data| >= 10 {
      MagicBytes(data);
      MagicFormat();
      HeaderFields(data);
    }
  }

  /** A length field that is too small or too large: the header is reported, and nothing else. */
  lemma LengthRefusal(data: seq<byte>)
    requires |data| >= 10 && data[..4] == [0xAF, 0x01, 0xAF, 0x01]
    ensures HeaderFrom(Parsed(data).header, data)
    ensures var p, total := Parsed(data), 256 * (data[6] as int) + (data[7] as int);
            p.error == LengthMismatch <==> total < 10 || total > |data|
    ensures Parsed(data).error == LengthMismatch ==> Parsed(data).tlvs == [] && Parsed(data).crc == 0
  {
    hide ReadBE16, ReadBE32, BE16, BE32, Crc, DecodeTLVs, Size;
    MagicBytes(data);
    MagicFormat();
    HeaderFields(data);
  }

  /** What splitting a region yields, whether it succeeds or not. */
  lemma SplitReport(region: seq<byte>)
    ensures var kept := DecodeTLVs(region);
            && AllWellFormed(kept.tlvs)
            && EncodeTLVs(kept.tlvs) <= region
            && (kept.ok <==> EncodeTLVs(kept.tlvs) == region)
            && (forall c: TLVChunk :: c.WellFormed() ==> !(EncodeTLV(c) <= region[|EncodeTLVs(kept.tlvs)|..]))
  {
    hide DecodeTLVs, EncodeTLV, EncodeTLVs, AllWellFormed;
    FirstFault(region);
    DecodeThenEncode(region);
    if EncodeTLVs(DecodeTLVs(region).tlvs) == region {
      EncodeThenDecode(DecodeTLVs(region).tlvs);
    }
  }

  lemma ReportPastHeader(data: seq<byte>)
    requires |data| >= MIN_PKT_SIZE && ReadBE32(data[0], data[1], data[2], data[3]) == MAGIC_HEADER
    requires MIN_PKT_SIZE <= DeclaredLength(data) <= |data|
    ensures var p, total := Parsed(data), DeclaredLength(data);
            var kept := DecodeTLVs(data[8..total - 2]);
            && p.tlvs == kept.tlvs
            && (!kept.ok ==> p.error == TruncatedTLV && p.crc == 0)
            && (kept.ok ==>
                  && p.crc == ReadBE16(data[total - 2], data[total - 1])
                  && p.error == if p.crc == Crc(0xFFFF, data[..total - 2]) then NoError else InvalidCRC)
  {
    hide ReadBE16, ReadBE32, Crc, DecodeTLVs, Size;
  }

  /**
   * Past the header: the chunks reported print to the start of the chunk region; they are all
   * of it, or else no chunk could be printed next and the region is reported as truncated;
   * and if they are all of it, the two bytes behind it are reported as check value, and
   * compared with that of everything before them.
   */
  lemma RegionReport(data: seq<byte>)
    requires |data| >= 10 && data[..4] == [0xAF, 0x01, 0xAF, 0x01]
    requires 10 <= 256 * (data[6] as int) + (data[7] as int) <= |data|
    ensures var p, total := Parsed(data), 256 * (data[6] as int) + (data[7] as int);
            var region, printed := data[8..total - 2], EncodeTLVs(p.tlvs);
            && AllWellFormed(p.tlvs)
            && printed <= region
            && (forall c: TLVChunk :: c.WellFormed() ==> !(EncodeTLV(c) <= region[|printed|..]))
            && (printed != region ==> p.error == TruncatedTLV && p.crc == 0)
            && (printed == region ==>
                  && 256 * (data[total - 2] as int) + (data[total - 1] as int) == p.crc as int
                  && p.error == if p.crc == Crc(0xFFFF, data[..total - 2]) then NoError else InvalidCRC)
  {
    hide ReadBE16, ReadBE32, BE32, Crc, DecodeTLVs, Size, EncodeTLV, EncodeTLVs, AllWellFormed, Parsed, DeclaredLength;
    MagicBytes(data);
    MagicFormat();
    HeaderFields(data);
    var total := DeclaredLength(data);
    SplitReport(data[8..total - 2]);
    ReportPastHeader(data);
    BE16Value(data[total - 2], data[total - 1]);
  }
}
