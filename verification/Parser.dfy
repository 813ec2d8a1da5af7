/** The packet parser: loops over the received bytes, proved against the description of a packet. */
module Parser {
  import opened Bytes
  import opened Crc16
  import opened Packet

  lemma CrcUnfold(crc: bv16, data: seq<byte>)
    ensures Crc(crc, data) == if data == [] then crc else Crc(Update(crc, data[0]), data[1..])
  {
    hide Update;
  }

  /** One turn of the loop. */
  method TableUpdate(crc: bv16, b: byte) returns (next: bv16)
    ensures next == Update(crc, b)
  {
    hide Update;
    TableLoopStep(crc, b);
    next := (crc << 8) ^ Crc16Table()[(((crc >> 8) ^ (b as bv16)) & 0xFF) as int];
  }

  /** The check value of the first `len` bytes, one table lookup a byte. */
  method ComputeCrc16(data: seq<byte>, len: nat) returns (crc: bv16)
    requires len <= |data|
    ensures crc == Crc(INITIAL, data[..len])
  {
    hide Crc, Update;
    crc := 0xFFFF;
    for i := 0 to len
      invariant Crc(crc, data[i..len]) == Crc(INITIAL, data[..len])
    {
      CrcUnfold(crc, data[i..len]);
      assert data[i..len][1..] == data[i + 1..len];
      crc := TableUpdate(crc, data[i]);
    }
    CrcUnfold(crc, data[len..len]);
  }

  lemma DecodeUnfold(s: seq<byte>)
    ensures DecodeTLVs(s)
         == if s == [] then TLVResult(true, [])
            else if |s| < 4 || |s| < 4 + Size(ReadBE16(s[2], s[3])) then TLVResult(false, [])
            else
              var rest := DecodeTLVs(s[4 + Size(ReadBE16(s[2], s[3]))..]);
              TLVResult(rest.ok, [ReadChunk(s)] + rest.tlvs)
  {
    hide Size, ReadBE16;
  }

  /** Splits a region into chunks, adding each to `tlvs0`; a chunk that does not fit ends the loop. */
  method ParseTLVs(data: seq<byte>, tlvs0: seq<TLVChunk>) returns (ok: bool, tlvs: seq<TLVChunk>)
    ensures ok == DecodeTLVs(data).ok && tlvs == tlvs0 + DecodeTLVs(data).tlvs
  {
    hide Size, ReadBE16, DecodeTLVs;
    var len, offset := |data|, 0;
    tlvs := tlvs0;
    assert data[0..] == data;
    while offset < len
      invariant offset <= len
      invariant DecodeTLVs(data).ok == DecodeTLVs(data[offset..]).ok
      invariant tlvs0 + DecodeTLVs(data).tlvs == tlvs + DecodeTLVs(data[offset..]).tlvs
    {
      ghost var rest := data[offset..];
      DecodeUnfold(rest);
      if offset + 4 > len { return false, tlvs; }
      var kind := ReadBE16(data[offset], data[offset + 1]);
      var tlvLen := ReadBE16(data[offset + 2], data[offset + 3]);
      offset := offset + 4;
      if offset + Size(tlvLen) > len { return false, tlvs; }
      var chunk := TLVChunk(kind, tlvLen, data[offset..offset + Size(tlvLen)]);
      assert chunk == ReadChunk(rest);
      assert rest[4 + Size(tlvLen)..] == data[offset + Size(tlvLen)..];
      tlvs := tlvs + [chunk];
      offset := offset + Size(tlvLen);
    }
    assert data[offset..] == [];
    DecodeUnfold([]);
    return true, tlvs;
  }

  /** Fills the report field by field and stops at the first fault. */
  method Parse(data: seq<byte>) returns (result: ParsedPacket)
    ensures result == Parsed(data)
  {
    hide Size, ReadBE16, ReadBE32, Crc, DecodeTLVs;
    result := ParsedPacket(PacketHeader(0, 0, 0), [], 0, NoError);

    if |data| < MIN_PKT_SIZE {
      result := result.(error := PacketTooShort);
      return;
    }

    result := result.(header := result.header.(magic := ReadBE32(data[0], data[1], data[2], data[3])));
    if result.header.magic != MAGIC_HEADER {
      result := result.(error := InvalidMagic);
      return;
    }

    result := result.(header := result.header.(sequenceId := ReadBE16(data[4], data[5]),
                                               totalLength := ReadBE16(data[6], data[7])));
    if Size(result.header.totalLength) < MIN_PKT_SIZE {
      result := result.(error := LengthMismatch);
      return;
    }
    if Size(result.header.totalLength) > |data| {
      result := result.(error := LengthMismatch);
      return;
    }

    var payloadLen := Size(result.header.totalLength) - HEADER_SIZE - CRC_SIZE;
    if payloadLen > 0 {
      var ok, tlvs := ParseTLVs(data[HEADER_SIZE..HEADER_SIZE + payloadLen], result.tlvs);
      result := result.(tlvs := tlvs);
      if !ok {
        result := result.(error := TruncatedTLV);
        return;
      }
    } else {
      DecodeNothing();
      assert data[HEADER_SIZE..HEADER_SIZE + payloadLen] == [];
    }

    var crcOffset := Size(result.header.totalLength) - CRC_SIZE;
    result := result.(crc := ReadBE16(data[crcOffset], data[crcOffset + 1]));
    var computed := ComputeCrc16(data, crcOffset);
    if computed != result.crc {
      result := result.(error := InvalidCRC);
      return;
    }
  }
}
