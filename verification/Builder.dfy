/** The packet builder: chunks collect in a payload field and are printed into a fresh buffer. */
module Builder {
  import opened Bytes
  import opened Crc16
  import opened Packet
  import Parser

  class PacketBuilder {
    var sequenceId: bv16
    var tlvPayload: seq<byte>
    /** The chunks appended since the last reset. */
    ghost var appended: seq<TLVChunk>

    ghost predicate Valid()
      reads this
    {
      AllWellFormed(appended) && tlvPayload == EncodeTLVs(appended)
    }

    constructor ()
      ensures Valid() && sequenceId == 0 && appended == []
    {
      sequenceId, tlvPayload, appended := 0, [], [];
    }

    method Reset()
      modifies this
      ensures Valid() && sequenceId == 0 && appended == []
    {
      sequenceId, tlvPayload, appended := 0, [], [];
    }

    method SetSequence(number: bv16)
      requires Valid()
      modifies this`sequenceId
      ensures Valid() && sequenceId == number
    {
      sequenceId := number;
    }

    /** Appends the first `len` bytes of `value`; a missing buffer is refused unless nothing is wanted of it. */
    method AppendTLV(kind: bv16, value: array?<byte>, len: nat) returns (ok: bool)
      requires Valid()
      requires value != null ==> len <= value.Length
      modifies this`tlvPayload, this`appended
      ensures Valid()
      ensures ok <==> !(value == null && len > 0) && len <= 0xFFFF
      ensures ok ==> appended == old(appended)
                               + [TLVChunk(kind, Field(len), if value == null then [] else value[..len])]
      ensures !ok ==> appended == old(appended) && tlvPayload == old(tlvPayload)
    {
      hide Size, Field, BE16, EncodeTLVs;
      if value == null && len > 0 { return false; }
      if len > 0xFFFF { return false; }
      ghost var chunk := TLVChunk(kind, Field(len), if value == null then [] else value[..len]);
      SizeOfField(len);
      EncodeAppend(appended, chunk);
      tlvPayload := tlvPayload + BE16(kind) + BE16(Field(len));
      if len > 0 {
        tlvPayload := tlvPayload + value[..len];
      }
      appended := appended + [chunk];
      assert tlvPayload == EncodeTLVs(old(appended)) + EncodeTLV(chunk);
      return true;
    }

    static method WriteBE16(p: array<byte>, at: nat, v: bv16)
      requires at + 2 <= p.Length
      modifies p
      ensures p[..] == old(p[..at]) + BE16(v) + old(p[at + 2..])
    {
      p[at] := ((v >> 8) & 0xFF) as byte;
      p[at + 1] := (v & 0xFF) as byte;
    }

    static method WriteBE32(p: array<byte>, at: nat, v: bv32)
      requires at + 4 <= p.Length
      modifies p
      ensures p[..] == old(p[..at]) + BE32(v) + old(p[at + 4..])
    {
      p[at] := ((v >> 24) & 0xFF) as byte;
      p[at + 1] := ((v >> 16) & 0xFF) as byte;
      p[at + 2] := ((v >> 8) & 0xFF) as byte;
      p[at + 3] := (v & 0xFF) as byte;
    }

    /** One turn of the loop. */
    static method TableUpdate(crc: bv16, b: byte) returns (next: bv16)
      ensures next == Update(crc, b)
    {
      hide Update;
      TableLoopStep(crc, b);
      next := (crc << 8) ^ Crc16Table()[(((crc >> 8) ^ (b as bv16)) & 0xFF) as int];
    }

    /** The builder's own copy of the check value loop. */
    static method ComputeCrc16(data: array<byte>, len: nat) returns (crc: bv16)
      requires len <= data.Length
      ensures crc == Crc(INITIAL, data[..len])
    {
      hide Crc, Update;
      crc := 0xFFFF;
      for i := 0 to len
        invariant Crc(crc, data[i..len]) == Crc(INITIAL, data[..len])
      {
        Parser.CrcUnfold(crc, data[i..len]);
        assert data[i..len][1..] == data[i + 1..len];
        crc := TableUpdate(crc, data[i]);
      }
      Parser.CrcUnfold(crc, data[len..len]);
    }

    /** Prints the packet; `prior` is the caller's buffer, which survives only a failure. */
    method Finalize(prior: array<byte>) returns (ok: bool, out: array<byte>)
      requires Valid()
      ensures ok <==> Fits(tlvPayload)
      ensures ok ==> fresh(out) && out[..] == Built(sequenceId, EncodeTLVs(appended))
      ensures !ok ==> out == prior
    {
      hide BE16, BE32, Field, Crc, EncodeTLVs;
      var total := HEADER_SIZE + |tlvPayload| + CRC_SIZE;
      if total > 0xFFFF { return false, prior; }
      out := new byte[total];
      WriteBE32(out, 0, MAGIC_HEADER);
      assert out[..4] == BE32(MAGIC_HEADER);
      WriteBE16(out, 4, sequenceId);
      assert out[..6] == BE32(MAGIC_HEADER) + BE16(sequenceId);
      WriteBE16(out, 6, Field(total));
      ghost var header := BE32(MAGIC_HEADER) + BE16(sequenceId) + BE16(Field(total));
      assert out[..HEADER_SIZE] == header;
      CopyPayload(out);
      ghost var frame := out[..total - CRC_SIZE];
      assert frame == header + tlvPayload;
      assert frame == Frame(sequenceId, tlvPayload);
      var crc := ComputeCrc16(out, total - CRC_SIZE);
      WriteBE16(out, total - CRC_SIZE, crc);
      assert out[..] == frame + BE16(crc);
      return true, out;
    }

    /** Copies the collected payload behind the header. */
    method CopyPayload(out: array<byte>)
      requires out.Length == HEADER_SIZE + |tlvPayload| + CRC_SIZE
      modifies out
      ensures out[..HEADER_SIZE + |tlvPayload|] == old(out[..HEADER_SIZE]) + tlvPayload
    {
      forall i | 0 <= i < |tlvPayload| {
        out[HEADER_SIZE + i] := tlvPayload[i];
      }
    }
  }

  /** A finalized packet, sent with anything behind it, parses back to the chunks that were appended. */
  method SendAndReceive(builder: PacketBuilder, prior: array<byte>, extra: seq<byte>)
    returns (ok: bool, received: ParsedPacket)
    requires builder.Valid() && Fits(builder.tlvPayload)
    ensures ok
    ensures received.error == NoError
    ensures received.header.sequenceId == builder.sequenceId
    ensures received.tlvs == builder.appended
  {
    hide Crc, EncodeTLVs, Built, Parsed;
    var out;
    ok, out := builder.Finalize(prior);
    BuildThenParse(builder.sequenceId, builder.appended, extra);
    received := Parser.Parse(out[..] + extra);
  }
}
