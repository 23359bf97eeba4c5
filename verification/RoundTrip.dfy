/** Encoding and decoding headers are inverse to each other, and where the 16-bit lengths wrap. */
module RoundTrip {
  import opened Words
  import opened Crc
  import opened Codec

  /** Payload lengths whose total, modulo 2^16, passes the decoder's bound. */
  predicate Decodable(h: Header) {
    h.payloadLen <= 488 || 65512 <= h.payloadLen
  }

  lemma LengthsModulo(payload: word)
    ensures 24 + payload <= 512 <==> payload <= 488 || 65512 <= payload
    ensures 65512 <= payload ==> 24 + payload < 24
    ensures payload <= 488 ==> 24 + payload >= 24
  {
  }

  lemma HeaderTotal(payload: word)
    ensures TotalOf(24, payload) == 24 + payload
  {
  }

  lemma ShapeOfFinished(h: Header)
    ensures CheckShape(Finished(h)) == if Decodable(h) then Ok else ErrOverflow
  {
  }

  /** What the encoder wrote, followed by anything, decodes to the finished header exactly when its length fits. */
  lemma EncodeDecode(h: Header, tail: seq<byte>)
    ensures Decode(Encode(h) + tail) == if Decodable(h) then Accepted(Finished(h)) else Rejected(ErrOverflow)
    ensures var f := Finished(h);
            f == h.(magic := MAGIC, version := VERSION, headerLen := 24, totalLen := TotalOf(24, h.payloadLen),
                    headerCrc := f.headerCrc)
  {
    hide Serialize, Checksum, CheckShape, Deserialize, Cleared;
    var f := Finished(h);
    ShapeOfFinished(h);
    DeserializeSerialized(f, f.headerCrc, tail);
    ChecksumFieldUnread(Shaped(h), f.headerCrc, 0);
    assert f == Shaped(h).(headerCrc := f.headerCrc);
  }

  /** Where each field of an encoded header stands, and that words are little-endian. */
  lemma EncodedLayout(h: Header)
    ensures var s := Encode(h);
            && s[..4] == [0x5A, 0xA5, 0x01, 0x18]
            && ReadLe16(s[4], s[5]) == 24 + h.payloadLen
            && ReadLe16(s[6], s[7]) == h.seqNo && ReadLe16(s[8], s[9]) == h.refSeq
            && s[10] == h.chType && s[11] == h.chId && s[12] == h.msgType && s[13] == h.opcode
            && ReadLe16(s[14], s[15]) == h.flags && ReadLe16(s[16], s[17]) == h.status
            && ReadLe16(s[18], s[19]) == h.payloadLen && ReadLe16(s[22], s[23]) == h.reserved
            && ReadLe16(s[20], s[21]) == Checksum(s[..20] + [0, 0] + s[22..])
  {
    hide Low, High, ReadLe16, Checksum, TotalOf;
    forall w: word ensures ReadLe16(Low(w), High(w)) == w {
      Le16RoundTrip(w, 0, 0);
    }
    HeaderTotal(h.payloadLen);
    MagicBytes();
    ZeroBytes();
    var f := Finished(h);
    assert f.headerCrc == Checksum(Serialize(Shaped(h), 0));
    ChecksumFieldUnread(Shaped(h), f.headerCrc, 0);
    var s := Encode(h);
    DeserializeSerialized(f, f.headerCrc, []);
    assert s + [] == s && Cleared(s) == s[..20] + [0, 0] + s[22..];
  }

  lemma MagicBytes()
    ensures Low(MAGIC) == 0x5A && High(MAGIC) == 0xA5
  {
  }

  lemma ShapeAccepted(h: Header)
    requires CheckShape(h) == Ok
    ensures Shaped(h) == h && Decodable(h) && h.totalLen <= 512
  {
  }

  /** Whatever the decoder accepts, re-encoding the result reproduces the same header and the same 24 bytes. */
  lemma DecodeEncode(s: seq<byte>)
    requires Decode(s).Accepted?
    ensures var h := Decode(s).header;
            Finished(h) == h && Encode(h) == s[..HEADER_LEN] && Decodable(h)
  {
    hide Serialize, Checksum, Deserialize, Cleared, CheckShape, Shaped, Decodable;
    var h := Decode(s).header;
    assert h == Deserialize(s);
    ShapeAccepted(h);
    SerializeDeserialized(s);
    DeserializeSerialized(h, h.headerCrc, []);
    assert Serialize(h, h.headerCrc) + [] == s[..HEADER_LEN];
    ClearedPrefix(s);
  }

  /** Enough bytes, the fixed prefix, and lengths that agree modulo 2^16. */
  predicate Framed(s: seq<byte>) {
    && |s| >= HEADER_LEN
    && s[..4] == [0x5A, 0xA5, 0x01, 0x18]
    && ReadLe16(s[4], s[5]) == 24 + ReadLe16(s[18], s[19])
  }

  /** Which byte strings the decoder accepts, and with which error it rejects the others. */
  lemma DecodeExactly(s: seq<byte>)
    ensures Decode(s).Accepted? <==>
      && Framed(s) && ReadLe16(s[4], s[5]) <= 512
      && ReadLe16(s[20], s[21]) == Checksum(s[..20] + [0, 0] + s[22..24])
    ensures Decode(s) == Rejected(ErrOverflow) <==> Framed(s) && ReadLe16(s[4], s[5]) > 512
    ensures Decode(s).Rejected? ==> Decode(s).error == ErrProto || Decode(s).error == ErrOverflow
  {
    hide Checksum, ReadLe16, CheckShape;
    if |s| >= HEADER_LEN {
      ShapeOfBytes(s);
      hide Framed;
      ReadFields(s);
      hide Deserialize;
    }
  }

  lemma ReadFields(s: seq<byte>)
    requires |s| >= HEADER_LEN
    ensures var h := Deserialize(s);
            && h.magic == ReadLe16(s[0], s[1]) && h.version == s[2] && h.headerLen == s[3]
            && h.totalLen == ReadLe16(s[4], s[5]) && h.payloadLen == ReadLe16(s[18], s[19])
            && h.headerCrc == ReadLe16(s[20], s[21])
  {
  }

  lemma ShapeOfBytes(s: seq<byte>)
    requires |s| >= HEADER_LEN
    ensures CheckShape(Deserialize(s))
         == if !Framed(s) then ErrProto else if ReadLe16(s[4], s[5]) > 512 then ErrOverflow else Ok
  {
    hide ReadLe16, CheckShape, Framed;
    ReadFields(s);
    hide Deserialize;
    ShapeCases(Deserialize(s));
    FramedBytes(s);
  }

  lemma ShapeCases(h: Header)
    ensures CheckShape(h)
         == if h.magic != MAGIC || h.version != 0x01 || h.headerLen != 0x18 ||
               h.totalLen != TotalOf(24, h.payloadLen) then ErrProto
            else if h.totalLen > 512 then ErrOverflow else Ok
  {
  }

  lemma FramedBytes(s: seq<byte>)
    requires |s| >= HEADER_LEN
    ensures Framed(s) <==>
      && ReadLe16(s[0], s[1]) == MAGIC && s[2] == 0x01 && s[3] == 0x18
      && ReadLe16(s[4], s[5]) == TotalOf(24, ReadLe16(s[18], s[19]))
  {
  }

  lemma ClearedPrefix(s: seq<byte>)
    requires |s| >= HEADER_LEN
    ensures Cleared(s[..HEADER_LEN]) == Cleared(s)
  {
  }

  lemma ShortRejected(s: seq<byte>)
    requires |s| < HEADER_LEN
    ensures Decode(s) == Rejected(ErrProto)
  {
  }

  /** The decoder looks at the first 24 bytes only. */
  lemma DecodePrefix(s: seq<byte>, t: seq<byte>)
    requires |s| >= HEADER_LEN && |t| >= HEADER_LEN && s[..HEADER_LEN] == t[..HEADER_LEN]
    ensures Decode(s) == Decode(t)
  {
    DeserializePrefix(s, t);
    hide Checksum, Deserialize, CheckShape, Cleared;
  }

  /** The headers the decoder accepts with total length at least 24 are exactly those the encoder writes. */
  lemma AcceptedIsEncoded(s: seq<byte>)
    requires |s| == HEADER_LEN
    ensures (Decode(s).Accepted? && Len(Decode(s).header.totalLen) >= HEADER_LEN)
            <==> exists h :: Encodable(h) && Encode(h) == s
  {
    hide Encode, Decode, Encodable, Len;
    if Decode(s).Accepted? && Len(Decode(s).header.totalLen) >= HEADER_LEN {
      var h := Decode(s).header;
      AcceptedLengths(s);
      DecodeEncode(s);
      assert s[..HEADER_LEN] == s;
      assert Encodable(h) && Encode(h) == s;
    }
    if h :| Encodable(h) && Encode(h) == s {
      EncodedAccepted(h);
    }
  }

  lemma EncodedAccepted(h: Header)
    requires Encodable(h)
    ensures Decode(Encode(h)).Accepted? && Len(Decode(Encode(h)).header.totalLen) >= HEADER_LEN
  {
    hide Encode, Decode, Finished;
    EncodeDecode(h, []);
    assert Encode(h) + [] == Encode(h);
    FinishedTotal(h);
  }

  lemma FinishedTotal(h: Header)
    requires Encodable(h)
    ensures Len(Finished(h).totalLen) == HEADER_LEN + Len(h.payloadLen) <= MAX_FRAME_LEN
  {
  }

  /** Total and payload length of an accepted header; a total below 24 is the wrapped case. */
  lemma AcceptedLengths(s: seq<byte>)
    requires Decode(s).Accepted?
    ensures var h := Decode(s).header;
            && Len(h.totalLen) <= MAX_FRAME_LEN
            && (Len(h.totalLen) >= HEADER_LEN <==> Encodable(h))
            && (Len(h.totalLen) >= HEADER_LEN ==> Len(h.totalLen) == HEADER_LEN + Len(h.payloadLen))
            && (Len(h.totalLen) < HEADER_LEN <==> 65512 <= h.payloadLen)
  {
    hide Checksum, Deserialize, Cleared, CheckShape;
    var h := Decode(s).header;
    ShapeAccepted(h);
    HeaderTotal(h.payloadLen);
    LengthsModulo(h.payloadLen);
    HeaderLengths(h.totalLen, h.payloadLen);
  }

  /** The decoder alone does not exclude wrapped lengths: such headers exist, and it accepts them. */
  lemma WrappedHeaderAccepted() returns (s: seq<byte>)
    ensures Decode(s).Accepted? && Len(Decode(s).header.totalLen) < HEADER_LEN
  {
    var h := ZERO_HEADER.(payloadLen := 65512);
    hide Encode, Decode;
    EncodeDecode(h, []);
    s := Encode(h) + [];
    AcceptedLengths(s);
  }
}
