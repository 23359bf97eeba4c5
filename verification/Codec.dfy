/** The 24-byte frame header: layout, shape check, encoding, decoding and frame building. */
module Codec {
  import opened Words
  import opened Crc

  const MAGIC: word := 0xA55A
  const VERSION: byte := 0x01
  const HEADER_LEN: nat := 24
  const MAX_FRAME_LEN: nat := 512
  const MAX_PAYLOAD_LEN: nat := MAX_FRAME_LEN - HEADER_LEN

  datatype Status = Ok | ErrArg | ErrProto | ErrTimeout | ErrIo | ErrNotFound | ErrDeviceStatus | ErrOverflow

  datatype Header = Header(
    magic: word, version: byte, headerLen: byte, totalLen: word, seqNo: word, refSeq: word,
    chType: byte, chId: byte, msgType: byte, opcode: byte,
    flags: word, status: word, payloadLen: word, headerCrc: word, reserved: word)

  /** A header structure passed by pointer. */
  class HeaderVar {
    var value: Header

    constructor (value: Header)
      ensures this.value == value
    {
      this.value := value;
    }
  }

  /** A size_t passed by pointer. */
  class SizeVar {
    var value: nat

    constructor (value: nat)
      ensures this.value == value
    {
      this.value := value;
    }
  }

  const ZERO_HEADER := Header(0, 0, 0, 0, 0, 0, 0, 0, 0, 0, 0, 0, 0, 0, 0)

  // ------------------------------------------------------------ specification

  function Serialize(h: Header, crc: word): (s: seq<byte>)
    ensures |s| == HEADER_LEN
  {
    [Low(h.magic), High(h.magic), h.version, h.headerLen,
     Low(h.totalLen), High(h.totalLen), Low(h.seqNo), High(h.seqNo), Low(h.refSeq), High(h.refSeq),
     h.chType, h.chId, h.msgType, h.opcode,
     Low(h.flags), High(h.flags), Low(h.status), High(h.status),
     Low(h.payloadLen), High(h.payloadLen), Low(crc), High(crc), Low(h.reserved), High(h.reserved)]
  }

  function Deserialize(s: seq<byte>): Header
    requires |s| >= HEADER_LEN
  {
    Header(ReadLe16(s[0], s[1]), s[2], s[3], ReadLe16(s[4], s[5]), ReadLe16(s[6], s[7]), ReadLe16(s[8], s[9]),
           s[10], s[11], s[12], s[13],
           ReadLe16(s[14], s[15]), ReadLe16(s[16], s[17]), ReadLe16(s[18], s[19]),
           ReadLe16(s[20], s[21]), ReadLe16(s[22], s[23]))
  }

  /** The sum of a uint8_t and a uint16_t, cast to uint16_t. */
  function TotalOf(headerLen: byte, payloadLen: word): word {
    Widen(headerLen) + payloadLen
  }

  /** The total length check is modulo 2^16, as the cast in the source makes it. */
  function CheckShape(h: Header): Status {
    if h.magic != MAGIC then ErrProto
    else if h.version != VERSION then ErrProto
    else if h.headerLen != 24 then ErrProto
    else if h.totalLen != TotalOf(h.headerLen, h.payloadLen) then ErrProto
    else if h.totalLen > 512 then ErrOverflow
    else Ok
  }

  /** The first 24 bytes of s with the checksum field cleared. */
  function Cleared(s: seq<byte>): (c: seq<byte>)
    requires |s| >= HEADER_LEN
    ensures |c| == HEADER_LEN
  {
    s[..20] + [0, 0] + s[22..24]
  }

  datatype Decoded = Accepted(header: Header) | Rejected(error: Status)

  function Decode(s: seq<byte>): Decoded {
    if |s| < HEADER_LEN then Rejected(ErrProto)
    else
      var h := Deserialize(s);
      var shape := CheckShape(h);
      if shape != Ok then Rejected(shape)
      else if Checksum(Cleared(s)) != h.headerCrc then Rejected(ErrProto)
      else Accepted(h)
  }

  function Shaped(h: Header): Header {
    h.(magic := MAGIC, version := VERSION, headerLen := 24, totalLen := TotalOf(24, h.payloadLen))
  }

  /** The header as the encoder leaves it in the caller's structure. */
  function Finished(h: Header): Header {
    Shaped(h).(headerCrc := Checksum(Serialize(Shaped(h), 0)))
  }

  /** The bytes the encoder writes. */
  function Encode(h: Header): (s: seq<byte>)
    ensures |s| == HEADER_LEN
  {
    Serialize(Finished(h), Finished(h).headerCrc)
  }

  predicate Encodable(h: Header) {
    h.payloadLen <= 488
  }

  // ------------------------------------------------------------------- methods

  lemma Listed(s: seq<byte>)
    requires |s| >= HEADER_LEN
    ensures s[..HEADER_LEN] ==
       [s[0], s[1], s[2], s[3], s[4], s[5], s[6], s[7], s[8], s[9], s[10], s[11],
        s[12], s[13], s[14], s[15], s[16], s[17], s[18], s[19], s[20], s[21], s[22], s[23]]
  {
  }

  method WriteLe16(dst: array<byte>, at: nat, value: word)
    requires at + 1 < dst.Length
    modifies dst
    ensures dst[at] == Low(value) && dst[at + 1] == High(value)
    ensures forall i | 0 <= i < dst.Length && i != at && i != at + 1 :: dst[i] == old(dst[i])
  {
    dst[at] := (value & 0xFF) as byte;
    dst[at + 1] := (value >> 8) as byte;
  }

  method WriteByte(dst: array<byte>, at: nat, value: byte)
    requires at < dst.Length
    modifies dst
    ensures dst[at] == value
    ensures forall i | 0 <= i < dst.Length && i != at :: dst[i] == old(dst[i])
  {
    dst[at] := value;
  }

  method SerializeHeader(dst: array<byte>, header: Header, crc: word)
    requires dst.Length >= HEADER_LEN
    modifies dst
    ensures dst[..HEADER_LEN] == Serialize(header, crc)
    ensures dst[HEADER_LEN..] == old(dst[HEADER_LEN..])
  {
    hide Low, High;
    WriteLe16(dst, 0, header.magic);
    WriteByte(dst, 2, header.version);
    WriteByte(dst, 3, header.headerLen);
    WriteLe16(dst, 4, header.totalLen);
    WriteLe16(dst, 6, header.seqNo);
    WriteLe16(dst, 8, header.refSeq);
    WriteByte(dst, 10, header.chType);
    WriteByte(dst, 11, header.chId);
    WriteByte(dst, 12, header.msgType);
    WriteByte(dst, 13, header.opcode);
    WriteLe16(dst, 14, header.flags);
    WriteLe16(dst, 16, header.status);
    WriteLe16(dst, 18, header.payloadLen);
    WriteLe16(dst, 20, crc);
    WriteLe16(dst, 22, header.reserved);
    Listed(dst[..]);
    assert dst[..][..HEADER_LEN] == dst[..HEADER_LEN];
  }

  method DeserializeHeader(src: array<byte>) returns (header: Header)
    requires src.Length >= HEADER_LEN
    ensures header == Deserialize(src[..])
  {
    header := Header(
      ReadLe16(src[0], src[1]), src[2], src[3], ReadLe16(src[4], src[5]), ReadLe16(src[6], src[7]),
      ReadLe16(src[8], src[9]), src[10], src[11], src[12], src[13],
      ReadLe16(src[14], src[15]), ReadLe16(src[16], src[17]), ReadLe16(src[18], src[19]),
      ReadLe16(src[20], src[21]), ReadLe16(src[22], src[23]));
  }

  /** Finishes the caller's header in place and writes its 24 bytes; refuses without touching anything. */
  method EncodeHeader(dst: array<byte>, header: HeaderVar) returns (status: Status)
    modifies dst, header
    ensures status == if dst.Length < HEADER_LEN || !Encodable(old(header.value)) then ErrOverflow else Ok
    ensures status != Ok ==> dst[..] == old(dst[..]) && header.value == old(header.value)
    ensures status == Ok ==> header.value == Finished(old(header.value))
    ensures status == Ok ==>
      dst[..HEADER_LEN] == Encode(old(header.value)) && dst[HEADER_LEN..] == old(dst[HEADER_LEN..])
  {
    hide Serialize, Checksum;
    if dst.Length < HEADER_LEN {
      return ErrOverflow;
    }
    if header.value.payloadLen > 488 {
      return ErrOverflow;
    }
    ghost var given := header.value;
    var headerBytes := new byte[24];
    header.value := header.value.(magic := MAGIC, version := VERSION, headerLen := 24);
    header.value := header.value.(totalLen := TotalOf(24, header.value.payloadLen));
    header.value := header.value.(headerCrc := 0);
    ChecksumFieldUnread(Shaped(given), 0, 0);
    SerializeHeader(headerBytes, header.value, 0);
    var crc := Crc16(headerBytes, 24);
    header.value := header.value.(headerCrc := crc);
    ChecksumFieldUnread(Shaped(given), crc, crc);
    SerializeHeader(dst, header.value, header.value.headerCrc);
    assert headerBytes[..24] == headerBytes[..HEADER_LEN];
    assert header.value == Finished(given);
    status := Ok;
  }

  /** The checksum field of a header does not enter its serialization. */
  lemma ChecksumFieldUnread(h: Header, field: word, crc: word)
    ensures Serialize(h.(headerCrc := field), crc) == Serialize(h, crc)
  {
  }

  /** Writes the caller's header only when everything was accepted. */
  method DecodeHeader(src: array<byte>, srcLen: nat, header: HeaderVar) returns (status: Status)
    requires srcLen <= src.Length
    modifies header
    ensures Decode(src[..srcLen]) == if status == Ok then Accepted(header.value) else Rejected(status)
    ensures status != Ok ==> header.value == old(header.value)
  {
    hide CheckShape, Checksum, Deserialize;
    if srcLen < HEADER_LEN {
      return ErrProto;
    }
    var local := DeserializeHeader(src);
    DeserializePrefix(src[..], src[..srcLen]);
    var shape := CheckShape(local);
    if shape != Ok {
      return shape;
    }
    var headerBytes := new byte[24];
    for i := 0 to 24
      invariant headerBytes[..i] == src[..i]
      modifies headerBytes
    {
      headerBytes[i] := src[i];
    }
    headerBytes[20] := 0;
    headerBytes[21] := 0;
    assert headerBytes[..24] == Cleared(src[..srcLen]);
    var crc := Crc16(headerBytes, 24);
    if crc != local.headerCrc {
      return ErrProto;
    }
    header.value := local;
    status := Ok;
  }

  lemma DeserializePrefix(s: seq<byte>, t: seq<byte>)
    requires |s| >= HEADER_LEN && |t| >= HEADER_LEN && s[..HEADER_LEN] == t[..HEADER_LEN]
    ensures Deserialize(s) == Deserialize(t) && Cleared(s) == Cleared(t)
  {
  }

  /** memcpy between two distinct buffers. */
  method CopyBytes(dst: array<byte>, at: nat, src: array<byte>, start: nat, n: nat)
    requires at + n <= dst.Length && start + n <= src.Length && src != dst
    modifies dst
    ensures dst[..at] == old(dst[..at])
    ensures dst[at..at + n] == src[start..start + n]
    ensures dst[at + n..] == old(dst[at + n..])
  {
    for i := 0 to n
      invariant dst[..at] == old(dst[..at])
      invariant dst[at..at + i] == src[start..start + i]
      invariant dst[at + n..] == old(dst[at + n..])
    {
      dst[at + i] := src[start + i];
    }
  }

  /** The bytes of the frame for a header and a payload. */
  function Frame(h: Header, payload: seq<byte>): (f: seq<byte>)
    requires |payload| <= MAX_PAYLOAD_LEN
    ensures |f| == HEADER_LEN + |payload|
  {
    Encode(h.(payloadLen := Truncate(|payload|))) + payload
  }

  method BuildFrame(dst: array<byte>, frameLen: SizeVar, header: HeaderVar, payload: array?<byte>, payloadLen: nat)
    returns (status: Status)
    requires payload != null ==> payloadLen <= payload.Length && payload != dst
    modifies dst, frameLen, header
    ensures status == if payload == null && payloadLen != 0 then ErrArg
                      else if payloadLen > MAX_PAYLOAD_LEN || dst.Length < HEADER_LEN + payloadLen then ErrOverflow
                      else Ok
    ensures status != Ok ==>
      dst[..] == old(dst[..]) && frameLen.value == old(frameLen.value) && header.value == old(header.value)
    ensures status == Ok ==>
      && frameLen.value == HEADER_LEN + payloadLen <= dst.Length
      && dst[..frameLen.value] == Frame(old(header.value), if payload == null then [] else payload[..payloadLen])
      && dst[frameLen.value..] == old(dst[HEADER_LEN + payloadLen..])
      && header.value == Finished(old(header.value).(payloadLen := Truncate(payloadLen)))
  {
    hide Finished, Frame, Truncate;
    if payload == null && payloadLen != 0 {
      return ErrArg;
    }
    if payloadLen > MAX_PAYLOAD_LEN {
      return ErrOverflow;
    }
    if dst.Length < HEADER_LEN + payloadLen {
      return ErrOverflow;
    }
    FillFrame(dst, header, payload, payloadLen);
    frameLen.value := HEADER_LEN + payloadLen;
    return Ok;
  }

  /** The part of the frame builder behind its guards; the encoder can no longer refuse. */
  method FillFrame(dst: array<byte>, header: HeaderVar, payload: array?<byte>, n: nat)
    requires n <= MAX_PAYLOAD_LEN && HEADER_LEN + n <= dst.Length
    requires if payload == null then n == 0 else n <= payload.Length && payload != dst
    modifies dst, header
    ensures dst[..HEADER_LEN + n] == Frame(old(header.value), if payload == null then [] else payload[..n])
    ensures dst[HEADER_LEN + n..] == old(dst[HEADER_LEN + n..])
    ensures header.value == Finished(old(header.value).(payloadLen := Truncate(n)))
  {
    hide Finished, Encode, Truncate, Encodable;
    ghost var before := dst[..];
    ghost var data := if payload == null then [] else payload[..n];
    header.value := header.value.(payloadLen := Truncate(n));
    TruncatedPayload(header.value, n);
    var status := EncodeHeader(dst, header);
    ghost var encoded := dst[..];
    if n != 0 {
      CopyBytes(dst, HEADER_LEN, payload, 0, n);
    }
    FrameParts(before, encoded, dst[..], n, data);
  }

  lemma FrameParts(before: seq<byte>, encoded: seq<byte>, after: seq<byte>, n: nat, data: seq<byte>)
    requires |before| == |encoded| == |after| && HEADER_LEN + n <= |before|
    requires encoded[HEADER_LEN..] == before[HEADER_LEN..]
    requires after[..HEADER_LEN] == encoded[..HEADER_LEN] && after[HEADER_LEN..HEADER_LEN + n] == data
    requires after[HEADER_LEN + n..] == encoded[HEADER_LEN + n..]
    ensures after[..HEADER_LEN + n] == encoded[..HEADER_LEN] + data
    ensures after[HEADER_LEN + n..] == before[HEADER_LEN + n..]
  {
    assert after[..HEADER_LEN + n] == after[..HEADER_LEN] + after[HEADER_LEN..HEADER_LEN + n];
    assert encoded[HEADER_LEN..][n..] == encoded[HEADER_LEN + n..];
    assert before[HEADER_LEN..][n..] == before[HEADER_LEN + n..];
  }

  lemma TruncatedPayload(h: Header, n: nat)
    requires n <= MAX_PAYLOAD_LEN && h.payloadLen == Truncate(n)
    ensures Encodable(h) && Len(Truncate(n)) == n
  {
    CastWord(n);
    TotalBounds(Truncate(n));
  }

  // --------------------------------------------------------------- round trips

  lemma DeserializeSerialized(h: Header, crc: word, tail: seq<byte>)
    ensures Deserialize(Serialize(h, crc) + tail) == h.(headerCrc := crc)
    ensures Cleared(Serialize(h, crc) + tail) == Serialize(h, 0)
  {
    hide Low, High, ReadLe16;
    forall w: word ensures ReadLe16(Low(w), High(w)) == w {
      Le16RoundTrip(w, 0, 0);
    }
    ZeroBytes();
  }

  lemma ZeroBytes()
    ensures Low(0) == 0 && High(0) == 0
  {
  }

  lemma SerializeDeserialized(s: seq<byte>)
    requires |s| >= HEADER_LEN
    ensures Serialize(Deserialize(s), Deserialize(s).headerCrc) == s[..HEADER_LEN]
  {
    hide Low, High, ReadLe16;
    forall low, high ensures Low(ReadLe16(low, high)) == low && High(ReadLe16(low, high)) == high {
      Le16RoundTrip(0, low, high);
    }
    Listed(s);
  }
}
