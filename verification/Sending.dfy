/** What a request puts on the wire and what it returns. */
module Sending {
  import opened Words
  import opened Codec
  import opened RoundTrip
  import opened Transport
  import opened Delivery
  import opened Transactions

  // ----------------------------------------------------------------- statuses

  /** Which requests are refused before anything is written; they take a sequence number and change nothing else. */
  lemma BeginRefused(link: Link, c: Call, payload: Argument)
    ensures var (status, after) := Begin(link, c, payload);
            && (status == ErrArg <==> payload.Null? && payload.len != 0)
            && (status == ErrOverflow <==> |Bytes(payload)| > 488)
            && (status == ErrArg || status == ErrOverflow ==>
                  after == link.(nextSeq := after.nextSeq, begun := after.begun))
  {
    hide Frame, WriteResult;
    if |Bytes(payload)| <= MAX_PAYLOAD_LEN {
      WrittenStatus(Frame(RequestHeader(link.nextSeq, c), Bytes(payload)), link.out);
    }
  }

  lemma WrittenStatus(frame: seq<byte>, out: seq<OutEvent>)
    requires HEADER_LEN <= |frame| <= MAX_FRAME_LEN
    ensures var w := WriteResult(frame, out);
            && w.status != ErrArg && w.status != ErrOverflow
            && Accounted(w, frame, out)
            && (w.status == Ok
                <==> exists k | 0 <= k <= |out| :: Progressing(out[..k]) && MovedBy(out[..k]) >= |frame|)
  {
    WriteAccount(frame, out);
    WriteExactly(frame, out);
    hide WriteAll, Progressing;
  }

  /**
   * Any other request returns OK exactly when some stretch of the schedule makes progress in every call and moves the
   * 24 bytes of the header and the payload; otherwise the status tells what the last event it used was.
   */
  lemma BeginStatus(link: Link, c: Call, payload: Argument)
    requires !(payload.Null? && payload.len != 0) && |Bytes(payload)| <= 488
    ensures var (status, after) := Begin(link, c, payload);
            var used := |link.out| - |after.out|;
            && 0 <= used <= |link.out| && after.out == link.out[used..] && after.tape == link.tape
            && (status == Ok <==>
                  exists k | 0 <= k <= |link.out| ::
                    Progressing(link.out[..k]) && MovedBy(link.out[..k]) >= 24 + |Bytes(payload)|)
            && (status != Ok ==> WriteCause(status, link.out, used))
  {
    hide Frame, WriteResult, WriteCause, Progressing;
    WrittenStatus(Frame(RequestHeader(link.nextSeq, c), Bytes(payload)), link.out);
  }

  // -------------------------------------------------------------------- bytes

  /** The bytes of a successful write are one frame that decodes to the request and carries its payload. */
  lemma BegunFrame(link: Link, c: Call, payload: Argument)
    requires Begin(link, c, payload).0 == Ok
    ensures var sent := Begin(link, c, payload).1.sent;
            && link.sent <= sent
            && var f := sent[|link.sent|..];
               && WholeFrame(f) && f[HEADER_LEN..] == Bytes(payload)
               && var q := Decode(f).header;
                  && q.seqNo == Wire(link.nextSeq) && q.refSeq == 0 && q.flags == 0 && q.status == 0
                  && q.chType == c.chType && q.chId == c.chId && q.msgType == c.msgType && q.opcode == c.opcode
                  && q.reserved == 0
  {
    hide Frame, Decode, Wire, Delivered;
    var h := RequestHeader(link.nextSeq, c);
    var f := Frame(h, Bytes(payload));
    WritePrefix(f, link.out);
    BuiltFrame(h, Bytes(payload));
    DeliveredRequest(h, Bytes(payload));
    assert (link.sent + f)[|link.sent|..] == f;
  }

  lemma DeliveredRequest(h: Header, data: seq<byte>)
    ensures var d := Delivered(Message(h, data));
            && d.seqNo == h.seqNo && d.refSeq == h.refSeq && d.flags == h.flags && d.status == h.status
            && d.chType == h.chType && d.chId == h.chId && d.msgType == h.msgType && d.opcode == h.opcode
            && d.reserved == h.reserved
  {
  }

  /** The stretch that a request which returned OK has added to the stream. */
  function Added(link: Link, c: Call, payload: Argument): seq<byte> {
    var sent := Begin(link, c, payload).1.sent;
    if |link.sent| <= |sent| then sent[|link.sent|..] else []
  }

  /** The frame of a request, byte by byte. */
  lemma RequestBytes(link: Link, c: Call, payload: Argument)
    requires Begin(link, c, payload).0 == Ok
    ensures var f := Added(link, c, payload);
            && Begin(link, c, payload).1.sent == link.sent + f
            && |f| == 24 + |Bytes(payload)| && f[24..] == Bytes(payload)
            && f[..4] == [0x5A, 0xA5, 0x01, 0x18]
            && ReadLe16(f[6], f[7]) == link.nextSeq as word && ReadLe16(f[8], f[9]) == 0
            && f[10..14] == [c.chType, c.chId, c.msgType, c.opcode]
            && ReadLe16(f[14], f[15]) == 0 && ReadLe16(f[16], f[17]) == 0 && ReadLe16(f[22], f[23]) == 0
  {
    hide Begin, Decode;
    BegunFrame(link, c, payload);
    var f := Added(link, c, payload);
    FieldBytes(f);
  }

  lemma FieldBytes(f: seq<byte>)
    requires WholeFrame(f)
    ensures f[..4] == [0x5A, 0xA5, 0x01, 0x18]
    ensures var h := Decode(f).header;
            && h.seqNo == ReadLe16(f[6], f[7]) && h.refSeq == ReadLe16(f[8], f[9])
            && f[10..14] == [h.chType, h.chId, h.msgType, h.opcode]
            && h.flags == ReadLe16(f[14], f[15]) && h.status == ReadLe16(f[16], f[17])
            && h.reserved == ReadLe16(f[22], f[23])
  {
    DecodeExactly(f);
    hide ReadLe16, CheckShape, Cleared;
    assert f[10..14] == [f[10], f[11], f[12], f[13]];
  }

  /** A data frame goes to the UART data channel of its port, with opcode 0. */
  lemma DataBytes(link: Link, port: byte, data: Argument)
    requires Begin(link, DataCall(port), data).0 == Ok
    ensures Begin(link, DataCall(port), data).1.sent == link.sent + Added(link, DataCall(port), data)
    ensures var f := Added(link, DataCall(port), data);
            |f| == 24 + |Bytes(data)| && f[10..14] == [0x02, port, 0x04, 0x00] && f[24..] == Bytes(data)
  {
    hide Begin, Added;
    RequestBytes(link, DataCall(port), data);
  }

  /** A BLE request is a command to the management channel. */
  lemma BleBytes(link: Link, opcode: byte, payload: Argument)
    requires Begin(link, BleCall(opcode), payload).0 == Ok
    ensures Begin(link, BleCall(opcode), payload).1.sent == link.sent + Added(link, BleCall(opcode), payload)
    ensures var f := Added(link, BleCall(opcode), payload);
            |f| == 24 + |Bytes(payload)| && f[10..14] == [0x10, 0x00, 0x01, opcode] && f[24..] == Bytes(payload)
  {
    hide Begin, Added;
    RequestBytes(link, BleCall(opcode), payload);
  }
}
