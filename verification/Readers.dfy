/** What the three readers return for whatever arrives: responses, data frames, event frames, and everything else. */
module Readers {
  import opened Words
  import opened Crc
  import opened Codec
  import opened Transport
  import opened Delivery
  import opened Transactions

  // ------------------------------------------------------------ what arrives

  /** A failed read is missed with its status, a wrapped length with the protocol error, and anything else arrives. */
  lemma ArrivalExactly(tape: seq<InEvent>)
    ensures var r := ReadResult(tape, 512);
            if r.status != Ok then ArrivalOf(tape) == Missed(r.status)
            else if r.target < 24 then ArrivalOf(tape) == Missed(ErrProto)
            else
              && r.target <= |r.got| && Decode(r.got).Accepted?
              && ArrivalOf(tape) == Arrived(Decode(r.got).header, r.got[24..r.target])
  {
    hide Decode, ReadResult;
    if ReadResult(tape, MAX_FRAME_LEN).status == Ok {
      SecondDecode(tape, MAX_FRAME_LEN);
      ReadGuarantee(tape, MAX_FRAME_LEN);
    }
  }

  /** The status of a read whose first transfer fails, and what is left for the next one. */
  lemma FirstTransfer(tape: seq<InEvent>)
    ensures tape == [] ==> ReadResult(tape, 512).status == ErrTimeout && ReadResult(tape, 512).rest == []
    ensures tape != [] && tape[0].Failure? ==>
      ReadResult(tape, 512).status == MapUsbError(tape[0].error) && ReadResult(tape, 512).rest == tape[1..]
    ensures tape != [] && tape[0].Packet? && (tape[0].data == [] || |tape[0].data| > 64) ==>
      ReadResult(tape, 512).status == ErrIo && ReadResult(tape, 512).rest == tape[1..]
  {
    hide Decode;
  }

  /** Whatever keeps a frame from arriving is the status of all three readers. */
  lemma MissedStatus(link: Link, c: Call, seqNo: u16, port: byte, capacity: nat, hasBuffer: bool)
    requires ArrivalOf(link.tape).Missed?
    ensures var refused := Refused(ArrivalOf(link.tape).error);
            var after := link.(tape := ReadResult(link.tape, 512).rest);
            && Respond(link, c, seqNo, capacity, hasBuffer) == (refused, after)
            && ReadData(link, port, capacity) == (refused, after)
            && ReadEvent(link, capacity, hasBuffer) == (refused, after)
  {
    hide ArrivalOf, ReadResult;
  }

  /** An endpoint that stays silent or fails at once: the error of the transfer is what every caller gets. */
  lemma TransferStatus(link: Link, c: Call, seqNo: u16, port: byte, capacity: nat, hasBuffer: bool)
    requires link.tape == [] || link.tape[0].Failure?
    ensures var refused := Refused(if link.tape == [] then ErrTimeout else MapUsbError(link.tape[0].error));
            var after := if link.tape == [] then link else link.(tape := link.tape[1..]);
            && Respond(link, c, seqNo, capacity, hasBuffer) == (refused, after)
            && ReadData(link, port, capacity) == (refused, after)
            && ReadEvent(link, capacity, hasBuffer) == (refused, after)
  {
    hide ReadResult, ArrivalOf, Respond, ReadData, ReadEvent;
    FirstTransfer(link.tape);
    ArrivalExactly(link.tape);
    MissedStatus(link, c, seqNo, port, capacity, hasBuffer);
  }

  // ------------------------------------------------------------ frames that arrive

  lemma PayloadVerdict(link: Link, capacity: nat, hasBuffer: bool)
    requires ArrivalOf(link.tape).Arrived?
    ensures var a := ArrivalOf(link.tape);
            Grant(a.header, a.payload, PayloadStatus(a.header, capacity, hasBuffer))
              == if |a.payload| > capacity then Refused(ErrOverflow)
                 else if a.payload != [] && !hasBuffer then Refused(ErrArg)
                 else Delivers(a.header, a.payload)
  {
    hide ArrivalOf, ReadResult, Decode;
    ArrivedWhole(link);
    LenZero(ArrivalOf(link.tape).header.payloadLen);
    hide Len, WholeFrame;
  }

  /** A response is delivered or refused by its header, in this order, whatever it arrived in. */
  lemma ResponseExactly(link: Link, c: Call, seqNo: u16, capacity: nat, hasBuffer: bool)
    requires ArrivalOf(link.tape).Arrived?
    ensures var a := ArrivalOf(link.tape);
            Respond(link, c, seqNo, capacity, hasBuffer)
              == (if a.header.msgType != 0x02 || a.header.refSeq != seqNo as word || a.header.chType != c.chType ||
                     a.header.chId != c.chId || a.header.opcode != c.opcode then Refused(ErrProto)
                  else if a.header.status != 0 then Refused(ErrDeviceStatus)
                  else if |a.payload| > capacity then Refused(ErrOverflow)
                  else if a.payload != [] && !hasBuffer then Refused(ErrArg)
                  else Delivers(a.header, a.payload),
                  link.(tape := ReadResult(link.tape, 512).rest))
  {
    PayloadVerdict(link, capacity, hasBuffer);
    hide ArrivalOf, ReadResult, PayloadStatus;
  }

  lemma DataExactly(link: Link, port: byte, capacity: nat)
    requires ArrivalOf(link.tape).Arrived?
    ensures var a := ArrivalOf(link.tape);
            ReadData(link, port, capacity)
              == (if a.header.chType != 0x02 || a.header.chId != port || a.header.msgType != 0x04 then Refused(ErrProto)
                  else if |a.payload| > capacity then Refused(ErrOverflow)
                  else Delivers(a.header, a.payload),
                  link.(tape := ReadResult(link.tape, 512).rest))
  {
    PayloadVerdict(link, capacity, true);
    hide ArrivalOf, ReadResult, PayloadStatus;
  }

  lemma EventExactly(link: Link, capacity: nat, hasBuffer: bool)
    requires ArrivalOf(link.tape).Arrived?
    ensures var a := ArrivalOf(link.tape);
            ReadEvent(link, capacity, hasBuffer)
              == (if a.header.msgType != 0x03 then Refused(ErrProto)
                  else if |a.payload| > capacity then Refused(ErrOverflow)
                  else if a.payload != [] && !hasBuffer then Refused(ErrArg)
                  else Delivers(a.header, a.payload),
                  link.(tape := ReadResult(link.tape, 512).rest))
  {
    PayloadVerdict(link, capacity, hasBuffer);
    hide ArrivalOf, ReadResult, PayloadStatus;
  }

  /** What a delivered payload is: all of a frame behind its header, received whole, and within the caller's buffer. */
  lemma DeliveredWhole(link: Link, c: Call, seqNo: u16, port: byte, capacity: nat, hasBuffer: bool, v: Verdict)
    requires v.Delivers?
    requires v == Respond(link, c, seqNo, capacity, hasBuffer).0
             || (hasBuffer && v == ReadData(link, port, capacity).0)
             || v == ReadEvent(link, capacity, hasBuffer).0
    ensures var r := ReadResult(link.tape, 512);
            && r.status == Ok
            && var frame := r.got[..r.target];
               && WholeFrame(frame) && Decode(frame) == Accepted(v.header) && v.payload == frame[24..]
               && Len(v.header.payloadLen) == |v.payload| == |frame| - 24 <= Min(capacity, 488)
               && (hasBuffer || v.payload == [])
  {
    hide ReadResult, Decode, WholeFrame, Len, Respond, ReadData, ReadEvent;
    if ArrivalOf(link.tape).Missed? {
      hide ArrivalOf;
      MissedStatus(link, c, seqNo, port, capacity, hasBuffer);
    } else {
      ArrivedWhole(link);
      ArrivalExactly(link.tape);
      hide ArrivalOf;
      ResponseExactly(link, c, seqNo, capacity, hasBuffer);
      DataExactly(link, port, capacity);
      EventExactly(link, capacity, hasBuffer);
    }
  }

  /** Every frame that a sender builds, with any header, arrives from any split into packets of 1 to 64 bytes. */
  lemma FrameArrives(h: Header, payload: seq<byte>, packets: seq<seq<byte>>, rest: seq<InEvent>)
    requires |payload| <= 488 && Splits(packets, Frame(h, payload))
    ensures ArrivalOf(Arrivals(packets) + rest) == Arrived(Delivered(Message(h, payload)), payload)
    ensures ReadResult(Arrivals(packets) + rest, 512).rest == rest
  {
    hide Frame, Decode, ReadResult, Splits, WholeFrame, Delivered;
    var f := Frame(h, payload);
    BuiltFrame(h, payload);
    WholeFits(f);
    ReceiveFrame(f, packets, rest, MAX_FRAME_LEN);
    assert f[..|f|] == f;
  }

  lemma DeliveredKeeps(h: Header, payload: seq<byte>)
    ensures var d := Delivered(Message(h, payload));
            && d.msgType == h.msgType && d.refSeq == h.refSeq && d.chType == h.chType && d.chId == h.chId
            && d.opcode == h.opcode && d.status == h.status
  {
    hide Serialize, Checksum, TotalOf, Truncate;
  }

  /** An event frame in any split is handed over, or refused for a small or missing buffer. */
  lemma EventRead(link: Link, h: Header, payload: seq<byte>, packets: seq<seq<byte>>, rest: seq<InEvent>,
                  capacity: nat, hasBuffer: bool)
    requires |payload| <= 488 && Splits(packets, Frame(h, payload)) && link.tape == Arrivals(packets) + rest
    ensures ReadEvent(link, capacity, hasBuffer)
         == (if h.msgType != 0x03 then Refused(ErrProto)
             else if |payload| > capacity then Refused(ErrOverflow)
             else if payload != [] && !hasBuffer then Refused(ErrArg)
             else Delivers(Delivered(Message(h, payload)), payload),
             link.(tape := rest))
  {
    hide Frame, ReadResult, Splits, ArrivalOf, Delivered, ReadEvent;
    FrameArrives(h, payload, packets, rest);
    DeliveredKeeps(h, payload);
    EventExactly(link, capacity, hasBuffer);
  }

  lemma DataRead(link: Link, h: Header, payload: seq<byte>, packets: seq<seq<byte>>, rest: seq<InEvent>,
                 port: byte, capacity: nat)
    requires |payload| <= 488 && Splits(packets, Frame(h, payload)) && link.tape == Arrivals(packets) + rest
    ensures ReadData(link, port, capacity)
         == (if h.chType != 0x02 || h.chId != port || h.msgType != 0x04 then Refused(ErrProto)
             else if |payload| > capacity then Refused(ErrOverflow)
             else Delivers(Delivered(Message(h, payload)), payload),
             link.(tape := rest))
  {
    hide Frame, ReadResult, Splits, ArrivalOf, Delivered, ReadData;
    FrameArrives(h, payload, packets, rest);
    DeliveredKeeps(h, payload);
    DataExactly(link, port, capacity);
  }

  lemma ResponseRead(link: Link, h: Header, payload: seq<byte>, packets: seq<seq<byte>>, rest: seq<InEvent>,
                     c: Call, seqNo: u16, capacity: nat, hasBuffer: bool)
    requires |payload| <= 488 && Splits(packets, Frame(h, payload)) && link.tape == Arrivals(packets) + rest
    ensures Respond(link, c, seqNo, capacity, hasBuffer)
         == (if h.msgType != 0x02 || h.refSeq != seqNo as word || h.chType != c.chType || h.chId != c.chId ||
                h.opcode != c.opcode then Refused(ErrProto)
             else if h.status != 0 then Refused(ErrDeviceStatus)
             else if |payload| > capacity then Refused(ErrOverflow)
             else if payload != [] && !hasBuffer then Refused(ErrArg)
             else Delivers(Delivered(Message(h, payload)), payload),
             link.(tape := rest))
  {
    hide Frame, ReadResult, Splits, ArrivalOf, Delivered, Respond;
    FrameArrives(h, payload, packets, rest);
    DeliveredKeeps(h, payload);
    ResponseExactly(link, c, seqNo, capacity, hasBuffer);
  }
}
