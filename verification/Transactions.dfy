/** Request and response over the link: the two transact functions, data frames and event frames. */
module Transactions {
  import opened Words
  import opened Codec
  import opened Transport
  import opened Delivery

  const CH_UART_DATA: byte := 0x02
  const CH_BLE_MGMT: byte := 0x10
  const MSG_CMD: byte := 0x01
  const MSG_RSP: byte := 0x02
  const MSG_EVT: byte := 0x03
  const MSG_DATA: byte := 0x04

  /** A payload argument: a pointer that may be null, with a length. */
  datatype Argument = Null(len: nat) | Data(bytes: seq<byte>)

  function Bytes(payload: Argument): seq<byte> {
    if payload.Null? then [] else payload.bytes
  }

  function RequestHeader(seqNo: u16, c: Call): Header {
    ZERO_HEADER.(seqNo := Wire(seqNo), chType := c.chType, chId := c.chId, msgType := c.msgType, opcode := c.opcode)
  }

  // ------------------------------------------------------------------ sending

  /** Allocating a sequence number, building the request frame and writing it. */
  function Begin(link: Link, c: Call, payload: Argument): (Status, Link) {
    var counted := link.(nextSeq := SeqAfter(link.nextSeq), begun := link.begun + [Request(link.nextSeq, c)]);
    if payload.Null? && payload.len != 0 then (ErrArg, counted)
    else
      var data := Bytes(payload);
      if |data| > MAX_PAYLOAD_LEN then (ErrOverflow, counted)
      else
        var w := WriteResult(Frame(RequestHeader(link.nextSeq, c), data), link.out);
        (w.status, counted.(out := w.rest, sent := link.sent + w.moved))
  }

  // ---------------------------------------------------------------- receiving

  /** What a caller of read_frame and decode_header has in hand. */
  datatype Arrival = Arrived(header: Header, payload: seq<byte>) | Missed(error: Status)

  /** Reading a frame into a buffer of the maximum size and decoding the length reported. */
  function ArrivalOf(tape: seq<InEvent>): Arrival {
    var r := ReadResult(tape, MAX_FRAME_LEN);
    if r.status != Ok then Missed(r.status)
    else
      match Decode(r.got[..r.target])
      case Rejected(error) => Missed(error)
      case Accepted(h) => Arrived(h, r.got[HEADER_LEN..r.target])
  }

  function Fetch(link: Link): (Arrival, Link) {
    (ArrivalOf(link.tape), link.(tape := ReadResult(link.tape, MAX_FRAME_LEN).rest))
  }

  /** The caller's view of a response, a data frame or an event. */
  datatype Verdict = Refused(error: Status) | Delivers(header: Header, payload: seq<byte>)

  predicate Answers(h: Header, c: Call, seqNo: u16) {
    && h.msgType == MSG_RSP
    && h.refSeq == Wire(seqNo)
    && h.chType == c.chType
    && h.chId == c.chId
    && h.opcode == c.opcode
  }

  /** The checks every caller with an optional buffer makes before it copies the payload out. */
  function PayloadStatus(h: Header, capacity: nat, hasBuffer: bool): Status {
    if Len(h.payloadLen) > capacity then ErrOverflow
    else if h.payloadLen != 0 && !hasBuffer then ErrArg
    else Ok
  }

  function ResponseStatus(h: Header, c: Call, seqNo: u16, capacity: nat, hasBuffer: bool): Status {
    if !Answers(h, c, seqNo) then ErrProto
    else if h.status != 0 then ErrDeviceStatus
    else PayloadStatus(h, capacity, hasBuffer)
  }

  function EventStatus(h: Header, capacity: nat, hasBuffer: bool): Status {
    if h.msgType != MSG_EVT then ErrProto else PayloadStatus(h, capacity, hasBuffer)
  }

  function DataStatus(h: Header, port: byte, capacity: nat): Status {
    if h.chType != CH_UART_DATA || h.chId != port || h.msgType != MSG_DATA then ErrProto
    else PayloadStatus(h, capacity, true)
  }

  function Grant(h: Header, payload: seq<byte>, status: Status): Verdict {
    if status != Ok then Refused(status) else Delivers(h, payload)
  }

  function JudgeResponse(a: Arrival, c: Call, seqNo: u16, capacity: nat, hasBuffer: bool): Verdict {
    match a
    case Missed(error) => Refused(error)
    case Arrived(h, payload) => Grant(h, payload, ResponseStatus(h, c, seqNo, capacity, hasBuffer))
  }

  function JudgeEvent(a: Arrival, capacity: nat, hasBuffer: bool): Verdict {
    match a
    case Missed(error) => Refused(error)
    case Arrived(h, payload) => Grant(h, payload, EventStatus(h, capacity, hasBuffer))
  }

  function JudgeData(a: Arrival, port: byte, capacity: nat): Verdict {
    match a
    case Missed(error) => Refused(error)
    case Arrived(h, payload) => Grant(h, payload, DataStatus(h, port, capacity))
  }

  function ReadEvent(link: Link, capacity: nat, hasBuffer: bool): (Verdict, Link) {
    var (arrival, after) := Fetch(link);
    (JudgeEvent(arrival, capacity, hasBuffer), after)
  }

  function ReadData(link: Link, port: byte, capacity: nat): (Verdict, Link) {
    var (arrival, after) := Fetch(link);
    (JudgeData(arrival, port, capacity), after)
  }

  /** The second half of a transaction: the response to request seqNo. */
  function Respond(link: Link, c: Call, seqNo: u16, capacity: nat, hasBuffer: bool): (Verdict, Link) {
    var (arrival, after) := Fetch(link);
    (JudgeResponse(arrival, c, seqNo, capacity, hasBuffer), after)
  }

  /** A whole transaction. */
  function Transact(link: Link, c: Call, payload: Argument, capacity: nat, hasBuffer: bool): (Verdict, Link) {
    var (status, begun) := Begin(link, c, payload);
    if status != Ok then (Refused(status), begun) else Respond(begun, c, link.nextSeq, capacity, hasBuffer)
  }

  // --------------------------------------------------- what is handed to callers

  /**
   * A frame that reaches a caller was received whole: the payload is all of it behind the header, its
   * length is the payload length field without any wrap, and it fits the frame limit.
   */
  lemma ArrivedWhole(link: Link)
    requires Fetch(link).0.Arrived?
    ensures var r := ReadResult(link.tape, MAX_FRAME_LEN);
            var a := Fetch(link).0;
            var frame := r.got[..r.target];
            && WholeFrame(frame) && Decode(frame) == Accepted(a.header)
            && a.payload == frame[HEADER_LEN..]
            && Len(a.header.payloadLen) == |a.payload| == |frame| - HEADER_LEN <= MAX_PAYLOAD_LEN
            && |r.rest| <= |link.tape| && frame <= BytesOf(link.tape[..|link.tape| - |r.rest|])
  {
    hide Decode, ReadResult;
    SecondDecode(link.tape, MAX_FRAME_LEN);
    ReadGuarantee(link.tape, MAX_FRAME_LEN);
    var r := ReadResult(link.tape, MAX_FRAME_LEN);
    if r.target >= HEADER_LEN {
      assert r.got[..r.target][HEADER_LEN..] == r.got[HEADER_LEN..r.target];
    }
  }

  // ------------------------------------------------------------------- methods

  /** The first half of both transact functions, and the whole of uart_write behind its argument check. */
  method SendRequest(device: Device, c: Call, payload: array?<byte>, payloadLen: nat)
    returns (status: Status, seqNo: u16)
    requires payload != null ==> payloadLen <= payload.Length
    modifies device
    ensures var argument := if payload == null then Null(payloadLen) else Data(payload[..payloadLen]);
            (status, device.View()) == Begin(old(device.View()), c, argument)
    ensures seqNo == old(device.nextSeq)
  {
    hide Frame, WriteResult, Finished, Truncate, Wire;
    var out := new byte[512];
    var req := new HeaderVar(ZERO_HEADER);
    seqNo := device.NextSeq();
    device.begun := device.begun + [Request(seqNo, c)];
    req.value := req.value.(seqNo := Wire(seqNo));
    req.value := req.value.(chType := c.chType);
    req.value := req.value.(chId := c.chId);
    req.value := req.value.(msgType := c.msgType);
    req.value := req.value.(opcode := c.opcode);
    ghost var request := req.value;
    var outLen := new SizeVar(0);
    status := BuildFrame(out, outLen, req, payload, payloadLen);
    if status != Ok {
      return status, seqNo;
    }
    status := device.WriteFrame(out, outLen.value);
  }

  /** read_frame into a local buffer and the second decode, of the length it reported. */
  method FetchFrame(device: Device, frame: array<byte>, header: HeaderVar) returns (status: Status)
    requires frame.Length == MAX_FRAME_LEN
    modifies device, frame, header
    ensures var (a, after) := Fetch(old(device.View()));
            && device.View() == after
            && match a
               case Missed(error) => status == error && status != Ok
               case Arrived(h, payload) =>
                 && status == Ok && header.value == h
                 && |payload| == Len(h.payloadLen) <= MAX_PAYLOAD_LEN
                 && frame[HEADER_LEN..HEADER_LEN + |payload|] == payload
  {
    hide Decode, ReadResult;
    ghost var before := device.View();
    var frameLen := new SizeVar(0);
    status := device.ReadFrame(frame, frameLen);
    if status != Ok {
      return status;
    }
    var len := frameLen.value;
    ghost var r := ReadResult(before.tape, MAX_FRAME_LEN);
    assert frame[..len] == frame[..|r.got|][..len];
    status := DecodeHeader(frame, len, header);
    if status == Ok {
      ArrivedWhole(before);
      assert frame[..len][HEADER_LEN..] == frame[HEADER_LEN..len];
    }
  }

  /** The common end of the functions that hand a payload to an optional buffer. */
  method CopyPayload(h: Header, frame: array<byte>, buffer: array?<byte>, capacity: nat) returns (status: Status)
    requires HEADER_LEN + Len(h.payloadLen) <= frame.Length && buffer != frame
    requires buffer != null ==> capacity <= buffer.Length
    modifies buffer
    ensures status == PayloadStatus(h, capacity, buffer != null)
    ensures status == Ok && buffer == null ==> Len(h.payloadLen) == 0
    ensures buffer != null ==>
      var n := if status == Ok then Len(h.payloadLen) else 0;
      n <= buffer.Length && buffer[..] == old(frame[HEADER_LEN..HEADER_LEN + n]) + old(buffer[..])[n..]
  {
    LenZero(h.payloadLen);
    hide Len;
    if Len(h.payloadLen) > capacity {
      return ErrOverflow;
    }
    if h.payloadLen != 0 && buffer == null {
      return ErrArg;
    }
    if h.payloadLen != 0 {
      CopyBytes(buffer, 0, frame, HEADER_LEN, Len(h.payloadLen));
    }
    return Ok;
  }

  /** The last assignments of both transact functions and of ble_read_event, through pointers that may be null. */
  method HandOver(h: Header, headerOut: HeaderVar?, lenOut: SizeVar?)
    modifies headerOut, lenOut
    ensures headerOut != null ==> headerOut.value == h
    ensures lenOut != null ==> lenOut.value == Len(h.payloadLen)
  {
    if lenOut != null {
      lenOut.value := Len(h.payloadLen);
    }
    if headerOut != null {
      headerOut.value := h;
    }
  }

  lemma RespondCases(link: Link, c: Call, seqNo: u16, capacity: nat, hasBuffer: bool)
    ensures var (a, after) := Fetch(link);
            Respond(link, c, seqNo, capacity, hasBuffer)
              == (if a.Missed? then Refused(a.error)
                  else if !Answers(a.header, c, seqNo) then Refused(ErrProto)
                  else if a.header.status != 0 then Refused(ErrDeviceStatus)
                  else Grant(a.header, a.payload, PayloadStatus(a.header, capacity, hasBuffer)),
                  after)
  {
    hide Answers, PayloadStatus, ReadResult, ArrivalOf;
  }

  lemma AnswersFields(h: Header, c: Call, seqNo: u16)
    ensures Answers(h, c, seqNo) <==>
      && h.msgType == MSG_RSP && h.refSeq == Wire(seqNo)
      && h.chType == c.chType && h.chId == c.chId && h.opcode == c.opcode
  {
  }

  /** The second half of both transact functions: read, decode, match against the request, hand over. */
  method ReceiveResponse(device: Device, c: Call, seqNo: u16, rspHeader: HeaderVar?,
                         rspPayload: array?<byte>, rspCapacity: nat, rspLen: SizeVar?)
    returns (status: Status)
    requires rspPayload != null ==> rspCapacity <= rspPayload.Length
    modifies device, rspHeader, rspPayload, rspLen
    ensures var (v, after) := Respond(old(device.View()), c, seqNo, rspCapacity, rspPayload != null);
            && device.View() == after
            && (if v.Refused? then status == v.error && status != Ok
                else status == Ok && (rspPayload == null ==> v.payload == []))
            && (rspPayload != null ==>
                  var data := if v.Delivers? then v.payload else [];
                  |data| <= rspPayload.Length && rspPayload[..] == data + old(rspPayload[..])[|data|..])
            && (rspHeader != null ==> rspHeader.value == (if v.Delivers? then v.header else old(rspHeader.value)))
            && (rspLen != null ==> rspLen.value == (if v.Delivers? then |v.payload| else old(rspLen.value)))
  {
    hide Fetch, PayloadStatus, Len, Wire;
    ghost var link := device.View();
    RespondCases(link, c, seqNo, rspCapacity, rspPayload != null);
    hide Respond, Answers;
    var frame := new byte[512];
    var rsp := new HeaderVar(ZERO_HEADER);
    status := FetchFrame(device, frame, rsp);
    if status != Ok {
      return status;
    }
    var h := rsp.value;
    AnswersFields(h, c, seqNo);
    if h.msgType != MSG_RSP || h.refSeq != Wire(seqNo) ||
       h.chType != c.chType || h.chId != c.chId || h.opcode != c.opcode {
      return ErrProto;
    }
    if h.status != 0 {
      return ErrDeviceStatus;
    }
    status := CopyPayload(h, frame, rspPayload, rspCapacity);
    if status == Ok {
      HandOver(h, rspHeader, rspLen);
    }
  }

  /** transact of uart.c. */
  method UartTransact(device: Device, chType: byte, chId: byte, msgType: byte, opcode: byte,
                      payload: array?<byte>, payloadLen: nat, rspHeader: HeaderVar?,
                      rspPayload: array?<byte>, rspCapacity: nat, rspLen: SizeVar?)
    returns (status: Status)
    requires payload != null ==> payloadLen <= payload.Length
    requires rspPayload != null ==> rspCapacity <= rspPayload.Length
    modifies device, rspHeader, rspPayload, rspLen
    ensures var argument := old(if payload == null then Null(payloadLen) else Data(payload[..payloadLen]));
            var (v, after) := Transact(old(device.View()), Call.Call(chType, chId, msgType, opcode), argument,
                                       rspCapacity, rspPayload != null);
            && device.View() == after
            && (if v.Refused? then status == v.error && status != Ok
                else status == Ok && (rspPayload == null ==> v.payload == []))
            && (rspPayload != null ==>
                  var data := if v.Delivers? then v.payload else [];
                  |data| <= rspPayload.Length && rspPayload[..] == data + old(rspPayload[..])[|data|..])
            && (rspHeader != null ==> rspHeader.value == (if v.Delivers? then v.header else old(rspHeader.value)))
            && (rspLen != null ==> rspLen.value == (if v.Delivers? then |v.payload| else old(rspLen.value)))
  {
    hide Begin, Respond;
    var c := Call.Call(chType, chId, msgType, opcode);
    var seqNo;
    status, seqNo := SendRequest(device, c, payload, payloadLen);
    if status != Ok {
      return status;
    }
    status := ReceiveResponse(device, c, seqNo, rspHeader, rspPayload, rspCapacity, rspLen);
  }

  function BleCall(opcode: byte): Call {
    Call.Call(CH_BLE_MGMT, 0, MSG_CMD, opcode)
  }

  /** transact of ble.c: commands to the management channel, without the response header. */
  method BleTransact(device: Device, opcode: byte, payload: array?<byte>, payloadLen: nat,
                     rspPayload: array?<byte>, rspCapacity: nat, rspLen: SizeVar?)
    returns (status: Status)
    requires payload != null ==> payloadLen <= payload.Length
    requires rspPayload != null ==> rspCapacity <= rspPayload.Length
    modifies device, rspPayload, rspLen
    ensures var argument := old(if payload == null then Null(payloadLen) else Data(payload[..payloadLen]));
            var (v, after) := Transact(old(device.View()), BleCall(opcode), argument,
                                       rspCapacity, rspPayload != null);
            && device.View() == after
            && (if v.Refused? then status == v.error && status != Ok
                else status == Ok && (rspPayload == null ==> v.payload == []))
            && (rspPayload != null ==>
                  var data := if v.Delivers? then v.payload else [];
                  |data| <= rspPayload.Length && rspPayload[..] == data + old(rspPayload[..])[|data|..])
            && (rspLen != null ==> rspLen.value == (if v.Delivers? then |v.payload| else old(rspLen.value)))
  {
    hide Begin, Respond;
    var c := BleCall(opcode);
    var seqNo;
    status, seqNo := SendRequest(device, c, payload, payloadLen);
    if status != Ok {
      return status;
    }
    status := ReceiveResponse(device, c, seqNo, null, rspPayload, rspCapacity, rspLen);
  }

  /** ch32mux_uart_write: a null pointer with a length is refused before a sequence number is taken. */
  method UartWrite(device: Device, port: byte, data: array?<byte>, len: nat) returns (status: Status)
    requires data != null ==> len <= data.Length
    modifies device
    ensures if data == null && len != 0 then status == ErrArg && device.View() == old(device.View())
            else
              var argument := if data == null then Null(len) else Data(data[..len]);
              (status, device.View()) == Begin(old(device.View()), DataCall(port), argument)
  {
    hide Begin;
    if data == null && len != 0 {
      return ErrArg;
    }
    var seqNo;
    status, seqNo := SendRequest(device, DataCall(port), data, len);
  }

  function DataCall(port: byte): Call {
    Call.Call(CH_UART_DATA, port, MSG_DATA, 0)
  }

  /** ch32mux_uart_read: without a buffer or a length variable it refuses before it touches the link. */
  method UartRead(device: Device, port: byte, data: array?<byte>, capacity: nat, len: SizeVar?) returns (status: Status)
    requires data != null ==> capacity <= data.Length
    modifies device, data, len
    ensures data == null || len == null ==>
      && status == ErrArg && device.View() == old(device.View()) && (data != null ==> data[..] == old(data[..]))
      && (len != null ==> len.value == old(len.value))
    ensures data != null && len != null ==>
      var (v, after) := ReadData(old(device.View()), port, capacity);
      && device.View() == after
      && (if v.Refused? then status == v.error && status != Ok else status == Ok)
      && (var got := if v.Delivers? then v.payload else [];
          |got| <= data.Length && data[..] == got + old(data[..])[|got|..])
      && len.value == (if v.Delivers? then |v.payload| else old(len.value))
  {
    hide Fetch, PayloadStatus, Len, Wire;
    if data == null || len == null {
      return ErrArg;
    }
    var frame := new byte[512];
    var header := new HeaderVar(ZERO_HEADER);
    status := FetchFrame(device, frame, header);
    if status != Ok {
      return status;
    }
    var h := header.value;
    if h.chType != CH_UART_DATA || h.chId != port || h.msgType != MSG_DATA {
      return ErrProto;
    }
    status := CopyPayload(h, frame, data, capacity);
    if status == Ok {
      HandOver(h, null, len);
    }
  }

  /** ch32mux_ble_read_event: without a length variable it refuses before it touches the link. */
  method BleReadEvent(device: Device, header: HeaderVar?, payload: array?<byte>, capacity: nat, payloadLen: SizeVar?)
    returns (status: Status)
    requires payload != null ==> capacity <= payload.Length
    modifies device, header, payload, payloadLen
    ensures payloadLen == null ==>
      && status == ErrArg && device.View() == old(device.View())
      && (payload != null ==> payload[..] == old(payload[..]))
      && (header != null ==> header.value == old(header.value))
    ensures payloadLen != null ==>
      var (v, after) := ReadEvent(old(device.View()), capacity, payload != null);
      && device.View() == after
      && (if v.Refused? then status == v.error && status != Ok
          else status == Ok && (payload == null ==> v.payload == []))
      && (payload != null ==>
            var data := if v.Delivers? then v.payload else [];
            |data| <= payload.Length && payload[..] == data + old(payload[..])[|data|..])
      && payloadLen.value == (if v.Delivers? then |v.payload| else old(payloadLen.value))
      && (header != null ==> header.value == (if v.Delivers? then v.header else old(header.value)))
  {
    hide Fetch, PayloadStatus, Len, Wire;
    if payloadLen == null {
      return ErrArg;
    }
    var frame := new byte[512];
    var local := new HeaderVar(ZERO_HEADER);
    status := FetchFrame(device, frame, local);
    if status != Ok {
      return status;
    }
    var h := local.value;
    if h.msgType != MSG_EVT {
      return ErrProto;
    }
    status := CopyPayload(h, frame, payload, capacity);
    if status == Ok {
      HandOver(h, header, payloadLen);
    }
  }
}
