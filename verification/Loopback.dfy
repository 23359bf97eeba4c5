/** The uart-loopback command: open, write, reassemble the echo, close, compare. */
module Loopback {
  import opened Words
  import opened Codec
  import opened Transport
  import opened Delivery
  import opened Transactions
  import opened Sending
  import opened Readers
  import opened Sessions

  const CH_UART_CTRL: byte := 0x01
  const UART_OPEN: byte := 0x03
  const UART_CLOSE: byte := 0x04

  datatype LineCoding = LineCoding(baudrate: bv32, dataBits: byte, parity: byte, stopBits: byte)

  function LineBytes(line: LineCoding): seq<byte> {
    [(line.baudrate & 0xFF) as byte, ((line.baudrate >> 8) & 0xFF) as byte,
     ((line.baudrate >> 16) & 0xFF) as byte, ((line.baudrate >> 24) & 0xFF) as byte,
     line.dataBits, line.parity, line.stopBits, 0]
  }

  /** read_le32, the inverse of the write_le32 that lays out the baud rate. */
  function ReadLe32(s: seq<byte>): bv32
    requires |s| >= 4
  {
    s[0] as bv32 | (s[1] as bv32 << 8) | (s[2] as bv32 << 16) | (s[3] as bv32 << 24)
  }

  lemma LineLayout(line: LineCoding)
    ensures var s := LineBytes(line);
            && |s| == 8 && ReadLe32(s) == line.baudrate
            && s[4] == line.dataBits && s[5] == line.parity && s[6] == line.stopBits && s[7] == 0
  {
  }

  function OpenCall(port: byte): Call {
    Call.Call(CH_UART_CTRL, port, MSG_CMD, UART_OPEN)
  }

  function CloseCall(port: byte): Call {
    Call.Call(CH_UART_CTRL, port, MSG_CMD, UART_CLOSE)
  }

  function StatusOf(v: Verdict): Status {
    if v.Refused? then v.error else Ok
  }

  function Open(link: Link, port: byte, line: LineCoding): (Status, Link) {
    var (v, after) := Transact(link, OpenCall(port), Data(LineBytes(line)), 0, false);
    (StatusOf(v), after)
  }

  function Close(link: Link, port: byte): (Status, Link) {
    var (v, after) := Transact(link, CloseCall(port), Null(0), 0, false);
    (StatusOf(v), after)
  }

  /** The chunks read back until need bytes are there; failed when a read or a chunk is not acceptable. */
  datatype Echo = Echo(failed: bool, chunks: seq<seq<byte>>, link: Link)

  function ReadEcho(link: Link, port: byte, need: nat, total: nat): (e: Echo)
    requires total <= MAX_FRAME_LEN
    decreases MAX_FRAME_LEN - total
  {
    if total >= need then Echo(false, [], link)
    else
      var (v, after) := ReadData(link, port, MAX_FRAME_LEN);
      if v.Refused? then Echo(true, [], after)
      else if |v.payload| == 0 || total + |v.payload| > MAX_FRAME_LEN then Echo(true, [], after)
      else
        var later := ReadEcho(after, port, need, total + |v.payload|);
        later.(chunks := [v.payload] + later.chunks)
  }

  /** The exit code, and the link afterwards. */
  datatype Result = Result(code: nat, link: Link)

  function Run(link: Link, port: byte, line: LineCoding, payload: seq<byte>): Result {
    if |payload| > MAX_PAYLOAD_LEN then Result(2, link)
    else
      var (ready, l1) := Open(link, port, line);
      if ready != Ok then Result(1, l1)
      else
        var (wrote, l2) := Begin(l1, DataCall(port), Data(payload));
        if wrote != Ok then Result(1, Close(l2, port).1)
        else
          var echo := ReadEcho(l2, port, |payload|, 0);
          var (closed, l3) := Close(echo.link, port);
          Result(if echo.failed || closed != Ok || Concat(echo.chunks) != payload then 1 else 0, l3)
  }

  /** The requests the command makes: none, an open that fails, or an open, a write and one close. */
  function Requests(link: Link, port: byte, line: LineCoding, payload: seq<byte>): seq<Request> {
    var first := link.nextSeq;
    if |payload| > MAX_PAYLOAD_LEN then []
    else if Open(link, port, line).0 != Ok then [Request(first, OpenCall(port))]
    else
      [Request(first, OpenCall(port)), Request(SeqAfter(first), DataCall(port)),
       Request(SeqAfter(SeqAfter(first)), CloseCall(port))]
  }

  // ------------------------------------------------------------------- methods

  /** ch32mux_uart_open with an explicit line coding. */
  method UartOpen(device: Device, port: byte, line: LineCoding) returns (status: Status)
    modifies device
    ensures (status, device.View()) == Open(old(device.View()), port, line)
  {
    hide Transact;
    var payload := new byte[8];
    payload[0] := (line.baudrate & 0xFF) as byte;
    payload[1] := ((line.baudrate >> 8) & 0xFF) as byte;
    payload[2] := ((line.baudrate >> 16) & 0xFF) as byte;
    payload[3] := ((line.baudrate >> 24) & 0xFF) as byte;
    payload[4] := line.dataBits;
    payload[5] := line.parity;
    payload[6] := line.stopBits;
    payload[7] := 0;
    assert payload[..8] == LineBytes(line);
    hide LineBytes;
    status := UartTransact(device, CH_UART_CTRL, port, MSG_CMD, UART_OPEN, payload, 8, null, null, 0, null);
  }

  /** ch32mux_uart_close. */
  method UartClose(device: Device, port: byte) returns (status: Status)
    modifies device
    ensures (status, device.View()) == Close(old(device.View()), port)
  {
    hide Transact;
    status := UartTransact(device, CH_UART_CTRL, port, MSG_CMD, UART_CLOSE, null, 0, null, null, 0, null);
  }

  /** The reassembly loop: rx holds the accepted chunks one behind the other. */
  method ReadBack(device: Device, port: byte, rx: array<byte>, need: nat) returns (failed: bool, rxTotal: nat)
    requires rx.Length == MAX_FRAME_LEN
    modifies device, rx
    ensures var echo := ReadEcho(old(device.View()), port, need, 0);
            && failed == echo.failed && device.View() == echo.link
            && (!failed ==> need <= rxTotal <= MAX_FRAME_LEN && rx[..rxTotal] == Concat(echo.chunks))
  {
    hide ReadData, ReadEcho, Concat;
    rxTotal := 0;
    ghost var echo := ReadEcho(device.View(), port, need, 0);
    assert rx[..0] + Concat(echo.chunks) == Concat(echo.chunks);
    while rxTotal < need
      invariant rxTotal <= MAX_FRAME_LEN
      invariant var rest := ReadEcho(device.View(), port, need, rxTotal);
                && echo.failed == rest.failed && echo.link == rest.link
                && Concat(echo.chunks) == rx[..rxTotal] + Concat(rest.chunks)
      decreases MAX_FRAME_LEN - rxTotal
    {
      var chunk := new byte[512];
      var chunkVar := new SizeVar(0);
      EchoNext(device.View(), port, need, rxTotal);
      ghost var before, v := rx[..rxTotal], ReadData(device.View(), port, MAX_FRAME_LEN).0;
      var ret := UartRead(device, port, chunk, 512, chunkVar);
      if ret != Ok {
        return true, rxTotal;
      }
      var chunkLen := chunkVar.value;
      if chunkLen == 0 || rxTotal + chunkLen > 512 {
        return true, rxTotal;
      }
      assert chunk[..chunkLen] == v.payload;
      CopyBytes(rx, rxTotal, chunk, 0, chunkLen);
      ghost var later := ReadEcho(device.View(), port, need, rxTotal + chunkLen);
      JoinSlices(rx[..], rxTotal, chunkLen, before, v.payload, Concat(later.chunks));
      rxTotal := rxTotal + chunkLen;
    }
    EchoDone(device.View(), port, need, rxTotal);
    assert rx[..rxTotal] + [] == rx[..rxTotal];
    return false, rxTotal;
  }

  lemma JoinSlices(rx: seq<byte>, at: nat, n: nat, before: seq<byte>, chunk: seq<byte>, later: seq<byte>)
    requires at + n <= |rx| && rx[..at] == before && rx[at..at + n] == chunk
    ensures before + (chunk + later) == rx[..at + n] + later
  {
    assert rx[..at + n] == rx[..at] + rx[at..at + n];
  }

  /** cmd_uart_loopback, with the payload text as a buffer. */
  method CmdUartLoopback(device: Device, port: byte, line: LineCoding, payload: array<byte>) returns (code: nat)
    modifies device
    ensures var r := Run(old(device.View()), port, line, payload[..]);
            code == r.code && device.View() == r.link
    ensures device.begun == old(device.begun) + Requests(old(device.View()), port, line, payload[..])
  {
    hide Open, Close, Begin, ReadData, ReadEcho, Requests;
    CloseOnce(device.View(), port, line, payload[..]);
    var rx := new byte[512];
    var rxTotal: nat;
    ghost var bytes := payload[..];
    assert payload[..payload.Length] == bytes;
    if payload.Length > MAX_PAYLOAD_LEN {
      return 2;
    }
    var ret := UartOpen(device, port, line);
    if ret != Ok {
      return 1;
    }
    ret := UartWrite(device, port, payload, payload.Length);
    if ret != Ok {
      ret := UartClose(device, port);
      return 1;
    }
    var failed;
    failed, rxTotal := ReadBack(device, port, rx, payload.Length);
    if failed {
      ret := UartClose(device, port);
      return 1;
    }
    ret := UartClose(device, port);
    if ret != Ok {
      return 1;
    }
    if rxTotal != payload.Length {
      return 1;
    }
    var same := SameBytes(rx, payload, payload.Length);
    return if same then 0 else 1;
  }

  /** memcmp, as far as equality goes. */
  method SameBytes(a: array<byte>, b: array<byte>, n: nat) returns (same: bool)
    requires n <= a.Length && n <= b.Length
    ensures same <==> a[..n] == b[..n]
  {
    for i := 0 to n
      invariant a[..i] == b[..i]
    {
      if a[i] != b[i] {
        assert a[..n][i] != b[..n][i];
        return false;
      }
    }
    return true;
  }

  /** One turn of the loop: a read that is refused, an empty chunk or one too many bytes end it with a failure. */
  lemma EchoNext(link: Link, port: byte, need: nat, total: nat)
    requires total < need && total <= MAX_FRAME_LEN
    ensures var (v, after) := ReadData(link, port, 512);
            var echo := ReadEcho(link, port, need, total);
            if v.Refused? || |v.payload| == 0 || total + |v.payload| > 512 then echo == Echo(true, [], after)
            else
              var later := ReadEcho(after, port, need, total + |v.payload|);
              && echo.failed == later.failed && echo.link == later.link
              && Concat(echo.chunks) == v.payload + Concat(later.chunks)
  {
    hide ReadData;
  }

  lemma EchoDone(link: Link, port: byte, need: nat, total: nat)
    requires need <= total <= MAX_FRAME_LEN
    ensures ReadEcho(link, port, need, total) == Echo(false, [], link)
    ensures Concat([]) == []
  {
  }

  // ----------------------------------------------------------------- theorems

  /** Reassembly stays inside the 512-byte buffer, accepts no empty chunk, and ends with enough bytes or a failure. */
  lemma {:induction false} EchoBound(link: Link, port: byte, need: nat, total: nat)
    requires total <= MAX_FRAME_LEN
    ensures var e := ReadEcho(link, port, need, total);
            && total + |Concat(e.chunks)| <= MAX_FRAME_LEN
            && (!e.failed ==> total + |Concat(e.chunks)| >= need)
            && (forall c | c in e.chunks :: c != [])
    decreases MAX_FRAME_LEN - total
  {
    hide ReadData;
    var (v, after) := ReadData(link, port, MAX_FRAME_LEN);
    if total < need && v.Delivers? && |v.payload| > 0 && total + |v.payload| <= MAX_FRAME_LEN {
      EchoBound(after, port, need, total + |v.payload|);
    }
  }

  /**
   * Exit code 2 means that the payload does not fit a frame, and exit code 0 that the port was opened, the payload
   * was written, the chunks read back are the payload, and the close succeeded.
   */
  lemma ExitCodes(link: Link, port: byte, line: LineCoding, payload: seq<byte>)
    ensures var code := Run(link, port, line, payload).code;
            var (ready, l1) := Open(link, port, line);
            var (wrote, l2) := Begin(l1, DataCall(port), Data(payload));
            var echo := ReadEcho(l2, port, |payload|, 0);
            && code <= 2
            && (code == 2 <==> |payload| > 488)
            && (code == 0 <==> |payload| <= 488 && ready == Ok && wrote == Ok && !echo.failed
                               && Concat(echo.chunks) == payload && Close(echo.link, port).0 == Ok)
  {
    hide Open, Close, Begin, ReadEcho;
  }

  /** A call takes one sequence number and enters the history, whether it fails or not; reading does neither. */
  lemma NumbersTaken(link: Link, c: Call, payload: Argument, capacity: nat, hasBuffer: bool)
    ensures var after := Begin(link, c, payload).1;
            after.nextSeq == SeqAfter(link.nextSeq) && after.begun == link.begun + [Request(link.nextSeq, c)]
    ensures var after := Transact(link, c, payload, capacity, hasBuffer).1;
            after.nextSeq == SeqAfter(link.nextSeq) && after.begun == link.begun + [Request(link.nextSeq, c)]
  {
    hide WriteResult, ReadResult, ArrivalOf, Frame, JudgeResponse;
  }

  lemma {:induction false} EchoNumbers(link: Link, port: byte, need: nat, total: nat)
    requires total <= MAX_FRAME_LEN
    ensures var after := ReadEcho(link, port, need, total).link;
            after.nextSeq == link.nextSeq && after.begun == link.begun
    decreases MAX_FRAME_LEN - total
  {
    hide ArrivalOf, ReadResult, DataStatus;
    var (v, after) := ReadData(link, port, MAX_FRAME_LEN);
    if total < need && v.Delivers? && |v.payload| > 0 && total + |v.payload| <= MAX_FRAME_LEN {
      EchoNumbers(after, port, need, total + |v.payload|);
    }
  }

  /**
   * The history of requests grows by an open, a data frame and one close behind every successful open, by the open
   * alone if it fails, and by nothing if the payload is too large; each takes the next sequence number.
   */
  lemma CloseOnce(link: Link, port: byte, line: LineCoding, payload: seq<byte>)
    ensures var r := Run(link, port, line, payload);
            && r.link.begun == link.begun + Requests(link, port, line, payload)
            && r.link.nextSeq == (if |payload| > MAX_PAYLOAD_LEN then link.nextSeq
                                  else if Open(link, port, line).0 != Ok then SeqAfter(link.nextSeq)
                                  else SeqAfter(SeqAfter(SeqAfter(link.nextSeq))))
  {
    hide Transact, Begin, ReadEcho, SeqAfter, OpenCall, CloseCall, DataCall;
    NumbersTaken(link, OpenCall(port), Data(LineBytes(line)), 0, false);
    var l1 := Open(link, port, line).1;
    NumbersTaken(l1, DataCall(port), Data(payload), 0, false);
    var (wrote, l2) := Begin(l1, DataCall(port), Data(payload));
    EchoNumbers(l2, port, |payload|, 0);
    var l3 := if wrote != Ok then l2 else ReadEcho(l2, port, |payload|, 0).link;
    NumbersTaken(l3, CloseCall(port), Null(0), 0, false);
  }

  // ------------------------------------------------------------ open and close

  /** What a write does does not depend on what will be read. */
  lemma BeginTape(link: Link, tape: seq<InEvent>, c: Call, payload: Argument)
    ensures Begin(link.(tape := tape), c, payload)
         == (Begin(link, c, payload).0, Begin(link, c, payload).1.(tape := tape))
  {
    hide WriteResult, Frame;
  }

  /** The status of a response to a call that expects no payload, told by the response. */
  function AnswerStatus(h: Header, payload: seq<byte>, c: Call, seqNo: u16): Status {
    if h.msgType != 0x02 || h.refSeq != seqNo as word || h.chType != c.chType || h.chId != c.chId ||
       h.opcode != c.opcode then ErrProto
    else if h.status != 0 then ErrDeviceStatus
    else if payload != [] then ErrOverflow
    else Ok
  }

  /** A call without a response buffer that is written and meets a unit with an arriving frame. */
  lemma CallAnswered(link: Link, c: Call, payload: Argument, response: seq<InEvent>, rest: seq<InEvent>)
    requires Begin(link, c, payload).0 == Ok
    requires Unit(Unread(response, 0)) && ArrivalOf(response).Arrived?
    ensures var (v, after) := Transact(link.(tape := response + rest), c, payload, 0, false);
            var a := ArrivalOf(response);
            && StatusOf(v) == AnswerStatus(a.header, a.payload, c, link.nextSeq)
            && after == Begin(link, c, payload).1.(tape := rest)
  {
    hide Begin, Unit, ArrivalOf, ReadResult, Respond;
    BeginTape(link, response + rest, c, payload);
    FetchUnit(Unread(response, 0), rest);
    ResponseExactly(Begin(link, c, payload).1.(tape := response + rest), c, link.nextSeq, 0, false);
  }

  /** A call without a response buffer that is written and meets nothing it can read. */
  lemma CallMissed(link: Link, c: Call, payload: Argument, tape: seq<InEvent>)
    requires Begin(link, c, payload).0 == Ok && ArrivalOf(tape).Missed?
    ensures var (v, after) := Transact(link.(tape := tape), c, payload, 0, false);
            && StatusOf(v) == ArrivalOf(tape).error
            && after == Begin(link, c, payload).1.(tape := ReadResult(tape, 512).rest)
  {
    hide Begin, ArrivalOf, ReadResult, Respond;
    BeginTape(link, tape, c, payload);
    MissedStatus(Begin(link, c, payload).1.(tape := tape), c, link.nextSeq, 0, 0, false);
  }

  /** An open is a command of channel 1 with opcode 3 that carries the line coding. */
  lemma OpenBytes(link: Link, port: byte, line: LineCoding)
    requires Begin(link, Call.Call(0x01, port, 0x01, 0x03), Data(LineBytes(line))).0 == Ok
    ensures var f := Added(link, Call.Call(0x01, port, 0x01, 0x03), Data(LineBytes(line)));
            && Open(link, port, line).1.sent == link.sent + f
            && |f| == 32 && f[10..14] == [0x01, port, 0x01, 0x03] && f[24..] == LineBytes(line)
  {
    hide Begin, Added, ArrivalOf, ReadResult;
    LineLayout(line);
    RequestBytes(link, Call.Call(0x01, port, 0x01, 0x03), Data(LineBytes(line)));
  }

  /** What an open returns: the error of the write, or what the response to it says. */
  lemma OpenStatus(link: Link, port: byte, line: LineCoding, response: seq<InEvent>, rest: seq<InEvent>)
    ensures var c := Call.Call(0x01, port, 0x01, 0x03);
            var (status, after) := Begin(link, c, Data(LineBytes(line)));
            && (status != Ok ==> Open(link, port, line) == (status, after))
            && (status == Ok && ArrivalOf(rest).Missed? ==>
                  Open(link.(tape := rest), port, line)
                    == (ArrivalOf(rest).error, after.(tape := ReadResult(rest, 512).rest)))
            && (status == Ok && Unit(Unread(response, 0)) && ArrivalOf(response).Arrived? ==>
                  var a := ArrivalOf(response);
                  Open(link.(tape := response + rest), port, line)
                    == (AnswerStatus(a.header, a.payload, c, link.nextSeq), after.(tape := rest)))
  {
    hide Begin, Unit, ArrivalOf, ReadResult, AnswerStatus, LineBytes, Respond;
    var c := Call.Call(0x01, port, 0x01, 0x03);
    if Begin(link, c, Data(LineBytes(line))).0 == Ok {
      if Unit(Unread(response, 0)) && ArrivalOf(response).Arrived? {
        CallAnswered(link, c, Data(LineBytes(line)), response, rest);
      }
      if ArrivalOf(rest).Missed? {
        CallMissed(link, c, Data(LineBytes(line)), rest);
      }
    }
  }

  /** A close is a command of channel 1 with opcode 4 and no payload. */
  lemma CloseBytes(link: Link, port: byte)
    requires Begin(link, Call.Call(0x01, port, 0x01, 0x04), Null(0)).0 == Ok
    ensures var f := Added(link, Call.Call(0x01, port, 0x01, 0x04), Null(0));
            && Close(link, port).1.sent == link.sent + f
            && |f| == 24 && f[10..14] == [0x01, port, 0x01, 0x04] && f[24..] == []
  {
    hide Begin, Added, ArrivalOf, ReadResult;
    RequestBytes(link, Call.Call(0x01, port, 0x01, 0x04), Null(0));
  }

  /** What a close returns, in the same way. */
  lemma CloseStatus(link: Link, port: byte, response: seq<InEvent>, rest: seq<InEvent>)
    ensures var c := Call.Call(0x01, port, 0x01, 0x04);
            var (status, after) := Begin(link, c, Null(0));
            && (status != Ok ==> Close(link, port) == (status, after))
            && (status == Ok && ArrivalOf(rest).Missed? ==>
                  Close(link.(tape := rest), port)
                    == (ArrivalOf(rest).error, after.(tape := ReadResult(rest, 512).rest)))
            && (status == Ok && Unit(Unread(response, 0)) && ArrivalOf(response).Arrived? ==>
                  var a := ArrivalOf(response);
                  Close(link.(tape := response + rest), port)
                    == (AnswerStatus(a.header, a.payload, c, link.nextSeq), after.(tape := rest)))
  {
    hide Begin, Unit, ArrivalOf, ReadResult, AnswerStatus, LineBytes, Respond;
    var c := Call.Call(0x01, port, 0x01, 0x04);
    if Begin(link, c, Null(0)).0 == Ok {
      if Unit(Unread(response, 0)) && ArrivalOf(response).Arrived? {
        CallAnswered(link, c, Null(0), response, rest);
      }
      if ArrivalOf(rest).Missed? {
        CallMissed(link, c, Null(0), rest);
      }
    }
  }

  // -------------------------------------------------- a device that plays along

  /** A response to the call with status 0 and no payload, in any packets. */
  predicate Acknowledges(events: seq<InEvent>, c: Call, seqNo: u16) {
    && Unit(Unread(events, 0)) && ArrivalOf(events).Arrived?
    && AnswerStatus(ArrivalOf(events).header, ArrivalOf(events).payload, c, seqNo) == Ok
  }

  function Payloads(echo: seq<Message>): (p: seq<seq<byte>>)
    ensures |p| == |echo|
  {
    if echo == [] then [] else [echo[0].payload] + Payloads(echo[1..])
  }

  /** The echo as data frames of the port, with non-empty payloads, each frame cut into packets somehow. */
  predicate EchoPackets(port: byte, echo: seq<Message>, packets: seq<seq<seq<byte>>>) {
    |packets| == |echo| && forall i | 0 <= i < |echo| :: EchoPacket(port, echo[i], packets[i])
  }

  predicate EchoPacket(port: byte, m: Message, packets: seq<seq<byte>>) {
    && m.header.chType == 0x02 && m.header.chId == port && m.header.msgType == 0x04
    && 0 < |m.payload| <= 488 && Splits(packets, Frame(m.header, m.payload))
  }

  /** The last chunk, and none before it, brings the total to what is needed, and the buffer holds it all. */
  predicate Fills(chunks: seq<seq<byte>>, total: nat, need: nat) {
    && need <= total + |Concat(chunks)| <= 512
    && (chunks != [] ==> total + |Concat(chunks[..|chunks| - 1])| < need)
  }

  lemma FillsNext(chunks: seq<seq<byte>>, total: nat, need: nat)
    requires chunks != [] && Fills(chunks, total, need)
    ensures total < need && total + |chunks[0]| <= 512 && Fills(chunks[1..], total + |chunks[0]|, need)
  {
    assert Concat(chunks) == chunks[0] + Concat(chunks[1..]);
    if |chunks| > 1 {
      assert chunks[..|chunks| - 1] == [chunks[0]] + chunks[1..][..|chunks| - 2];
      assert Concat(chunks[..|chunks| - 1]) == chunks[0] + Concat(chunks[1..][..|chunks| - 2]);
    }
  }

  lemma {:induction false} EchoRead(link: Link, port: byte, echo: seq<Message>, packets: seq<seq<seq<byte>>>,
                                    rest: seq<InEvent>, need: nat, total: nat)
    requires EchoPackets(port, echo, packets) && Fills(Payloads(echo), total, need)
    requires link.tape == AllArrivals(packets) + rest
    ensures total <= MAX_FRAME_LEN
    ensures ReadEcho(link, port, need, total) == Echo(false, Payloads(echo), link.(tape := rest))
    decreases |echo|
  {
    hide ReadData, EchoPacket, Fills;
    if echo == [] {
      assert AllArrivals(packets) + rest == rest;
      FillsNone(total, need);
    } else {
      var m, later := echo[0], AllArrivals(packets[1..]) + rest;
      assert link.tape == Arrivals(packets[0]) + later;
      assert EchoPacket(port, m, packets[0]);
      ChunkRead(link, port, m, packets[0], later);
      assert Payloads(echo)[1..] == Payloads(echo[1..]);
      FillsNext(Payloads(echo), total, need);
      assert EchoPackets(port, echo[1..], packets[1..]) by {
        forall i | 0 <= i < |echo| - 1 ensures EchoPacket(port, echo[1..][i], packets[1..][i]) {
          assert EchoPacket(port, echo[i + 1], packets[i + 1]);
        }
      }
      EchoRead(link.(tape := later), port, echo[1..], packets[1..], rest, need, total + |m.payload|);
    }
  }

  lemma FillsNone(total: nat, need: nat)
    requires Fills([], total, need)
    ensures need <= total <= 512
  {
  }

  lemma ChunkRead(link: Link, port: byte, m: Message, packets: seq<seq<byte>>, rest: seq<InEvent>)
    requires EchoPacket(port, m, packets) && link.tape == Arrivals(packets) + rest
    ensures var (v, after) := ReadData(link, port, MAX_FRAME_LEN);
            v.Delivers? && v.payload == m.payload && m.payload != [] && after == link.(tape := rest)
  {
    hide Frame, ReadData, Splits, Delivered;
    DataRead(link, m.header, m.payload, packets, rest, port, MAX_FRAME_LEN);
  }

  /**
   * When the three frames are written, under any schedule of partial writes, the open and the close are acknowledged,
   * and data frames of the port come back, in any packets, until the last one brings enough bytes: the command exits
   * with 0 if and only if their payloads are the payload, and with 1 otherwise.
   */
  lemma LoopbackExactly(link: Link, port: byte, line: LineCoding, payload: seq<byte>, echo: seq<Message>,
                        packets: seq<seq<seq<byte>>>, openRsp: seq<InEvent>, closeRsp: seq<InEvent>,
                        rest: seq<InEvent>)
    requires |payload| <= 488 && EchoPackets(port, echo, packets) && Fills(Payloads(echo), 0, |payload|)
    requires var (s1, l1) := Begin(link, OpenCall(port), Data(LineBytes(line)));
             var (s2, l2) := Begin(l1, DataCall(port), Data(payload));
             s1 == s2 == Begin(l2, CloseCall(port), Null(0)).0 == Ok
    requires Acknowledges(openRsp, OpenCall(port), link.nextSeq)
    requires Acknowledges(closeRsp, CloseCall(port), SeqAfter(SeqAfter(link.nextSeq)))
    requires link.tape == openRsp + (AllArrivals(packets) + (closeRsp + rest))
    ensures Run(link, port, line, payload).code == if Concat(Payloads(echo)) == payload then 0 else 1
    ensures Run(link, port, line, payload).link.tape == rest
  {
    hide Transact, Begin, ReadEcho, EchoPackets, Fills, SeqAfter, LineBytes, OpenCall, CloseCall, DataCall;
    hide Unit, ArrivalOf, AnswerStatus;
    var l1 := Begin(link, OpenCall(port), Data(LineBytes(line))).1;
    var l2 := Begin(l1, DataCall(port), Data(payload)).1;
    var tape1, tape2 := AllArrivals(packets) + (closeRsp + rest), closeRsp + rest;
    assert link.(tape := openRsp + tape1) == link;
    CallAnswered(link, OpenCall(port), Data(LineBytes(line)), openRsp, tape1);
    BeginTape(l1, tape1, DataCall(port), Data(payload));
    EchoRead(l2.(tape := tape1), port, echo, packets, tape2, |payload|, 0);
    NumbersTaken(link, OpenCall(port), Data(LineBytes(line)), 0, false);
    NumbersTaken(l1, DataCall(port), Data(payload), 0, false);
    CallAnswered(l2, CloseCall(port), Null(0), closeRsp, rest);
  }
}
