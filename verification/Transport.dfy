/**
 * The device handle: the sequence counter and frame transfer over bulk endpoints that move
 * any number of bytes per call.
 *
 * libusb and the hardware are an adversary fixed in advance: a schedule says how much each bulk OUT
 * call moves, and a tape lists what the bulk IN calls meet, one packet or failure each. An exhausted
 * schedule or tape is an endpoint that stays silent until the timeout.
 */
module Transport {
  import opened Words
  import opened Codec

  datatype UsbError = TimedOut | NoDevice | OtherError

  /** A bulk OUT call moves up to `bytes` bytes, also when it fails. */
  datatype OutEvent = Moved(bytes: nat) | Failed(error: UsbError, bytes: nat)

  /** A bulk IN call of at most one packet size meets one packet or fails. */
  datatype InEvent = Packet(data: seq<byte>) | Failure(error: UsbError)

  const PACKET_SIZE: nat := 64

  type u16 = n: nat | n < 0x1_0000

  /** A sequence number as it stands in a header. */
  function Wire(seqNo: u16): word {
    seqNo as word
  }

  /** The fields of a request that the caller chooses. */
  datatype Call = Call(chType: byte, chId: byte, msgType: byte, opcode: byte)

  /** A request that was given a sequence number, whether or not its frame could then be built and written. */
  datatype Request = Request(seqNo: u16, call: Call)

  /**
   * The state of a device handle and its endpoints: sent is all the device has received, begun the history of
   * requests.
   */
  datatype Link = Link(nextSeq: u16, out: seq<OutEvent>, tape: seq<InEvent>, sent: seq<byte>, begun: seq<Request>)

  function MapUsbError(error: UsbError): (s: Status)
    ensures s != Ok
    ensures (s == ErrTimeout <==> error == TimedOut) && (s == ErrNotFound <==> error == NoDevice)
    ensures s == ErrTimeout || s == ErrNotFound || s == ErrIo
  {
    match error
    case TimedOut => ErrTimeout
    case NoDevice => ErrNotFound
    case OtherError => ErrIo
  }

  function Min(a: nat, b: nat): nat {
    if a < b then a else b
  }

  /** The counter after handing out seq: a wrapping uint16_t that skips zero. */
  function SeqAfter(seqNo: u16): u16 {
    var next := (seqNo + 1) % 0x1_0000;
    if next == 0 then 1 else next
  }

  // ------------------------------------------------------------------ sending

  datatype WriteOutcome = WriteOutcome(status: Status, moved: seq<byte>, rest: seq<OutEvent>)

  /** What a bulk OUT call for chunk bytes returns, how much it moves, and what is left of the schedule. */
  function OutCall(out: seq<OutEvent>, chunk: nat): (r: (Status, nat, seq<OutEvent>))
    ensures r.1 <= chunk && (r.0 == Ok ==> |r.2| < |out|)
  {
    if out == [] then (ErrTimeout, 0, [])
    else (if out[0].Failed? then MapUsbError(out[0].error) else Ok, Min(out[0].bytes, chunk), out[1..])
  }

  function WriteAll(pending: seq<byte>, out: seq<OutEvent>): WriteOutcome
    decreases |out|
  {
    if pending == [] then WriteOutcome(Ok, [], out)
    else
      var (error, n, rest) := OutCall(out, |pending|);
      if error != Ok then WriteOutcome(error, pending[..n], rest)
      else if n == 0 then WriteOutcome(ErrIo, [], rest)
      else
        var later := WriteAll(pending[n..], rest);
        later.(moved := pending[..n] + later.moved)
  }

  function WriteResult(frame: seq<byte>, out: seq<OutEvent>): WriteOutcome {
    if |frame| == 0 || |frame| > MAX_FRAME_LEN then WriteOutcome(ErrOverflow, [], out) else WriteAll(frame, out)
  }

  /** What sending buffer[..len] comes to when offset bytes of it are gone and sent is what the device has so far. */
  function WriteFrom(buffer: seq<byte>, len: nat, offset: nat, out: seq<OutEvent>, sent: seq<byte>): WriteOutcome
    requires offset <= len <= |buffer|
  {
    var w := WriteAll(buffer[offset..len], out);
    w.(moved := sent + w.moved)
  }

  lemma WriteFromEnd(buffer: seq<byte>, len: nat, out: seq<OutEvent>, sent: seq<byte>)
    requires len <= |buffer|
    ensures WriteFrom(buffer, len, len, out, sent) == WriteOutcome(Ok, sent, out)
  {
  }

  lemma WriteStep(buffer: seq<byte>, len: nat, offset: nat, out: seq<OutEvent>, sent: seq<byte>)
    requires offset < len <= |buffer|
    ensures var (error, n, rest) := OutCall(out, len - offset);
            var more := sent + buffer[offset..offset + n];
            WriteFrom(buffer, len, offset, out, sent)
              == if error != Ok then WriteOutcome(error, more, rest)
                 else if n == 0 then WriteOutcome(ErrIo, more, rest)
                 else WriteFrom(buffer, len, offset + n, rest, more)
  {
  }

  // ---------------------------------------------------------------- receiving

  /** got: all bytes taken from the endpoint; starved: the tape ran out before the outcome was known. */
  datatype ReadOutcome = ReadOutcome(status: Status, target: nat, got: seq<byte>, starved: bool, rest: seq<InEvent>)

  /** How many bytes the next transfer asks for. */
  function Wanted(offset: nat, capacity: nat): int
    requires offset <= capacity
  {
    var room := ToInt32(capacity - offset);
    if room > PACKET_SIZE then PACKET_SIZE else room
  }

  /** The length to wait for once the bytes got are there, or why reading stops. */
  function NextTarget(got: seq<byte>, target: nat, capacity: nat): (Status, nat) {
    if target == HEADER_LEN && |got| >= HEADER_LEN then
      match Decode(got)
      case Rejected(error) => (error, target)
      case Accepted(h) => if Len(h.totalLen) > capacity then (ErrOverflow, Len(h.totalLen)) else (Ok, Len(h.totalLen))
    else (Ok, target)
  }

  /** What a bulk IN call for at most request bytes returns, the bytes it delivers, and what is left of the tape. */
  function InCall(tape: seq<InEvent>, request: nat): (r: (Status, seq<byte>, seq<InEvent>))
    ensures |r.1| <= request && (r.0 == Ok ==> |r.2| < |tape|)
  {
    if tape == [] then (ErrTimeout, [], [])
    else
      match tape[0]
      case Failure(error) => (MapUsbError(error), [], tape[1..])
      // a packet larger than the request is an overflow error of the transfer
      case Packet(data) => if |data| > request then (ErrIo, [], tape[1..]) else (Ok, data, tape[1..])
  }

  function ReadLoop(tape: seq<InEvent>, got: seq<byte>, target: nat, capacity: nat): (r: ReadOutcome)
    requires |got| <= capacity
    ensures r.status == Ok ==> r.target <= |r.got|
    decreases |tape|
  {
    if |got| >= target then ReadOutcome(Ok, target, got, false, tape)
    else
      var request := Wanted(|got|, capacity);
      if request <= 0 then ReadOutcome(ErrOverflow, target, got, false, tape)
      else
        var (error, data, rest) := InCall(tape, request);
        if error != Ok then ReadOutcome(error, target, got, tape == [], rest)
        else if |data| == 0 then ReadOutcome(ErrIo, target, got, false, rest)
        else
          RequestFits(|got|, capacity);
          var (status, next) := NextTarget(got + data, target, capacity);
          if status != Ok then ReadOutcome(status, next, got + data, false, rest)
          else ReadLoop(rest, got + data, next, capacity)
  }

  lemma RequestFits(offset: nat, capacity: nat)
    requires offset <= capacity
    ensures Wanted(offset, capacity) <= capacity - offset
  {
  }

  /** One turn of the loop. */
  lemma ReadStep(tape: seq<InEvent>, got: seq<byte>, target: nat, capacity: nat)
    requires |got| < target && |got| <= capacity && Wanted(|got|, capacity) > 0
    ensures var request := Wanted(|got|, capacity);
            var (error, data, rest) := InCall(tape, request);
            var r := ReadLoop(tape, got, target, capacity);
            && request <= capacity - |got|
            && if error != Ok then r == ReadOutcome(error, target, got, tape == [], rest)
               else if |data| == 0 then r == ReadOutcome(ErrIo, target, got, false, rest)
               else
                 var (status, next) := NextTarget(got + data, target, capacity);
                 r == if status != Ok then ReadOutcome(status, next, got + data, false, rest)
                      else ReadLoop(rest, got + data, next, capacity)
  {
    hide Decode, InCall, NextTarget;
    RequestFits(|got|, capacity);
  }

  lemma ReadDone(tape: seq<InEvent>, got: seq<byte>, target: nat, capacity: nat)
    requires |got| <= capacity && (|got| >= target || Wanted(|got|, capacity) <= 0)
    ensures ReadLoop(tape, got, target, capacity)
         == ReadOutcome(if |got| >= target then Ok else ErrOverflow, target, got, false, tape)
  {
  }

  function ReadResult(tape: seq<InEvent>, capacity: nat): (r: ReadOutcome)
    ensures r.status == Ok ==> r.target <= |r.got|
  {
    if capacity < HEADER_LEN then ReadOutcome(ErrOverflow, 0, [], false, tape)
    else ReadLoop(tape, [], HEADER_LEN, capacity)
  }

  lemma Placed(before: seq<byte>, offset: nat, data: seq<byte>, capacity: nat, after: seq<byte>)
    requires |data| <= capacity && offset + capacity <= |before|
    requires after == before[..offset] + data + before[offset + |data|..]
    ensures after[..offset + |data|] == before[..offset] + data
    ensures after[offset + |data|..] == before[offset + |data|..]
    ensures after[offset + capacity..] == before[offset + capacity..]
  {
  }

  // ------------------------------------------------------------------- device

  class Device {
    var nextSeq: u16
    var out: seq<OutEvent>
    var tape: seq<InEvent>
    var sent: seq<byte>
    ghost var begun: seq<Request>

    ghost function View(): Link
      reads this
    {
      Link(nextSeq, out, tape, sent, begun)
    }

    /** The state ch32mux_open leaves behind, on endpoints that will behave as given. */
    constructor (out: seq<OutEvent>, tape: seq<InEvent>)
      ensures View() == Link(1, out, tape, [], [])
    {
      this.nextSeq, this.out, this.tape, this.sent := 1, out, tape, [];
      this.begun := [];
    }

    method NextSeq() returns (seqNo: u16)
      modifies this
      ensures seqNo == old(nextSeq)
      ensures View() == old(View()).(nextSeq := SeqAfter(old(nextSeq)))
    {
      seqNo := nextSeq;
      nextSeq := (nextSeq + 1) % 0x1_0000;
      if nextSeq == 0 {
        nextSeq := 1;
      }
    }

    /** libusb_bulk_transfer on the OUT endpoint. */
    method BulkOut(frame: array<byte>, offset: nat, chunk: nat) returns (error: Status, transferred: nat)
      requires 0 < chunk && offset + chunk <= frame.Length
      modifies this
      ensures (error, transferred, out) == OutCall(old(out), chunk)
      ensures nextSeq == old(nextSeq) && tape == old(tape) && begun == old(begun)
      ensures transferred <= chunk && sent == old(sent) + frame[offset..offset + transferred]
    {
      if out == [] {
        return ErrTimeout, 0;
      }
      var event := out[0];
      out := out[1..];
      transferred := Min(event.bytes, chunk);
      sent := sent + frame[offset..offset + transferred];
      error := if event.Failed? then MapUsbError(event.error) else Ok;
    }

    /** libusb_bulk_transfer on the IN endpoint, for at most one packet. */
    method BulkIn(buffer: array<byte>, offset: nat, capacity: nat) returns (error: Status, transferred: nat)
      requires 0 < capacity <= PACKET_SIZE && offset + capacity <= buffer.Length
      modifies this, buffer
      ensures var (e, data, rest) := InCall(old(tape), capacity);
              && error == e && tape == rest && transferred == |data|
              && buffer[..offset + transferred] == old(buffer[..offset]) + data
              && (error == Ok ==> buffer[offset + transferred..] == old(buffer[offset + transferred..]))
      ensures buffer[offset + capacity..] == old(buffer[offset + capacity..])
      ensures nextSeq == old(nextSeq) && out == old(out) && sent == old(sent) && begun == old(begun)
    {
      transferred := 0;
      if tape == [] {
        return ErrTimeout, transferred;
      }
      var event := tape[0];
      tape := tape[1..];
      if event.Failure? {
        return MapUsbError(event.error), transferred;
      }
      if |event.data| > capacity {
        return ErrIo, transferred;
      }
      ghost var before := buffer[..];
      forall i | 0 <= i < |event.data| {
        buffer[offset + i] := event.data[i];
      }
      assert buffer[..] == before[..offset] + event.data + before[offset + |event.data|..];
      Placed(before, offset, event.data, capacity, buffer[..]);
      error, transferred := Ok, |event.data|;
    }

    method WriteFrame(frame: array<byte>, frameLen: nat) returns (status: Status)
      requires frameLen <= frame.Length
      modifies this
      ensures var w := WriteResult(frame[..frameLen], old(out));
              status == w.status && View() == old(View()).(out := w.rest, sent := old(sent) + w.moved)
    {
      var offset: nat := 0;
      if frameLen == 0 || frameLen > MAX_FRAME_LEN {
        return ErrOverflow;
      }
      ghost var buffer := frame[..];
      ghost var whole := WriteFrom(buffer, frameLen, 0, out, sent);
      hide WriteAll, WriteFrom, OutCall;
      while offset < frameLen
        invariant offset <= frameLen && frame[..] == buffer
        invariant nextSeq == old(nextSeq) && tape == old(tape) && begun == old(begun)
        invariant whole == WriteFrom(buffer, frameLen, offset, out, sent)
      {
        var chunk := frameLen - offset;
        WriteStep(buffer, frameLen, offset, out, sent);
        var error, transferred := BulkOut(frame, offset, chunk);
        assert frame[..] == buffer;
        if error != Ok {
          return error;
        }
        if transferred <= 0 {
          return ErrIo;
        }
        offset := offset + transferred;
      }
      WriteFromEnd(buffer, frameLen, out, sent);
      return Ok;
    }

    method ReadFrame(frame: array<byte>, frameLen: SizeVar) returns (status: Status)
      modifies this, frame, frameLen
      ensures var r := ReadResult(old(tape), frame.Length);
              && status == r.status
              && View() == old(View()).(tape := r.rest)
              && |r.got| <= frame.Length && frame[..|r.got|] == r.got
              && frameLen.value == (if frame.Length < HEADER_LEN then old(frameLen.value)
                                    else if status == Ok then r.target else 0)
              && (status == Ok ==> frameLen.value <= |r.got|)
    {
      hide InCall, ReadLoop, NextTarget, ToInt32;
      if frame.Length < HEADER_LEN {
        return ErrOverflow;
      }
      var offset: nat := 0;
      var targetLen: nat := HEADER_LEN;
      frameLen.value := 0;
      ghost var whole := ReadLoop(tape, [], HEADER_LEN, frame.Length);
      assert frame[..0] == [];
      while offset < targetLen
        invariant offset <= frame.Length && targetLen <= frame.Length && frameLen.value == 0
        invariant nextSeq == old(nextSeq) && out == old(out) && sent == old(sent) && begun == old(begun)
        invariant whole == ReadLoop(tape, frame[..offset], targetLen, frame.Length)
        decreases frame.Length - offset
      {
        ghost var got := frame[..offset];
        var capacity: int := ToInt32(frame.Length - offset);
        if capacity <= 0 {
          ReadDone(tape, got, targetLen, frame.Length);
          return ErrOverflow;
        }
        if capacity > PACKET_SIZE {
          capacity := PACKET_SIZE;
        }
        ReadStep(tape, got, targetLen, frame.Length);
        var error, transferred := BulkIn(frame, offset, capacity);
        if error != Ok {
          return error;
        }
        if transferred <= 0 {
          return ErrIo;
        }
        offset := offset + transferred;
        error, targetLen := Retarget(frame, offset, targetLen);
        if error != Ok {
          return error;
        }
      }
      ReadDone(tape, frame[..offset], targetLen, frame.Length);
      frameLen.value := targetLen;
      return Ok;
    }
  }

  /** The end of the loop body: once the header is there, its total length becomes the target. */
  method Retarget(frame: array<byte>, offset: nat, targetLen: nat) returns (status: Status, next: nat)
    requires offset <= frame.Length
    ensures (status, next) == NextTarget(frame[..offset], targetLen, frame.Length)
    ensures status == Ok && targetLen <= frame.Length ==> next <= frame.Length
  {
    hide Decode;
    status, next := Ok, targetLen;
    if targetLen == HEADER_LEN && offset >= HEADER_LEN {
      var header := new HeaderVar(ZERO_HEADER);
      status := DecodeHeader(frame, offset, header);
      if status == Ok {
        next := Len(header.value.totalLen);
        if next > frame.Length {
          status := ErrOverflow;
        }
      }
    }
  }
}
