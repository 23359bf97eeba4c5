/**
 * Runs of a host and a device over one link. Host calls of all channels share the sequence counter and the
 * inbound stream; the device sends at any moment, also between a request and the read of its response.
 */
module Sessions {
  import opened Words
  import opened Crc
  import opened Codec
  import opened Transport
  import opened Delivery
  import opened Transactions
  import opened Sequence

  /** A stretch of the tape that one read takes as a whole, and the request it answers if it is a response. */
  datatype Unread = Unread(events: seq<InEvent>, answers: nat)

  /** Between a request and its response the host remembers the request and its number. */
  datatype Control = Idle | Awaiting(call: Call, number: nat, seqNo: u16)

  /** A command the device has received: which request it was, and its bytes. */
  datatype Written = Written(number: nat, call: Call, frame: seq<byte>)

  /** A finished read of a response; lag is how many responses were then still due from earlier timeouts. */
  datatype Entry = Entry(
    number: nat, call: Call, capacity: nat, hasBuffer: bool, from: Unread, verdict: Verdict, lag: int)

  datatype World = World(
    link: Link, control: Control,
    issued: nat,            // sequence numbers given out
    written: seq<Written>,  // commands written successfully
    unread: seq<Unread>,    // sent by the device, not yet read
    produced: nat,          // units sent by the device
    timeouts: nat,          // responses that were waited for in vain
    drained: nat,           // units taken by uart_read and ble_read_event
    log: seq<Entry>)

  datatype Step =
    | Send(call: Call, payload: Argument, out: seq<OutEvent>)    // first half of a transact
    | Receive(capacity: nat, hasBuffer: bool)                    // its second half
    | Write(port: byte, payload: Argument, out: seq<OutEvent>)   // uart_write
    | Drain                                                      // uart_read or ble_read_event
    | DeviceSends(unit: Unread)

  const START := World(Link(1, [], [], [], []), Idle, 0, [], [], 0, 0, 0, [])

  function Tape(unread: seq<Unread>): seq<InEvent> {
    if unread == [] then [] else unread[0].events + Tape(unread[1..])
  }

  predicate Unit(u: Unread) {
    var r := ReadResult(u.events, MAX_FRAME_LEN);
    !r.starved && r.rest == []
  }

  predicate IsResponse(u: Unread) {
    ArrivalOf(u.events).Arrived? && ArrivalOf(u.events).header.msgType == MSG_RSP
  }

  /** A response carries the sequence number of the request it answers, and that request was made before. */
  predicate Echoes(u: Unread, issued: nat) {
    IsResponse(u) ==> u.answers < issued && ArrivalOf(u.events).header.refSeq == Wire(SeqAt(u.answers))
  }

  predicate Enabled(w: World, s: Step) {
    match s
    case Send(c, _, _) => w.control.Idle? && c.msgType == MSG_CMD
    case Receive(_, _) => w.control.Awaiting?
    case Write(_, payload, _) => w.control.Idle? && !(payload.Null? && payload.len != 0)
    case Drain => w.control.Idle?
    case DeviceSends(u) => Unit(u) && Echoes(u, w.issued)
  }

  function Next(w: World, s: Step): World {
    match s
    case Send(c, payload, out) =>
      var (status, link) := Begin(w.link.(out := out), c, payload);
      var begun := w.(link := link, issued := w.issued + 1);
      if status != Ok then begun
      else
        var frame := if |w.link.sent| <= |link.sent| then link.sent[|w.link.sent|..] else [];
        begun.(control := Awaiting(c, w.issued, w.link.nextSeq), written := w.written + [Written(w.issued, c, frame)])
    case Receive(capacity, hasBuffer) =>
      if w.control.Idle? then w
      else
        var (v, link) := Respond(w.link, w.control.call, w.control.seqNo, capacity, hasBuffer);
        var done := w.(link := link, control := Idle);
        if w.unread == [] then done.(timeouts := w.timeouts + 1)
        else
          var lag := w.timeouts - w.drained;
          var entry := Entry(w.control.number, w.control.call, capacity, hasBuffer, w.unread[0], v, lag);
          done.(unread := w.unread[1..], log := w.log + [entry])
    case Write(port, payload, out) =>
      w.(link := Begin(w.link.(out := out), DataCall(port), payload).1, issued := w.issued + 1)
    case Drain =>
      var done := w.(link := Fetch(w.link).1);
      if w.unread == [] then done else done.(unread := w.unread[1..], drained := w.drained + 1)
    case DeviceSends(u) =>
      w.(link := w.link.(tape := w.link.tape + u.events), unread := w.unread + [u], produced := w.produced + 1)
  }

  function After(steps: seq<Step>): World {
    if steps == [] then START else Next(After(steps[..|steps| - 1]), steps[|steps| - 1])
  }

  predicate Legal(steps: seq<Step>) {
    steps == [] || (Legal(steps[..|steps| - 1]) && Enabled(After(steps[..|steps| - 1]), steps[|steps| - 1]))
  }

  // ---------------------------------------------------------- reading one unit

  lemma {:induction false} TapeAppend(a: seq<Unread>, u: Unread)
    ensures Tape(a + [u]) == Tape(a) + u.events
  {
    if a == [] {
      assert Tape([u]) == u.events + Tape([]);
    } else {
      assert (a + [u])[1..] == a[1..] + [u];
      TapeAppend(a[1..], u);
    }
  }

  /** A read takes exactly the first unit, and what it finds does not depend on the rest of the tape. */
  lemma FetchUnit(u: Unread, rest: seq<InEvent>)
    requires Unit(u)
    ensures ArrivalOf(u.events + rest) == ArrivalOf(u.events)
    ensures ReadResult(u.events + rest, MAX_FRAME_LEN).rest == rest
  {
    hide Decode, ReadLoop;
    ReadLocal(u.events, rest, [], HEADER_LEN, MAX_FRAME_LEN);
    assert [] + rest == rest;
  }

  lemma FetchNothing()
    ensures ArrivalOf([]) == Missed(ErrTimeout) && ReadResult([], MAX_FRAME_LEN).rest == []
  {
  }

  /** Any split of a whole frame into packets is a unit, and the read of it finds that frame. */
  lemma FrameUnit(frame: seq<byte>, packets: seq<seq<byte>>, answers: nat)
    requires WholeFrame(frame) && Splits(packets, frame)
    ensures Unit(Unread(Arrivals(packets), answers))
    ensures ArrivalOf(Arrivals(packets)) == Arrived(Decode(frame).header, frame[HEADER_LEN..])
  {
    hide Decode, ReadResult, Splits;
    ReceiveFrame(frame, packets, [], MAX_FRAME_LEN);
    assert Arrivals(packets) + [] == Arrivals(packets);
    assert frame[..|frame|] == frame;
  }

  /**
   * The halves of a transaction and what the device sends in between commute: calling transact on a tape that
   * already holds those units is the same as sending, letting the device append them, and then receiving.
   */
  lemma SentInBetween(link: Link, later: seq<InEvent>, c: Call, payload: Argument, capacity: nat, hasBuffer: bool)
    ensures var (status, begun) := Begin(link, c, payload);
            var grown := begun.(tape := begun.tape + later);
            Transact(link.(tape := link.tape + later), c, payload, capacity, hasBuffer)
              == if status != Ok then (Refused(status), grown) else Respond(grown, c, link.nextSeq, capacity, hasBuffer)
  {
  }

  // --------------------------------------------------------------- invariant

  predicate SameTarget(h: Header, c: Call) {
    h.chType == c.chType && h.chId == c.chId && h.opcode == c.opcode
  }

  /**
   * What a call makes of the unit at the head of the stream, told by the numbers of the calls since open and not
   * by the 16 bits of them that the frames carry.
   */
  function Expected(e: Entry): Verdict {
    match ArrivalOf(e.from.events)
    case Missed(error) => Refused(error)
    case Arrived(h, payload) =>
      if h.msgType != MSG_RSP || !SameSlot(e.number, e.from.answers) || !SameTarget(h, e.call) then Refused(ErrProto)
      else Granted(e, h, payload)
  }

  /** The verdict on a response that matches its call. */
  function Granted(e: Entry, h: Header, payload: seq<byte>): Verdict {
    Grant(h, payload, if h.status != 0 then ErrDeviceStatus else PayloadStatus(h, e.capacity, e.hasBuffer))
  }

  predicate Sound(e: Entry) {
    e.verdict == Expected(e) && (IsResponse(e.from) ==> e.from.answers <= e.number)
  }

  predicate Inv(w: World) {
    && w.link.nextSeq == SeqAt(w.issued)
    && w.link.tape == Tape(w.unread)
    && (forall u | u in w.unread :: Unit(u) && Echoes(u, w.issued))
    && (w.control.Awaiting? ==> w.control.number + 1 == w.issued && w.control.seqNo == SeqAt(w.control.number))
    && (forall e | e in w.log :: Sound(e) && e.number < w.issued)
  }

  lemma RespondHead(w: World, capacity: nat, hasBuffer: bool)
    requires Inv(w) && w.control.Awaiting? && w.unread != []
    ensures Respond(w.link, w.control.call, w.control.seqNo, capacity, hasBuffer)
         == (JudgeResponse(ArrivalOf(w.unread[0].events), w.control.call, w.control.seqNo, capacity, hasBuffer),
             w.link.(tape := Tape(w.unread[1..])))
  {
    hide Unit, ArrivalOf, ReadResult, JudgeResponse, Sound, Echoes;
    assert w.unread[0] in w.unread;
    FetchUnit(w.unread[0], Tape(w.unread[1..]));
  }

  lemma ExpectedVerdict(w: World, capacity: nat, hasBuffer: bool, e: Entry)
    requires Inv(w) && w.control.Awaiting? && w.unread != []
    requires e.number == w.control.number && e.call == w.control.call && e.from == w.unread[0]
    requires e.capacity == capacity && e.hasBuffer == hasBuffer
    ensures Respond(w.link, w.control.call, w.control.seqNo, capacity, hasBuffer)
         == (Expected(e), w.link.(tape := Tape(w.unread[1..])))
    ensures IsResponse(e.from) ==> e.from.answers <= e.number
  {
    RespondHead(w, capacity, hasBuffer);
    hide Unit, ArrivalOf, PayloadStatus, Respond, Tape, SeqAt, Wire, SameSlot;
    var u := w.unread[0];
    assert u in w.unread;
    SameNumber(w.control.number, u.answers);
  }

  lemma InvNext(w: World, s: Step)
    requires Inv(w) && Enabled(w, s)
    ensures Inv(Next(w, s))
  {
    match s
    case Send(c, payload, out) => InvBegin(w, s);
    case Write(port, payload, out) => InvBegin(w, s);
    case Receive(capacity, hasBuffer) => InvReceive(w, capacity, hasBuffer);
    case Drain => InvDrain(w);
    case DeviceSends(u) =>
      hide Unit, Echoes;
      TapeAppend(w.unread, u);
  }

  lemma InvBegin(w: World, s: Step)
    requires Inv(w) && Enabled(w, s) && (s.Send? || s.Write?)
    ensures Inv(Next(w, s))
  {
    hide Unit, IsResponse, Sound, WriteResult, SeqAt, SeqAfter, Frame;
    SeqAfterAt(w.issued);
    forall u | u in w.unread ensures Echoes(u, w.issued + 1) {
      assert Echoes(u, w.issued);
    }
  }

  lemma InvReceive(w: World, capacity: nat, hasBuffer: bool)
    requires Inv(w) && w.control.Awaiting?
    ensures Inv(Next(w, Receive(capacity, hasBuffer)))
  {
    if w.unread == [] {
      FetchNothing();
      hide Unit, Echoes, ArrivalOf, ReadResult, Sound;
    } else {
      InvReceiveUnit(w, capacity, hasBuffer);
    }
  }

  lemma InvReceiveUnit(w: World, capacity: nat, hasBuffer: bool)
    requires Inv(w) && w.control.Awaiting? && w.unread != []
    ensures Inv(Next(w, Receive(capacity, hasBuffer)))
  {
    hide Unit, Echoes, Respond, Expected, Tape, SeqAt, IsResponse;
    var next := Next(w, Receive(capacity, hasBuffer));
    var entry := next.log[|w.log|];
    ExpectedVerdict(w, capacity, hasBuffer, entry);
    assert Sound(entry);
    hide Sound;
    assert next.unread == w.unread[1..] && next.log == w.log + [entry];
  }

  lemma InvDrain(w: World)
    requires Inv(w) && w.control.Idle?
    ensures Inv(Next(w, Drain))
  {
    hide Echoes, ReadResult, ArrivalOf;
    if w.unread == [] {
      FetchNothing();
    } else {
      assert w.unread[0] in w.unread;
      FetchUnit(w.unread[0], Tape(w.unread[1..]));
      hide Unit;
    }
  }

  lemma {:induction false} Reachable(steps: seq<Step>)
    requires Legal(steps)
    ensures Inv(After(steps))
  {
    hide Inv, Enabled, Next;
    if steps == [] {
      InvStart();
    } else {
      var init := steps[..|steps| - 1];
      Reachable(init);
      InvNext(After(init), steps[|steps| - 1]);
    }
  }

  lemma InvStart()
    ensures Inv(START)
  {
  }

  /**
   * Over every run, a transaction that returns OK never accepts a response to an earlier request, provided the
   * response answers one of the last 65534 numbers before it or its own; without the proviso it can only be one
   * a multiple of 65535 calls back.
   */
  lemma NoStaleResponse(steps: seq<Step>, e: Entry)
    requires Legal(steps) && e in After(steps).log && e.verdict.Delivers?
    ensures e.from.answers <= e.number && (e.number - e.from.answers) % 65535 == 0
    ensures e.number - e.from.answers <= 65534 ==> e.from.answers == e.number
    ensures After(steps).issued <= 65535 ==> e.from.answers == e.number
  {
    hide Legal, After;
    Reachable(steps);
    assert Sound(e);
  }

  /**
   * The verdict of every finished read, over every run: a response is refused with the protocol error exactly when
   * the numbers of the calls are not congruent modulo 65535 or channel or opcode differ.
   */
  lemma MatchExactly(steps: seq<Step>, e: Entry)
    requires Legal(steps) && e in After(steps).log
    ensures e.verdict == Expected(e)
    ensures IsResponse(e.from) ==>
      (e.verdict == Refused(ErrProto)
       <==> (e.number - e.from.answers) % 65535 != 0 || !SameTarget(ArrivalOf(e.from.events).header, e.call))
  {
    hide Legal, After, Expected, IsResponse, SameTarget;
    Reachable(steps);
    assert Sound(e);
    hide Inv, Sound;
    if IsResponse(e.from) {
      ExpectedProto(e);
    }
  }

  lemma ExpectedProto(e: Entry)
    requires IsResponse(e.from)
    ensures Expected(e) == Refused(ErrProto)
            <==> !SameSlot(e.number, e.from.answers) || !SameTarget(ArrivalOf(e.from.events).header, e.call)
  {
    PayloadNotProto(ArrivalOf(e.from.events).header, e.capacity, e.hasBuffer);
    hide ArrivalOf, PayloadStatus, SameSlot, SameTarget;
  }

  lemma PayloadNotProto(h: Header, capacity: nat, hasBuffer: bool)
    ensures PayloadStatus(h, capacity, hasBuffer) != ErrProto
  {
  }

  // ------------------------------------------------------------ building runs

  lemma Extend(steps: seq<Step>, s: Step)
    requires Legal(steps) && Enabled(After(steps), s)
    ensures Legal(steps + [s]) && After(steps + [s]) == Next(After(steps), s)
  {
    hide Enabled, Next;
    assert (steps + [s])[..|steps|] == steps;
  }

  /** A schedule whose first call takes the 24 bytes of a request without payload lets it be written whole. */
  lemma WriteHeaderOnly(c: Call, link: Link)
    requires link.out == [Moved(24)]
    ensures Begin(link, c, Null(0)).0 == Ok && Begin(link, c, Null(0)).1.tape == link.tape
  {
    hide Encode;
    var f := Frame(RequestHeader(link.nextSeq, c), []);
    assert f[24..] == [] && Min(24, |f|) == 24 && link.out[1..] == [];
    assert WriteAll(f[24..], link.out[1..]) == WriteOutcome(Ok, [], []);
    assert WriteAll(f, link.out).status == Ok;
  }

  lemma SinglePacket(f: seq<byte>)
    requires |f| == HEADER_LEN
    ensures Splits([f], f)
  {
    assert Concat([f]) == f + Concat([]) == f;
  }

  lemma DeliveredFields(h: Header)
    ensures var d := Delivered(Message(h, []));
            && d.msgType == h.msgType && d.refSeq == h.refSeq && d.chType == h.chType && d.chId == h.chId
            && d.opcode == h.opcode && d.status == h.status && d.payloadLen == 0
  {
    hide Serialize, Checksum, TotalOf;
    assert Truncate(0) == 0;
  }

  lemma EmptyPayload(h: Header, capacity: nat, hasBuffer: bool)
    requires h.payloadLen == 0
    ensures PayloadStatus(h, capacity, hasBuffer) == Ok
  {
    LenZero(h.payloadLen);
  }
}
