/**
 * Runs against a device that answers every command it receives exactly once and in order, and sends nothing
 * else. Reads fail only by timing out on a silent endpoint.
 */
module InOrder {
  import opened Words
  import opened Codec
  import opened Transport
  import opened Delivery
  import opened Transactions
  import opened Sending
  import opened Sequence
  import opened Sessions

  /** The unit is a response that echoes sequence number, channel and opcode of the command's bytes. */
  predicate RepliesTo(command: Written, u: Unread) {
    && Decode(command.frame).Accepted? && IsResponse(u) && u.answers == command.number
    && var q, h := Decode(command.frame).header, ArrivalOf(u.events).header;
       h.refSeq == q.seqNo && h.chType == q.chType && h.chId == q.chId && h.opcode == q.opcode
  }

  predicate InOrderStep(w: World, s: Step) {
    s.DeviceSends? ==> w.produced < |w.written| && RepliesTo(w.written[w.produced], s.unit)
  }

  predicate InOrderRun(steps: seq<Step>) {
    steps == [] ||
    (InOrderRun(steps[..|steps| - 1]) && InOrderStep(After(steps[..|steps| - 1]), steps[|steps| - 1]))
  }

  /** Units the host has taken from the link. */
  function Consumed(w: World): int {
    w.produced - |w.unread|
  }

  /** Responses still due: commands not answered yet, and answers not read yet. */
  function Outstanding(w: World): int {
    |w.written| - Consumed(w)
  }

  /** A command as the device received it: its bytes decode to the caller's fields and the call's number. */
  predicate Received(command: Written, issued: nat) {
    && command.number < issued && Decode(command.frame).Accepted?
    && var q := Decode(command.frame).header;
       q.seqNo == Wire(SeqAt(command.number)) && q.chType == command.call.chType
       && q.chId == command.call.chId && q.opcode == command.call.opcode
  }

  /** With no response overdue the read meets that to its own call, and with one overdue that to an earlier call. */
  predicate InStep(e: Entry) {
    && IsResponse(e.from) && e.lag >= 0
    && (e.lag == 0 ==> e.from.answers == e.number && SameTarget(ArrivalOf(e.from.events).header, e.call))
    && (e.lag > 0 ==> e.from.answers < e.number)
  }

  predicate Counted(w: World) {
    && 0 <= Consumed(w) && w.produced <= |w.written|
    && |w.log| + w.drained == Consumed(w)
    && |w.log| + w.timeouts + (if w.control.Awaiting? then 1 else 0) == |w.written|
  }

  predicate Queued(w: World)
    requires Counted(w)
  {
    forall i | 0 <= i < |w.unread| :: RepliesTo(w.written[Consumed(w) + i], w.unread[i])
  }

  predicate Commands(w: World) {
    && (forall i | 0 <= i < |w.written| :: Received(w.written[i], w.issued))
    && (forall i, j | 0 <= i < j < |w.written| :: w.written[i].number < w.written[j].number)
    && (w.control.Awaiting? ==>
          && w.written != []
          && w.written[|w.written| - 1].number == w.control.number
          && w.written[|w.written| - 1].call == w.control.call)
  }

  predicate Logged(w: World) {
    forall e | e in w.log :: InStep(e) && e.lag <= w.timeouts
  }

  predicate InvInOrder(w: World) {
    Inv(w) && Counted(w) && Queued(w) && Commands(w) && Logged(w)
  }

  // -------------------------------------------------------------------- steps

  lemma StepSend(w: World, s: Step)
    requires InvInOrder(w) && Enabled(w, s) && s.Send? && Inv(Next(w, s))
    ensures InvInOrder(Next(w, s))
  {
    hide Inv, Begin, Decode, Counted, Queued, Commands, Logged, Wire, SeqAt;
    var link, next := w.link.(out := s.out), Next(w, s);
    InvSeq(w);
    if Begin(link, s.call, s.payload).0 == Ok {
      BegunFrame(link, s.call, s.payload);
      Appended(w, next, next.written[|w.written|]);
    } else {
      Issued(w, next);
    }
  }

  /** A number is given out and nothing is written. */
  lemma Issued(w: World, next: World)
    requires Counted(w) && Queued(w) && Commands(w) && Logged(w)
    requires next == w.(link := next.link, issued := w.issued + 1)
    ensures Counted(next) && Queued(next) && Commands(next) && Logged(next)
  {
    hide RepliesTo, InStep, Decode, Wire, SeqAt;
    forall i | 0 <= i < |w.written| ensures Received(w.written[i], w.issued + 1) {
      assert Received(w.written[i], w.issued);
    }
  }

  /** A command is written and its response is waited for. */
  lemma Appended(w: World, next: World, command: Written)
    requires Counted(w) && Queued(w) && Commands(w) && Logged(w) && w.control.Idle?
    requires next == w.(link := next.link, issued := w.issued + 1, control := next.control,
                        written := w.written + [command])
    requires next.control.Awaiting? && next.control.call == command.call
    requires next.control.number == command.number == w.issued
    requires Decode(command.frame).Accepted?
    requires var q := Decode(command.frame).header;
             q.seqNo == Wire(SeqAt(command.number)) && SameTarget(q, command.call)
    ensures Counted(next) && Queued(next) && Commands(next) && Logged(next)
  {
    hide RepliesTo, InStep, Decode, Wire, SeqAt;
    forall i | 0 <= i < |next.written| ensures Received(next.written[i], next.issued) {
      assert i < |w.written| ==> Received(w.written[i], w.issued);
    }
    assert forall i | 0 <= i < |w.written| :: next.written[i] == w.written[i] && Received(w.written[i], w.issued);
  }

  lemma InvSeq(w: World)
    requires Inv(w)
    ensures w.link.nextSeq == SeqAt(w.issued)
    ensures w.control.Awaiting? ==> w.control.seqNo == SeqAt(w.control.number)
  {
  }

  lemma StepWrite(w: World, s: Step)
    requires InvInOrder(w) && Enabled(w, s) && s.Write? && Inv(Next(w, s))
    ensures InvInOrder(Next(w, s))
  {
    hide Inv, Begin, Counted, Queued, Commands, Logged;
    Issued(w, Next(w, s));
  }

  lemma StepDevice(w: World, s: Step)
    requires InvInOrder(w) && s.DeviceSends? && InOrderStep(w, s) && Inv(Next(w, s))
    ensures InvInOrder(Next(w, s))
  {
    hide Inv, RepliesTo, InStep, Received;
  }

  lemma StepDrain(w: World)
    requires InvInOrder(w) && w.control.Idle? && Inv(Next(w, Drain))
    ensures InvInOrder(Next(w, Drain))
  {
    hide Inv, Counted, Queued, Fetch, InStep, Received;
    QueuedDrain(w, Next(w, Drain));
  }

  lemma QueuedDrain(w: World, next: World)
    requires Counted(w) && Queued(w)
    requires next == if w.unread == [] then w.(link := next.link)
                     else w.(link := next.link, unread := w.unread[1..], drained := w.drained + 1)
    ensures Counted(next) && Queued(next)
  {
    hide RepliesTo;
    assert forall i | 0 <= i < |next.unread| :: next.unread[i] == w.unread[i + |w.unread| - |next.unread|];
  }

  /** The command that the response at the head of the queue answers: as many back as responses are overdue. */
  lemma HeadCommand(w: World)
    requires InvInOrder(w) && w.control.Awaiting? && w.unread != []
    ensures var lag := w.timeouts - w.drained;
            && 0 <= lag && 0 <= Consumed(w) == |w.written| - 1 - lag
            && var command := w.written[Consumed(w)];
               && RepliesTo(command, w.unread[0]) && Received(command, w.issued)
               && (lag == 0 ==> command.number == w.control.number && command.call == w.control.call)
               && (lag > 0 ==> command.number < w.control.number)
  {
    hide Inv, RepliesTo, Received, InStep;
    assert RepliesTo(w.written[Consumed(w) + 0], w.unread[0]);
    assert Received(w.written[Consumed(w)], w.issued);
  }

  lemma HeadInStep(w: World, e: Entry)
    requires InvInOrder(w) && w.control.Awaiting? && w.unread != []
    requires e.number == w.control.number && e.call == w.control.call && e.from == w.unread[0]
    requires e.lag == w.timeouts - w.drained
    ensures InStep(e)
  {
    hide Inv, Queued, Commands, Logged, Counted, Decode, ArrivalOf, IsResponse, Wire, SeqAt;
    HeadCommand(w);
  }

  lemma StepReceive(w: World, s: Step)
    requires InvInOrder(w) && Enabled(w, s) && s.Receive? && Inv(Next(w, s))
    ensures InvInOrder(Next(w, s))
  {
    QueuedReceive(w, s);
    CommandsReceive(w, s);
    LoggedReceive(w, s, Next(w, s));
    hide Inv, Queued, Commands, Logged, Next;
  }

  lemma QueuedReceive(w: World, s: Step)
    requires Counted(w) && Queued(w) && Enabled(w, s) && s.Receive?
    ensures Counted(Next(w, s)) && Queued(Next(w, s))
  {
    hide RepliesTo, Respond;
    var next := Next(w, s);
    assert forall i | 0 <= i < |next.unread| :: next.unread[i] == w.unread[i + |w.unread| - |next.unread|];
  }

  lemma CommandsReceive(w: World, s: Step)
    requires Commands(w) && Enabled(w, s) && s.Receive?
    ensures Commands(Next(w, s))
  {
    hide Received, Respond;
    var next := Next(w, s);
    assert next.written == w.written && next.issued == w.issued;
  }

  lemma LoggedReceive(w: World, s: Step, next: World)
    requires InvInOrder(w) && Enabled(w, s) && s.Receive? && next == Next(w, s)
    ensures Logged(next)
  {
    hide Inv, Queued, Commands, Counted, InStep, Respond;
    if w.unread != [] {
      HeadInStep(w, next.log[|w.log|]);
    }
  }

  lemma {:induction false} ReachableInOrder(steps: seq<Step>)
    requires Legal(steps) && InOrderRun(steps)
    ensures InvInOrder(After(steps))
  {
    hide InvInOrder, Inv, Enabled, Next, InOrderStep;
    Reachable(steps);
    if steps == [] {
      StartInOrder();
    } else {
      var init := steps[..|steps| - 1];
      ReachableInOrder(init);
      StepInOrder(After(init), steps[|steps| - 1]);
    }
  }

  lemma StartInOrder()
    ensures InvInOrder(START)
  {
  }

  lemma StepInOrder(w: World, s: Step)
    requires InvInOrder(w) && Enabled(w, s) && InOrderStep(w, s) && Inv(Next(w, s))
    ensures InvInOrder(Next(w, s))
  {
    match s
    case Send(_, _, _) => StepSend(w, s);
    case Receive(_, _) => StepReceive(w, s);
    case Write(_, _, _) => StepWrite(w, s);
    case Drain => StepDrain(w);
    case DeviceSends(_) => StepDevice(w, s);
  }

  // ------------------------------------------------------- the device can answer

  /** A response header that echoes a request. */
  function ReplyHeader(q: Header, status: word): Header {
    ZERO_HEADER.(refSeq := q.seqNo, chType := q.chType, chId := q.chId, msgType := MSG_RSP, opcode := q.opcode,
                 status := status)
  }

  /** A device that builds an echoing frame and sends it in any split takes a step of an in-order run. */
  lemma AnswerEnabled(w: World, status: word, payload: seq<byte>, packets: seq<seq<byte>>)
    requires InvInOrder(w) && w.produced < |w.written| && |payload| <= MAX_PAYLOAD_LEN
    requires Decode(w.written[w.produced].frame).Accepted?
    requires Splits(packets, Frame(ReplyHeader(Decode(w.written[w.produced].frame).header, status), payload))
    ensures var s := DeviceSends(Unread(Arrivals(packets), w.written[w.produced].number));
            Enabled(w, s) && InOrderStep(w, s)
  {
    hide Inv, Decode, Frame, Splits, Unit, ArrivalOf, WholeFrame, Delivered, Wire, SeqAt, InStep;
    var command := w.written[w.produced];
    assert Received(command, w.issued);
    var h := ReplyHeader(Decode(command.frame).header, status);
    BuiltFrame(h, payload);
    FrameUnit(Frame(h, payload), packets, command.number);
    DeliveredReply(h, payload);
  }

  lemma DeliveredReply(h: Header, payload: seq<byte>)
    ensures var d := Delivered(Message(h, payload));
            && d.msgType == h.msgType && d.refSeq == h.refSeq
            && d.chType == h.chType && d.chId == h.chId && d.opcode == h.opcode
  {
  }

  // --------------------------------------------------- what the host is told

  /** The step reads a response and comes back with ERR_TIMEOUT. */
  predicate Late(w: World, s: Step) {
    && s.Receive? && w.control.Awaiting?
    && Respond(w.link, w.control.call, w.control.seqNo, s.capacity, s.hasBuffer).0 == Refused(ErrTimeout)
  }

  /** The step is a uart_read or ble_read_event that takes a frame from the stream. */
  predicate Taken(w: World, s: Step) {
    s.Drain? && Fetch(w.link).0.Arrived?
  }

  function LateReads(steps: seq<Step>): nat {
    if steps == [] then 0
    else LateReads(steps[..|steps| - 1]) + if Late(After(steps[..|steps| - 1]), steps[|steps| - 1]) then 1 else 0
  }

  function Drained(steps: seq<Step>): nat {
    if steps == [] then 0
    else Drained(steps[..|steps| - 1]) + if Taken(After(steps[..|steps| - 1]), steps[|steps| - 1]) then 1 else 0
  }

  /** A read times out exactly when no response has been sent, and anything else it meets is a response. */
  lemma TimeoutExactly(w: World, capacity: nat, hasBuffer: bool)
    requires InvInOrder(w) && w.control.Awaiting?
    ensures var v := Respond(w.link, w.control.call, w.control.seqNo, capacity, hasBuffer).0;
            v == Refused(ErrTimeout) <==> w.unread == []
  {
    if w.unread == [] {
      EmptyTape(w);
      FetchNothing();
      hide ArrivalOf, ReadResult;
    } else {
      var v := Respond(w.link, w.control.call, w.control.seqNo, capacity, hasBuffer).0;
      var e := Entry(w.control.number, w.control.call, capacity, hasBuffer, w.unread[0], v, w.timeouts - w.drained);
      HeadInStep(w, e);
      ExpectedVerdict(w, capacity, hasBuffer, e);
      hide InvInOrder, Respond, ArrivalOf;
      ExpectedNotTimeout(e);
    }
  }

  lemma EmptyTape(w: World)
    requires Inv(w) && w.unread == []
    ensures w.link.tape == []
  {
  }

  lemma ExpectedNotTimeout(e: Entry)
    requires IsResponse(e.from)
    ensures Expected(e) != Refused(ErrTimeout)
  {
    hide ArrivalOf, SameSlot, SameTarget;
  }

  /** In an in-order run a drain takes a frame exactly when one was sent. */
  lemma DrainExactly(w: World)
    requires InvInOrder(w)
    ensures Fetch(w.link).0.Arrived? <==> w.unread != []
  {
    if w.unread == [] {
      EmptyTape(w);
      FetchNothing();
    } else {
      DrainHead(w);
    }
    hide InvInOrder, ArrivalOf, ReadResult;
  }

  lemma DrainHead(w: World)
    requires InvInOrder(w) && w.unread != []
    ensures ArrivalOf(w.link.tape).Arrived?
  {
    hide ArrivalOf, ReadResult, Decode, Unit, Sound, Echoes, Commands, Logged;
    assert w.unread[0] in w.unread && Unit(w.unread[0]);
    assert RepliesTo(w.written[Consumed(w) + 0], w.unread[0]);
    FetchUnit(w.unread[0], Tape(w.unread[1..]));
  }

  lemma CounterStep(w: World, s: Step)
    requires InvInOrder(w) && Enabled(w, s)
    ensures Next(w, s).timeouts == w.timeouts + (if Late(w, s) then 1 else 0)
    ensures Next(w, s).drained == w.drained + (if Taken(w, s) then 1 else 0)
  {
    hide InvInOrder, Respond, Fetch, Begin;
    if s.Receive? {
      TimeoutExactly(w, s.capacity, s.hasBuffer);
    } else if s.Drain? {
      DrainExactly(w);
    }
  }

  /** The two counters of a run are what the host was told. */
  lemma {:induction false} CountersTold(steps: seq<Step>)
    requires Legal(steps) && InOrderRun(steps)
    ensures After(steps).timeouts == LateReads(steps) && After(steps).drained == Drained(steps)
  {
    hide InvInOrder, Next, Enabled, InOrderStep, Late, Taken;
    if steps != [] {
      var init := steps[..|steps| - 1];
      CountersTold(init);
      ReachableInOrder(init);
      CounterStep(After(init), steps[|steps| - 1]);
    }
  }

  // ----------------------------------------------------------------- theorems

  /**
   * Conservation: the responses still due are exactly the reads that came back with ERR_TIMEOUT and were not made
   * good by draining, plus that of the call in progress; so every successful transaction emits one command and
   * consumes one response.
   */
  lemma Conservation(steps: seq<Step>)
    requires Legal(steps) && InOrderRun(steps)
    ensures Outstanding(After(steps))
         == LateReads(steps) - Drained(steps) + if After(steps).control.Awaiting? then 1 else 0
    ensures After(steps).control.Idle? ==> Drained(steps) <= LateReads(steps)
  {
    hide Legal, InOrderRun, After, Inv, Queued, Commands, Logged, LateReads, Drained;
    CountersTold(steps);
    ReachableInOrder(steps);
  }

  lemma LoggedEntry(steps: seq<Step>, e: Entry)
    requires Legal(steps) && InOrderRun(steps) && e in After(steps).log
    ensures Sound(e) && InStep(e) && e.lag <= After(steps).timeouts
  {
    hide Legal, InOrderRun, After, Sound, InStep;
    ReachableInOrder(steps);
  }

  /**
   * The lag of an entry is what the host was told before the read that logged it: the reads that had come back with
   * ERR_TIMEOUT by then, less the frames drained by then. That read is step j of the run.
   */
  lemma {:induction false} LagTold(steps: seq<Step>, e: Entry) returns (j: nat)
    requires Legal(steps) && InOrderRun(steps) && e in After(steps).log
    ensures j < |steps| && steps[j].Receive? && After(steps[..j + 1]).log == After(steps[..j]).log + [e]
    ensures e.lag == LateReads(steps[..j]) - Drained(steps[..j])
  {
    hide InOrderStep, Enabled, Next, Late, Taken;
    if steps == [] {
      EmptyLog(steps, e);
    }
    var n := |steps| - 1;
    var init, s := steps[..n], steps[n];
    if e in After(init).log {
      j := LagTold(init, e);
      assert init[..j] == steps[..j] && init[..j + 1] == steps[..j + 1];
    } else {
      j := n;
      assert steps[..n + 1] == steps;
      CountersTold(init);
      LogStep(After(init), s, e);
    }
  }

  lemma EmptyLog(steps: seq<Step>, e: Entry)
    requires steps == []
    ensures e !in After(steps).log
  {
  }

  lemma LogStep(w: World, s: Step, e: Entry)
    requires e in Next(w, s).log && e !in w.log
    ensures s.Receive? && Next(w, s).log == w.log + [e] && e.lag == w.timeouts - w.drained
  {
    hide Begin, Respond, Fetch;
  }

  /** While no read has timed out, every response read answers its own request and gets the verdict it deserves. */
  lemma MatchedWithoutTimeouts(steps: seq<Step>, e: Entry)
    requires Legal(steps) && InOrderRun(steps) && LateReads(steps) == 0 && e in After(steps).log
    ensures IsResponse(e.from) && e.from.answers == e.number
    ensures var a := ArrivalOf(e.from.events); e.verdict == Granted(e, a.header, a.payload)
  {
    hide Legal, InOrderRun, After, LateReads, ArrivalOf, Granted;
    CountersTold(steps);
    LoggedEntry(steps, e);
  }

  /**
   * After a timed-out read the host does not resynchronise. A read that meets a response while one is overdue meets
   * that of an earlier call. It is refused with the protocol error if and only if the calls are not a multiple of
   * 65535 apart or differ in channel or opcode; otherwise it is taken for the own response. Once everything overdue
   * is drained, responses match again.
   */
  lemma OverdueExactly(steps: seq<Step>, e: Entry)
    requires Legal(steps) && InOrderRun(steps) && e in After(steps).log
    ensures IsResponse(e.from) && e.lag >= 0
    ensures var a := ArrivalOf(e.from.events);
            if e.lag == 0 then e.from.answers == e.number && e.verdict == Granted(e, a.header, a.payload)
            else
              && e.from.answers < e.number
              && (e.verdict == Refused(ErrProto)
                  <==> (e.number - e.from.answers) % 65535 != 0 || !SameTarget(a.header, e.call))
              && (e.verdict != Refused(ErrProto) ==> e.verdict == Granted(e, a.header, a.payload))
  {
    hide Legal, InOrderRun, After, ArrivalOf, Granted, SameTarget;
    LoggedEntry(steps, e);
    MatchExactly(steps, e);
  }

  // ---------------------------------------- an overdue response that is accepted

  lemma ExtendInOrder(steps: seq<Step>, s: Step)
    requires Legal(steps) && InOrderRun(steps) && Enabled(After(steps), s) && InOrderStep(After(steps), s)
    ensures Legal(steps + [s]) && InOrderRun(steps + [s]) && After(steps + [s]) == Next(After(steps), s)
  {
    hide Enabled, Next, InOrderStep;
    Extend(steps, s);
    assert (steps + [s])[..|steps|] == steps;
  }

  /** A command without payload that is written whole. */
  function WholeSend(c: Call): Step {
    Send(c, Null(0), [Moved(24)])
  }

  lemma AfterWholeSend(steps: seq<Step>, c: Call)
    requires Legal(steps) && InOrderRun(steps) && After(steps).control.Idle? && c.msgType == MSG_CMD
    ensures var w, longer := After(steps), steps + [WholeSend(c)];
            && Legal(longer) && InOrderRun(longer)
            && var next := After(longer);
               && next.control.Awaiting? && next.control.number == w.issued && next.control.call == c
               && |next.written| == |w.written| + 1 && w.written <= next.written
               && next.written[|w.written|].number == w.issued && next.written[|w.written|].call == c
               && next == w.(link := next.link, control := next.control, issued := w.issued + 1,
                             written := next.written)
  {
    hide Legal, After, InOrderRun, Begin;
    ExtendInOrder(steps, WholeSend(c));
    WriteHeaderOnly(c, After(steps).link.(out := [Moved(24)]));
  }

  /** n commands whose writes time out. */
  function Failing(c: Call, n: nat): (steps: seq<Step>)
    ensures |steps| == n
  {
    if n == 0 then [] else Failing(c, n - 1) + [Send(c, Null(0), [])]
  }

  lemma {:induction false} AfterFailing(steps: seq<Step>, c: Call, n: nat)
    requires Legal(steps) && InOrderRun(steps) && After(steps).control.Idle? && c.msgType == MSG_CMD
    ensures var w, longer := After(steps), steps + Failing(c, n);
            && Legal(longer) && InOrderRun(longer)
            && After(longer) == w.(link := After(longer).link, issued := w.issued + n)
  {
    hide Legal, After, InOrderRun, Begin;
    if n == 0 {
      assert steps + Failing(c, 0) == steps;
    } else {
      AfterFailing(steps, c, n - 1);
      var before := steps + Failing(c, n - 1);
      assert steps + Failing(c, n) == before + [Send(c, Null(0), [])];
      SilentWrite(c, After(before).link.(out := []));
      ExtendInOrder(before, Send(c, Null(0), []));
    }
  }

  lemma SilentWrite(c: Call, link: Link)
    requires link.out == []
    ensures Begin(link, c, Null(0)).0 == ErrTimeout
  {
    hide Encode;
  }

  /**
   * A run of an in-order device in which the host accepts an overdue response: call 0 is written whole and its
   * read times out; 65534 calls fail to be written; call 65535 is written whole, the device now answers call 0,
   * and the host delivers that answer to call 65535.
   */
  lemma OverdueAccepted(c: Call) returns (steps: seq<Step>, e: Entry)
    requires c.msgType == MSG_CMD
    ensures Legal(steps) && InOrderRun(steps) && e in After(steps).log
    ensures e.lag == 1 && e.number == 65535 && e.from.answers == 0 && e.verdict.Delivers?
  {
    hide Legal, After, InOrderRun, Next, InvInOrder, Failing;
    assert Legal([]) && InOrderRun([]) && After([]) == START by { EmptyRun(); }
    AfterWholeSend([], c);
    var s1 := [] + [WholeSend(c)];
    var s2 := AfterTimeout(s1);
    AfterFailing(s2, c, 65534);
    var s3 := s2 + Failing(c, 65534);
    AfterWholeSend(s3, c);
    var s4 := s3 + [WholeSend(c)];
    steps, e := LateAnswer(s4, c);
  }

  lemma EmptyRun()
    ensures Legal([]) && InOrderRun([]) && After([]) == START
  {
  }

  lemma AfterTimeout(steps: seq<Step>) returns (longer: seq<Step>)
    requires Legal(steps) && InOrderRun(steps) && After(steps).control.Awaiting? && After(steps).unread == []
    ensures Legal(longer) && InOrderRun(longer)
    ensures After(longer)
         == After(steps).(link := After(longer).link, control := Idle, timeouts := After(steps).timeouts + 1)
  {
    hide Legal, After, InOrderRun, Respond;
    ExtendInOrder(steps, Receive(0, false));
    longer := steps + [Receive(0, false)];
  }

  /** Two commands are written, the first read has timed out, the second call waits, and the first is answered. */
  lemma LateAnswer(steps: seq<Step>, c: Call) returns (longer: seq<Step>, e: Entry)
    requires Legal(steps) && InOrderRun(steps)
    requires var w := After(steps);
             && w.control.Awaiting? && w.control.call == c && w.control.number == 65535
             && |w.written| == 2 && w.written[0].number == 0 && w.written[0].call == c
             && w.unread == [] && w.produced == 0 && w.timeouts == 1 && w.drained == 0
    ensures Legal(longer) && InOrderRun(longer) && e in After(longer).log
    ensures e.lag == 1 && e.number == 65535 && e.from.answers == 0 && e.verdict.Delivers?
  {
    hide Legal, After, InOrderRun, InvInOrder, Enabled, InOrderStep;
    hide Frame, Decode, Splits, Expected, Respond, ReplyHeader;
    var w := After(steps);
    ReachableInOrder(steps);
    FirstReceived(w, c);
    var q := Decode(w.written[0].frame).header;
    var f := Frame(ReplyHeader(q, 0), []);
    SinglePacket(f);
    AnswerEnabled(w, 0, [], [f]);
    var u := Unread(Arrivals([f]), 0);
    ExtendInOrder(steps, DeviceSends(u));
    var answered := steps + [DeviceSends(u)];
    ReachableInOrder(answered);
    InOrderSound(After(answered));
    ReceiveEnabled(After(answered));
    ExtendInOrder(answered, Receive(0, false));
    longer := answered + [Receive(0, false)];
    e := After(longer).log[|After(answered).log|];
    ExpectedVerdict(After(answered), 0, false, e);
    ReplyAccepted(q, c, e, f);
  }

  lemma InOrderSound(w: World)
    requires InvInOrder(w)
    ensures Inv(w)
  {
  }

  lemma ReceiveEnabled(w: World)
    requires w.control.Awaiting?
    ensures Enabled(w, Receive(0, false)) && InOrderStep(w, Receive(0, false))
  {
  }

  lemma FirstReceived(w: World, c: Call)
    requires InvInOrder(w) && w.written != [] && w.written[0].call == c
    ensures Decode(w.written[0].frame).Accepted?
    ensures SameTarget(Decode(w.written[0].frame).header, c)
  {
    hide Inv, Decode, Queued, Logged;
    assert Received(w.written[0], w.issued);
  }

  lemma ReplyAccepted(q: Header, c: Call, e: Entry, f: seq<byte>)
    requires SameTarget(q, c) && f == Frame(ReplyHeader(q, 0), [])
    requires e.from == Unread(Arrivals([f]), 0) && e.number == 65535 && e.call == c
    requires e.capacity == 0 && !e.hasBuffer
    ensures Expected(e).Delivers?
  {
    hide Frame, Decode, Unit, ArrivalOf, WholeFrame, Delivered, PayloadStatus;
    var h := ReplyHeader(q, 0);
    BuiltFrame(h, []);
    SinglePacket(f);
    FrameUnit(f, [f], 0);
    DeliveredFields(h);
    EmptyPayload(Delivered(Message(h, [])), 0, false);
  }
}
