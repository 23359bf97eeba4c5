/** What a device has received over a run: the frames written, back to back, unless a failed write left a fragment. */
module Outbound {
  import opened Words
  import opened Codec
  import opened Transport
  import opened Delivery
  import opened Transactions
  import opened Sequence
  import opened Sessions

  /** A frame that was written whole; a command expects a response, a data frame does not. */
  datatype Outgoing = Outgoing(command: bool, frame: seq<byte>)

  predicate Sends(s: Step) {
    s.Send? || s.Write?
  }

  function CallOf(s: Step): Call
    requires Sends(s)
  {
    if s.Send? then s.call else DataCall(s.port)
  }

  /** What the step returned. */
  function StatusOf(w: World, s: Step): Status
    requires Sends(s)
  {
    Begin(w.link.(out := s.out), CallOf(s), s.payload).0
  }

  /** The frame for a request, which carries the number of the call since open modulo the counter's round. */
  function FrameFor(number: nat, c: Call, data: seq<byte>): seq<byte> {
    if |data| > MAX_PAYLOAD_LEN then [] else Frame(RequestHeader(SeqAt(number), c), data)
  }

  /** The frames of the writes that succeeded, in order. */
  function Outgoings(steps: seq<Step>): seq<Outgoing> {
    if steps == [] then []
    else
      var init, s := steps[..|steps| - 1], steps[|steps| - 1];
      var w := After(init);
      if Sends(s) && StatusOf(w, s) == Ok
      then Outgoings(init) + [Outgoing(s.Send?, FrameFor(w.issued, CallOf(s), Bytes(s.payload)))]
      else Outgoings(init)
  }

  /** Every write that failed moved nothing. */
  predicate CleanFailures(steps: seq<Step>) {
    steps == [] ||
    (CleanFailures(steps[..|steps| - 1]) && CleanStep(After(steps[..|steps| - 1]), steps[|steps| - 1]))
  }

  predicate CleanStep(w: World, s: Step) {
    Sends(s) && StatusOf(w, s) != Ok ==>
      WriteMoved(w.link.(out := s.out), CallOf(s), s.payload) == []
  }

  /** The bytes that a request puts on the stream, whether it succeeds or not. */
  function WriteMoved(link: Link, c: Call, payload: Argument): seq<byte> {
    if (payload.Null? && payload.len != 0) || |Bytes(payload)| > MAX_PAYLOAD_LEN then []
    else WriteResult(Frame(RequestHeader(link.nextSeq, c), Bytes(payload)), link.out).moved
  }

  function Stream(frames: seq<Outgoing>): seq<byte> {
    if frames == [] then [] else Stream(frames[..|frames| - 1]) + frames[|frames| - 1].frame
  }

  function CommandFrames(frames: seq<Outgoing>): seq<seq<byte>> {
    if frames == [] then []
    else
      var last := frames[|frames| - 1];
      CommandFrames(frames[..|frames| - 1]) + if last.command then [last.frame] else []
  }

  function FramesOf(written: seq<Written>): seq<seq<byte>> {
    if written == [] then [] else FramesOf(written[..|written| - 1]) + [written[|written| - 1].frame]
  }

  // -------------------------------------------------------------------- steps

  /** A request adds a prefix of its frame to the stream, and all of it when it returns OK. */
  lemma MovedPrefix(link: Link, c: Call, payload: Argument)
    ensures Begin(link, c, payload).1.sent == link.sent + WriteMoved(link, c, payload)
    ensures Begin(link, c, payload).0 == Ok ==>
      && |Bytes(payload)| <= MAX_PAYLOAD_LEN
      && WriteMoved(link, c, payload) == Frame(RequestHeader(link.nextSeq, c), Bytes(payload))
  {
    hide Frame, WriteAll;
    if |Bytes(payload)| <= MAX_PAYLOAD_LEN {
      WritePrefix(Frame(RequestHeader(link.nextSeq, c), Bytes(payload)), link.out);
    }
    assert link.sent + [] == link.sent;
  }

  lemma KeptStep(w: World, s: Step)
    requires Enabled(w, s) && !Sends(s)
    ensures Next(w, s).link.sent == w.link.sent && Next(w, s).written == w.written
  {
    hide ReadResult, ArrivalOf, JudgeResponse, Unit, Echoes;
  }

  lemma SentStep(w: World, s: Step)
    requires Inv(w) && Enabled(w, s)
    ensures !Sends(s) ==> Next(w, s).link.sent == w.link.sent && Next(w, s).written == w.written
    ensures Sends(s) ==>
      var moved := WriteMoved(w.link.(out := s.out), CallOf(s), s.payload);
      && Next(w, s).link.sent == w.link.sent + moved
      && (StatusOf(w, s) == Ok ==> moved == FrameFor(w.issued, CallOf(s), Bytes(s.payload)))
      && (if s.Send? && StatusOf(w, s) == Ok then
            |Next(w, s).written| == |w.written| + 1 && w.written <= Next(w, s).written
            && Next(w, s).written[|w.written|].frame == moved
          else Next(w, s).written == w.written)
  {
    hide Begin, WriteMoved, Frame, Respond, Fetch, SeqAt;
    InvNumber(w);
    hide Inv;
    if Sends(s) {
      var link := w.link.(out := s.out);
      MovedPrefix(link, CallOf(s), s.payload);
      var moved := WriteMoved(link, CallOf(s), s.payload);
      assert (w.link.sent + moved)[|w.link.sent|..] == moved;
    } else {
      KeptStep(w, s);
    }
  }

  lemma InvNumber(w: World)
    requires Inv(w)
    ensures w.link.nextSeq == SeqAt(w.issued)
  {
  }

  lemma LastFrame(frames: seq<Outgoing>, o: Outgoing)
    ensures Stream(frames + [o]) == Stream(frames) + o.frame
    ensures CommandFrames(frames + [o]) == CommandFrames(frames) + if o.command then [o.frame] else []
  {
    assert (frames + [o])[..|frames|] == frames;
  }

  lemma LastWritten(before: seq<Written>, after: seq<Written>)
    requires |after| == |before| + 1 && before <= after
    ensures FramesOf(after) == FramesOf(before) + [after[|before|].frame]
  {
    assert after[..|before|] == before;
  }

  // ----------------------------------------------------------------- theorems

  /** The commands among the frames sent are exactly those that the run has recorded as written, in order. */
  lemma {:induction false} WrittenFrames(steps: seq<Step>)
    requires Legal(steps)
    ensures FramesOf(After(steps).written) == CommandFrames(Outgoings(steps))
  {
    hide Next, Enabled, StatusOf, FrameFor, CallOf, CommandFrames, FramesOf;
    if steps == [] {
      EmptyFrames();
    } else {
      var init, s := steps[..|steps| - 1], steps[|steps| - 1];
      var w := After(init);
      WrittenFrames(init);
      Reachable(init);
      SentStep(w, s);
      if Sends(s) && StatusOf(w, s) == Ok {
        LastFrame(Outgoings(init), Outgoing(s.Send?, FrameFor(w.issued, CallOf(s), Bytes(s.payload))));
        if s.Send? {
          LastWritten(w.written, Next(w, s).written);
        }
      }
    }
  }

  lemma EmptyFrames()
    ensures FramesOf([]) == [] && CommandFrames([]) == [] && Stream([]) == []
    ensures Outgoings([]) == [] && After([]) == START
  {
  }

  /** Fragments only ever make the stream longer than its frames. */
  lemma {:induction false} SentLength(steps: seq<Step>)
    requires Legal(steps)
    ensures |After(steps).link.sent| >= |Stream(Outgoings(steps))|
    ensures |After(steps).link.sent| == |Stream(Outgoings(steps))| ==> CleanFailures(steps)
    ensures CleanFailures(steps) ==> After(steps).link.sent == Stream(Outgoings(steps))
  {
    hide Next, Enabled, StatusOf, FrameFor, CallOf, Stream, WriteMoved;
    if steps == [] {
      EmptyFrames();
    } else {
      var init, s := steps[..|steps| - 1], steps[|steps| - 1];
      var w := After(init);
      SentLength(init);
      Reachable(init);
      SentStep(w, s);
      if Sends(s) && StatusOf(w, s) == Ok {
        LastFrame(Outgoings(init), Outgoing(s.Send?, FrameFor(w.issued, CallOf(s), Bytes(s.payload))));
      }
    }
  }

  /**
   * Over every run, what the device has received is the frames of the successful writes back to back, commands and
   * data frames in the order of the calls, if and only if no failed write moved a byte.
   */
  lemma SentExactly(steps: seq<Step>)
    requires Legal(steps)
    ensures After(steps).link.sent == Stream(Outgoings(steps)) <==> CleanFailures(steps)
  {
    hide Legal, After, CleanFailures, Stream, Outgoings;
    SentLength(steps);
  }
}
