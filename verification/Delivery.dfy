/** What the partial-transfer loops guarantee about the byte streams, for every behaviour of the endpoints. */
module Delivery {
  import opened Words
  import opened Codec
  import opened RoundTrip
  import opened Transport

  const INT_MAX: nat := 0x7FFF_FFFF

  function Concat(parts: seq<seq<byte>>): seq<byte> {
    if parts == [] then [] else parts[0] + Concat(parts[1..])
  }

  // ------------------------------------------------------------------ sending

  /** Whatever the endpoint does, the device gets a prefix of the frame, and all of it once when the call succeeds. */
  lemma {:induction false} WritePrefix(frame: seq<byte>, out: seq<OutEvent>)
    ensures var w := WriteAll(frame, out);
            |w.moved| <= |frame| && w.moved == frame[..|w.moved|] && (w.status == Ok ==> w.moved == frame)
    decreases |out|
  {
    if frame != [] && out != [] {
      var n := Min(out[0].bytes, |frame|);
      if out[0].Moved? && n > 0 {
        var pending := frame[n..];
        var later := WriteAll(pending, out[1..]);
        WritePrefix(pending, out[1..]);
        assert WriteAll(frame, out).moved == frame[..n] + later.moved;
        PrefixJoin(frame, n, later.moved);
      }
    }
  }

  lemma PrefixJoin(frame: seq<byte>, n: nat, more: seq<byte>)
    requires n <= |frame| && |more| <= |frame| - n && more == frame[n..][..|more|]
    ensures frame[..n] + more == frame[..n + |more|]
    ensures more == frame[n..] ==> frame[..n] + more == frame
  {
  }

  /** An empty or too long frame is refused before anything is moved. */
  lemma WriteGuard(frame: seq<byte>, out: seq<OutEvent>)
    ensures frame == [] || |frame| > 512 ==> WriteResult(frame, out) == WriteOutcome(ErrOverflow, [], out)
    ensures 0 < |frame| <= 512 ==> WriteResult(frame, out) == WriteAll(frame, out)
  {
  }

  /** What a stretch of the schedule is able to move. */
  function MovedBy(out: seq<OutEvent>): nat {
    if out == [] then 0 else out[0].bytes + MovedBy(out[1..])
  }

  predicate Progressing(out: seq<OutEvent>) {
    forall e | e in out :: e.Moved? && e.bytes > 0
  }

  lemma FrontOf(out: seq<OutEvent>, k: nat)
    requires 0 < k <= |out|
    ensures MovedBy(out[..k]) == out[0].bytes + MovedBy(out[1..][..k - 1])
    ensures Progressing(out[..k]) <==> out[0].Moved? && out[0].bytes > 0 && Progressing(out[1..][..k - 1])
  {
    assert out[..k][1..] == out[1..][..k - 1] && out[..k] == [out[0]] + out[1..][..k - 1];
  }

  /** A write succeeds exactly when some stretch of the schedule makes progress in every call and moves the frame. */
  lemma {:induction false} WriteExactly(frame: seq<byte>, out: seq<OutEvent>)
    ensures WriteAll(frame, out).status == Ok
            <==> exists k | 0 <= k <= |out| :: Progressing(out[..k]) && MovedBy(out[..k]) >= |frame|
    decreases |out|
  {
    if frame == [] {
      assert Progressing(out[..0]);
    } else if out != [] {
      var n, rest := Min(out[0].bytes, |frame|), out[1..];
      WriteExactly(frame[n..], rest);
      if WriteAll(frame, out).status == Ok {
        var k :| 0 <= k <= |rest| && Progressing(rest[..k]) && MovedBy(rest[..k]) >= |frame[n..]|;
        FrontOf(out, k + 1);
        assert Progressing(out[..k + 1]);
      }
      if k :| 0 <= k <= |out| && Progressing(out[..k]) && MovedBy(out[..k]) >= |frame| {
        FrontOf(out, k);
        assert Progressing(rest[..k - 1]);
      }
    }
  }

  /** A failed write ran out of schedule while making progress, or its last call failed or moved nothing. */
  predicate WriteCause(status: Status, out: seq<OutEvent>, used: nat)
    requires used <= |out|
  {
    if used == |out| && Progressing(out) then status == ErrTimeout
    else
      && used > 0 && Progressing(out[..used - 1])
      && var last := out[used - 1];
         if last.Failed? then status == MapUsbError(last.error) else status == ErrIo && last.bytes == 0
  }

  predicate Accounted(w: WriteOutcome, frame: seq<byte>, out: seq<OutEvent>) {
    var used := |out| - |w.rest|;
    && 0 <= used <= |frame| && w.rest == out[used..]
    && |w.moved| == Min(MovedBy(out[..used]), |frame|)
    && (w.status != Ok ==> WriteCause(w.status, out, used))
  }

  /** How many events a write takes, how many bytes it moves, and which event a failure comes from. */
  lemma {:induction false} WriteAccount(frame: seq<byte>, out: seq<OutEvent>)
    ensures Accounted(WriteAll(frame, out), frame, out)
    decreases |out|
  {
    if frame == [] || out == [] {
      assert out[..0] == [];
    } else {
      var n := Min(out[0].bytes, |frame|);
      if out[0].Moved? && n > 0 {
        hide Accounted;
        WriteAccount(frame[n..], out[1..]);
        AccountStep(frame, out, WriteAll(frame[n..], out[1..]));
      } else {
        FrontOf(out, 1);
      }
    }
  }

  lemma AccountStep(frame: seq<byte>, out: seq<OutEvent>, later: WriteOutcome)
    requires frame != [] && out != [] && out[0].Moved? && out[0].bytes > 0
    requires Accounted(later, frame[Min(out[0].bytes, |frame|)..], out[1..])
    ensures Accounted(later.(moved := frame[..Min(out[0].bytes, |frame|)] + later.moved), frame, out)
  {
    var used := |out| - |later.rest|;
    FrontOf(out, used);
    assert out[1..][used - 1..] == out[used..];
    if later.status != Ok {
      CauseStep(later.status, out, used);
    }
    hide WriteCause;
  }

  lemma CauseStep(status: Status, out: seq<OutEvent>, used: nat)
    requires 0 < used <= |out| && out[0].Moved? && out[0].bytes > 0
    requires WriteCause(status, out[1..], used - 1)
    ensures WriteCause(status, out, used)
  {
  }

  // ---------------------------------------------------------------- receiving

  /** The bytes a stretch of the tape delivers. */
  function BytesOf(tape: seq<InEvent>): seq<byte> {
    if tape == [] then []
    else (if tape[0].Packet? then tape[0].data else []) + BytesOf(tape[1..])
  }

  /** Reading takes a prefix of the tape, and on success exactly the bytes of that prefix. */
  lemma {:induction false} ReadConsumes(tape: seq<InEvent>, got: seq<byte>, target: nat, capacity: nat)
    requires |got| <= capacity
    ensures var r := ReadLoop(tape, got, target, capacity);
            && |r.rest| <= |tape| && r.rest == tape[|tape| - |r.rest|..]
            && |r.got| <= capacity
            && (r.status == Ok ==> r.got == got + BytesOf(tape[..|tape| - |r.rest|]) && |r.got| >= r.target)
    decreases |tape|
  {
    hide Decode, NextTarget;
    var r := ReadLoop(tape, got, target, capacity);
    if |got| >= target || Wanted(|got|, capacity) <= 0 {
      assert tape[..0] == [];
    } else if tape != [] && tape[0].Packet? && 0 < |tape[0].data| <= Wanted(|got|, capacity) {
      var data := tape[0].data;
      RequestFits(|got|, capacity);
      var (status, next) := NextTarget(got + data, target, capacity);
      if status == Ok {
        ReadConsumes(tape[1..], got + data, next, capacity);
        var k := |tape| - |r.rest|;
        BytesFront(tape, k, got);
      }
    }
  }

  lemma BytesFront(tape: seq<InEvent>, k: nat, got: seq<byte>)
    requires 0 < k <= |tape| && tape[0].Packet?
    ensures got + BytesOf(tape[..k]) == (got + tape[0].data) + BytesOf(tape[1..][..k - 1])
  {
    assert tape[..k][0] == tape[0] && tape[..k][1..] == tape[1..][..k - 1];
  }

  /** The state of a read between two transfers: either the header is incomplete, or the target is its total length. */
  predicate Reading(got: seq<byte>, target: nat, capacity: nat) {
    && |got| <= capacity
    && if |got| < HEADER_LEN then target == HEADER_LEN
       else Decode(got).Accepted? && target == Len(Decode(got).header.totalLen) <= capacity
  }

  /** Once the header is decoded and bytes are missing, the guard of the decode is false and nothing changes. */
  lemma NextReading(got: seq<byte>, data: seq<byte>, target: nat, capacity: nat)
    requires Reading(got, target, capacity) && |got| < target && |got| + |data| <= capacity
    ensures var (status, next) := NextTarget(got + data, target, capacity);
            && (status == Ok ==> Reading(got + data, next, capacity))
            && (|got| >= HEADER_LEN ==> target != HEADER_LEN && status == Ok && next == target)
            && (|got| >= HEADER_LEN ==> Decode(got + data) == Decode(got))
  {
    if |got| >= HEADER_LEN {
      DecodePrefix(got, got + data);
    }
    hide Decode;
  }

  /** A successful read ends with a decoded header whose total length is the length reported. */
  lemma {:induction false} ReadDecoded(tape: seq<InEvent>, got: seq<byte>, target: nat, capacity: nat)
    requires Reading(got, target, capacity)
    ensures var r := ReadLoop(tape, got, target, capacity);
            r.status == Ok ==>
              && |r.got| >= HEADER_LEN && Reading(r.got, r.target, capacity)
              && |r.got| >= |got| && r.got[..|got|] == got
    decreases |tape|
  {
    hide Decode, NextTarget;
    if |got| >= target {
      assert got[..|got|] == got;
    } else if tape != [] && tape[0].Packet? && 0 < |tape[0].data| <= Wanted(|got|, capacity) {
      RequestFits(|got|, capacity);
      NextReading(got, tape[0].data, target, capacity);
      var (status, next) := NextTarget(got + tape[0].data, target, capacity);
      if status == Ok {
        ReadDecoded(tape[1..], got + tape[0].data, next, capacity);
        var r := ReadLoop(tape, got, target, capacity);
        if r.status == Ok {
          assert r.got[..|got|] == r.got[..|got + tape[0].data|][..|got|];
        }
      }
    }
  }

  /** On success with a total length of at least 24, at most 63 bytes beyond the frame were taken. */
  lemma {:induction false} SurplusBound(tape: seq<InEvent>, got: seq<byte>, target: nat, capacity: nat)
    requires Reading(got, target, capacity) && |got| <= target + 63
    ensures var r := ReadLoop(tape, got, target, capacity);
            r.status == Ok && r.target >= HEADER_LEN ==> |r.got| <= r.target + 63
    decreases |tape|
  {
    hide Decode, NextTarget;
    if |got| < target && tape != [] && tape[0].Packet? && 0 < |tape[0].data| <= Wanted(|got|, capacity) {
      var data := tape[0].data;
      RequestFits(|got|, capacity);
      NextReading(got, data, target, capacity);
      var (status, next) := NextTarget(got + data, target, capacity);
      if status == Ok {
        if |got + data| < next {
          SurplusBound(tape[1..], got + data, next, capacity);
        } else {
          // the loop ends here; a target of at least 24 was not below the offset before this packet
          assert ReadLoop(tape[1..], got + data, next, capacity) == ReadOutcome(Ok, next, got + data, false, tape[1..]);
        }
      }
    }
  }

  function AtLeastHeader(n: nat): nat {
    if n < HEADER_LEN then HEADER_LEN else n
  }

  /** A read makes at most max(24, total length) transfers, a last silent one included. */
  lemma {:induction false} TransferBound(tape: seq<InEvent>, got: seq<byte>, target: nat, capacity: nat)
    requires Reading(got, target, capacity)
    ensures var r := ReadLoop(tape, got, target, capacity);
            && |tape| - |r.rest| + (if r.starved then 1 else 0)
               <= (if |got| >= target then 0 else AtLeastHeader(r.target) - |got|)
            && (|got| >= HEADER_LEN ==> r.target == target)
    decreases |tape|
  {
    hide Decode, NextTarget;
    if |got| < target && tape != [] && tape[0].Packet? && 0 < |tape[0].data| <= Wanted(|got|, capacity) {
      var data := tape[0].data;
      RequestFits(|got|, capacity);
      NextReading(got, data, target, capacity);
      var (status, next) := NextTarget(got + data, target, capacity);
      if status == Ok {
        TransferBound(tape[1..], got + data, next, capacity);
      }
    }
  }

  /** Buffers without room for a header, and those whose size as a 32-bit int is not positive, are refused at once. */
  lemma ReadGuard(tape: seq<InEvent>, capacity: nat)
    ensures capacity < 24 ==> ReadResult(tape, capacity) == ReadOutcome(ErrOverflow, 0, [], false, tape)
    ensures 0x8000_0000 <= capacity <= 0x1_0000_0000 ==>
      ReadResult(tape, capacity) == ReadOutcome(ErrOverflow, 24, [], false, tape)
  {
  }

  predicate Delivering(tape: seq<InEvent>) {
    forall e | e in tape :: e.Packet? && e.data != []
  }

  /**
   * A failed read found the endpoint silent, or it is the last event it took that failed: a transfer error, an
   * empty or oversized packet, or the packet that completed a header which is bad or announces too long a frame.
   */
  predicate ReadCause(r: ReadOutcome, tape: seq<InEvent>, used: nat, capacity: nat)
    requires used <= |tape| && |r.got| <= capacity
  {
    if r.starved then r.status == ErrTimeout && used == |tape| && Delivering(tape)
    else
      && used > 0 && Delivering(tape[..used - 1])
      && match tape[used - 1]
         case Failure(error) => r.status == MapUsbError(error)
         case Packet(data) =>
           || (r.status == ErrIo && (data == [] || |data| > Wanted(|r.got|, capacity)))
           || (|r.got| >= HEADER_LEN && Decode(r.got) == Rejected(r.status))
           || (|r.got| >= HEADER_LEN && Decode(r.got).Accepted? && Len(Decode(r.got).header.totalLen) > capacity
               && r.status == ErrOverflow)
  }

  /** Why a read fails. Within the range of int the loop never runs out of buffer, so that is not among the causes. */
  lemma {:induction false} ReadFailure(tape: seq<InEvent>, got: seq<byte>, target: nat, capacity: nat)
    requires Reading(got, target, capacity) && HEADER_LEN <= capacity <= INT_MAX
    ensures |got| < target ==> Wanted(|got|, capacity) > 0
    ensures var r := ReadLoop(tape, got, target, capacity);
            var used := |tape| - |r.rest|;
            && 0 <= used <= |tape| && |r.got| <= capacity
            && (r.status != Ok ==> ReadCause(r, tape, used, capacity))
    decreases |tape|
  {
    hide Decode, ReadLoop, ReadCause, NextTarget, Reading;
    WantedPositive(got, target, capacity);
    var r := ReadLoop(tape, got, target, capacity);
    if |got| >= target {
      ReadDone(tape, got, target, capacity);
    } else if Continues(tape, got, target, capacity) {
      var data := tape[0].data;
      ReadStep(tape, got, target, capacity);
      NextReading(got, data, target, capacity);
      ReadFailure(tape[1..], got + data, NextTarget(got + data, target, capacity).1, capacity);
      if r.status != Ok {
        ReadCauseStep(r, tape, |tape| - |r.rest|, capacity);
      }
    } else {
      ReadStops(tape, got, target, capacity);
    }
  }

  lemma WantedPositive(got: seq<byte>, target: nat, capacity: nat)
    requires Reading(got, target, capacity) && HEADER_LEN <= capacity <= INT_MAX
    ensures |got| <= capacity && (|got| < target ==> Wanted(|got|, capacity) > 0)
  {
    hide Decode;
  }

  /** The next packet is taken and leaves the read going. */
  predicate Continues(tape: seq<InEvent>, got: seq<byte>, target: nat, capacity: nat)
    requires |got| <= capacity
  {
    && tape != [] && tape[0].Packet? && 0 < |tape[0].data| <= Wanted(|got|, capacity)
    && NextTarget(got + tape[0].data, target, capacity).0 == Ok
  }

  lemma ReadStops(tape: seq<InEvent>, got: seq<byte>, target: nat, capacity: nat)
    requires |got| < target && |got| <= capacity && Wanted(|got|, capacity) > 0
    requires !Continues(tape, got, target, capacity)
    ensures var r := ReadLoop(tape, got, target, capacity);
            var used := |tape| - |r.rest|;
            0 <= used <= |tape| && |r.got| <= capacity && ReadCause(r, tape, used, capacity)
  {
    hide Decode, ReadLoop;
    ReadStep(tape, got, target, capacity);
  }

  lemma ReadCauseStep(r: ReadOutcome, tape: seq<InEvent>, used: nat, capacity: nat)
    requires 0 < used <= |tape| && |r.got| <= capacity && tape[0].Packet? && tape[0].data != []
    requires ReadCause(r, tape[1..], used - 1, capacity)
    ensures ReadCause(r, tape, used, capacity)
  {
  }

  /** An outcome that did not wait for more tape does not depend on what comes later. */
  lemma {:induction false} ReadLocal(tape: seq<InEvent>, later: seq<InEvent>,
                                     got: seq<byte>, target: nat, capacity: nat)
    requires |got| <= capacity
    ensures var r := ReadLoop(tape, got, target, capacity);
            !r.starved ==> ReadLoop(tape + later, got, target, capacity) == r.(rest := r.rest + later)
    decreases |tape|
  {
    hide Decode, NextTarget;
    if |got| < target && Wanted(|got|, capacity) > 0 && tape != [] {
      assert (tape + later)[0] == tape[0] && (tape + later)[1..] == tape[1..] + later;
      if tape[0].Packet? && 0 < |tape[0].data| <= Wanted(|got|, capacity) {
        RequestFits(|got|, capacity);
        var (status, next) := NextTarget(got + tape[0].data, target, capacity);
        if status == Ok {
          ReadLocal(tape[1..], later, got + tape[0].data, next, capacity);
        }
      }
    }
  }

  // ------------------------------------------------------------ whole frames

  /** A frame as the encoder side builds it: a good header that gives its own length. */
  predicate WholeFrame(frame: seq<byte>) {
    && HEADER_LEN <= |frame| <= MAX_FRAME_LEN
    && Decode(frame).Accepted?
    && Len(Decode(frame).header.totalLen) == |frame|
  }

  /** A split of a frame into the packets a device may send: none empty, none above 64 bytes. */
  predicate Splits(packets: seq<seq<byte>>, frame: seq<byte>) {
    && Concat(packets) == frame
    && forall p | p in packets :: 0 < |p| <= 64
  }

  function Arrivals(packets: seq<seq<byte>>): (t: seq<InEvent>)
    ensures |t| == |packets|
  {
    if packets == [] then [] else [Packet(packets[0])] + Arrivals(packets[1..])
  }

  /** Packets that complete no frame are taken one by one. */
  lemma {:induction false} ReceiveFront(frame: seq<byte>, got: seq<byte>, packets: seq<seq<byte>>,
                                        rest: seq<InEvent>, capacity: nat)
    requires WholeFrame(frame) && |frame| <= capacity <= INT_MAX
    requires got + Concat(packets) <= frame
    requires forall p | p in packets :: 0 < |p| <= 64
    ensures ReadLoop(Arrivals(packets) + rest, got, TargetAt(got, frame), capacity)
         == ReadLoop(rest, got + Concat(packets), TargetAt(got + Concat(packets), frame), capacity)
    decreases |packets|
  {
    hide Decode, NextTarget, ReadLoop, WholeFrame, TargetAt, Wanted;
    if packets == [] {
      assert got + [] == got && Arrivals(packets) + rest == rest;
    } else {
      var data, tape := packets[0], Arrivals(packets) + rest;
      assert data in packets;
      FirstArrival(packets, rest);
      FirstBytes(packets, got);
      PrefixOf(got + data, Concat(packets[1..]), frame);
      hide Concat, Arrivals;
      ReceiveStep(frame, got, data, capacity);
      TakePacket(tape, got, TargetAt(got, frame), capacity);
      ReceiveFront(frame, got + data, packets[1..], rest, capacity);
    }
  }

  lemma FirstArrival(packets: seq<seq<byte>>, rest: seq<InEvent>)
    requires packets != []
    ensures var tape := Arrivals(packets) + rest;
            tape != [] && tape[0] == Packet(packets[0]) && tape[1..] == Arrivals(packets[1..]) + rest
  {
    assert Arrivals(packets) == [Packet(packets[0])] + Arrivals(packets[1..]);
    hide Arrivals;
    FirstOf(Packet(packets[0]), Arrivals(packets[1..]), rest);
  }

  lemma FirstOf<T>(a: T, s: seq<T>, t: seq<T>)
    ensures (([a] + s) + t)[0] == a && (([a] + s) + t)[1..] == s + t
  {
  }

  lemma FirstBytes(packets: seq<seq<byte>>, got: seq<byte>)
    requires packets != []
    ensures (got + packets[0]) + Concat(packets[1..]) == got + Concat(packets)
  {
  }

  lemma PrefixOf(a: seq<byte>, b: seq<byte>, frame: seq<byte>)
    requires a + b <= frame
    ensures a <= frame
  {
    assert a == (a + b)[..|a|];
  }

  /** What the loop waits for while a frame comes in. */
  function TargetAt(got: seq<byte>, frame: seq<byte>): nat {
    if |got| < HEADER_LEN then HEADER_LEN else |frame|
  }

  lemma TakePacket(tape: seq<InEvent>, got: seq<byte>, target: nat, capacity: nat)
    requires tape != [] && tape[0].Packet? && |got| < target && |got| <= capacity
    requires 0 < |tape[0].data| <= Wanted(|got|, capacity)
    ensures |tape[0].data| <= capacity - |got|
    ensures var (status, next) := NextTarget(got + tape[0].data, target, capacity);
            status == Ok ==>
              ReadLoop(tape, got, target, capacity) == ReadLoop(tape[1..], got + tape[0].data, next, capacity)
  {
    hide NextTarget;
    RequestFits(|got|, capacity);
  }

  lemma ReceiveStep(frame: seq<byte>, got: seq<byte>, data: seq<byte>, capacity: nat)
    requires WholeFrame(frame) && |frame| <= capacity <= INT_MAX && 0 < |data| <= 64
    requires got + data <= frame
    ensures |got| < TargetAt(got, frame)
    ensures |data| <= Wanted(|got|, capacity)
    ensures NextTarget(got + data, TargetAt(got, frame), capacity) == (Ok, TargetAt(got + data, frame))
  {
    var got' := got + data;
    assert got' == frame[..|got'|];
    if |got'| >= HEADER_LEN {
      assert got'[..HEADER_LEN] == frame[..HEADER_LEN];
      DecodePrefix(frame, got');
    }
    hide Decode;
  }

  /** Any split of a frame into packets that do not cross its end delivers exactly that frame and takes nothing else. */
  lemma ReceiveFrame(frame: seq<byte>, packets: seq<seq<byte>>, rest: seq<InEvent>, capacity: nat)
    requires WholeFrame(frame) && |frame| <= capacity <= INT_MAX && Splits(packets, frame)
    ensures ReadResult(Arrivals(packets) + rest, capacity) == ReadOutcome(Ok, |frame|, frame, false, rest)
  {
    hide Decode, ReadLoop;
    assert [] + Concat(packets) == frame;
    ReceiveFront(frame, [], packets, rest, capacity);
    ReadDone(rest, frame, |frame|, capacity);
  }

  /** Everything a successful read_frame guarantees about the stream and the buffer, for every tape. */
  lemma ReadGuarantee(tape: seq<InEvent>, capacity: nat)
    requires ReadResult(tape, capacity).status == Ok
    ensures var r := ReadResult(tape, capacity);
            var used := |tape| - |r.rest|;
            && 0 <= used <= AtLeastHeader(r.target) && r.rest == tape[used..]
            && r.got == BytesOf(tape[..used]) && r.target <= |r.got| <= capacity && |r.got| >= HEADER_LEN
            && Decode(r.got).Accepted? && r.target == Len(Decode(r.got).header.totalLen)
            && (r.target >= HEADER_LEN ==> |r.got| <= r.target + 63)
  {
    hide Decode, ReadLoop;
    ReadConsumes(tape, [], HEADER_LEN, capacity);
    ReadDecoded(tape, [], HEADER_LEN, capacity);
    SurplusBound(tape, [], HEADER_LEN, capacity);
    TransferBound(tape, [], HEADER_LEN, capacity);
    var r := ReadResult(tape, capacity);
    assert [] + BytesOf(tape[..|tape| - |r.rest|]) == r.got;
  }

  /**
   * The second decode, of the reported length: it rejects the wrapped lengths that the first decode let
   * through, and otherwise it sees the same header, with the payload exactly behind it.
   */
  lemma SecondDecode(tape: seq<InEvent>, capacity: nat)
    requires ReadResult(tape, capacity).status == Ok
    ensures var r := ReadResult(tape, capacity);
            var frame := r.got[..r.target];
            if r.target < HEADER_LEN then Decode(frame) == Rejected(ErrProto)
            else
              && WholeFrame(frame) && Decode(frame) == Decode(r.got)
              && Len(Decode(frame).header.payloadLen) == r.target - HEADER_LEN <= MAX_PAYLOAD_LEN
  {
    hide ReadResult, Decode;
    ReadGuarantee(tape, capacity);
    var r := ReadResult(tape, capacity);
    AcceptedLengths(r.got);
    if r.target >= HEADER_LEN {
      DecodePrefix(r.got, r.got[..r.target]);
    } else {
      ShortRejected(r.got[..r.target]);
    }
  }

  /**
   * A last packet that runs past the end of its frame: if the buffer has room for all of it the frame is complete
   * and the surplus is lost, and otherwise the transfer overflows and the read fails.
   */
  lemma CrossingPacket(packets: seq<seq<byte>>, last: seq<byte>, surplus: seq<byte>, rest: seq<InEvent>, capacity: nat)
    requires var frame := Concat(packets) + last; WholeFrame(frame) && |frame| <= capacity <= INT_MAX
    requires (forall p | p in packets :: 0 < |p| <= 64) && last != [] && |last + surplus| <= 64
    ensures var front, frame := Concat(packets), Concat(packets) + last;
            ReadResult(Arrivals(packets) + ([Packet(last + surplus)] + rest), capacity)
              == if |frame| + |surplus| <= capacity then ReadOutcome(Ok, |frame|, frame + surplus, false, rest)
                 else ReadOutcome(ErrIo, TargetAt(front, frame), front, false, rest)
  {
    hide Decode, NextTarget, ReadLoop, WholeFrame, TargetAt;
    var front, frame, tape := Concat(packets), Concat(packets) + last, [Packet(last + surplus)] + rest;
    assert [] + front == front;
    WholeTarget(frame);
    ReceiveFront(frame, [], packets, tape, capacity);
    ReceiveStep(frame, front, last, capacity);
    CrossingTarget(front, last, surplus, capacity);
    CrossingRoom(|front|, |last|, |surplus|, capacity);
    assert tape[0] == Packet(last + surplus) && tape[1..] == rest;
    if |frame| + |surplus| <= capacity {
      TakePacket(tape, front, TargetAt(front, frame), capacity);
      assert front + (last + surplus) == frame + surplus;
      ReadDone(rest, frame + surplus, |frame|, capacity);
    } else {
      ReadStep(tape, front, TargetAt(front, frame), capacity);
    }
  }

  lemma WholeTarget(frame: seq<byte>)
    requires WholeFrame(frame)
    ensures HEADER_LEN <= |frame| && TargetAt([], frame) == HEADER_LEN && TargetAt(frame, frame) == |frame|
  {
    hide Decode;
  }

  /** The crossing packet announces the length of its frame like any other. */
  lemma CrossingTarget(front: seq<byte>, last: seq<byte>, surplus: seq<byte>, capacity: nat)
    requires WholeFrame(front + last) && |front + last| <= capacity
    ensures NextTarget(front + (last + surplus), TargetAt(front, front + last), capacity) == (Ok, |front + last|)
  {
    var frame, got := front + last, front + (last + surplus);
    assert got == frame + surplus && got[..HEADER_LEN] == frame[..HEADER_LEN];
    DecodePrefix(frame, got);
    hide Decode;
  }

  lemma CrossingRoom(front: nat, last: nat, surplus: nat, capacity: nat)
    requires front + last <= capacity <= INT_MAX && 0 < last && last + surplus <= 64
    ensures last + surplus <= Wanted(front, capacity) <==> front + last + surplus <= capacity
  {
  }

  // --------------------------------------------------------------- end to end

  datatype Message = Message(header: Header, payload: seq<byte>)

  /** The header the receiver of a message sees. */
  function Delivered(m: Message): Header {
    Finished(m.header.(payloadLen := Truncate(|m.payload|)))
  }

  lemma BuiltFrame(h: Header, payload: seq<byte>)
    requires |payload| <= MAX_PAYLOAD_LEN
    ensures var f := Frame(h, payload);
            && WholeFrame(f) && f[HEADER_LEN..] == payload
            && Decode(f) == Accepted(Delivered(Message(h, payload)))
  {
    hide Encode, Decode, Finished, Truncate, Encodable;
    var g := h.(payloadLen := Truncate(|payload|));
    TruncatedPayload(g, |payload|);
    SmallDecodable(g);
    EncodeDecode(g, payload);
    FinishedTotal(g);
  }

  lemma SmallDecodable(h: Header)
    requires Encodable(h)
    ensures Decodable(h)
  {
  }

  /** A frame that was written is read back as the same header and payload, however both transfers are cut up. */
  lemma EndToEnd(m: Message, out: seq<OutEvent>, packets: seq<seq<byte>>, rest: seq<InEvent>)
    requires |m.payload| <= MAX_PAYLOAD_LEN
    requires var w := WriteResult(Frame(m.header, m.payload), out); w.status == Ok && Splits(packets, w.moved)
    ensures var r := ReadResult(Arrivals(packets) + rest, MAX_FRAME_LEN);
            && r.status == Ok && r.rest == rest && r.target == |r.got|
            && Decode(r.got) == Accepted(Delivered(m)) && r.got[HEADER_LEN..] == m.payload
  {
    hide Decode, WholeFrame, Frame, Splits;
    var f := Frame(m.header, m.payload);
    BuiltFrame(m.header, m.payload);
    WritePrefix(f, out);
    WholeFits(f);
    ReceiveFrame(f, packets, rest, MAX_FRAME_LEN);
  }

  lemma WholeFits(f: seq<byte>)
    requires WholeFrame(f)
    ensures HEADER_LEN <= |f| <= MAX_FRAME_LEN
  {
  }

  function FrameOf(m: Message): seq<byte>
    requires |m.payload| <= MAX_PAYLOAD_LEN
  {
    Frame(m.header, m.payload)
  }

  predicate Sendable(messages: seq<Message>) {
    forall m | m in messages :: |m.payload| <= MAX_PAYLOAD_LEN
  }

  /** Writing messages one after another until a write fails. */
  function SendAll(messages: seq<Message>, out: seq<OutEvent>): WriteOutcome
    requires Sendable(messages)
  {
    if messages == [] then WriteOutcome(Ok, [], out)
    else
      assert messages[0] in messages;
      var w := WriteResult(FrameOf(messages[0]), out);
      if w.status != Ok then w
      else
        var later := SendAll(messages[1..], w.rest);
        later.(moved := w.moved + later.moved)
  }

  /** Reading n frames one after another until a read fails. */
  function ReceiveAll(n: nat, tape: seq<InEvent>): seq<seq<byte>> {
    if n == 0 then []
    else
      var r := ReadResult(tape, MAX_FRAME_LEN);
      if r.status != Ok then [] else [r.got[..r.target]] + ReceiveAll(n - 1, r.rest)
  }

  function Frames(messages: seq<Message>): (f: seq<seq<byte>>)
    requires Sendable(messages)
    ensures |f| == |messages|
  {
    if messages == [] then []
    else
      assert messages[0] in messages;
      [FrameOf(messages[0])] + Frames(messages[1..])
  }

  predicate SplitsAll(packets: seq<seq<seq<byte>>>, frames: seq<seq<byte>>) {
    |packets| == |frames| && forall i | 0 <= i < |frames| :: Splits(packets[i], frames[i])
  }

  function AllArrivals(packets: seq<seq<seq<byte>>>): seq<InEvent> {
    if packets == [] then [] else Arrivals(packets[0]) + AllArrivals(packets[1..])
  }

  /** When all writes succeed, the device has received the frames back to back. */
  lemma {:induction false} SentStream(messages: seq<Message>, out: seq<OutEvent>)
    requires Sendable(messages) && SendAll(messages, out).status == Ok
    ensures SendAll(messages, out).moved == Concat(Frames(messages))
    decreases |messages|
  {
    hide Frame;
    if messages != [] {
      assert messages[0] in messages;
      var w := WriteResult(FrameOf(messages[0]), out);
      WritePrefix(FrameOf(messages[0]), out);
      SentStream(messages[1..], w.rest);
      assert Frames(messages)[1..] == Frames(messages[1..]);
    }
  }

  /** Frames cut into packets one by one are read back as the same frames in the same order. */
  lemma {:induction false} ReceivedStream(messages: seq<Message>, packets: seq<seq<seq<byte>>>, rest: seq<InEvent>)
    requires Sendable(messages) && SplitsAll(packets, Frames(messages))
    ensures ReceiveAll(|messages|, AllArrivals(packets) + rest) == Frames(messages)
    decreases |messages|
  {
    hide Frame, Decode, ReadResult, Splits, WholeFrame;
    if messages == [] {
    } else {
      assert messages[0] in messages;
      var m, frames := messages[0], Frames(messages);
      var later := AllArrivals(packets[1..]) + rest;
      BuiltFrame(m.header, m.payload);
      WholeFits(frames[0]);
      assert AllArrivals(packets) + rest == Arrivals(packets[0]) + later;
      ReceiveFrame(frames[0], packets[0], later, MAX_FRAME_LEN);
      assert frames[0][..|frames[0]|] == frames[0];
      assert SplitsAll(packets[1..], Frames(messages[1..])) by {
        forall i | 0 <= i < |messages| - 1 ensures Splits(packets[1..][i], Frames(messages[1..])[i]) {
          assert packets[1..][i] == packets[i + 1] && Frames(messages[1..])[i] == frames[i + 1];
        }
      }
      ReceivedStream(messages[1..], packets[1..], rest);
    }
  }

  /** n messages that were sent arrive as the same n headers and payloads in order. */
  lemma StreamDelivery(messages: seq<Message>, out: seq<OutEvent>, packets: seq<seq<seq<byte>>>, rest: seq<InEvent>)
    requires Sendable(messages) && SendAll(messages, out).status == Ok
    requires SplitsAll(packets, Frames(messages))
    ensures Concat(ConcatAll(packets)) == SendAll(messages, out).moved
    ensures var received := ReceiveAll(|messages|, AllArrivals(packets) + rest);
            && |received| == |messages|
            && forall i | 0 <= i < |messages| ::
                 && Decode(received[i]) == Accepted(Delivered(messages[i]))
                 && |received[i]| >= HEADER_LEN && received[i][HEADER_LEN..] == messages[i].payload
  {
    hide Decode, Frame, SendAll, ReceiveAll;
    SentStream(messages, out);
    ReceivedStream(messages, packets, rest);
    ConcatSplits(packets, Frames(messages));
    forall i | 0 <= i < |messages|
      ensures var f := Frames(messages)[i];
              && Decode(f) == Accepted(Delivered(messages[i]))
              && |f| >= HEADER_LEN && f[HEADER_LEN..] == messages[i].payload
    {
      FramesAt(messages, i);
      assert messages[i] in messages;
      BuiltFrame(messages[i].header, messages[i].payload);
    }
  }

  lemma {:induction false} FramesAt(messages: seq<Message>, i: nat)
    requires Sendable(messages) && i < |messages|
    ensures messages[i] in messages && Frames(messages)[i] == FrameOf(messages[i])
  {
    hide Frame;
    assert messages[i] in messages;
    if i > 0 {
      FramesAt(messages[1..], i - 1);
    }
  }

  function ConcatAll(packets: seq<seq<seq<byte>>>): (c: seq<seq<byte>>)
    ensures |c| == |packets|
  {
    if packets == [] then [] else [Concat(packets[0])] + ConcatAll(packets[1..])
  }

  lemma {:induction false} ConcatSplits(packets: seq<seq<seq<byte>>>, frames: seq<seq<byte>>)
    requires SplitsAll(packets, frames)
    ensures ConcatAll(packets) == frames
    decreases |packets|
  {
    if packets != [] {
      assert Splits(packets[0], frames[0]);
      assert SplitsAll(packets[1..], frames[1..]) by {
        forall i | 0 <= i < |frames| - 1 ensures Splits(packets[1..][i], frames[1..][i]) {
          assert Splits(packets[i + 1], frames[i + 1]);
        }
      }
      ConcatSplits(packets[1..], frames[1..]);
      assert frames == [frames[0]] + frames[1..];
    }
  }
}
