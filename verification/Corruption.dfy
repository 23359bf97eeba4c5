/** Frames whose header was damaged on the way: what a read makes of them, and where the next read starts. */
module Corruption {
  import opened Words
  import opened Codec
  import opened RoundTrip
  import opened HeaderProtection
  import opened BorderBursts
  import opened Transport
  import opened Delivery
  import opened Transactions

  /** The damage that the checksum is sure to detect: few bits, an odd number of bits, or a short burst. */
  ghost predicate Detectable(a: seq<byte>, b: seq<byte>)
    requires |a| == HEADER_LEN && |b| == HEADER_LEN
  {
    || 1 <= Distance(a, b) <= 3
    || Distance(a, b) % 2 == 1
    || (a != b && exists p, n :: ShortBurst(a, b, p, n))
  }

  /** A window of 14 bits anywhere, or of 16 bits that does not cross from byte 21 to byte 22. */
  predicate ShortBurst(a: seq<byte>, b: seq<byte>, p: nat, n: nat)
    requires |a| == HEADER_LEN && |b| == HEADER_LEN
  {
    Window(a, b, p, n) && p + n <= 192 && (n <= 14 || (n <= 16 && (p + n <= 176 || 176 <= p)))
  }

  lemma DamageRejected(a: seq<byte>, b: seq<byte>)
    requires |a| == HEADER_LEN && |b| == HEADER_LEN && Decode(a).Accepted? && Detectable(a, b)
    ensures Decode(b).Rejected?
  {
    hide Decode, Distance, Window;
    if 1 <= Distance(a, b) <= 3 {
      ThreeBitErrorsRejected(a, b);
    } else if Distance(a, b) % 2 == 1 {
      OddErrorsRejected(a, b);
    } else {
      var p, n :| ShortBurst(a, b, p, n);
      if n <= 14 {
        ShortBurstRejected(a, b, p, n);
      } else {
        BurstRejected(a, b, p, n);
      }
    }
  }

  // ------------------------------------------------------- reading a bad header

  /** The first k packets, and no fewer, complete a header. */
  predicate Completes(packets: seq<seq<byte>>, k: nat, missing: int) {
    && 0 < k <= |packets|
    && |Concat(packets[..k - 1])| < missing <= |Concat(packets[..k])|
  }

  /** A header that ends the read as soon as it is complete: a bad one, or one with a wrapped total length. */
  predicate EndsRead(bad: seq<byte>) {
    |bad| >= HEADER_LEN && (Decode(bad).Rejected? || Len(Decode(bad).header.totalLen) < 24)
  }

  function EndStatus(bad: seq<byte>): Status {
    if Decode(bad).Rejected? then Decode(bad).error else Ok
  }

  function EndTarget(bad: seq<byte>): nat {
    if Decode(bad).Rejected? then 24 else Len(Decode(bad).header.totalLen)
  }

  /** Packets are taken up to the one that completes the header; then the read ends. */
  lemma {:induction false} EndedRest(got: seq<byte>, packets: seq<seq<byte>>, rest: seq<InEvent>, bad: seq<byte>)
    returns (k: nat)
    requires |got| < HEADER_LEN && EndsRead(bad) && got + Concat(packets) == bad
    requires forall p | p in packets :: 0 < |p| <= 64
    ensures k <= |packets| && Completes(packets, k, HEADER_LEN - |got|)
    ensures ReadLoop(Arrivals(packets) + rest, got, HEADER_LEN, MAX_FRAME_LEN)
         == ReadOutcome(EndStatus(bad), EndTarget(bad), got + Concat(packets[..k]), false,
                        Arrivals(packets[k..]) + rest)
    decreases |packets|
  {
    hide Decode, ReadLoop, Arrivals, Completes, NextTarget, Wanted, EndStatus, EndTarget;
    if packets == [] {
      assert false;
    }
    var data, later := packets[0], packets[1..];
    assert data in packets;
    FirstArrival(packets, rest);
    FirstBytes(packets, got);
    hide Concat;
    EndingPacket(got, data, bad);
    HeaderRoom(|got|);
    ReadStep(Arrivals(packets) + rest, got, HEADER_LEN, MAX_FRAME_LEN);
    if |got + data| >= HEADER_LEN {
      k := 1;
      FirstCompletes(packets, HEADER_LEN - |got|);
      if EndStatus(bad) == Ok {
        ReadDone(Arrivals(later) + rest, got + data, EndTarget(bad), MAX_FRAME_LEN);
      }
    } else {
      var j := EndedRest(got + data, later, rest, bad);
      k := j + 1;
      NextCompletes(packets, j, HEADER_LEN - |got|);
      AppendTwice(got, data, Concat(later[..j]));
    }
  }

  lemma AppendTwice(a: seq<byte>, b: seq<byte>, c: seq<byte>)
    ensures a + (b + c) == (a + b) + c && |a + b| == |a| + |b|
  {
  }

  lemma EndingPacket(got: seq<byte>, data: seq<byte>, bad: seq<byte>)
    requires |got| < HEADER_LEN && EndsRead(bad) && got + data <= bad
    ensures NextTarget(got + data, HEADER_LEN, MAX_FRAME_LEN)
         == if |got + data| < HEADER_LEN then (Ok, HEADER_LEN) else (EndStatus(bad), EndTarget(bad))
    ensures EndStatus(bad) == Ok ==> EndTarget(bad) < HEADER_LEN
  {
    if Decode(bad).Rejected? {
      RejectedError(bad);
    }
    if |got + data| >= HEADER_LEN {
      SameHeader(got + data, bad);
    }
    hide Decode;
  }

  lemma SameHeader(s: seq<byte>, bad: seq<byte>)
    requires HEADER_LEN <= |s| && s <= bad
    ensures Decode(s) == Decode(bad)
  {
    hide Decode;
    assert s == bad[..|s|];
    assert s[..HEADER_LEN] == bad[..HEADER_LEN];
    DecodePrefix(s, bad);
  }

  lemma HeaderRoom(offset: nat)
    requires offset < HEADER_LEN
    ensures Wanted(offset, MAX_FRAME_LEN) == 64
  {
  }

  lemma RejectedError(bad: seq<byte>)
    requires Decode(bad).Rejected?
    ensures Decode(bad).error == ErrProto || Decode(bad).error == ErrOverflow
  {
    hide Decode;
    DecodeExactly(bad);
  }

  lemma FirstCompletes(packets: seq<seq<byte>>, missing: int)
    requires packets != [] && 0 < missing <= |packets[0]|
    ensures Completes(packets, 1, missing) && Concat(packets[..1]) == packets[0]
  {
    assert packets[..0] == [] && packets[..1] == [packets[0]];
    assert Concat([packets[0]]) == packets[0] + Concat([]) == packets[0];
  }

  lemma NextCompletes(packets: seq<seq<byte>>, j: nat, missing: int)
    requires packets != [] && |packets[0]| < missing && Completes(packets[1..], j, missing - |packets[0]|)
    ensures Completes(packets, j + 1, missing)
    ensures Concat(packets[..j + 1]) == packets[0] + Concat(packets[1..][..j]) && packets[j + 1..] == packets[1..][j..]
  {
    assert packets[..j + 1] == [packets[0]] + packets[1..][..j];
    assert packets[..j] == [packets[0]] + packets[1..][..j - 1];
  }

  // ----------------------------------------------------------------- theorems

  /**
   * A frame whose header is damaged detectably, whatever its other bytes, and in whatever packets it arrives: the
   * read fails with the decoder's error and takes exactly the packets up to the one that completes the header.
   */
  lemma DamagedFrameMissed(frame: seq<byte>, bad: seq<byte>, packets: seq<seq<byte>>, rest: seq<InEvent>)
    returns (k: nat)
    requires WholeFrame(frame) && |bad| >= HEADER_LEN && Detectable(frame[..HEADER_LEN], bad[..HEADER_LEN])
    requires Splits(packets, bad)
    ensures Decode(bad).Rejected? && k <= |packets| && Completes(packets, k, HEADER_LEN)
    ensures ReadResult(Arrivals(packets) + rest, MAX_FRAME_LEN)
         == ReadOutcome(Decode(bad).error, HEADER_LEN, Concat(packets[..k]), false, Arrivals(packets[k..]) + rest)
    ensures ArrivalOf(Arrivals(packets) + rest) == Missed(Decode(bad).error)
  {
    hide Decode, ReadLoop, Detectable, Completes;
    var a, b := frame[..HEADER_LEN], bad[..HEADER_LEN];
    assert a[..HEADER_LEN] == a && b[..HEADER_LEN] == b;
    DecodePrefix(frame, a);
    DecodePrefix(bad, b);
    DamageRejected(a, b);
    RejectedError(bad);
    assert [] + Concat(packets) == bad;
    k := EndedRest([], packets, rest, bad);
    assert [] + Concat(packets[..k]) == Concat(packets[..k]);
  }

  /**
   * A frame whose length fields wrap, with a right checksum: read_frame reports OK with a length below 24, and it
   * is the second decode of every caller that refuses it.
   */
  lemma WrappedFrameRead(bad: seq<byte>, packets: seq<seq<byte>>, rest: seq<InEvent>) returns (k: nat)
    requires |bad| >= 24 && Decode(bad).Accepted? && 65512 <= Decode(bad).header.payloadLen && Splits(packets, bad)
    ensures k <= |packets| && Completes(packets, k, 24)
    ensures var total := Len(Decode(bad).header.totalLen);
            && total < 24
            && ReadResult(Arrivals(packets) + rest, 512)
               == ReadOutcome(Ok, total, Concat(packets[..k]), false, Arrivals(packets[k..]) + rest)
    ensures ArrivalOf(Arrivals(packets) + rest) == Missed(ErrProto)
  {
    hide Decode, ReadLoop, Completes;
    AcceptedLengths(bad);
    assert [] + Concat(packets) == bad;
    k := EndedRest([], packets, rest, bad);
    assert [] + Concat(packets[..k]) == Concat(packets[..k]);
    CompletedLength(packets, k);
    ShortRejected(Concat(packets[..k])[..Len(Decode(bad).header.totalLen)]);
  }

  lemma CompletedLength(packets: seq<seq<byte>>, k: nat)
    requires Completes(packets, k, HEADER_LEN)
    ensures |Concat(packets[..k])| >= HEADER_LEN
  {
  }

  /** No reader hands anything of such a frame to its caller. */
  lemma DamagedFrameRefused(link: Link, frame: seq<byte>, bad: seq<byte>, packets: seq<seq<byte>>, rest: seq<InEvent>,
                            c: Call, seqNo: u16, port: byte, capacity: nat, hasBuffer: bool)
    requires WholeFrame(frame) && |bad| >= HEADER_LEN && Detectable(frame[..HEADER_LEN], bad[..HEADER_LEN])
    requires Splits(packets, bad) && link.tape == Arrivals(packets) + rest
    ensures Decode(bad).Rejected?
    ensures var refused := Refused(Decode(bad).error);
            && Respond(link, c, seqNo, capacity, hasBuffer).0 == refused
            && ReadData(link, port, capacity).0 == refused
            && ReadEvent(link, capacity, hasBuffer).0 == refused
  {
    hide Decode, ReadResult, ArrivalOf, Detectable, Splits, Completes, WholeFrame;
    var k := DamagedFrameMissed(frame, bad, packets, rest);
  }

  /**
   * Where the next read starts: at the first byte behind the damaged frame exactly when the packet that completed
   * the header was the frame's last one, and otherwise inside the damaged frame.
   */
  lemma NextStart(frame: seq<byte>, bad: seq<byte>, packets: seq<seq<byte>>, rest: seq<InEvent>) returns (k: nat)
    requires WholeFrame(frame) && |bad| >= HEADER_LEN && Detectable(frame[..HEADER_LEN], bad[..HEADER_LEN])
    requires Splits(packets, bad)
    ensures k <= |packets| && Completes(packets, k, HEADER_LEN)
    ensures var next := ReadResult(Arrivals(packets) + rest, MAX_FRAME_LEN).rest;
            && (next == rest <==> k == |packets|)
            && bad == Concat(packets[..k]) + Concat(packets[k..])
            && BytesOf(next) == Concat(packets[k..]) + BytesOf(rest)
            && (k < |packets| <==> Concat(packets[k..]) != [])
  {
    hide Decode, ReadResult, Detectable, WholeFrame;
    k := DamagedFrameMissed(frame, bad, packets, rest);
    var left := packets[k..];
    ConcatSplit(packets, k);
    ArrivalBytes(left, rest);
    if left == [] {
      assert Arrivals(left) + rest == rest;
    } else {
      assert |Arrivals(left) + rest| > |rest|;
      assert left[0] in packets;
      assert Concat(left) == left[0] + Concat(left[1..]);
    }
  }

  lemma {:induction false} ConcatSplit(packets: seq<seq<byte>>, k: nat)
    requires k <= |packets|
    ensures Concat(packets) == Concat(packets[..k]) + Concat(packets[k..])
  {
    if k == 0 {
      assert packets[..0] == [] && packets[0..] == packets;
    } else {
      ConcatSplit(packets[1..], k - 1);
      assert packets[..k] == [packets[0]] + packets[1..][..k - 1] && packets[k..] == packets[1..][k - 1..];
    }
  }

  lemma {:induction false} ArrivalBytes(packets: seq<seq<byte>>, rest: seq<InEvent>)
    ensures BytesOf(Arrivals(packets) + rest) == Concat(packets) + BytesOf(rest)
  {
    if packets == [] {
      assert Arrivals(packets) + rest == rest;
    } else {
      FirstArrival(packets, rest);
      ArrivalBytes(packets[1..], rest);
    }
  }

  lemma LastCompletes(packets: seq<seq<byte>>, k: nat)
    requires Completes(packets, k, HEADER_LEN) && |Concat(packets[..|packets| - 1])| < HEADER_LEN
    ensures k == |packets|
  {
    var front := packets[..|packets| - 1];
    if k <= |front| {
      assert front[..k] == packets[..k];
      ConcatSplit(front, k);
    }
  }

  /** When that packet was the frame's last one, an undamaged frame behind it is read as if nothing had happened. */
  lemma Resynchronised(frame: seq<byte>, bad: seq<byte>, packets: seq<seq<byte>>,
                       good: seq<byte>, goodPackets: seq<seq<byte>>, rest: seq<InEvent>)
    requires WholeFrame(frame) && |bad| >= HEADER_LEN && Detectable(frame[..HEADER_LEN], bad[..HEADER_LEN])
    requires Splits(packets, bad) && packets != [] && |Concat(packets[..|packets| - 1])| < HEADER_LEN
    requires WholeFrame(good) && Splits(goodPackets, good)
    ensures var next := ReadResult(Arrivals(packets) + (Arrivals(goodPackets) + rest), MAX_FRAME_LEN).rest;
            ReadResult(next, MAX_FRAME_LEN) == ReadOutcome(Ok, |good|, good, false, rest)
  {
    hide Decode, ReadResult, Detectable, WholeFrame;
    var later := Arrivals(goodPackets) + rest;
    var k := NextStart(frame, bad, packets, later);
    LastCompletes(packets, k);
    WholeFits(good);
    ReceiveFrame(good, goodPackets, rest, MAX_FRAME_LEN);
  }
}
