/** Which corruptions of a header the checksum inside it detects. */
module HeaderProtection {
  import opened BitStrings
  import opened Polynomial
  import opened Words
  import opened Crc
  import opened Codec
  import opened Detection

  /** The number of bits in which two byte strings of the same length differ. */
  function Distance(a: seq<byte>, b: seq<byte>): nat
    requires |a| == |b|
  {
    Weight(Xor(BitsOf(a), BitsOf(b)))
  }

  /** A header whose checksum field holds the checksum of the other bytes. */
  predicate Sealed(s: seq<byte>) {
    |s| == HEADER_LEN && Checksum(Cleared(s)) == ReadLe16(s[20], s[21])
  }

  lemma AcceptedSealed(s: seq<byte>)
    requires |s| == HEADER_LEN && Decode(s).Accepted?
    ensures Sealed(s)
  {
  }

  lemma EncodedSealed(h: Header)
    ensures Sealed(Encode(h))
  {
    hide Checksum, Cleared, Serialize;
    var f := Finished(h);
    assert Serialize(f, f.headerCrc) + [] == Serialize(f, f.headerCrc);
    DeserializeSerialized(f, f.headerCrc, []);
    ChecksumFieldUnread(Shaped(h), f.headerCrc, 0);
    ChecksumPosition(Encode(h));
  }

  lemma ChecksumPosition(s: seq<byte>)
    requires |s| == HEADER_LEN
    ensures Deserialize(s).headerCrc == ReadLe16(s[20], s[21])
  {
  }

  // --------------------------------------------------- differences of headers

  /** The bits of a header as the checksum sees them: the field itself reads as zero. */
  function Message(s: seq<byte>): (m: Bits)
    requires |s| == HEADER_LEN
    ensures |m| == 192
  {
    BitsOf(s[..20]) + Zeros(16) + BitsOf(s[22..])
  }

  /** The checksum field as a polynomial; its bytes are stored low byte first. */
  function Field(s: seq<byte>): (c: Bits)
    requires |s| == HEADER_LEN
    ensures |c| == 16
  {
    Bits8(s[21]) + Bits8(s[20])
  }

  lemma MessageBits(s: seq<byte>)
    requires |s| == HEADER_LEN
    ensures BitsOf(Cleared(s)) == Message(s)
    ensures BitsOf(s) == BitsOf(s[..20]) + (Bits8(s[20]) + Bits8(s[21])) + BitsOf(s[22..])
  {
    hide BitsOf, Bits8;
    ZeroPair();
    BitsOfThree(s[..20], [0, 0], s[22..]);
    assert s[22..24] == s[22..];
    PairBits(s[20], s[21]);
    BitsOfThree(s[..20], [s[20], s[21]], s[22..]);
    SplitHeader(s);
  }

  lemma SplitHeader(s: seq<byte>)
    requires |s| == HEADER_LEN
    ensures s == s[..20] + [s[20], s[21]] + s[22..]
  {
  }

  lemma ZeroPair()
    ensures BitsOf([0, 0]) == Zeros(16)
  {
    hide Bits8;
    PairBits(0, 0);
    ZeroByte();
    assert Zeros(8) + Zeros(8) == Zeros(16);
  }

  lemma BitsOfThree(a: seq<byte>, b: seq<byte>, c: seq<byte>)
    ensures BitsOf(a + b + c) == BitsOf(a) + BitsOf(b) + BitsOf(c)
  {
    BitsOfAppend(a + b, c);
    BitsOfAppend(a, b);
  }

  lemma PairBits(a: byte, b: byte)
    ensures BitsOf([a, b]) == Bits8(a) + Bits8(b)
  {
  }

  /** Two sealed headers differ by a pattern that the checksum maps to itself. */
  lemma SealedIff(a: seq<byte>, b: seq<byte>)
    requires Sealed(a) && |b| == HEADER_LEN
    ensures Sealed(b) <==> Feed(Zeros(16), Xor(Message(a), Message(b))) == Xor(Field(a), Field(b))
  {
    hide Message, Field, Cleared, Checksum, Feed, Zeros, Ones, Xor;
    SealedFeeds(a);
    SealedFeeds(b);
    FeedLinear(Ones(16), Ones(16), Message(a), Message(b));
    XorSelf(Ones(16), Ones(16));
    XorCancels(Feed(Ones(16), Message(a)), Feed(Ones(16), Message(b)), Field(b));
  }

  lemma XorCancels(a: Bits, b: Bits, c: Bits)
    requires |a| == |b| == |c|
    ensures Xor(a, b) == Xor(a, c) <==> b == c
  {
    if Xor(a, b) == Xor(a, c) {
      forall i | 0 <= i < |b| ensures b[i] == c[i] {
        assert Xor(a, b)[i] == Xor(a, c)[i];
      }
    }
  }

  lemma SealedFeeds(s: seq<byte>)
    requires |s| == HEADER_LEN
    ensures Sealed(s) <==> Feed(Ones(16), Message(s)) == Field(s)
  {
    hide Message, Cleared, Update, Feed, Ones, ReadLe16, Bits16, Bits8;
    MessageBits(s);
    InitialBits();
    Bits16Update(0xFFFF, Cleared(s));
    Bits16Join(s[20], s[21]);
    Bits16Injective(Checksum(Cleared(s)), ReadLe16(s[20], s[21]));
  }

  /** Bits in which two headers differ are message bits or checksum bits. */
  lemma DistanceSplit(a: seq<byte>, b: seq<byte>)
    requires |a| == HEADER_LEN && |b| == HEADER_LEN
    ensures Distance(a, b) == Weight(Xor(Message(a), Message(b))) + Weight(Xor(Field(a), Field(b)))
  {
    hide Weight, BitsOf, Bits8, Xor, Zeros;
    MessageBits(a);
    MessageBits(b);
    var x, y := Xor(BitsOf(a[..20]), BitsOf(b[..20])), Xor(BitsOf(a[22..]), BitsOf(b[22..]));
    var low, high := Xor(Bits8(a[20]), Bits8(b[20])), Xor(Bits8(a[21]), Bits8(b[21]));
    XorAppend(Bits8(a[21]), Bits8(a[20]), Bits8(b[21]), Bits8(b[20]));
    XorAppend(Bits8(a[20]), Bits8(a[21]), Bits8(b[20]), Bits8(b[21]));
    XorThree(BitsOf(a[..20]), Bits8(a[20]) + Bits8(a[21]), BitsOf(a[22..]),
             BitsOf(b[..20]), Bits8(b[20]) + Bits8(b[21]), BitsOf(b[22..]));
    XorThree(BitsOf(a[..20]), Zeros(16), BitsOf(a[22..]), BitsOf(b[..20]), Zeros(16), BitsOf(b[22..]));
    XorSelf(Zeros(16), Zeros(16));
    WeightZero(Zeros(16));
    WeightThree(x, low + high, y);
    WeightThree(x, Zeros(16), y);
    WeightAppend(low, high);
    WeightAppend(high, low);
  }

  lemma XorThree(a: Bits, b: Bits, c: Bits, d: Bits, e: Bits, f: Bits)
    requires |a| == |d| && |b| == |e| && |c| == |f|
    ensures Xor(a + b + c, d + e + f) == Xor(a, d) + Xor(b, e) + Xor(c, f)
  {
  }

  lemma WeightThree(a: Bits, b: Bits, c: Bits)
    ensures Weight(a + b + c) == Weight(a) + Weight(b) + Weight(c)
  {
    WeightAppend(a + b, c);
    WeightAppend(a, b);
  }

  // ----------------------------------------------------------------- distance

  /** Two different headers whose checksums are right differ in at least four bits. */
  lemma SealedDistance(a: seq<byte>, b: seq<byte>)
    requires Sealed(a) && Sealed(b) && a != b
    ensures Distance(a, b) >= 4
  {
    hide Checksum, Cleared, Message, Field, BitsOf, Weight, Xor, Feed;
    SealedIff(a, b);
    DistanceSplit(a, b);
    DistancePositive(a, b);
    ThreeErrors(Xor(Message(a), Message(b)), Xor(Field(a), Field(b)));
  }

  lemma DistancePositive(a: seq<byte>, b: seq<byte>)
    requires |a| == |b| == HEADER_LEN && a != b
    ensures Distance(a, b) > 0
  {
    hide BitsOf, Weight, Xor;
    BitsOfInjective(a, b);
    XorSelf(BitsOf(a), BitsOf(b));
    WeightZero(Xor(BitsOf(a), BitsOf(b)));
  }

  /** Headers the decoder accepts are at least four bits apart, checksum bits included. */
  lemma MinimumDistance(a: seq<byte>, b: seq<byte>)
    requires |a| == HEADER_LEN && |b| == HEADER_LEN && a != b
    requires Decode(a).Accepted? && Decode(b).Accepted?
    ensures Distance(a, b) >= 4
  {
    hide Decode, Sealed;
    AcceptedSealed(a);
    AcceptedSealed(b);
    SealedDistance(a, b);
  }

  /** One, two or three flipped bits anywhere in an accepted header make the decoder refuse it. */
  lemma ThreeBitErrorsRejected(a: seq<byte>, b: seq<byte>)
    requires |a| == HEADER_LEN && |b| == HEADER_LEN
    requires Decode(a).Accepted? && 1 <= Distance(a, b) <= 3
    ensures Decode(b).Rejected?
  {
    hide Decode, BitsOf, Weight;
    if Decode(b).Accepted? {
      if a == b {
        XorSelf(BitsOf(a), BitsOf(b));
        WeightZero(Xor(BitsOf(a), BitsOf(b)));
      } else {
        MinimumDistance(a, b);
      }
    }
  }

  // ------------------------------------------------------------------- parity

  lemma FieldsWeight(s: seq<byte>)
    requires |s| == HEADER_LEN
    ensures Weight(BitsOf(s)) == Weight(Message(s)) + Weight(Field(s))
  {
    hide BitsOf, Bits8, Weight;
    MessageBits(s);
    WeightThree(BitsOf(s[..20]), Bits8(s[20]) + Bits8(s[21]), BitsOf(s[22..]));
    WeightThree(BitsOf(s[..20]), Zeros(16), BitsOf(s[22..]));
    WeightZero(Zeros(16));
    WeightAppend(Bits8(s[20]), Bits8(s[21]));
    WeightAppend(Bits8(s[21]), Bits8(s[20]));
  }

  lemma {:induction false} OnesWeight(n: nat)
    ensures Weight(Ones(n)) == n
  {
    if n > 0 {
      assert Ones(n)[1..] == Ones(n - 1);
      OnesWeight(n - 1);
    }
  }

  /** A header with a right checksum has an even number of one bits; so has everything the encoder writes. */
  lemma SealedEven(s: seq<byte>)
    requires Sealed(s)
    ensures !Odd(BitsOf(s))
  {
    hide Message, Field, BitsOf, Weight, Feed, Checksum, Cleared;
    SealedFeeds(s);
    FeedParity(Ones(16), Message(s));
    OnesWeight(16);
    FieldsWeight(s);
  }

  lemma EncodedEven(h: Header)
    ensures !Odd(BitsOf(Encode(h)))
  {
    hide Encode, Sealed, BitsOf, Odd;
    EncodedSealed(h);
    SealedEven(Encode(h));
  }

  /** Any odd number of flipped bits in an accepted header makes the decoder refuse it. */
  lemma OddErrorsRejected(a: seq<byte>, b: seq<byte>)
    requires |a| == HEADER_LEN && |b| == HEADER_LEN
    requires Decode(a).Accepted? && Distance(a, b) % 2 == 1
    ensures Decode(b).Rejected?
  {
    hide Decode, Sealed, BitsOf, Weight;
    AcceptedSealed(a);
    SealedEven(a);
    OddXor(BitsOf(a), BitsOf(b));
    if Decode(b).Accepted? {
      AcceptedSealed(b);
      SealedEven(b);
    }
  }

  // ------------------------------------------- errors in the last four bytes

  /** The checksum field. */
  function CrcWord(s: seq<byte>): word
    requires |s| == HEADER_LEN
  {
    ReadLe16(s[20], s[21])
  }

  /** The two reserved bytes, in the order in which the checksum takes them. */
  function TailWord(s: seq<byte>): word
    requires |s| == HEADER_LEN
  {
    ReadLe16(s[23], s[22])
  }

  lemma TailBits(s: seq<byte>)
    requires |s| == HEADER_LEN
    ensures BitsOf(s[22..]) == Bits16(TailWord(s)) && Field(s) == Bits16(CrcWord(s))
  {
    hide BitsOf, Bits8, Bits16, ReadLe16;
    assert s[22..] == [s[22], s[23]];
    PairBits(s[22], s[23]);
    Bits16Join(s[23], s[22]);
    Bits16Join(s[20], s[21]);
  }

  /** Exactly which errors confined to the checksum and the reserved field go unnoticed. */
  lemma TailErrors(a: seq<byte>, b: seq<byte>)
    requires Sealed(a) && |b| == HEADER_LEN && a[..20] == b[..20]
    ensures Sealed(b) <==> ShiftN(Plus(TailWord(a), TailWord(b)), 16) == Plus(CrcWord(a), CrcWord(b))
  {
    hide Checksum, Cleared, Field, TailWord, CrcWord, BitsOf, Bits16, ShiftN, Feed, Plus;
    var tail, crc := Plus(TailWord(a), TailWord(b)), Plus(CrcWord(a), CrcWord(b));
    SealedIff(a, b);
    TailDifference(a, b);
    LateMessage(tail);
    TailBits(a);
    TailBits(b);
    Bits16Xor(CrcWord(a), CrcWord(b));
    Bits16Injective(ShiftN(tail, 16), crc);
  }

  lemma TailDifference(a: seq<byte>, b: seq<byte>)
    requires |a| == HEADER_LEN && |b| == HEADER_LEN && a[..20] == b[..20]
    ensures Xor(Message(a), Message(b)) == Zeros(176) + Bits16(Plus(TailWord(a), TailWord(b)))
  {
    hide BitsOf, Bits16, Xor, Zeros, Plus, TailWord;
    TailBits(a);
    TailBits(b);
    Bits16Xor(TailWord(a), TailWord(b));
    XorThree(BitsOf(a[..20]), Zeros(16), BitsOf(a[22..]), BitsOf(b[..20]), Zeros(16), BitsOf(b[22..]));
    XorSelf(BitsOf(a[..20]), BitsOf(b[..20]));
    XorSelf(Zeros(16), Zeros(16));
    ZerosAppend(160, 16);
  }

  lemma ZerosAppend(m: nat, n: nat)
    ensures Zeros(m) + Zeros(n) == Zeros(m + n)
  {
  }

  lemma LateMessage(w: word)
    ensures Feed(Zeros(16), Zeros(176) + Bits16(w)) == Bits16(ShiftN(w, 16))
  {
    hide Bits16, ShiftN, Feed, TimesXN;
    FeedAppend(Zeros(16), Zeros(176), Bits16(w));
    FeedZeros(Zeros(16), 176);
    TimesXNZero(176);
    Preload(Zeros(16), Bits16(w));
    XorZeros(Bits16(w));
    assert Bits16(w) + Zeros(0) == Bits16(w);
    Bits16ShiftN(w, 16);
  }

  /** The header with some bits of its last four bytes flipped. */
  function Flip(a: seq<byte>, e20: byte, e21: byte, e22: byte, e23: byte): (b: seq<byte>)
    requires |a| == HEADER_LEN
    ensures |b| == HEADER_LEN
  {
    a[..20] + [a[20] ^ e20, a[21] ^ e21, a[22] ^ e22, a[23] ^ e23]
  }

  lemma FlipAccepted(a: seq<byte>, e20: byte, e21: byte, e22: byte, e23: byte)
    requires |a| == HEADER_LEN && Decode(a).Accepted?
    ensures Decode(Flip(a, e20, e21, e22, e23)).Accepted? <==> ShiftN(ReadLe16(e23, e22), 16) == ReadLe16(e20, e21)
  {
    hide ShiftN, ReadLe16, Checksum, Plus;
    var b := Flip(a, e20, e21, e22, e23);
    FlippedWords(a, e20, e21, e22, e23);
    AcceptedSealed(a);
    TailErrors(a, b);
    FlippedShape(a, b);
  }

  lemma FlippedWords(a: seq<byte>, e20: byte, e21: byte, e22: byte, e23: byte)
    requires |a| == HEADER_LEN
    ensures var b := Flip(a, e20, e21, e22, e23);
            && b[..20] == a[..20]
            && Plus(TailWord(a), TailWord(b)) == ReadLe16(e23, e22)
            && Plus(CrcWord(a), CrcWord(b)) == ReadLe16(e20, e21)
  {
  }

  /** The shape check reads nothing behind byte 19. */
  lemma FlippedShape(a: seq<byte>, b: seq<byte>)
    requires |a| == HEADER_LEN && |b| == HEADER_LEN && a[..20] == b[..20] && Decode(a).Accepted?
    ensures Decode(b).Accepted? <==> Sealed(b)
  {
    hide ReadLe16, Checksum, Cleared;
    assert forall i | 0 <= i < 20 :: a[i] == a[..20][i] && b[i] == b[..20][i];
  }

  /** The bound of four is reached: next to every accepted header there is another one at distance four. */
  lemma DistanceFourReached(a: seq<byte>) returns (b: seq<byte>)
    requires |a| == HEADER_LEN && Decode(a).Accepted?
    ensures |b| == HEADER_LEN && Decode(b).Accepted? && Distance(a, b) == 4
  {
    hide Decode, ShiftN, Shift16, BitsOf, Bits16, Weight, Plus, Xor, Flip, ReadLe16;
    b := Flip(a, 0x21, 0x10, 0x00, 0x01);
    GeneratorPattern();
    OrbitFirst();
    Shift16IsShiftN(0x0001);
    FlipAccepted(a, 0x21, 0x10, 0x00, 0x01);
    FlippedWords(a, 0x21, 0x10, 0x00, 0x01);
    DistanceSplit(a, b);
    TailDifference(a, b);
    TailBits(a);
    TailBits(b);
    Bits16Xor(CrcWord(a), CrcWord(b));
    PatternWeight();
  }

  lemma GeneratorPattern()
    ensures ReadLe16(0x01, 0x00) == 0x0001 && ReadLe16(0x21, 0x10) == 0x1021
  {
  }

  lemma PatternWeight()
    ensures Weight(Zeros(176) + Bits16(0x0001)) == 1 && Weight(Bits16(0x1021)) == 3
  {
    hide Bits16, Weight;
    UnitWord();
    GeneratorBits();
    LowWeight();
    WeightAppend(Zeros(176), Unit(0));
    WeightZero(Zeros(176));
    WeightThree(Zeros(15), [true], Zeros(0));
    WeightZero(Zeros(15));
    WeightZero(Zeros(0));
    WeightSingle(true);
  }

  // ------------------------------------------------------------------- bursts

  /** a and b agree in every bit outside the window of n bits that starts at bit p. */
  predicate Window(a: seq<byte>, b: seq<byte>, p: nat, n: nat)
    requires |a| == HEADER_LEN && |b| == HEADER_LEN
  {
    forall i | 0 <= i < 192 && !(p <= i < p + n) :: BitsOf(a)[i] == BitsOf(b)[i]
  }

  lemma {:induction false} ByteBits(s: seq<byte>, k: nat)
    requires k < |s|
    ensures BitsOf(s)[8 * k..8 * k + 8] == Bits8(s[k])
  {
    hide Bits8;
    BitsOfAppend(s[..k], s[k..]);
    assert s == s[..k] + s[k..];
  }

  lemma ByteOutside(a: seq<byte>, b: seq<byte>, p: nat, n: nat, k: nat)
    requires |a| == HEADER_LEN && |b| == HEADER_LEN && Window(a, b, p, n)
    requires k < 24 && (8 * k + 8 <= p || p + n <= 8 * k)
    ensures a[k] == b[k]
  {
    hide Bits8, BitsOf;
    ByteBits(a, k);
    ByteBits(b, k);
    assert BitsOf(a)[8 * k..8 * k + 8] == BitsOf(b)[8 * k..8 * k + 8];
    Bits8Injective(a[k], b[k]);
  }

  /** The error pattern of a window, seen by the checksum, is zero outside that window. */
  lemma WindowMessage(a: seq<byte>, b: seq<byte>, p: nat, n: nat)
    requires |a| == HEADER_LEN && |b| == HEADER_LEN && Window(a, b, p, n) && p + n <= 192
    ensures var m := Xor(Message(a), Message(b));
            m == Zeros(p) + m[p..p + n] + Zeros(192 - p - n)
  {
    hide BitsOf, Bits8;
    MessageBits(a);
    MessageBits(b);
    var m := Xor(Message(a), Message(b));
    forall i | 0 <= i < 192 && !(p <= i < p + n) ensures !m[i] {
      assert BitsOf(a)[i] == BitsOf(b)[i];
    }
  }

  /** An error in bytes 0..19 or 22..23 that spans at most 16 bits is seen by the checksum. */
  lemma MessageBurst(a: seq<byte>, b: seq<byte>, p: nat, n: nat)
    requires Sealed(a) && |b| == HEADER_LEN && a != b && Window(a, b, p, n)
    requires n <= 16 && (p + n <= 160 || 176 <= p) && p + n <= 192
    ensures !Sealed(b)
  {
    hide Checksum, Cleared, Feed, BitsOf, Window, Message, Field, Xor;
    var m := Xor(Message(a), Message(b));
    WindowMessage(a, b, p, n);
    ByteOutside(a, b, p, n, 20);
    ByteOutside(a, b, p, n, 21);
    SameField(a, b);
    SealedIff(a, b);
    if m[p..p + n] == Zeros(n) {
      ZerosThree(p, n, 192 - p - n);
      XorSelf(Message(a), Message(b));
      SameMessage(a, b);
    } else {
      BurstSeen(p, m[p..p + n], 192 - p - n);
    }
  }

  lemma ZerosThree(k: nat, m: nat, n: nat)
    ensures Zeros(k) + Zeros(m) + Zeros(n) == Zeros(k + m + n)
  {
  }

  lemma SameField(a: seq<byte>, b: seq<byte>)
    requires |a| == HEADER_LEN && |b| == HEADER_LEN && a[20] == b[20] && a[21] == b[21]
    ensures Xor(Field(a), Field(b)) == Zeros(16)
  {
  }

  lemma SameMessage(a: seq<byte>, b: seq<byte>)
    requires |a| == HEADER_LEN && |b| == HEADER_LEN && Message(a) == Message(b)
    ensures a[..20] == b[..20] && a[22..] == b[22..]
    ensures a[20] == b[20] && a[21] == b[21] ==> a == b
  {
    hide BitsOf, Bits8;
    assert BitsOf(a[..20]) == Message(a)[..160] && BitsOf(b[..20]) == Message(b)[..160];
    assert BitsOf(a[22..]) == Message(a)[176..] && BitsOf(b[22..]) == Message(b)[176..];
    BitsOfInjective(a[..20], b[..20]);
    BitsOfInjective(a[22..], b[22..]);
    SplitHeader(a);
    SplitHeader(b);
  }

  /** An error in the checksum bytes alone is seen whatever it is. */
  lemma FieldBurst(a: seq<byte>, b: seq<byte>)
    requires Sealed(a) && Sealed(b)
    requires a[..20] == b[..20] && a[22..] == b[22..]
    ensures a == b
  {
    hide Checksum;
    assert Cleared(a) == Cleared(b);
    SameCrcBytes(a, b);
    SplitHeader(a);
    SplitHeader(b);
  }

  lemma SameCrcBytes(a: seq<byte>, b: seq<byte>)
    requires |a| == HEADER_LEN && |b| == HEADER_LEN && CrcWord(a) == CrcWord(b)
    ensures a[20] == b[20] && a[21] == b[21]
  {
  }

  /** A changed payload length without a changed total length fails the shape check. */
  lemma PayloadLengthBurst(a: seq<byte>, b: seq<byte>)
    requires |a| == HEADER_LEN && |b| == HEADER_LEN && Decode(a).Accepted?
    requires a[..18] == b[..18] && a[18..20] != b[18..20]
    ensures Decode(b).Rejected?
  {
    hide Checksum, Cleared, ReadLe16, TotalOf;
    assert forall i | 0 <= i < 18 :: a[i] == a[..18][i] && b[i] == b[..18][i];
    Le16RoundTrip(0, a[18], a[19]);
    Le16RoundTrip(0, b[18], b[19]);
    assert a[18..20] == [a[18], a[19]] && b[18..20] == [b[18], b[19]];
    if Decode(b).Accepted? {
      SameTotal(Deserialize(a).payloadLen, Deserialize(b).payloadLen);
    }
  }

  lemma SameTotal(v: word, w: word)
    requires TotalOf(24, v) == TotalOf(24, w)
    ensures v == w
  {
  }

  lemma AgreeBefore(a: seq<byte>, b: seq<byte>, p: nat, n: nat, k: nat)
    requires |a| == HEADER_LEN && |b| == HEADER_LEN && Window(a, b, p, n)
    requires k <= 24 && 8 * k <= p
    ensures a[..k] == b[..k]
  {
    hide Window;
    forall i | 0 <= i < k ensures a[i] == b[i] {
      ByteOutside(a, b, p, n, i);
    }
  }

  lemma AgreeBehind(a: seq<byte>, b: seq<byte>, p: nat, n: nat, k: nat)
    requires |a| == HEADER_LEN && |b| == HEADER_LEN && Window(a, b, p, n)
    requires k <= 24 && p + n <= 8 * k
    ensures a[k..] == b[k..]
  {
    hide Window;
    forall i | k <= i < 24 ensures a[i] == b[i] {
      ByteOutside(a, b, p, n, i);
    }
  }

  /**
   * Any change of an accepted header within 16 consecutive bits is rejected, provided the window
   * does not cross from the checksum into the reserved field.
   */
  lemma BurstRejected(a: seq<byte>, b: seq<byte>, p: nat, n: nat)
    requires |a| == HEADER_LEN && |b| == HEADER_LEN && a != b
    requires Decode(a).Accepted? && Window(a, b, p, n)
    requires n <= 16 && p + n <= 192 && (p + n <= 176 || 176 <= p)
    ensures Decode(b).Rejected?
  {
    hide Decode, Window, Sealed;
    AcceptedSealed(a);
    if Decode(b).Accepted? {
      AcceptedSealed(b);
      if p + n <= 160 || 176 <= p {
        MessageBurst(a, b, p, n);
      } else {
        AgreeBehind(a, b, p, n, 22);
        AgreeBefore(a, b, p, n, 18);
        if a[18..20] != b[18..20] {
          PayloadLengthBurst(a, b);
        } else {
          assert a[..20] == a[..18] + a[18..20] && b[..20] == b[..18] + b[18..20];
          FieldBurst(a, b);
        }
      }
    }
  }

  /** A window across that border lies in the last four bytes, where it is known exactly what is accepted. */
  lemma StraddlingExactly(a: seq<byte>, b: seq<byte>, p: nat, n: nat)
    requires |a| == HEADER_LEN && |b| == HEADER_LEN
    requires Decode(a).Accepted? && Window(a, b, p, n)
    requires n <= 16 && p < 176 < p + n
    ensures Decode(b).Accepted? <==> ShiftN(Plus(TailWord(a), TailWord(b)), 16) == Plus(CrcWord(a), CrcWord(b))
  {
    hide Decode, Window, Sealed, ShiftN, Plus, TailWord, CrcWord;
    AcceptedSealed(a);
    AgreeBefore(a, b, p, n, 20);
    TailErrors(a, b);
    FlippedShape(a, b);
  }
}
