/** Machine words: bytes, 16-bit words, their little-endian layout, and their bits. */
module Words {
  import opened BitStrings

  type byte = bv8
  type word = bv16

  /** A 16-bit word used as a size_t. */
  function Len(w: word): (n: nat)
    ensures n < 0x1_0000
  {
    w as nat
  }

  /** The value of a size_t converted to uint16_t. */
  function Truncate(n: nat): word {
    (n % 0x1_0000) as word
  }

  /** The value of a size_t converted to a 32-bit int. */
  function ToInt32(n: nat): int {
    var m := n % 0x1_0000_0000;
    if m < 0x8000_0000 then m else m - 0x1_0000_0000
  }

  function Widen(b: byte): word {
    b as word
  }

  /** Shifts by constants have their own names, so that proofs can hide them. */
  function Up(w: word): word {
    w << 1
  }

  function Plus(v: word, w: word): word {
    v ^ w
  }

  function Raise(w: word): word {
    w << 8
  }

  function Low(w: word): byte {
    (w & 0xFF) as byte
  }

  function High(w: word): byte {
    (w >> 8) as byte
  }

  function ReadLe16(low: byte, high: byte): word {
    Widen(low) | Raise(Widen(high))
  }

  lemma Le16RoundTrip(w: word, low: byte, high: byte)
    ensures ReadLe16(Low(w), High(w)) == w
    ensures Low(ReadLe16(low, high)) == low && High(ReadLe16(low, high)) == high
  {
  }

  // ---------------------------------------------------------------- integers

  lemma Nibble(n: nat)
    requires n < 16
    ensures (n as bv4) as nat == n
  {
  }

  lemma JoinNibbles(h: bv4, l: bv4)
    ensures ((h as byte << 4) | (l as byte)) as nat == 16 * (h as nat) + l as nat
  {
  }

  lemma JoinBytes(h: byte, l: byte)
    ensures Len((h as word << 8) | (l as word)) == 256 * (h as nat) + l as nat
  {
  }

  lemma CastByte(n: nat)
    requires n < 256
    ensures (n as byte) as nat == n
  {
    var h, l := (n / 16) as bv4, (n % 16) as bv4;
    Nibble(n / 16);
    Nibble(n % 16);
    JoinNibbles(h, l);
    UniqueByte(n, (h as byte << 4) | (l as byte));
  }

  lemma UniqueByte(n: nat, b: byte)
    requires n < 256 && b as nat == n
    ensures n as byte == b
  {
  }

  lemma UniqueWord(n: nat, w: word)
    requires n < 0x1_0000 && Len(w) == n
    ensures n as word == w
  {
  }

  /** Conversion to uint16_t loses nothing below 2^16. */
  lemma CastWord(n: nat)
    requires n < 0x1_0000
    ensures Len(n as word) == n
  {
    var h, l := (n / 256) as byte, (n % 256) as byte;
    CastByte(n / 256);
    CastByte(n % 256);
    JoinBytes(h, l);
    UniqueWord(n, (h as word << 8) | (l as word));
  }

  lemma LenZero(w: word)
    ensures Len(w) == 0 <==> w == 0
  {
  }

  /** How the 16-bit length arithmetic of the header looks as integers. */
  lemma HeaderLengths(total: word, payload: word)
    requires total == 24 + payload && total <= 512
    ensures total < 24 <==> 65512 <= payload
    ensures total >= 24 ==> payload <= 488
    ensures Len(total) >= 24 <==> total >= 24
    ensures Len(total) <= 512
    ensures Len(total) >= 24 ==> Len(total) == 24 + Len(payload)
  {
    TotalBounds(total);
    if total >= 24 {
      PayloadSum(payload);
    }
  }

  lemma TotalBounds(total: word)
    ensures Len(total) >= 24 <==> total >= 24
    ensures Len(total) <= 512 <==> total <= 512
    ensures Len(total) <= 488 <==> total <= 488
  {
    AtLeast24(total);
    AtMost512(total);
    AtMost488(total);
  }

  lemma AtLeast24(w: word) ensures Len(w) >= 24 <==> w >= 24 {}

  lemma AtMost512(w: word) ensures Len(w) <= 512 <==> w <= 512 {}

  lemma AtMost488(w: word) ensures Len(w) <= 488 <==> w <= 488 {}

  lemma PayloadSum(payload: word)
    requires payload <= 488
    ensures Len(24 + payload) == 24 + Len(payload)
  {
  }

  // -------------------------------------------------------------------- bits

  function Mask(i: nat): word
    requires i < 16
  {
    match i
    case 0 => 0x0001
    case 1 => 0x0002
    case 2 => 0x0004
    case 3 => 0x0008
    case 4 => 0x0010
    case 5 => 0x0020
    case 6 => 0x0040
    case 7 => 0x0080
    case 8 => 0x0100
    case 9 => 0x0200
    case 10 => 0x0400
    case 11 => 0x0800
    case 12 => 0x1000
    case 13 => 0x2000
    case 14 => 0x4000
    case _ => 0x8000
  }

  /** Whether bit i of w is set, bit 0 being the least significant. */
  predicate TestBit(w: word, i: nat)
    requires i < 16
  {
    Hits(w, Mask(i))
  }

  predicate Hits(w: word, m: word) {
    w & m != 0
  }

  function Bits16(w: word): (s: Bits)
    ensures |s| == 16
  {
    seq(16, i requires 0 <= i < 16 => TestBit(w, 15 - i))
  }

  function Bits8(b: byte): (s: Bits)
    ensures |s| == 8
  {
    seq(8, i requires 0 <= i < 8 => TestBit(Widen(b), 7 - i))
  }

  /** The bits of a byte string, the most significant bit of each byte first. */
  function BitsOf(s: seq<byte>): (r: Bits)
    ensures |r| == 8 * |s|
  {
    if s == [] then [] else Bits8(s[0]) + BitsOf(s[1..])
  }

  lemma MaskedValues(w: word)
    ensures w & 0x0001 == 0 || w & 0x0001 == 0x0001
    ensures w & 0x0002 == 0 || w & 0x0002 == 0x0002
    ensures w & 0x0004 == 0 || w & 0x0004 == 0x0004
    ensures w & 0x0008 == 0 || w & 0x0008 == 0x0008
    ensures w & 0x0010 == 0 || w & 0x0010 == 0x0010
    ensures w & 0x0020 == 0 || w & 0x0020 == 0x0020
    ensures w & 0x0040 == 0 || w & 0x0040 == 0x0040
    ensures w & 0x0080 == 0 || w & 0x0080 == 0x0080
    ensures w & 0x0100 == 0 || w & 0x0100 == 0x0100
    ensures w & 0x0200 == 0 || w & 0x0200 == 0x0200
    ensures w & 0x0400 == 0 || w & 0x0400 == 0x0400
    ensures w & 0x0800 == 0 || w & 0x0800 == 0x0800
    ensures w & 0x1000 == 0 || w & 0x1000 == 0x1000
    ensures w & 0x2000 == 0 || w & 0x2000 == 0x2000
    ensures w & 0x4000 == 0 || w & 0x4000 == 0x4000
    ensures w & 0x8000 == 0 || w & 0x8000 == 0x8000
  {
  }

  lemma MaskShape(i: nat)
    requires i < 16
    ensures Mask(i) != 0
    ensures i > 0 ==> Mask(i) == Up(Mask(i - 1))
    ensures i < 8 ==> Mask(i) <= 0x80
    ensures i >= 8 ==> Mask(i) == Raise(Mask(i - 8)) && Mask(i - 8) <= 0x80
  {
  }

  lemma OneBit(w: word, i: nat)
    requires i < 16
    ensures w & Mask(i) == 0 || w & Mask(i) == Mask(i)
  {
    MaskedValues(w);
  }

  lemma XorMask(v: word, w: word, m: word)
    ensures Plus(v, w) & m == (v & m) ^ (w & m)
    ensures m ^ m == 0 && m ^ 0 == m && 0 ^ m == m
  {
  }

  lemma TestXor(v: word, w: word, i: nat)
    requires i < 16
    ensures TestBit(Plus(v, w), i) <==> TestBit(v, i) != TestBit(w, i)
  {
    hide Mask, Plus;
    XorMask(v, w, Mask(i));
    OneBit(v, i);
    OneBit(w, i);
    MaskShape(i);
  }

  lemma UpMask(w: word, m: word, up: word)
    requires w & m == 0 || w & m == m
    requires up == Up(m) && up != 0
    ensures Up(w) & up != 0 <==> w & m != 0
  {
    assert Up(w) & Up(m) == Up(w & m);
  }

  lemma TestUp(w: word, i: nat)
    requires i < 16
    ensures TestBit(Up(w), i) <==> i > 0 && TestBit(w, i - 1)
  {
    hide Mask, Up;
    if i > 0 {
      TestUpPositive(w, i, Mask(i - 1), Mask(i));
    } else {
      TestLowest(w);
    }
  }

  lemma TestUpPositive(w: word, i: nat, m: word, up: word)
    requires 0 < i < 16 && m == Mask(i - 1) && up == Mask(i)
    ensures Up(w) & up != 0 <==> w & m != 0
  {
    MaskShape(i);
    OneBit(w, i - 1);
    UpMask(w, m, up);
  }

  lemma TestLowest(w: word)
    ensures !TestBit(Up(w), 0)
  {
    assert Up(w) & 1 == 0;
  }

  lemma JoinMaskLow(low: byte, high: byte, m: word)
    requires m <= 0x80
    ensures Hits(ReadLe16(low, high), m) <==> Hits(Widen(low), m)
  {
  }

  lemma JoinMaskHigh(low: byte, high: byte, m: word)
    requires m <= 0x80
    ensures Hits(ReadLe16(low, high), Raise(m)) <==> Hits(Widen(high), m)
  {
  }

  lemma TestJoinLow(low: byte, high: byte, i: nat)
    requires i < 8
    ensures TestBit(ReadLe16(low, high), i) <==> TestBit(Widen(low), i)
  {
    hide Hits, Mask, ReadLe16, Widen, Raise;
    MaskShape(i);
    JoinMaskLow(low, high, Mask(i));
  }

  lemma TestJoinHigh(low: byte, high: byte, i: nat)
    requires 8 <= i < 16
    ensures TestBit(ReadLe16(low, high), i) <==> TestBit(Widen(high), i - 8)
  {
    hide Hits, Mask, ReadLe16, Widen, Raise;
    MaskShape(i);
    JoinMaskHigh(low, high, Mask(i - 8));
  }

  lemma ZeroMasks(w: word)
    requires w & 0x0001 == 0 && w & 0x0002 == 0 && w & 0x0004 == 0 && w & 0x0008 == 0 &&
             w & 0x0010 == 0 && w & 0x0020 == 0 && w & 0x0040 == 0 && w & 0x0080 == 0 &&
             w & 0x0100 == 0 && w & 0x0200 == 0 && w & 0x0400 == 0 && w & 0x0800 == 0 &&
             w & 0x1000 == 0 && w & 0x2000 == 0 && w & 0x4000 == 0 && w & 0x8000 == 0
    ensures w == 0
  {
  }

  lemma Bits16Xor(v: word, w: word)
    ensures Bits16(Plus(v, w)) == Xor(Bits16(v), Bits16(w))
  {
    hide TestBit, Plus;
    forall i | 0 <= i < 16 ensures Bits16(Plus(v, w))[i] == (Bits16(v)[i] != Bits16(w)[i]) {
      TestXor(v, w, 15 - i);
    }
  }

  lemma Bits16Zero(w: word)
    ensures Bits16(w) == Zeros(16) <==> w == 0
  {
    if Bits16(w) == Zeros(16) {
      forall i | 0 <= i < 16 ensures !TestBit(w, i) {
        assert !Bits16(w)[15 - i];
      }
      assert !TestBit(w, 0);
      assert !TestBit(w, 1);
      assert !TestBit(w, 2);
      assert !TestBit(w, 3);
      assert !TestBit(w, 4);
      assert !TestBit(w, 5);
      assert !TestBit(w, 6);
      assert !TestBit(w, 7);
      assert !TestBit(w, 8);
      assert !TestBit(w, 9);
      assert !TestBit(w, 10);
      assert !TestBit(w, 11);
      assert !TestBit(w, 12);
      assert !TestBit(w, 13);
      assert !TestBit(w, 14);
      assert !TestBit(w, 15);
      ZeroMasks(w);
    }
  }

  lemma Bits16Injective(v: word, w: word)
    ensures Bits16(v) == Bits16(w) <==> v == w
  {
    hide Bits16, Plus;
    Bits16Xor(v, w);
    XorSelf(Bits16(v), Bits16(w));
    Bits16Zero(Plus(v, w));
    XorCancel(v, w);
  }

  lemma XorUndo(v: word, w: word)
    ensures Plus(Plus(v, w), w) == v
  {
  }

  lemma XorUnit(w: word)
    ensures Plus(0, w) == w && Plus(w, w) == 0
  {
  }

  lemma XorCancel(v: word, w: word)
    ensures Plus(v, w) == 0 <==> v == w
  {
    hide Plus;
    XorUndo(v, w);
    XorUnit(w);
  }

  lemma Bits16Join(low: byte, high: byte)
    ensures Bits16(ReadLe16(low, high)) == Bits8(high) + Bits8(low)
  {
    hide TestBit;
    forall i | 0 <= i < 16 ensures Bits16(ReadLe16(low, high))[i] == (Bits8(high) + Bits8(low))[i] {
      if i < 8 {
        TestJoinHigh(low, high, 15 - i);
      } else {
        TestJoinLow(low, high, 15 - i);
      }
    }
  }

  lemma Bits8Injective(b: byte, c: byte)
    ensures Bits8(b) == Bits8(c) <==> b == c
  {
    hide Bits8;
    if Bits8(b) == Bits8(c) {
      Bits16Join(b, 0);
      Bits16Join(c, 0);
      Bits16Injective(ReadLe16(b, 0), ReadLe16(c, 0));
      Le16RoundTrip(0, b, 0);
      Le16RoundTrip(0, c, 0);
    }
  }

  lemma {:induction false} BitsOfAppend(s: seq<byte>, t: seq<byte>)
    ensures BitsOf(s + t) == BitsOf(s) + BitsOf(t)
  {
    if s == [] {
      assert s + t == t;
    } else {
      assert (s + t)[1..] == s[1..] + t;
      BitsOfAppend(s[1..], t);
    }
  }

  lemma {:induction false} BitsOfInjective(s: seq<byte>, t: seq<byte>)
    requires |s| == |t|
    ensures BitsOf(s) == BitsOf(t) <==> s == t
  {
    if s != [] && BitsOf(s) == BitsOf(t) {
      assert Bits8(s[0]) == BitsOf(s)[..8] && Bits8(t[0]) == BitsOf(t)[..8];
      assert BitsOf(s[1..]) == BitsOf(s)[8..] && BitsOf(t[1..]) == BitsOf(t)[8..];
      Bits8Injective(s[0], t[0]);
      BitsOfInjective(s[1..], t[1..]);
      assert s == [s[0]] + s[1..] && t == [t[0]] + t[1..];
    }
  }
}
