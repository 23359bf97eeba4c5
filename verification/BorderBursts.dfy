/** Bursts across the border between the checksum field and the reserved field of a header. */
module BorderBursts {
  import opened Words
  import opened Crc
  import opened Codec
  import opened Detection
  import opened HeaderProtection

  /** A shift back that puts a one at the top. */
  function Down(w: word): word {
    (w >> 1) | 0x8000
  }

  function Half(w: word): word {
    w >> 1
  }

  /** The inverse of a register shift. */
  function Back(w: word): word {
    if w & 1 != 0 then Down(Plus(w, 0x1021)) else Half(w)
  }

  function Back4(w: word): word {
    Back(Back(Back(Back(w))))
  }

  function Back16(w: word): word {
    Back4(Back4(Back4(Back4(w))))
  }

  lemma BackShift(w: word)
    ensures Back(Shift(w)) == w
  {
    hide Up, Plus, Down, Half;
    UpEven(w);
    PlusOdd(Up(w));
    XorUndo(Up(w), 0x1021);
    if w & 0x8000 != 0 {
      DownUp(w);
    } else {
      HalfUp(w);
    }
  }

  lemma UpEven(w: word)
    ensures Up(w) & 1 == 0
  {
  }

  lemma DownUp(w: word)
    requires w & 0x8000 != 0
    ensures Down(Up(w)) == w
  {
  }

  lemma HalfUp(w: word)
    requires w & 0x8000 == 0
    ensures Half(Up(w)) == w
  {
  }

  lemma PlusOdd(w: word)
    ensures w & 1 == 0 ==> Plus(w, 0x1021) & 1 != 0
  {
  }

  lemma BackShift4(w: word)
    ensures Back4(Shift4(w)) == w
  {
    hide Back, Shift;
    BackShift(w);
    BackShift(Shift(w));
    BackShift(Shift(Shift(w)));
    BackShift(Shift(Shift(Shift(w))));
  }

  lemma BackShift16(w: word)
    ensures Back16(Shift16(w)) == w
  {
    hide Back4, Shift4;
    BackShift4(w);
    BackShift4(Shift4(w));
    BackShift4(Shift4(Shift4(w)));
    BackShift4(Shift4(Shift4(Shift4(w))));
  }

  /** Bits 0 to n - 1. */
  function LowMask(n: nat): word
    requires n <= 16
  {
    match n
    case 0 => 0x0000
    case 1 => 0x0001
    case 2 => 0x0003
    case 3 => 0x0007
    case 4 => 0x000F
    case 5 => 0x001F
    case 6 => 0x003F
    case 7 => 0x007F
    case 8 => 0x00FF
    case 9 => 0x01FF
    case 10 => 0x03FF
    case 11 => 0x07FF
    case 12 => 0x0FFF
    case 13 => 0x1FFF
    case 14 => 0x3FFF
    case 15 => 0x7FFF
    case _ => 0xFFFF
  }

  /** Bits lo to hi - 1. */
  function RangeMask(lo: nat, hi: nat): word
    requires lo <= hi <= 16
  {
    Plus(LowMask(hi), LowMask(lo))
  }

  /** No bit from lo to hi - 1 is set, as one operation tells. */
  predicate Masked(w: word, lo: nat, hi: nat)
    requires lo <= hi <= 16
  {
    w & RangeMask(lo, hi) == 0
  }

  /** The same, bit by bit. */
  predicate Clear(w: word, lo: nat, hi: nat)
    requires lo <= hi <= 16
  {
    forall i | lo <= i < hi :: !TestBit(w, i)
  }

  lemma LowMaskNext(n: nat)
    requires 0 < n <= 16
    ensures LowMask(n) == LowMask(n - 1) | Mask(n - 1)
  {
  }

  lemma LowMasksNested(lo: nat, n: nat)
    requires lo <= n < 16
    ensures LowMask(lo) & Mask(n) == 0
  {
  }

  lemma MaskUnion(w: word, below: word, lower: word, one: word)
    requires lower & one == 0 && w & (below ^ lower) == 0 && w & one == 0
    ensures w & ((below | one) ^ lower) == 0
  {
  }

  lemma {:induction false} ClearMask(w: word, lo: nat, hi: nat)
    requires lo <= hi <= 16 && Clear(w, lo, hi)
    ensures Masked(w, lo, hi)
  {
    if lo < hi {
      ClearMask(w, lo, hi - 1);
      hide LowMask, Mask;
      LowMaskNext(hi);
      LowMasksNested(lo, hi - 1);
      assert !TestBit(w, hi - 1);
      MaskUnion(w, LowMask(hi - 1), LowMask(lo), Mask(hi - 1));
    } else {
      hide LowMask;
    }
  }

  // The window takes the first k reserved bits and the last 14 - k bits of the stored checksum, which are the low
  // bits of its high byte (byte 21) and then those of its low byte (byte 20). For small k the few tail errors are
  // shifted forward, for large k the few checksum errors are shifted back; none but zero fits.

  lemma Border1(t: word)
    requires Masked(t, 0, 15) && Masked(Shift16(t), 5, 8)
    ensures t == 0
  {
  }

  lemma Border2(t: word)
    requires Masked(t, 0, 14) && Masked(Shift16(t), 4, 8)
    ensures t == 0
  {
  }

  lemma Border3(t: word)
    requires Masked(t, 0, 13) && Masked(Shift16(t), 3, 8)
    ensures t == 0
  {
  }

  lemma Border4(t: word)
    requires Masked(t, 0, 12) && Masked(Shift16(t), 2, 8)
    ensures t == 0
  {
  }

  lemma Border5(t: word)
    requires Masked(t, 0, 11) && Masked(Shift16(t), 1, 8)
    ensures t == 0
  {
  }

  lemma Border6(t: word)
    requires Masked(t, 0, 10) && Masked(Shift16(t), 0, 8)
    ensures t == 0
  {
  }

  lemma Border7(t: word)
    requires Masked(t, 0, 9) && Masked(Shift16(t), 0, 8) && Masked(Shift16(t), 15, 16)
    ensures t == 0
  {
  }

  lemma Border8(c: word)
    requires Masked(c, 0, 8) && Masked(c, 14, 16) && Masked(Back16(c), 0, 8)
    ensures c == 0
  {
  }

  lemma Border9(c: word)
    requires Masked(c, 0, 8) && Masked(c, 13, 16) && Masked(Back16(c), 0, 7)
    ensures c == 0
  {
  }

  lemma Border10(c: word)
    requires Masked(c, 0, 8) && Masked(c, 12, 16) && Masked(Back16(c), 0, 6)
    ensures c == 0
  {
  }

  lemma Border11(c: word)
    requires Masked(c, 0, 8) && Masked(c, 11, 16) && Masked(Back16(c), 0, 5)
    ensures c == 0
  {
  }

  lemma Border12(c: word)
    requires Masked(c, 0, 8) && Masked(c, 10, 16) && Masked(Back16(c), 0, 4)
    ensures c == 0
  {
  }

  lemma Border13(c: word)
    requires Masked(c, 0, 8) && Masked(c, 9, 16) && Masked(Back16(c), 0, 3)
    ensures c == 0
  {
  }

  lemma BorderForward(t: word, c: word, k: nat)
    requires 1 <= k < 8 && Shift16(t) == c && Masked(t, 0, 16 - k)
    requires k >= 6 ==> Masked(c, 0, 8) && Masked(c, 22 - k, 16)
    requires k < 6 ==> Masked(c, 6 - k, 8)
    ensures t == 0
  {
    hide Shift16, Masked;
    match k
    case 1 => Border1(t);
    case 2 => Border2(t);
    case 3 => Border3(t);
    case 4 => Border4(t);
    case 5 => Border5(t);
    case 6 => Border6(t);
    case _ => Border7(t);
  }

  lemma BorderBackward(t: word, c: word, k: nat)
    requires 8 <= k <= 13 && Back16(c) == t && Masked(t, 0, 16 - k)
    requires Masked(c, 0, 8) && Masked(c, 22 - k, 16)
    ensures t == 0
  {
    hide Back16, Masked;
    BackZero();
    match k
    case 8 => Border8(c);
    case 9 => Border9(c);
    case 10 => Border10(c);
    case 11 => Border11(c);
    case 12 => Border12(c);
    case _ => Border13(c);
  }

  lemma BackZero()
    ensures Back16(0) == 0
  {
  }

  /** Tail errors in the first k reserved bits and field errors in the last 14 - k checksum bits never match. */
  lemma Border(t: word, c: word, k: nat)
    requires 1 <= k <= 13 && Shift16(t) == c && Clear(t, 0, 16 - k)
    requires k >= 6 ==> Clear(c, 0, 8) && Clear(c, 22 - k, 16)
    requires k < 6 ==> Clear(c, 6 - k, 8)
    ensures t == 0
  {
    hide Shift16, Back16, Masked, Clear;
    ClearMask(t, 0, 16 - k);
    if k >= 6 {
      ClearMask(c, 0, 8);
      ClearMask(c, 22 - k, 16);
    } else {
      ClearMask(c, 6 - k, 8);
    }
    if k < 8 {
      BorderForward(t, c, k);
    } else {
      BackShift16(t);
      BorderBackward(t, c, k);
    }
  }

  // ------------------------------------------------------------------ windows

  lemma TailBit(a: seq<byte>, b: seq<byte>, i: nat)
    requires |a| == HEADER_LEN && |b| == HEADER_LEN && i < 16
    ensures TestBit(Plus(TailWord(a), TailWord(b)), 15 - i) <==> BitsOf(a)[176 + i] != BitsOf(b)[176 + i]
  {
    hide BitsOf, Bits8, TestBit, TailWord, Plus;
    MessageBits(a);
    MessageBits(b);
    TailBits(a);
    TailBits(b);
    Bits16Xor(TailWord(a), TailWord(b));
    assert TestBit(Plus(TailWord(a), TailWord(b)), 15 - i) == Bits16(Plus(TailWord(a), TailWord(b)))[i];
  }

  /** Bit i of the checksum polynomial is stored in byte 21 for i below 8, and in byte 20 behind that. */
  function FieldPosition(i: nat): nat {
    if i < 8 then 168 + i else 152 + i
  }

  lemma FieldAt(s: seq<byte>, i: nat)
    requires |s| == HEADER_LEN && i < 16
    ensures BitsOf(s)[FieldPosition(i)] == Field(s)[i]
  {
    hide BitsOf, Bits8;
    MessageBits(s);
    var front, low, high := BitsOf(s[..20]), Bits8(s[20]), Bits8(s[21]);
    if i < 8 {
      assert (front + (low + high))[168 + i] == (low + high)[8 + i] == high[i];
    } else {
      assert (front + (low + high))[152 + i] == (low + high)[i - 8] == low[i - 8];
    }
  }

  lemma FieldBit(a: seq<byte>, b: seq<byte>, i: nat)
    requires |a| == HEADER_LEN && |b| == HEADER_LEN && i < 16
    ensures TestBit(Plus(CrcWord(a), CrcWord(b)), 15 - i)
            <==> BitsOf(a)[FieldPosition(i)] != BitsOf(b)[FieldPosition(i)]
  {
    hide BitsOf, Field, TestBit, CrcWord, Plus;
    FieldAt(a, i);
    FieldAt(b, i);
    TailBits(a);
    TailBits(b);
    Bits16Xor(CrcWord(a), CrcWord(b));
    assert TestBit(Plus(CrcWord(a), CrcWord(b)), 15 - i) == Bits16(Plus(CrcWord(a), CrcWord(b)))[i];
  }

  lemma WindowTail(a: seq<byte>, b: seq<byte>, p: nat, n: nat)
    requires |a| == HEADER_LEN && |b| == HEADER_LEN && Window(a, b, p, n)
    requires n <= 14 && p < 176 < p + n
    ensures Clear(Plus(TailWord(a), TailWord(b)), 0, 192 - (p + n))
  {
    hide BitsOf, TestBit, TailWord, Plus;
    forall i | 0 <= i < 192 - (p + n) ensures !TestBit(Plus(TailWord(a), TailWord(b)), i) {
      TailBit(a, b, 15 - i);
    }
  }

  lemma WindowField(a: seq<byte>, b: seq<byte>, p: nat, n: nat, lo: nat, hi: nat)
    requires |a| == HEADER_LEN && |b| == HEADER_LEN && Window(a, b, p, n)
    requires n <= 14 && p < 176 < p + n && lo <= hi <= 16
    requires if lo >= 8 then 183 - lo < p else hi <= 8 && 167 - lo < p
    ensures Clear(Plus(CrcWord(a), CrcWord(b)), lo, hi)
  {
    hide BitsOf, TestBit, CrcWord, Plus;
    forall i | lo <= i < hi ensures !TestBit(Plus(CrcWord(a), CrcWord(b)), i) {
      FieldBit(a, b, 15 - i);
    }
  }

  lemma SameTail(a: seq<byte>, b: seq<byte>)
    requires |a| == HEADER_LEN && |b| == HEADER_LEN && TailWord(a) == TailWord(b)
    ensures a[22..] == b[22..]
  {
  }

  /** Two sealed headers that differ only in a window of 14 bits across that border are the same. */
  lemma StraddlingShort(a: seq<byte>, b: seq<byte>, p: nat, n: nat)
    requires Sealed(a) && Sealed(b) && Window(a, b, p, n)
    requires n <= 14 && p < 176 < p + n
    ensures a == b
  {
    hide Sealed, Window, Clear, Plus, TailWord, CrcWord, ShiftN, Shift16;
    SealedLength(a);
    SealedLength(b);
    var t, c, k := Plus(TailWord(a), TailWord(b)), Plus(CrcWord(a), CrcWord(b)), p + n - 176;
    AgreeBefore(a, b, p, n, 20);
    TailErrors(a, b);
    Shift16IsShiftN(t);
    WindowTail(a, b, p, n);
    if k >= 6 {
      WindowField(a, b, p, n, 0, 8);
      WindowField(a, b, p, n, 22 - k, 16);
    } else {
      WindowField(a, b, p, n, 6 - k, 8);
    }
    Border(t, c, k);
    XorCancel(TailWord(a), TailWord(b));
    SameTail(a, b);
    FieldBurst(a, b);
  }

  lemma SealedLength(s: seq<byte>)
    requires Sealed(s)
    ensures |s| == HEADER_LEN
  {
  }

  /**
   * Any change of an accepted header within 14 consecutive bits, wherever they lie, is rejected. This is the
   * limit: StraddlingBurstAccepted is a burst of 15 bits that is not.
   */
  lemma ShortBurstRejected(a: seq<byte>, b: seq<byte>, p: nat, n: nat)
    requires |a| == HEADER_LEN && |b| == HEADER_LEN && a != b
    requires Decode(a).Accepted? && Window(a, b, p, n)
    requires n <= 14 && p + n <= 192
    ensures Decode(b).Rejected?
  {
    hide Decode, Window, Sealed;
    if p + n <= 176 || 176 <= p {
      BurstRejected(a, b, p, n);
    } else if Decode(b).Accepted? {
      AcceptedSealed(a);
      AcceptedSealed(b);
      StraddlingShort(a, b, p, n);
    }
  }

  /** Next to every accepted header the decoder accepts another one that differs within 15 bits across that border. */
  lemma StraddlingBurstAccepted(a: seq<byte>) returns (b: seq<byte>)
    requires |a| == HEADER_LEN && Decode(a).Accepted?
    ensures |b| == HEADER_LEN && b != a && Decode(b).Accepted? && Window(a, b, 173, 15)
  {
    hide Decode, Window, ShiftN, Shift16, Flip, ReadLe16, Plus, TailWord, CrcWord;
    b := Flip(a, 0x00, 0x04, 0x8C, 0x50);
    StraddlingPattern();
    Shift16IsShiftN(0x8C50);
    FlipAccepted(a, 0x00, 0x04, 0x8C, 0x50);
    FlippedWords(a, 0x00, 0x04, 0x8C, 0x50);
    StraddlingWindow(a, b);
    if a == b {
      XorCancel(TailWord(a), TailWord(b));
    }
  }

  lemma StraddlingPattern()
    ensures ReadLe16(0x50, 0x8C) == 0x8C50 && ReadLe16(0x00, 0x04) == 0x0400
    ensures Shift16(0x8C50) == 0x0400
  {
  }

  lemma StraddlingWindow(a: seq<byte>, b: seq<byte>)
    requires |a| == HEADER_LEN && |b| == HEADER_LEN && a[..20] == b[..20]
    requires Plus(TailWord(a), TailWord(b)) == 0x8C50 && Plus(CrcWord(a), CrcWord(b)) == 0x0400
    ensures Window(a, b, 173, 15)
  {
    hide BitsOf, Bits8, TestBit, Plus, TailWord, CrcWord;
    forall i | 0 <= i < 192 && !(173 <= i < 188) ensures BitsOf(a)[i] == BitsOf(b)[i] {
      if i < 160 {
        MessageBits(a);
        MessageBits(b);
      } else if i < 176 {
        var k := if i < 168 then i - 152 else i - 168;
        FieldBit(a, b, k);
        QuietField(15 - k);
      } else {
        TailBit(a, b, i - 176);
        QuietTail(191 - i);
      }
    }
  }

  lemma QuietField(i: nat)
    requires i < 16 && i != 10
    ensures i < 8 || i > 10 ==> !TestBit(0x0400, i)
  {
  }

  lemma QuietTail(i: nat)
    requires i < 4
    ensures !TestBit(0x8C50, i)
  {
  }
}
