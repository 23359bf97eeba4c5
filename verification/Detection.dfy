/** What error patterns a remainder modulo the generator detects: weights up to three, and bursts. */
module Detection {
  import opened BitStrings
  import opened Polynomial
  import opened Words
  import opened Crc

  // ------------------------------------------------------- powers of x

  /** x^n as a residue, for n below 16. */
  function Unit(n: nat): (s: Bits)
    requires n < 16
    ensures |s| == 16
  {
    Zeros(15 - n) + [true] + Zeros(n)
  }

  function XPow(n: nat): (s: Bits)
    ensures |s| == 16
  {
    TimesXN(Unit(0), n)
  }

  lemma {:induction false} XPowSmall(n: nat)
    requires n < 16
    ensures XPow(n) == Unit(n)
  {
    if n > 0 {
      XPowSmall(n - 1);
      assert !Unit(n - 1)[0];
      assert Unit(n - 1)[1..] + [false] == Unit(n);
    }
  }

  lemma UnitWord()
    ensures Bits16(1) == Unit(0)
  {
  }

  /** x^0, x^16, x^32, ..., x^208 as words. */
  const ORBIT: seq<word> := [
    0x0001, 0x1021, 0x3730, 0xAA51, 0xB861, 0xEB23, 0xD849,
    0x4563, 0xAEFC, 0x10E2, 0xDE1F, 0xD5F6, 0x650B, 0x45B4]

  function Shift4(w: word): word {
    Shift(Shift(Shift(Shift(w))))
  }

  function Shift16(w: word): word {
    Shift4(Shift4(Shift4(Shift4(w))))
  }

  lemma OrbitFirst()
    ensures Shift16(0x0001) == 0x1021
    ensures Shift16(0x1021) == 0x3730
    ensures Shift16(0x3730) == 0xAA51
    ensures Shift16(0xAA51) == 0xB861
  {
  }

  lemma OrbitSecond()
    ensures Shift16(0xB861) == 0xEB23
    ensures Shift16(0xEB23) == 0xD849
    ensures Shift16(0xD849) == 0x4563
    ensures Shift16(0x4563) == 0xAEFC
  {
  }

  lemma OrbitThird()
    ensures Shift16(0xAEFC) == 0x10E2
    ensures Shift16(0x10E2) == 0xDE1F
    ensures Shift16(0xDE1F) == 0xD5F6
  {
  }

  lemma OrbitFourth()
    ensures Shift16(0xD5F6) == 0x650B
    ensures Shift16(0x650B) == 0x45B4
  {
  }

  lemma OrbitSteps(i: nat)
    requires i < 13
    ensures Shift16(ORBIT[i]) == ORBIT[i + 1]
  {
    hide Shift16;
    OrbitFirst();
    OrbitSecond();
    OrbitThird();
    OrbitFourth();
    match i
    case 0 =>
    case 1 =>
    case 2 =>
    case 3 =>
    case 4 =>
    case 5 =>
    case 6 =>
    case 7 =>
    case 8 =>
    case 9 =>
    case 10 =>
    case 11 =>
    case _ =>
  }

  lemma Shift16IsShiftN(w: word)
    ensures Shift16(w) == ShiftN(w, 16)
  {
    hide Shift;
    var a := ShiftN(w, 4);
    var b := ShiftN(w, 8);
    var c := ShiftN(w, 12);
    assert a == Shift4(w) by { ShiftFour(w, 0); }
    assert b == Shift4(a) by { ShiftFour(w, 4); }
    assert c == Shift4(b) by { ShiftFour(w, 8); }
    assert ShiftN(w, 16) == Shift4(c) by { ShiftFour(w, 12); }
  }

  lemma ShiftFour(w: word, n: nat)
    ensures ShiftN(w, n + 4) == Shift4(ShiftN(w, n))
  {
    hide Shift;
    assert ShiftN(w, n + 1) == Shift(ShiftN(w, n));
    assert ShiftN(w, n + 2) == Shift(ShiftN(w, n + 1));
    assert ShiftN(w, n + 3) == Shift(ShiftN(w, n + 2));
  }

  lemma {:induction false} OrbitIsXPow(i: nat)
    requires i < 14
    ensures XPow(16 * i) == Bits16(ORBIT[i])
  {
    hide Bits16, Shift16, ShiftN, TimesXN, Unit;
    if i == 0 {
      assert XPow(0) == Unit(0) by { XPowSmall(0); }
      UnitWord();
    } else {
      OrbitIsXPow(i - 1);
      OrbitSteps(i - 1);
      Shift16IsShiftN(ORBIT[i - 1]);
      Bits16ShiftN(ORBIT[i - 1], 16);
      TimesXNAdd(Unit(0), 16 * (i - 1), 16);
    }
  }

  /** No entry after the first is a single bit. */
  lemma OrbitNotUnit(i: nat, n: nat)
    requires 1 <= i < 14 && n < 16
    ensures Bits16(ORBIT[i]) != Unit(n)
  {
    hide Bits16;
    MaskIsUnit(n);
    Bits16Injective(ORBIT[i], Mask(n));
    OrbitNotMask(ORBIT[i], i, n);
  }

  lemma OrbitNotMask(w: word, i: nat, n: nat)
    requires 1 <= i < 14 && n < 16 && w == ORBIT[i]
    ensures w != Mask(n)
  {
  }

  lemma {:induction false} MaskIsUnit(n: nat)
    requires n < 16
    ensures Bits16(Mask(n)) == Unit(n)
  {
    hide Bits16, Mask;
    MaskIsShifted(n);
    Bits16ShiftN(1, n);
    UnitWord();
    XPowSmall(n);
  }

  lemma {:induction false} MaskIsShifted(n: nat)
    requires n < 16
    ensures ShiftN(1, n) == Mask(n)
  {
    if n > 0 {
      MaskIsShifted(n - 1);
      MaskShifts(n);
      hide Shift;
    }
  }

  lemma MaskShifts(n: nat)
    requires 0 < n < 16
    ensures Shift(Mask(n - 1)) == Mask(n)
  {
  }

  /** x^n returns to 1 for no n up to 207, the largest exponent a header has. */
  lemma NoEarlyReturn(n: nat)
    requires 1 <= n <= 207
    ensures XPow(n) != Unit(0)
  {
    if XPow(n) == Unit(0) {
      var i := (n + 15) / 16;
      var rest := 16 * i - n;
      TimesXNAdd(Unit(0), n, rest);
      XPowSmall(rest);
      OrbitIsXPow(i);
      OrbitNotUnit(i, rest);
    }
  }

  lemma PowersDiffer(i: nat, j: nat)
    requires i < j <= 207
    ensures XPow(i) != XPow(j)
  {
    TimesXNAdd(Unit(0), j - i, i);
    TimesXNInjective(Unit(0), XPow(j - i), i);
    NoEarlyReturn(j - i);
  }

  // -------------------------------------------------- one, two or three errors

  /** A single error q places before the end of the message. */
  lemma FeedSingle(p: nat, q: nat)
    ensures Feed(Zeros(16), Zeros(p) + [true] + Zeros(q)) == XPow(16 + q)
  {
    hide Feed, TimesXN;
    FeedAppend(Zeros(16), Zeros(p) + [true], Zeros(q));
    FeedAppend(Zeros(16), Zeros(p), [true]);
    FeedZeros(Zeros(16), p);
    TimesXNZero(p);
    Preload(Zeros(16), [true]);
    assert Xor(Zeros(16), [true] + Zeros(15)) == Unit(15);
    XPowSmall(15);
    TimesXNAdd(Unit(0), 15, 1);
    FeedZeros(XPow(16), q);
    TimesXNAdd(Unit(0), 16, q);
  }

  lemma {:induction false} FeedParity(r: Bits, m: Bits)
    requires |r| == 16
    ensures Odd(Feed(r, m)) <==> Odd(r) != Odd(m)
    decreases |m|
  {
    if m != [] {
      StepParity(r, m[0]);
      FeedParity(StepIn(r, m[0]), m[1..]);
    }
  }

  lemma StepParity(r: Bits, b: bool)
    requires |r| == 16
    ensures Odd(StepIn(r, b)) <==> Odd(r) != b
  {
    var s := r[0 := r[0] != b];
    assert s[1..] == r[1..];
    ShiftParity(s);
  }

  /** The generator has an even number of terms, so reducing by it keeps parity. */
  lemma ShiftParity(r: Bits)
    requires |r| == 16
    ensures Odd(TimesX(r)) <==> Odd(r)
  {
    hide Weight, Xor;
    WeightFront(r);
    WeightAppend(r[1..], [false]);
    WeightSingle(false);
    LowWeight();
    OddXor(r[1..] + [false], LOW);
  }

  lemma WeightFront(r: Bits)
    requires r != []
    ensures Weight(r) == (if r[0] then 1 else 0) + Weight(r[1..])
  {
  }

  lemma WeightSingle(b: bool)
    ensures Weight([b]) == if b then 1 else 0
  {
  }

  lemma LowWeight()
    ensures Weight(LOW) == 3
  {
    hide Weight;
    WeightSingle(true);
    WeightAppend(Zeros(3) + [true] + Zeros(6) + [true] + Zeros(4), [true]);
    WeightAppend(Zeros(3) + [true] + Zeros(6) + [true], Zeros(4));
    WeightAppend(Zeros(3) + [true] + Zeros(6), [true]);
    WeightAppend(Zeros(3) + [true], Zeros(6));
    WeightAppend(Zeros(3), [true]);
    WeightZero(Zeros(3));
    WeightZero(Zeros(4));
    WeightZero(Zeros(6));
  }

  /** A message error m and a checksum error c that together flip one to three bits never match. */
  lemma ThreeErrors(m: Bits, c: Bits)
    requires |m| <= 192 && |c| == 16
    requires Feed(Zeros(16), m) == c
    requires Weight(m) + Weight(c) > 0
    ensures Weight(m) + Weight(c) >= 4
  {
    hide Feed, Weight, Zeros;
    FeedParity(Zeros(16), m);
    WeightZero(Zeros(16));
    if Weight(m) == 0 {
      NoMessageError(m, c);
    } else if Weight(m) == 1 && Weight(c) == 1 {
      OneMessageError(m, c);
    } else if Weight(m) == 2 && Weight(c) == 0 {
      TwoErrors(m);
      WeightZero(c);
    }
  }

  lemma NoMessageError(m: Bits, c: Bits)
    requires |c| == 16 && Feed(Zeros(16), m) == c && Weight(m) == 0
    ensures Weight(c) == 0
  {
    hide Feed;
    WeightZero(m);
    FeedZeros(Zeros(16), |m|);
    TimesXNZero(|m|);
    WeightZero(c);
  }

  lemma OneMessageError(m: Bits, c: Bits)
    requires |m| <= 192 && |c| == 16 && Weight(m) == 1 && Weight(c) == 1
    ensures Feed(Zeros(16), m) != c
  {
    hide Feed, Weight, TimesXN;
    var k := FirstOne(m);
    var q := |m| - k - 1;
    var j := FirstOne(c);
    WeightZero(m[k + 1..]);
    WeightZero(c[j + 1..]);
    assert c == Unit(15 - j);
    XPowSmall(15 - j);
    FeedSingle(k, q);
    PowersDiffer(15 - j, 16 + q);
  }

  lemma TwoErrors(m: Bits)
    requires |m| <= 192 && Weight(m) == 2
    ensures Feed(Zeros(16), m) != Zeros(16)
  {
    hide Feed, Weight;
    var k := FirstOne(m);
    var rest := m[k + 1..];
    var j := FirstOne(rest);
    WeightZero(rest[j + 1..]);
    assert m == Zeros(k) + [true] + (Zeros(j) + [true] + Zeros(|rest| - j - 1));
    TwoOnes(k, j, |rest| - j - 1);
  }

  lemma TwoOnes(k: nat, j: nat, q: nat)
    requires k + 1 + j + 1 + q <= 192
    ensures Feed(Zeros(16), Zeros(k) + [true] + (Zeros(j) + [true] + Zeros(q))) != Zeros(16)
  {
    hide Feed, Zeros, Xor, XPow;
    PairOfOnes(k, j, q);
    FeedPair(Zeros(k) + [true] + Zeros(j + 1 + q), Zeros(k + 1 + j) + [true] + Zeros(q));
    FeedSingle(k, j + 1 + q);
    FeedSingle(k + 1 + j, q);
    PowersDiffer(16 + q, 16 + (j + 1 + q));
    XorSelf(XPow(16 + (j + 1 + q)), XPow(16 + q));
  }

  lemma PairOfOnes(k: nat, j: nat, q: nat)
    ensures Zeros(k) + [true] + (Zeros(j) + [true] + Zeros(q))
         == Xor(Zeros(k) + [true] + Zeros(j + 1 + q), Zeros(k + 1 + j) + [true] + Zeros(q))
  {
  }

  lemma FeedPair(a: Bits, b: Bits)
    requires |a| == |b|
    ensures Feed(Zeros(16), Xor(a, b)) == Xor(Feed(Zeros(16), a), Feed(Zeros(16), b))
  {
    hide Feed;
    FeedLinear(Zeros(16), Zeros(16), a, b);
    assert Xor(Zeros(16), Zeros(16)) == Zeros(16);
  }

  // ------------------------------------------------------------------- bursts

  /** At most 16 consecutive message bits in error change the register, whatever follows. */
  lemma BurstSeen(p: nat, w: Bits, q: nat)
    requires |w| <= 16 && w != Zeros(|w|)
    ensures Feed(Zeros(16), Zeros(p) + w + Zeros(q)) != Zeros(16)
  {
    hide Feed, TimesXN, Zeros;
    var n := |w|;
    FeedAppend(Zeros(16), Zeros(p) + w, Zeros(q));
    FeedAppend(Zeros(16), Zeros(p), w);
    FeedZeros(Zeros(16), p);
    TimesXNZero(p);
    Preload(Zeros(16), w);
    var r := w + Zeros(16 - n);
    XorZeros(r);
    FeedZeros(TimesXN(r, n), q);
    TimesXNAdd(r, n, q);
    TimesXNZero(n + q);
    TimesXNInjective(r, Zeros(16), n + q);
    NonzeroPadded(w);
  }

  lemma XorZeros(r: Bits)
    ensures Xor(Zeros(|r|), r) == r
  {
  }

  lemma NonzeroPadded(w: Bits)
    requires |w| <= 16 && w != Zeros(|w|)
    ensures w + Zeros(16 - |w|) != Zeros(16)
  {
    assert (w + Zeros(16 - |w|))[..|w|] == w;
    assert Zeros(16)[..|w|] == Zeros(|w|);
  }
}
