/** ch32mux_crc16: the bit-serial CRC loop, and what it computes. */
module Crc {
  import opened BitStrings
  import opened Polynomial
  import opened Words

  /** One turn of the inner loop. */
  function Shift(w: word): word {
    if w & 0x8000 != 0 then Plus(Up(w), 0x1021) else Up(w)
  }

  function ShiftN(w: word, n: nat): word {
    if n == 0 then w else Shift(ShiftN(w, n - 1))
  }

  /** One turn of the outer loop. */
  function ByteStep(w: word, b: byte): word {
    ShiftN(Plus(w, Raise(Widen(b))), 8)
  }

  function Update(w: word, data: seq<byte>): word {
    if data == [] then w else ByteStep(Update(w, data[..|data| - 1]), data[|data| - 1])
  }

  /** The CRC of a byte string. */
  function Checksum(data: seq<byte>): word {
    Update(0xFFFF, data)
  }

  lemma ShiftNNext(start: word, bit: nat, crc: word, next: word)
    requires crc == ShiftN(start, bit)
    requires next == if crc & 0x8000 != 0 then (crc << 1) ^ 0x1021 else crc << 1
    ensures next == ShiftN(start, bit + 1)
  {
    ShiftUnfold(crc);
    hide Shift;
    assert ShiftN(start, bit + 1) == Shift(crc);
  }

  lemma ShiftUnfold(crc: word)
    ensures Shift(crc) == if crc & 0x8000 != 0 then (crc << 1) ^ 0x1021 else crc << 1
  {
  }

  lemma UpdateNext(data: seq<byte>, i: nat, crc: word, start: word)
    requires i < |data|
    requires crc == Checksum(data[..i]) && start == crc ^ (Widen(data[i]) << 8)
    ensures ShiftN(start, 8) == Checksum(data[..i + 1])
  {
    hide ShiftN;
    assert data[..i + 1][..i] == data[..i];
  }

  /** The loop as written, over the first len bytes of a buffer; a null buffer sums to zero. */
  method Crc16(data: array?<byte>, len: nat) returns (crc: word)
    requires data != null ==> len <= data.Length
    ensures crc == if data == null then 0 else Checksum(data[..len])
  {
    hide ShiftN, Checksum;
    crc := 0xFFFF;
    if data == null {
      return 0;
    }
    assert crc == Checksum([]) by { ChecksumEmpty(); }
    assert data[..0] == [];
    for i := 0 to len
      invariant crc == Checksum(data[..i])
    {
      ghost var before := crc;
      crc := crc ^ (Widen(data[i]) << 8);
      ghost var start := crc;
      StartOfByte(start);
      for bit := 0 to 8
        invariant crc == ShiftN(start, bit)
      {
        ghost var current := crc;
        if crc & 0x8000 != 0 {
          crc := (crc << 1) ^ 0x1021;
        } else {
          crc := crc << 1;
        }
        ShiftNNext(start, bit, current, crc);
      }
      UpdateNext(data[..], i, before, start);
      assert data[..][..i] == data[..i] && data[..][..i + 1] == data[..i + 1];
    }
  }

  lemma ChecksumEmpty()
    ensures Checksum([]) == 0xFFFF
  {
  }

  lemma StartOfByte(start: word)
    ensures ShiftN(start, 0) == start
  {
  }

  // ------------------------------------------------- words as polynomials

  lemma ZeroByte()
    ensures Bits8(0) == Zeros(8)
  {
    forall i | 0 <= i < 8 ensures !Bits8(0)[i] {
      ZeroAnd(Mask(7 - i));
      assert !TestBit(Widen(0), 7 - i);
    }
  }

  lemma ZeroAnd(m: word)
    ensures Widen(0) & m == 0
  {
  }

  lemma InitialBits()
    ensures Bits16(0xFFFF) == Ones(16)
  {
  }

  lemma RaisedWord(b: byte)
    ensures Raise(Widen(b)) == ReadLe16(0, b)
  {
  }

  lemma Bits16Raised(b: byte)
    ensures Bits16(Raise(Widen(b))) == Bits8(b) + Zeros(8)
  {
    hide Bits16, Bits8, Raise, Widen, ReadLe16;
    RaisedWord(b);
    Bits16Join(0, b);
    ZeroByte();
  }

  lemma Bits16Up(w: word)
    ensures Bits16(Up(w)) == Bits16(w)[1..] + [false]
    ensures Bits16(w)[0] <==> w & 0x8000 != 0
  {
    assert Bits16(w)[0] == TestBit(w, 15);
    Bits16UpAt(w);
  }

  lemma Bits16UpAt(w: word)
    ensures Bits16(Up(w)) == Bits16(w)[1..] + [false]
  {
    hide TestBit, Up;
    forall i | 0 <= i < 16 ensures Bits16(Up(w))[i] == (Bits16(w)[1..] + [false])[i] {
      TestUp(w, 15 - i);
    }
  }

  lemma GeneratorBits()
    ensures Bits16(0x1021) == LOW
  {
  }

  lemma Bits16Shift(w: word)
    ensures Bits16(Shift(w)) == TimesX(Bits16(w))
  {
    hide Bits16, Plus, Up;
    Bits16Up(w);
    Bits16Xor(Up(w), 0x1021);
    GeneratorBits();
  }

  lemma {:induction false} Bits16ShiftN(w: word, n: nat)
    ensures Bits16(ShiftN(w, n)) == TimesXN(Bits16(w), n)
  {
    if n > 0 {
      Bits16ShiftN(w, n - 1);
      Bits16Shift(ShiftN(w, n - 1));
    }
  }

  /** One byte through the loop is eight message bits through the register. */
  lemma Bits16ByteStep(w: word, b: byte)
    ensures Bits16(ByteStep(w, b)) == Feed(Bits16(w), Bits8(b))
  {
    hide Bits16, Bits8, ShiftN, Plus, Raise, Widen;
    var raised := Raise(Widen(b));
    Bits16ShiftN(Plus(w, raised), 8);
    Bits16Xor(w, raised);
    Bits16Raised(b);
    Preload(Bits16(w), Bits8(b));
  }

  lemma {:induction false} Bits16Update(w: word, data: seq<byte>)
    ensures Bits16(Update(w, data)) == Feed(Bits16(w), BitsOf(data))
  {
    if data != [] {
      var init, last := data[..|data| - 1], data[|data| - 1];
      Bits16Update(w, init);
      Bits16ByteStep(Update(w, init), last);
      assert data == init + [last];
      BitsOfAppend(init, [last]);
      assert BitsOf([last]) == Bits8(last) + BitsOf([]) == Bits8(last);
      FeedAppend(Bits16(w), BitsOf(init), Bits8(last));
    }
  }

  /** The loop computes the remainder of M(x)*x^16 + 0xFFFF*x^(8n), and that remainder is unique. */
  lemma ChecksumIsRemainder(data: seq<byte>, crc: word)
    ensures IsRemainder(Xor(Ones(16) + Zeros(8 * |data|), BitsOf(data) + Zeros(16)), Bits16(crc))
            <==> crc == Checksum(data)
  {
    hide Bits16, Update, IsRemainder, Feed;
    InitialBits();
    Bits16Update(0xFFFF, data);
    FeedIsRemainder(Ones(16), BitsOf(data), Bits16(crc));
    Bits16Injective(crc, Checksum(data));
  }

  // ---------------------------------------------------------- table-driven form

  /** The table entry for an index: the inner loop run on the index alone. */
  function Table(index: byte): word {
    ShiftN(Raise(Widen(index)), 8)
  }

  function TableUpdate(w: word, data: seq<byte>): word {
    if data == [] then w
    else
      var v := TableUpdate(w, data[..|data| - 1]);
      TableByteStep(v, data[|data| - 1])
  }

  function TableByteStep(w: word, b: byte): word {
    Plus(Raise(w), Table(High(w) ^ b))
  }

  lemma ShiftNLinear(v: word, w: word, n: nat)
    ensures ShiftN(Plus(v, w), n) == Plus(ShiftN(v, n), ShiftN(w, n))
  {
    hide Bits16, ShiftN, Plus;
    ShiftNLinearBits(v, w, n);
    Bits16Injective(ShiftN(Plus(v, w), n), Plus(ShiftN(v, n), ShiftN(w, n)));
  }

  lemma ShiftNLinearBits(v: word, w: word, n: nat)
    ensures Bits16(ShiftN(Plus(v, w), n)) == Bits16(Plus(ShiftN(v, n), ShiftN(w, n)))
  {
    hide Bits16, ShiftN, Plus;
    Bits16Xor(v, w);
    Bits16ShiftN(Plus(v, w), n);
    Bits16ShiftN(v, n);
    Bits16ShiftN(w, n);
    TimesXNLinear(Bits16(v), Bits16(w), n);
    Bits16Xor(ShiftN(v, n), ShiftN(w, n));
  }

  /** A residue of degree below 8 is multiplied by x^8 without reduction. */
  lemma ShortShift(s: Bits)
    requires |s| == 8
    ensures TimesXN(Zeros(8) + s, 8) == s + Zeros(8)
  {
    FeedLowByte(s, 8);
  }

  lemma {:induction false} FeedLowByte(s: Bits, n: nat)
    requires |s| == 8 && n <= 8
    ensures TimesXN(Zeros(8) + s, n) == Zeros(8 - n) + s + Zeros(n)
  {
    if n == 0 {
      assert Zeros(8) + s == Zeros(8) + s + Zeros(0);
    } else {
      FeedLowByte(s, n - 1);
      var r := Zeros(8 - (n - 1)) + s + Zeros(n - 1);
      assert !r[0];
      assert r[1..] + [false] == Zeros(8 - n) + s + Zeros(n);
    }
  }

  lemma TableStep(w: word, b: byte)
    ensures ByteStep(w, b) == TableByteStep(w, b)
  {
    hide ShiftN, ByteStep, TableByteStep, Plus, Raise, Widen, High, Low;
    ByteStepSplit(w, b);
    ShiftNLinear(Widen(Low(w)), Raise(Widen(High(w) ^ b)), 8);
    LowPart(w);
    TableParts(w, b, ShiftN(Widen(Low(w)), 8));
  }

  lemma ByteStepSplit(w: word, b: byte)
    ensures ByteStep(w, b) == ShiftN(Plus(Widen(Low(w)), Raise(Widen(High(w) ^ b))), 8)
  {
  }

  lemma TableParts(w: word, b: byte, low: word)
    requires low == Raise(w)
    ensures TableByteStep(w, b) == Plus(low, ShiftN(Raise(Widen(High(w) ^ b)), 8))
  {
  }

  /** The low byte moves up eight places without reduction. */
  lemma LowPart(w: word)
    ensures ShiftN(Widen(Low(w)), 8) == Raise(w)
  {
    hide Bits16, Bits8, ShiftN, Raise, Widen, Low, ReadLe16;
    Bits16ShiftN(Widen(Low(w)), 8);
    Bits16Injective(ShiftN(Widen(Low(w)), 8), Raise(w));
    LowWords(w);
    Bits16Join(0, Low(w));
    Bits16Join(Low(w), 0);
    ZeroByte();
    ShortShift(Bits8(Low(w)));
  }

  lemma LowWords(w: word)
    ensures Raise(w) == ReadLe16(0, Low(w)) && Widen(Low(w)) == ReadLe16(Low(w), 0)
  {
  }

  /** The table-driven form gives the same CRC for every start value and every byte string. */
  lemma {:induction false} TableDrivenForm(w: word, data: seq<byte>)
    ensures TableUpdate(w, data) == Update(w, data)
  {
    hide ByteStep, TableByteStep;
    if data != [] {
      TableDrivenForm(w, data[..|data| - 1]);
      TableStep(Update(w, data[..|data| - 1]), data[|data| - 1]);
    }
  }
}
