/** Bit strings, most significant bit first: polynomials over GF(2) and their Hamming weight. */
module BitStrings {
  type Bits = seq<bool>

  function Zeros(n: nat): (s: Bits)
    ensures |s| == n
  {
    seq(n, _ => false)
  }

  function Ones(n: nat): (s: Bits)
    ensures |s| == n
  {
    seq(n, _ => true)
  }

  /** Addition of two polynomials of the same length. */
  function Xor(a: Bits, b: Bits): (s: Bits)
    requires |a| == |b|
    ensures |s| == |a|
  {
    seq(|a|, i requires 0 <= i < |a| => a[i] != b[i])
  }

  /** The number of one bits. */
  function Weight(a: Bits): nat {
    if a == [] then 0 else (if a[0] then 1 else 0) + Weight(a[1..])
  }

  predicate Odd(a: Bits) {
    Weight(a) % 2 == 1
  }

  lemma XorSelf(a: Bits, b: Bits)
    requires |a| == |b|
    ensures Xor(a, b) == Zeros(|a|) <==> a == b
  {
    if Xor(a, b) == Zeros(|a|) {
      forall i | 0 <= i < |a| ensures a[i] == b[i] {
        assert !Xor(a, b)[i];
      }
    }
  }

  lemma XorAppend(a: Bits, b: Bits, c: Bits, d: Bits)
    requires |a| == |c| && |b| == |d|
    ensures Xor(a + b, c + d) == Xor(a, c) + Xor(b, d)
  {
  }

  lemma {:induction false} WeightAppend(a: Bits, b: Bits)
    ensures Weight(a + b) == Weight(a) + Weight(b)
  {
    if a == [] {
      assert a + b == b;
    } else {
      assert (a + b)[1..] == a[1..] + b;
      WeightAppend(a[1..], b);
    }
  }

  lemma {:induction false} WeightZero(a: Bits)
    ensures Weight(a) == 0 <==> a == Zeros(|a|)
  {
    if a != [] {
      WeightZero(a[1..]);
      if !a[0] && a[1..] == Zeros(|a| - 1) {
        assert a == [a[0]] + a[1..];
        assert a == Zeros(|a|);
      }
      if a == Zeros(|a|) {
        assert a[1..] == Zeros(|a| - 1);
      }
    }
  }

  lemma {:induction false} OddXor(a: Bits, b: Bits)
    requires |a| == |b|
    ensures Odd(Xor(a, b)) <==> Odd(a) != Odd(b)
  {
    if a != [] {
      OddXor(a[1..], b[1..]);
      assert Xor(a, b)[1..] == Xor(a[1..], b[1..]);
    }
  }

  /** A string of positive weight is zeros, a one, and a rest that carries the remaining weight. */
  lemma {:induction false} FirstOne(a: Bits) returns (k: nat)
    requires Weight(a) > 0
    ensures k < |a| && a[..k] == Zeros(k) && a[k]
    ensures a == Zeros(k) + [true] + a[k + 1..]
    ensures Weight(a[k + 1..]) == Weight(a) - 1
  {
    if a[0] {
      k := 0;
    } else {
      var j := FirstOne(a[1..]);
      k := j + 1;
      assert a[k + 1..] == a[1..][j + 1..];
      assert a[..k] == [a[0]] + a[1..][..j];
    }
    assert a == a[..k] + [a[k]] + a[k + 1..];
  }
}
