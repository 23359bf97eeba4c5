/** Division by the generator x^16 + x^12 + x^5 + 1 over GF(2), one register shift at a time. */
module Polynomial {
  import opened BitStrings

  /** x^12 + x^5 + 1: the generator without its leading term. */
  const LOW: Bits := Zeros(3) + [true] + Zeros(6) + [true] + Zeros(4) + [true]

  /** The product of q and the generator, written as a sum of shifted copies of q. */
  function TimesG(q: Bits): (p: Bits)
    ensures |p| == |q| + 16
  {
    Xor(Xor(q + Zeros(16), Zeros(4) + q + Zeros(12)),
        Xor(Zeros(11) + q + Zeros(5), Zeros(16) + q))
  }

  /** r is the remainder of d: d = q * generator + r for some quotient q, and r has degree below 16. */
  ghost predicate IsRemainder(d: Bits, r: Bits) {
    exists q: Bits :: Divides(d, q, r)
  }

  ghost predicate Divides(d: Bits, q: Bits, r: Bits) {
    |r| == 16 && |d| == |q| + 16 && d == Xor(TimesG(q), Zeros(|q|) + r)
  }

  /** Multiplication of a residue by x. */
  function TimesX(r: Bits): (s: Bits)
    requires |r| == 16
    ensures |s| == 16
  {
    if r[0] then Xor(r[1..] + [false], LOW) else r[1..] + [false]
  }

  function TimesXN(r: Bits, n: nat): (s: Bits)
    requires |r| == 16
    ensures |s| == 16
  {
    if n == 0 then r else TimesX(TimesXN(r, n - 1))
  }

  /** One message bit enters at the top of the register. */
  function StepIn(r: Bits, b: bool): (s: Bits)
    requires |r| == 16
    ensures |s| == 16
  {
    TimesX(r[0 := r[0] != b])
  }

  function Feed(r: Bits, m: Bits): (s: Bits)
    requires |r| == 16
    ensures |s| == 16
    decreases |m|
  {
    if m == [] then r else Feed(StepIn(r, m[0]), m[1..])
  }

  lemma TimesXLinear(a: Bits, b: Bits)
    requires |a| == 16 && |b| == 16
    ensures TimesX(Xor(a, b)) == Xor(TimesX(a), TimesX(b))
  {
  }

  lemma StepInLinear(a: Bits, b: Bits, x: bool, y: bool)
    requires |a| == 16 && |b| == 16
    ensures StepIn(Xor(a, b), x != y) == Xor(StepIn(a, x), StepIn(b, y))
  {
  }

  lemma {:induction false} FeedLinear(a: Bits, b: Bits, m: Bits, n: Bits)
    requires |a| == 16 && |b| == 16 && |m| == |n|
    ensures Feed(Xor(a, b), Xor(m, n)) == Xor(Feed(a, m), Feed(b, n))
    decreases |m|
  {
    if m != [] {
      StepInLinear(a, b, m[0], n[0]);
      FeedLinear(StepIn(a, m[0]), StepIn(b, n[0]), m[1..], n[1..]);
      assert Xor(m, n)[1..] == Xor(m[1..], n[1..]);
    }
  }

  lemma {:induction false} FeedAppend(r: Bits, m: Bits, n: Bits)
    requires |r| == 16
    ensures Feed(r, m + n) == Feed(Feed(r, m), n)
    decreases |m|
  {
    if m == [] {
      assert m + n == n;
    } else {
      assert (m + n)[1..] == m[1..] + n;
      FeedAppend(StepIn(r, m[0]), m[1..], n);
    }
  }

  lemma {:induction false} TimesXNShift(r: Bits, n: nat)
    requires |r| == 16
    ensures TimesXN(TimesX(r), n) == TimesXN(r, n + 1)
  {
    if n > 0 {
      TimesXNShift(r, n - 1);
    }
  }

  lemma {:induction false} TimesXNAdd(r: Bits, m: nat, n: nat)
    requires |r| == 16
    ensures TimesXN(TimesXN(r, m), n) == TimesXN(r, m + n)
  {
    if n > 0 {
      TimesXNAdd(r, m, n - 1);
    }
  }

  lemma {:induction false} TimesXNLinear(a: Bits, b: Bits, n: nat)
    requires |a| == 16 && |b| == 16
    ensures TimesXN(Xor(a, b), n) == Xor(TimesXN(a, n), TimesXN(b, n))
  {
    if n > 0 {
      TimesXNLinear(a, b, n - 1);
      TimesXLinear(TimesXN(a, n - 1), TimesXN(b, n - 1));
    }
  }

  lemma {:induction false} FeedZeros(r: Bits, n: nat)
    requires |r| == 16
    ensures Feed(r, Zeros(n)) == TimesXN(r, n)
    decreases n
  {
    if n > 0 {
      assert Zeros(n)[1..] == Zeros(n - 1);
      assert r[0 := r[0] != false] == r;
      FeedZeros(TimesX(r), n - 1);
      TimesXNShift(r, n - 1);
    }
  }

  /** x is invertible modulo the generator. */
  lemma TimesXInjective(a: Bits, b: Bits)
    requires |a| == 16 && |b| == 16
    ensures TimesX(a) == TimesX(b) ==> a == b
  {
    if TimesX(a) == TimesX(b) {
      assert TimesX(a)[15] == a[0] && TimesX(b)[15] == b[0];
      forall i | 1 <= i < 16 ensures a[i] == b[i] {
        assert TimesX(a)[i - 1] == (a[i] != (a[0] && LOW[i - 1]));
        assert TimesX(b)[i - 1] == (b[i] != (b[0] && LOW[i - 1]));
      }
    }
  }

  lemma {:induction false} TimesXNInjective(a: Bits, b: Bits, n: nat)
    requires |a| == 16 && |b| == 16
    ensures TimesXN(a, n) == TimesXN(b, n) ==> a == b
  {
    if n > 0 {
      TimesXInjective(TimesXN(a, n - 1), TimesXN(b, n - 1));
      TimesXNInjective(a, b, n - 1);
    }
  }

  lemma {:induction false} TimesXNZero(n: nat)
    ensures TimesXN(Zeros(16), n) == Zeros(16)
  {
    if n > 0 {
      TimesXNZero(n - 1);
    }
  }

  /** Feeding at most 16 bits equals adding them to the top of the register and then shifting. */
  lemma {:induction false} Preload(r: Bits, w: Bits)
    requires |r| == 16 && |w| <= 16
    ensures Feed(r, w) == TimesXN(Xor(r, w + Zeros(16 - |w|)), |w|)
    decreases |w|
  {
    if w == [] {
      assert Xor(r, w + Zeros(16)) == r;
    } else {
      var n := |w|;
      Preload(StepIn(r, w[0]), w[1..]);
      var top, rest := r[0 := r[0] != w[0]], [false] + w[1..] + Zeros(16 - n);
      assert TimesX(rest) == w[1..] + Zeros(16 - (n - 1));
      TimesXLinear(top, rest);
      assert Xor(top, rest) == Xor(r, w + Zeros(16 - n));
      TimesXNShift(Xor(top, rest), n - 1);
    }
  }

  // ---------------------------------------------------------------- remainder

  function Dividend(r: Bits, m: Bits): (d: Bits)
    requires |r| == 16
    ensures |d| == |m| + 16
  {
    Xor(r + Zeros(|m|), m + Zeros(16))
  }

  function Quotient(r: Bits, m: Bits): (q: Bits)
    requires |r| == 16
    ensures |q| == |m|
    decreases |m|
  {
    if m == [] then [] else [r[0] != m[0]] + Quotient(StepIn(r, m[0]), m[1..])
  }

  /** The generator times b*x^n, without the top coefficient b. */
  function Term(b: bool, n: nat): (t: Bits)
    ensures |t| == n + 17
  {
    [b] + (if b then LOW else Zeros(16)) + Zeros(n)
  }

  /** Multiplying by the generator peels off one leading quotient bit at a time. */
  lemma TimesGFront(q: Bits)
    requires q != []
    ensures TimesG(q) == Xor(Term(q[0], |q| - 1), [false] + TimesG(q[1..]))
  {
    var n, t, u := |q|, Term(q[0], |q| - 1), [false] + TimesG(q[1..]);
    forall i | 0 <= i < n + 16 ensures TimesG(q)[i] == (t[i] != u[i]) {
      TimesGFrontAt(q, i);
    }
  }

  function Coefficient(q: Bits, i: int): bool {
    0 <= i < |q| && q[i]
  }

  lemma TimesGAt(q: Bits, i: nat)
    requires i < |q| + 16
    ensures TimesG(q)[i]
         == ((Coefficient(q, i) != Coefficient(q, i - 4)) != (Coefficient(q, i - 11) != Coefficient(q, i - 16)))
  {
  }

  lemma TimesGFrontAt(q: Bits, i: nat)
    requires q != [] && i < |q| + 16
    ensures TimesG(q)[i] == (Term(q[0], |q| - 1)[i] != ([false] + TimesG(q[1..]))[i])
  {
    TimesGAt(q, i);
    if i > 0 {
      TimesGAt(q[1..], i - 1);
    }
  }

  lemma DividendFront(r: Bits, m: Bits)
    requires |r| == 16 && m != []
    ensures Dividend(r, m) == Xor(Term(r[0] != m[0], |m| - 1), [false] + Dividend(StepIn(r, m[0]), m[1..]))
  {
  }

  /** The register after m is what long division of r*x^|m| + m*x^16 leaves. */
  lemma {:induction false} LongDivision(r: Bits, m: Bits)
    requires |r| == 16
    ensures Divides(Dividend(r, m), Quotient(r, m), Feed(r, m))
    decreases |m|
  {
    if m == [] {
      assert Dividend(r, m) == r == Zeros(0) + r;
      assert TimesG([]) == Zeros(16);
    } else {
      var r', m' := StepIn(r, m[0]), m[1..];
      LongDivision(r', m');
      assert Quotient(r, m) == [r[0] != m[0]] + Quotient(r', m') && Feed(r, m) == Feed(r', m');
      DivisionStep(r, m, Quotient(r', m'), Feed(r', m'));
    }
  }

  /** One turn of long division: the leading bit of the dividend is the next quotient bit. */
  lemma DivisionStep(r: Bits, m: Bits, q: Bits, s: Bits)
    requires |r| == 16 && m != []
    requires Divides(Dividend(StepIn(r, m[0]), m[1..]), q, s)
    ensures Divides(Dividend(r, m), [r[0] != m[0]] + q, s)
  {
    hide StepIn, TimesG, Dividend, Term, Zeros;
    var b := r[0] != m[0];
    var t, g, z := Term(b, |q|), TimesG(q), Zeros(|q|) + s;
    DividendFront(r, m);
    TimesGFront([b] + q);
    assert ([b] + q)[1..] == q;
    ZerosFront(|q| + 1, s);
    XorFront(g, z);
    XorAssociative(t, [false] + g, [false] + z);
  }

  lemma ZerosFront(n: nat, s: Bits)
    requires n > 0
    ensures Zeros(n) + s == [false] + (Zeros(n - 1) + s)
  {
  }

  lemma XorFront(a: Bits, b: Bits)
    requires |a| == |b|
    ensures [false] + Xor(a, b) == Xor([false] + a, [false] + b)
  {
  }

  lemma XorAssociative(a: Bits, b: Bits, c: Bits)
    requires |a| == |b| == |c|
    ensures Xor(a, Xor(b, c)) == Xor(Xor(a, b), c)
  {
  }

  /** Quotient and remainder of a division by the generator are unique. */
  lemma {:induction false} DivisionUnique(d: Bits, q: Bits, r: Bits, q': Bits, r': Bits)
    requires Divides(d, q, r) && Divides(d, q', r')
    ensures q == q' && r == r'
    decreases |q|
  {
    if q == [] {
      assert TimesG([]) == Zeros(16);
      assert d == Zeros(0) + r == r && d == Zeros(0) + r' == r';
    } else {
      DividesFront(d, q, r);
      DividesFront(d, q', r');
      DivisionUnique(Xor(d, Term(q[0], |q| - 1))[1..], q[1..], r, q'[1..], r');
      assert q == [q[0]] + q[1..] && q' == [q'[0]] + q'[1..];
    }
  }

  lemma DividesFront(d: Bits, q: Bits, r: Bits)
    requires Divides(d, q, r) && q != []
    ensures d[0] == q[0]
    ensures Divides(Xor(d, Term(q[0], |q| - 1))[1..], q[1..], r)
  {
    TimesGFront(q);
    var t, g, z := Term(q[0], |q| - 1), TimesG(q[1..]), Zeros(|q| - 1) + r;
    assert Zeros(|q|) + r == [false] + z;
    assert d == Xor(Xor(t, [false] + g), [false] + z);
    assert Xor(d, t) == [false] + Xor(g, z);
  }

  /** The register computes the remainder, and nothing else is the remainder. */
  lemma FeedIsRemainder(r: Bits, m: Bits, s: Bits)
    requires |r| == 16 && |s| == 16
    ensures IsRemainder(Dividend(r, m), s) <==> s == Feed(r, m)
  {
    LongDivision(r, m);
    if IsRemainder(Dividend(r, m), s) {
      var q :| Divides(Dividend(r, m), q, s);
      DivisionUnique(Dividend(r, m), q, s, Quotient(r, m), Feed(r, m));
    }
  }
}
