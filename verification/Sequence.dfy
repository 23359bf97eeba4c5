/** The sequence numbers a device handle gives out. */
module Sequence {
  import opened Words
  import opened Transport

  /** The number of the k-th request since open, counting from zero. */
  function SeqAt(k: nat): (s: u16)
    ensures s != 0
  {
    1 + k % 65535
  }

  lemma SeqAfterAt(k: nat)
    ensures SeqAt(0) == 1
    ensures SeqAfter(SeqAt(k)) == SeqAt(k + 1)
  {
    NextMod(k, k / 65535, k % 65535);
  }

  lemma NextMod(k: nat, q: nat, r: nat)
    requires k == 65535 * q + r && r < 65535
    ensures k % 65535 == r
    ensures (k + 1) % 65535 == if r == 65534 then 0 else r + 1
  {
    if r == 65534 {
      assert k + 1 == 65535 * (q + 1);
    } else {
      assert k + 1 == 65535 * q + (r + 1);
    }
  }

  /** Calling next_seq k times on a fresh handle. */
  function AfterCalls(k: nat): u16 {
    if k == 0 then 1 else SeqAfter(AfterCalls(k - 1))
  }

  /** The k-th call returns 1 + k mod 65535. */
  lemma {:induction false} CallReturns(k: nat)
    ensures AfterCalls(k) == SeqAt(k)
  {
    if k > 0 {
      CallReturns(k - 1);
      SeqAfterAt(k - 1);
    }
  }

  /** Whether two calls are a whole number of counter rounds apart. */
  predicate SameSlot(i: nat, j: nat) {
    (i - j) % 65535 == 0
  }

  /** Two requests carry the same 16-bit number exactly when they are a multiple of 65535 calls apart. */
  lemma SameNumber(i: nat, j: nat)
    ensures Wire(SeqAt(i)) == Wire(SeqAt(j)) <==> SameSlot(i, j)
  {
    CastWord(SeqAt(i));
    CastWord(SeqAt(j));
    ModEqual(i, j);
  }

  lemma ModEqual(i: nat, j: nat)
    ensures i % 65535 == j % 65535 <==> (i - j) % 65535 == 0
  {
  }

  /** Any 65535 consecutive numbers are pairwise distinct. */
  lemma WindowDistinct(i: nat, j: nat)
    requires i < j < i + 65535
    ensures Wire(SeqAt(i)) != Wire(SeqAt(j))
  {
    SameNumber(i, j);
  }
}
