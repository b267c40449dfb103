/**
 * winbase::AtomicSequenceNumber (win/winbase/atomic/atomic_sequence_num.h):
 * GetNext returns the value of an int counter that starts at 0 and then
 * adds one to it. The fetch_add is modelled sequentially; on std::atomic
 * the int wraps from INT_MAX to INT_MIN rather than overflowing.
 */
module AtomicSequenceNumbers {

  /** 2^31 and 2^32: the bounds of a 32-bit int. */
  const TwoTo31: int := 0x8000_0000
  const TwoTo32: int := 0x1_0000_0000

  /** The value a 32-bit two's-complement int holds after counting k from 0. */
  function Int32Wrap(k: int): (r: int)
    ensures -TwoTo31 <= r < TwoTo31
    ensures (r - k) % TwoTo32 == 0
  {
    (k + TwoTo31) % TwoTo32 - TwoTo31
  }

  /** The first number is 0. */
  lemma FirstIsZero()
    ensures Int32Wrap(0) == 0
  {
  }

  /** Before the counter wraps the k-th number (0-based) is k. */
  lemma NthIsN(k: nat)
    requires k < TwoTo31
    ensures Int32Wrap(k) == k
  {
  }

  /** Before the counter wraps the numbers strictly increase. */
  lemma Increasing(j: nat, k: nat)
    requires j < k < TwoTo31
    ensures Int32Wrap(j) < Int32Wrap(k)
  {
    NthIsN(j);
    NthIsN(k);
  }

  /** Any 2^32 consecutive calls return pairwise distinct numbers. */
  lemma Distinct(j: nat, k: nat)
    requires j < k < j + TwoTo32
    ensures Int32Wrap(j) != Int32Wrap(k)
  {
    if Int32Wrap(j) == Int32Wrap(k) {
      assert (k - j) % TwoTo32 == 0 by {
        assert (Int32Wrap(k) - k) % TwoTo32 == 0 && (Int32Wrap(j) - j) % TwoTo32 == 0;
        SameResidue(j, k, Int32Wrap(j));
      }
      assert false;
    }
  }

  /** Two numbers congruent to the same value are congruent to each other. */
  lemma SameResidue(j: int, k: int, r: int)
    requires (r - j) % TwoTo32 == 0 && (r - k) % TwoTo32 == 0
    ensures (k - j) % TwoTo32 == 0
  {
    var a := (r - j) / TwoTo32;
    var b := (r - k) / TwoTo32;
    assert r - j == a * TwoTo32;
    assert r - k == b * TwoTo32;
    assert k - j == (a - b) * TwoTo32;
  }

  /** Counting one more moves to the next int, from INT_MAX to INT_MIN. */
  lemma WrapStep(k: int)
    ensures Int32Wrap(k + 1) == if Int32Wrap(k) == TwoTo31 - 1 then -TwoTo31 else Int32Wrap(k) + 1
  {
    var q := (k + TwoTo31) / TwoTo32;
    var m := (k + TwoTo31) % TwoTo32;
    assert k + TwoTo31 == q * TwoTo32 + m;
    if m == TwoTo32 - 1 {
      assert k + 1 + TwoTo31 == (q + 1) * TwoTo32;
    } else {
      assert k + 1 + TwoTo31 == q * TwoTo32 + (m + 1);
    }
  }

  class AtomicSequenceNumber {
    /** seq_, the std::atomic_int. */
    var counter: int
    /** How many times GetNext has been called. */
    ghost var calls: nat

    ghost predicate Valid()
      reads this
    {
      counter == Int32Wrap(calls)
    }

    /** AtomicSequenceNumber(): seq_ starts at 0. */
    constructor ()
      ensures Valid() && calls == 0 && counter == 0
    {
      counter := 0;
      calls := 0;
    }

    /**
     * GetNext: returns the counter and adds one to it, so the n-th call
     * (0-based) returns Int32Wrap(n).
     */
    method GetNext() returns (r: int)
      requires Valid()
      modifies this
      ensures Valid() && calls == old(calls) + 1
      ensures r == old(counter) == Int32Wrap(old(calls))
    {
      r := counter;
      WrapStep(calls);
      counter := if counter == TwoTo31 - 1 then -TwoTo31 else counter + 1;
      calls := calls + 1;
    }
  }
}
