/**
 * The process-wide identifier counter of pkg/GenID. The Go field is an
 * int64 bumped with atomic.AddInt64; the model keeps the 64-bit width and
 * its two's-complement wrap-around, and runs the increments one at a time.
 */
module GenId {

  const MinInt64: int := -0x8000_0000_0000_0000
  const MaxInt64: int := 0x7fff_ffff_ffff_ffff
  const TwoTo64: int := 0x1_0000_0000_0000_0000

  newtype int64 = x: int | -0x8000_0000_0000_0000 <= x < 0x8000_0000_0000_0000

  /** Reduces an integer to the int64 with the same low 64 bits. */
  function Wrap(x: int): (r: int64)
    ensures MinInt64 <= x <= MaxInt64 ==> r as int == x
    ensures (x - r as int) % TwoTo64 == 0
  {
    ((x - MinInt64) % TwoTo64 + MinInt64) as int64
  }

  /** What atomic.AddInt64(&id, 1) stores and returns when the counter holds `id`. */
  function Next(id: int64): (r: int64)
    ensures id as int < MaxInt64 ==> r as int == id as int + 1
    ensures id as int == MaxInt64 ==> r as int == MinInt64
  {
    Wrap(id as int + 1)
  }

  class IdCounter {
    var id: int64

    /** NewCounter: the zero value of the struct. */
    constructor ()
      ensures id == 0
    {
      id := 0;
    }

    /** Adds one to the counter and returns the new value. */
    method GenerateID() returns (r: int)
      modifies this
      ensures id == Next(old(id))
      ensures r == id as int
    {
      id := Next(id);
      r := id as int;
    }
  }

  /** The values returned by `n` successive GenerateID calls on a counter holding `start`. */
  function Issued(start: int64, n: nat): (ids: seq<int>)
    ensures |ids| == n
    decreases n
  {
    if n == 0 then [] else [Next(start) as int] + Issued(Next(start), n - 1)
  }

  /** Away from the int64 limit, the k-th call (from 0) returns start + k + 1. */
  lemma {:induction false} IssuedIsRange(start: int64, n: nat)
    requires start as int + n <= MaxInt64
    ensures forall k :: 0 <= k < n ==> Issued(start, n)[k] == start as int + k + 1
    decreases n
  {
    if n > 0 {
      IssuedIsRange(Next(start), n - 1);
    }
  }

  /** A fresh counter hands out exactly 1, 2, ..., n, in this order. */
  lemma FreshCounterIssuesOneToN(n: nat)
    requires n <= MaxInt64
    ensures Issued(0, n) == seq(n, k => k + 1)
  {
    IssuedIsRange(0, n);
  }

  /** Until the counter reaches MaxInt64, later calls return strictly larger values, hence no duplicates. */
  lemma IssuedStrictlyIncreasing(start: int64, n: nat)
    requires start as int + n <= MaxInt64
    ensures forall i, j :: 0 <= i < j < n ==> Issued(start, n)[i] < Issued(start, n)[j]
  {
    IssuedIsRange(start, n);
  }

  /**
   * The one point where identifiers stop increasing: the call after MaxInt64
   * returns MinInt64. A value repeats only 2^64 calls after it was issued.
   */
  lemma {:induction false} IssuedWrapsAtLimit(start: int64, n: nat)
    requires start as int + n == MaxInt64
    ensures Issued(start, n + 1)[n] == MinInt64
    decreases n
  {
    if n > 0 {
      IssuedWrapsAtLimit(Next(start), n - 1);
    }
  }
}
