// Fixed-capacity circular int queue (data array written in place, front and
// back indices advancing modulo cap). There is no overflow or underflow check.

module Queues {

  /** x mod cap for x within one cap below 0 or above cap: at most one wrap. */
  lemma ModWrap(x: int, cap: int)
    requires -cap <= x < 2 * cap
    ensures x % cap == if x < 0 then x + cap else if x < cap then x else x - cap
  {
  }

  /** (b - f) mod cap for indices in [0, cap). */
  function Distance(f: int, b: int, cap: int): (d: nat)
    requires 0 <= f < cap && 0 <= b < cap
    ensures d < cap && d == (b - f) % cap
  {
    ModWrap(b - f, cap);
    if f <= b then b - f else b - f + cap
  }

  /** Slot i positions after f, wrapping around once: (f + i) mod cap. */
  function Slot(f: int, i: int, cap: int): (k: int)
    requires 0 <= f < cap && 0 <= i <= cap
    ensures 0 <= k < cap && k == (f + i) % cap
  {
    ModWrap(f + i, cap);
    if f + i < cap then f + i else f + i - cap
  }

  /** The len values stored from slot f on, wrapping at the end of d. */
  function Window(d: seq<int>, f: int, len: nat): (w: seq<int>)
    requires 0 <= f < |d| && len < |d|
    ensures |w| == len
  {
    seq(len, i requires 0 <= i < len => d[Slot(f, i, |d|)])
  }

  class Queue {
    var n: int
    var cap: int
    var data: array<int>
    var frontI: int
    var backI: int

    /** cap > 0 is needed by the `% cap` in enqueue/dequeue. */
    ghost predicate Valid()
      reads this
    {
      cap > 0 && data.Length == cap && 0 <= frontI < cap && 0 <= backI < cap
    }

    /** Number of stored values as the indices see it (cap values look like 0). */
    ghost function Len(): nat
      reads this
      requires Valid()
    {
      Distance(frontI, backI, cap)
    }

    /** The stored values, oldest first. */
    ghost function Contents(): seq<int>
      reads this, data
      requires Valid()
    {
      Window(data[..], frontI, Len())
    }

    /** createQueue: an empty queue of capacity cap. */
    constructor (cap: int)
      requires cap > 0
      ensures Valid() && fresh(data) && this.cap == cap
      ensures frontI == 0 && backI == 0 && Contents() == []
    {
      n := 0;
      data := new int[cap];
      frontI := 0;
      backI := 0;
      this.cap := cap;
    }

    /** isEmptyQueue: the two indices meet exactly when nothing is stored. */
    method IsEmptyQueue() returns (b: bool)
      requires Valid()
      ensures b <==> Contents() == []
      ensures b <==> frontI == backI
    {
      return frontI == backI;
    }

    /** enqueue: write at the old back index and advance it modulo cap; the
        contents grow by val as long as the queue does not become full. */
    method Enqueue(val: int)
      requires Valid()
      modifies this, data
      ensures Valid() && cap == old(cap) && data == old(data) && frontI == old(frontI)
      ensures data[..] == old(data[..])[old(backI) := val]
      ensures backI == (old(backI) + 1) % cap
      ensures old(Len()) + 1 < cap ==> Contents() == old(Contents()) + [val]
    {
      data[backI] := val;
      backI := (backI + 1) % cap;
      assert backI == Slot(old(backI), 1, cap);
      if old(Len()) + 1 < cap {
        assert Len() == old(Len()) + 1;
        forall i | 0 <= i < Len() ensures Contents()[i] == (old(Contents()) + [val])[i] {
          if i < old(Len()) {
            assert Slot(frontI, i, cap) != old(backI);
          } else {
            assert Slot(frontI, i, cap) == old(backI);
          }
        }
      }
    }

    /** dequeue: return the value at the front index and advance it modulo
        cap; on a non-empty queue that is the oldest value, and it leaves. */
    method Dequeue() returns (val: int)
      requires Valid()
      modifies this
      ensures Valid() && cap == old(cap) && data == old(data) && backI == old(backI)
      ensures val == data[old(frontI)]
      ensures frontI == (old(frontI) + 1) % cap
      ensures old(Contents()) != [] ==> val == old(Contents())[0] && Contents() == old(Contents())[1..]
    {
      val := data[frontI];
      frontI := (frontI + 1) % cap;
      assert frontI == Slot(old(frontI), 1, cap);
      if old(Len()) > 0 {
        assert Len() == old(Len()) - 1;
        forall i | 0 <= i < Len() ensures Contents()[i] == old(Contents())[1..][i] {
          assert Slot(frontI, i, cap) == Slot(old(frontI), i + 1, cap);
        }
      }
    }
  }
}
