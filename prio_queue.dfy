// Binary min-heap of (key, value) pairs stored in an array that doubles when
// full. Entries are never updated in place: callers insert duplicates and skip
// stale ones (lazy deletion).

module PrioQueues {
  import opened Types

  /** The parent slot of slot i > 0, with C's division (i - 1 >= 0 here). */
  function Parent(i: int): int
    requires i > 0
  {
    (i - 1) / 2
  }

  /** Slot k is no larger than those of its children 2k+1 and 2k+2 that
      lie below size. */
  ghost predicate Ordered(s: seq<Pair>, size: int, k: int)
    requires 0 <= k && 0 <= size <= |s| && k < size
  {
    && (2 * k + 1 < size ==> s[k].value <= s[2 * k + 1].value)
    && (2 * k + 2 < size ==> s[k].value <= s[2 * k + 2].value)
  }

  /** Slots 0..size-1 of s form a min-heap on `value`. */
  ghost predicate Heap(s: seq<Pair>, size: int)
    requires 0 <= size <= |s|
  {
    forall k :: 0 <= k < size ==> Ordered(s, size, k)
  }

  /** h's parent is no larger than h's children. */
  ghost predicate GrandOrdered(s: seq<Pair>, size: int, h: int)
    requires 0 <= h && 0 <= size <= |s| && h < size
  {
    h > 0 ==>
      && (2 * h + 1 < size ==> s[Parent(h)].value <= s[2 * h + 1].value)
      && (2 * h + 2 < size ==> s[Parent(h)].value <= s[2 * h + 2].value)
  }

  /** Heap order holds except from slot h down to its children, and h's
      parent is no larger than h's children (sink's loop state). */
  ghost predicate HeapBelowHole(s: seq<Pair>, size: int, h: int)
    requires 0 <= size <= |s| && 0 <= h
  {
    && (forall k :: 0 <= k < size && k != h ==> Ordered(s, size, k))
    && (h < size ==> GrandOrdered(s, size, h))
  }

  /** Heap order holds except from h's parent to h, and h's parent is no
      larger than h's children (bubbleUp's loop state). */
  ghost predicate HeapAboveHole(s: seq<Pair>, size: int, h: int)
    requires 0 <= size <= |s| && 0 <= h
  {
    && (forall k :: 0 <= k < size ==>
          && (2 * k + 1 < size && 2 * k + 1 != h ==> s[k].value <= s[2 * k + 1].value)
          && (2 * k + 2 < size && 2 * k + 2 != h ==> s[k].value <= s[2 * k + 2].value))
    && (h < size ==> GrandOrdered(s, size, h))
  }

  /** s with slots i and j exchanged. */
  function Swapped(s: seq<Pair>, i: int, j: int): (t: seq<Pair>)
    requires 0 <= i < |s| && 0 <= j < |s|
    ensures |t| == |s| && t[i] == s[j] && t[j] == s[i]
    ensures forall k :: 0 <= k < |s| && k != i && k != j ==> t[k] == s[k]
  {
    s[i := s[j]][j := s[i]]
  }

  /** Exchanging two slots below size keeps the stored multiset and the rest. */
  lemma SwappedKeepsContents(s: seq<Pair>, size: int, i: int, j: int)
    requires 0 <= i < size <= |s| && 0 <= j < size
    ensures multiset(Swapped(s, i, j)[..size]) == multiset(s[..size])
    ensures Swapped(s, i, j)[size..] == s[size..]
  {
    var t := Swapped(s, i, j);
    assert t[..size] == s[..size][i := s[j]][j := s[i]];
  }

  /** t holds the same pairs as s in slots 0..size-1, and the same slots after. */
  ghost predicate Rearranged(s: seq<Pair>, t: seq<Pair>, size: int)
    requires 0 <= size <= |s|
  {
    |t| == |s| && multiset(t[..size]) == multiset(s[..size]) && t[size..] == s[size..]
  }

  /** A further swap below size is still a rearrangement of the start. */
  lemma RearrangedSwap(s0: seq<Pair>, s: seq<Pair>, size: int, i: int, j: int)
    requires 0 <= i < size <= |s0| && 0 <= j < size && Rearranged(s0, s, size)
    ensures Rearranged(s0, Swapped(s, i, j), size)
  {
    SwappedKeepsContents(s, size, i, j);
  }

  /** In a heap the root holds the smallest value. */
  lemma {:induction false} HeapRootIsMin(s: seq<Pair>, size: int, i: int)
    requires 0 <= i < size <= |s| && Heap(s, size)
    ensures s[0].value <= s[i].value
    decreases i
  {
    if i > 0 {
      var p := Parent(i);
      assert i == 2 * p + 1 || i == 2 * p + 2;
      assert Ordered(s, size, p);
      HeapRootIsMin(s, size, p);
    }
  }

  /** p is stored in m and no stored pair has a smaller value. */
  ghost predicate LeastIn(p: Pair, m: multiset<Pair>)
  {
    p in m && forall q :: q in m ==> p.value <= q.value
  }

  /** So the root is a stored pair no larger than any other. */
  lemma HeapRootBelowAll(s: seq<Pair>, size: int)
    requires 0 < size <= |s| && Heap(s, size)
    ensures LeastIn(s[0], multiset(s[..size]))
  {
    assert s[..size][0] == s[0];
    forall k | 0 <= k < size ensures s[0].value <= s[k].value {
      HeapRootIsMin(s, size, k);
    }
    forall q | q in multiset(s[..size]) ensures s[0].value <= q.value {
      assert q in s[..size];
    }
  }

  /** Moving the last leaf to the root and dropping the old root leaves a heap
      with a hole at the root. */
  lemma RootHole(s: seq<Pair>, size: int)
    requires 0 < size <= |s| && Heap(s, size)
    ensures HeapBelowHole(Swapped(s, 0, size - 1), size - 1, 0)
  {
    var t, sz := Swapped(s, 0, size - 1), size - 1;
    forall k | 0 < k < sz ensures Ordered(t, sz, k) {
      assert Ordered(s, size, k);
    }
  }

  /** ... and the slots in use then hold the old pairs minus the root. */
  lemma RemoveRoot(s: seq<Pair>, size: int)
    requires 0 < size <= |s|
    ensures multiset(Swapped(s, 0, size - 1)[..size - 1]) == multiset(s[..size]) - multiset{s[0]}
  {
    var t := Swapped(s, 0, size - 1);
    SwappedKeepsContents(s, size, 0, size - 1);
    assert t[..size] == t[..size - 1] + [s[0]];
  }

  /** The same first size slots make the same heap. */
  lemma HeapPrefix(s: seq<Pair>, t: seq<Pair>, size: int)
    requires 0 <= size <= |s| && size <= |t| && s[..size] == t[..size] && Heap(s, size)
    ensures Heap(t, size)
  {
    forall k | 0 <= k < size ensures Ordered(t, size, k) {
      assert Ordered(s, size, k);
      assert t[k] == s[..size][k];
      assert 2 * k + 1 < size ==> t[2 * k + 1] == s[..size][2 * k + 1];
      assert 2 * k + 2 < size ==> t[2 * k + 2] == s[..size][2 * k + 2];
    }
  }

  /** A new last leaf under a heap leaves the hole at that leaf. */
  lemma AddLeaf(s: seq<Pair>, size: int, p: Pair)
    requires 0 <= size < |s| && Heap(s, size)
    ensures HeapAboveHole(s[size := p], size + 1, size)
  {
    var t := s[size := p];
    forall k | 0 <= k < size + 1
      ensures 2 * k + 1 < size + 1 && 2 * k + 1 != size ==> t[k].value <= t[2 * k + 1].value
      ensures 2 * k + 2 < size + 1 && 2 * k + 2 != size ==> t[k].value <= t[2 * k + 2].value
    {
      if 2 * k + 1 < size {
        assert Ordered(s, size, k);
      }
    }
  }

  /** What extractMin promises, from the heap before and the slots after:
      the old root was a least pair and exactly one copy of it is gone. */
  lemma ExtractedRoot(s: seq<Pair>, size: int, u: seq<Pair>)
    requires 0 < size <= |s| && Heap(s, size)
    requires Rearranged(Swapped(s, 0, size - 1), u, size - 1)
    ensures LeastIn(s[0], multiset(s[..size]))
    ensures multiset(u[..size - 1]) == multiset(s[..size]) - multiset{s[0]}
  {
    HeapRootBelowAll(s, size);
    RemoveRoot(s, size);
  }

  /** One step of sink: swapping k with its smaller child c moves the hole to c. */
  lemma SinkStep(s: seq<Pair>, size: int, k: int, c: int)
    requires 0 <= size <= |s| && 0 <= k && HeapBelowHole(s, size, k)
    requires c == 2 * k + 1 || c == 2 * k + 2
    requires c < size && s[c].value < s[k].value
    requires 2 * k + 1 < size ==> s[c].value <= s[2 * k + 1].value
    requires 2 * k + 2 < size ==> s[c].value <= s[2 * k + 2].value
    ensures HeapBelowHole(Swapped(s, k, c), size, c)
  {
    var t := Swapped(s, k, c);
    forall j | 0 <= j < size && j != c ensures Ordered(t, size, j) {
      if j != k {
        assert Ordered(s, size, j);
        if k > 0 && j == Parent(k) {
          assert k == 2 * j + 1 || k == 2 * j + 2;
          assert GrandOrdered(s, size, k);
        } else if k > 0 {
          assert k != 2 * j + 1 && k != 2 * j + 2;
        }
      }
    }
    assert Parent(c) == k;
    assert Ordered(s, size, c);
  }

  /** sink stops when k is no larger than its children (or has none). */
  lemma SinkDone(s: seq<Pair>, size: int, k: int)
    requires 0 <= size <= |s| && 0 <= k && HeapBelowHole(s, size, k)
    requires 2 * k + 1 < size ==> s[k].value <= s[2 * k + 1].value
    requires 2 * k + 2 < size ==> s[k].value <= s[2 * k + 2].value
    ensures Heap(s, size)
  {
  }

  /** One step of bubbleUp: swapping k with a larger parent moves the hole up. */
  lemma BubbleStep(s: seq<Pair>, size: int, k: int)
    requires 0 < k < size <= |s| && HeapAboveHole(s, size, k)
    requires s[k].value < s[Parent(k)].value
    ensures HeapAboveHole(Swapped(s, k, Parent(k)), size, Parent(k))
  {
    var p := Parent(k);
    var t := Swapped(s, k, p);
    assert k == 2 * p + 1 || k == 2 * p + 2;
    assert GrandOrdered(s, size, k);
    forall j | 0 <= j < size
      ensures 2 * j + 1 < size && 2 * j + 1 != p ==> t[j].value <= t[2 * j + 1].value
      ensures 2 * j + 2 < size && 2 * j + 2 != p ==> t[j].value <= t[2 * j + 2].value
    {
      if j != p && j != k {
        assert k != 2 * j + 1 && k != 2 * j + 2;
      }
    }
    if p > 0 {
      var g := Parent(p);
      assert p == 2 * g + 1 || p == 2 * g + 2;
      assert s[g].value <= s[p].value;
    }
  }

  /** bubbleUp stops at the root or under a parent that is no larger. */
  lemma BubbleDone(s: seq<Pair>, size: int, k: int)
    requires 0 <= k && 0 <= size <= |s| && HeapAboveHole(s, size, k)
    requires k > 0 && k < size ==> s[Parent(k)].value <= s[k].value
    ensures Heap(s, size)
  {
    forall j | 0 <= j < size ensures Ordered(s, size, j) {
      if k > 0 && k < size && j == Parent(k) {
        assert k == 2 * j + 1 || k == 2 * j + 2;
      }
    }
  }

  class PrioQueue {
    var n: int
    var indexLastLeaf: int
    var queue: array<Pair>

    /** n is the allocated capacity; slots 0..indexLastLeaf are in use. */
    ghost predicate Valid()
      reads this
    {
      queue.Length == n && -1 <= indexLastLeaf < n
    }

    /** The stored pairs. */
    ghost function Contents(): multiset<Pair>
      reads this, queue
      requires Valid()
    {
      multiset(queue[..indexLastLeaf + 1])
    }

    ghost predicate IsHeap()
      reads this, queue
      requires Valid()
    {
      Heap(queue[..], indexLastLeaf + 1)
    }

    /** createPrioQueue: an empty heap with n slots. */
    constructor (n: nat)
      ensures Valid() && IsHeap() && fresh(queue)
      ensures this.n == n && indexLastLeaf == -1 && Contents() == multiset{}
    {
      this.n := n;
      indexLastLeaf := -1;
      queue := new Pair[n](_ => Pair(0, 0));
    }

    /** isEmpty: nothing stored exactly when indexLastLeaf is -1. */
    method IsEmpty() returns (b: bool)
      requires Valid()
      ensures b <==> indexLastLeaf == -1
      ensures b <==> Contents() == multiset{}
    {
      return indexLastLeaf == -1;
    }

    /** swap: exchange two slots, every other slot unchanged. */
    method Swap(i: int, j: int)
      requires 0 <= i < queue.Length && 0 <= j < queue.Length
      modifies queue
      ensures queue[..] == Swapped(old(queue[..]), i, j)
    {
      var tmp := queue[i];
      queue[i] := queue[j];
      queue[j] := tmp;
    }

    /** sink: move the root down, always below its smaller child, until the
        heap order holds again; the stored pairs are only rearranged. */
    method Sink()
      requires Valid() && HeapBelowHole(queue[..], indexLastLeaf + 1, 0)
      modifies queue
      ensures IsHeap()
      ensures Rearranged(old(queue[..]), queue[..], indexLastLeaf + 1)
    {
      ghost var s0, size := queue[..], indexLastLeaf + 1;
      ghost var s := s0;
      var i := 0;
      var done := false;
      while !done && 2 * i + 1 <= indexLastLeaf
        invariant queue[..] == s && |s| == |s0|
        invariant 0 <= i && (size > 0 ==> i < size)
        invariant done ==> Heap(s, size)
        invariant !done ==> HeapBelowHole(s, size, i)
        invariant Rearranged(s0, s, size)
        decreases !done, size - i
      {
        var l := 2 * i + 1;
        var r := l + 1;
        if r <= indexLastLeaf && queue[r].value < queue[l].value {
          l := r;
        }
        if queue[i].value <= queue[l].value {
          SinkDone(s, size, i);
          done := true;
        } else {
          SinkStep(s, size, i, l);
          RearrangedSwap(s0, s, size, i, l);
          Swap(i, l);
          s := Swapped(s, i, l);
          i := l;
        }
      }
      if !done {
        SinkDone(s, size, i);
      }
    }

    /** bubbleUp: move the last leaf up while it is smaller than its parent. */
    method BubbleUp()
      requires Valid() && indexLastLeaf >= 0 && HeapAboveHole(queue[..], indexLastLeaf + 1, indexLastLeaf)
      modifies queue
      ensures IsHeap()
      ensures Rearranged(old(queue[..]), queue[..], indexLastLeaf + 1)
    {
      ghost var s0, size := queue[..], indexLastLeaf + 1;
      ghost var s := s0;
      var i := indexLastLeaf;
      var done := false;
      while !done && i > 0
        invariant queue[..] == s && |s| == |s0|
        invariant 0 <= i < size
        invariant done ==> Heap(s, size)
        invariant !done ==> HeapAboveHole(s, size, i)
        invariant Rearranged(s0, s, size)
        decreases !done, i
      {
        var parent := (i - 1) / 2;
        if queue[i].value >= queue[parent].value {
          BubbleDone(s, size, i);
          done := true;
        } else {
          BubbleStep(s, size, i);
          RearrangedSwap(s0, s, size, i, parent);
          Swap(i, parent);
          s := Swapped(s, i, parent);
          i := parent;
        }
      }
      if !done {
        BubbleDone(s, size, i);
      }
    }

    /** resizePrioQueue: a new array of newSize slots keeping the old prefix. */
    method Resize(newSize: nat)
      requires Valid() && indexLastLeaf < newSize
      modifies this
      ensures Valid() && fresh(queue) && n == newSize && indexLastLeaf == old(indexLastLeaf)
      ensures forall i :: 0 <= i < old(n) && i < newSize ==> queue[i] == old(queue[i])
    {
      var newQueue := new Pair[newSize](_ => Pair(0, 0));
      var i := 0;
      while i < newSize && i < n
        invariant 0 <= i <= newSize && i <= n
        invariant forall k :: 0 <= k < i ==> newQueue[k] == queue[k]
        modifies newQueue
      {
        newQueue[i] := queue[i];
        i := i + 1;
      }
      queue := newQueue;
      n := newSize;
    }

    /** insert: double the capacity when full, put p in the next leaf and
        bubble it up. Needs capacity > 0: doubling 0 gives no room. */
    method Insert(p: Pair)
      requires Valid() && IsHeap() && n > 0
      modifies this, queue
      ensures Valid() && IsHeap() && n > 0
      ensures Contents() == old(Contents()) + multiset{p}
      ensures indexLastLeaf == old(indexLastLeaf) + 1
      ensures n == (if old(indexLastLeaf) + 1 == old(n) then 2 * old(n) else old(n))
      ensures old(indexLastLeaf) + 1 == old(n) ==> fresh(queue)
      ensures old(indexLastLeaf) + 1 < old(n) ==> queue == old(queue)
    {
      if indexLastLeaf + 1 == n {
        Resize(n * 2);
        assert queue[..indexLastLeaf + 1] == old(queue[..indexLastLeaf + 1]);
        HeapPrefix(old(queue[..]), queue[..], indexLastLeaf + 1);
      }
      ghost var s := queue[..];
      AddLeaf(s, indexLastLeaf + 1, p);
      indexLastLeaf := indexLastLeaf + 1;
      queue[indexLastLeaf] := p;
      assert queue[..] == s[indexLastLeaf := p];
      assert queue[..indexLastLeaf + 1] == s[..indexLastLeaf] + [p];
      BubbleUp();
    }

    /** extractMin: on a non-empty heap, remove and return a pair of least
        value; exactly one copy of it leaves the stored multiset. */
    method ExtractMin() returns (min: Pair)
      requires Valid() && IsHeap() && indexLastLeaf >= 0
      modifies this, queue
      ensures Valid() && IsHeap() && n == old(n) && queue == old(queue)
      ensures LeastIn(min, old(Contents()))
      ensures Contents() == old(Contents()) - multiset{min}
      ensures indexLastLeaf == old(indexLastLeaf) - 1
    {
      ghost var s, size := queue[..], indexLastLeaf + 1;
      min := queue[0];
      RootHole(s, size);
      Swap(0, indexLastLeaf);
      indexLastLeaf := indexLastLeaf - 1;
      Sink();
      ExtractedRoot(s, size, queue[..]);
    }
  }
}
