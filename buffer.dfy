// Growable append buffer. The element type is a type parameter instead of
// an element size; `data` holds the n used slots, and cap is the allocated
// slot count, which only matters for when the buffer grows.

module Buffers {

  /** The capacity after a full buffer grows: 1024 from 0, doubled otherwise. */
  function GrownCap(cap: int): (c: int)
    ensures cap > 0 ==> c == 2 * cap
    ensures cap == 0 ==> c == 1024
  {
    if cap == 0 then 1024 else cap * 2
  }

  class Buffer<T> {
    var n: int
    var cap: int
    var data: seq<T>

    ghost predicate Valid()
      reads this
    {
      n == |data| && 0 <= n <= cap
    }

    /** setBuffer / createBuffer: an empty buffer with 1024 slots. */
    constructor ()
      ensures Valid() && n == 0 && cap == 1024 && data == []
    {
      n := 0;
      cap := 1024;
      data := [];
    }

    /** appendToBuffer: grow when full, then put elem in slot n. */
    method Append(elem: T)
      requires Valid()
      modifies this
      ensures Valid()
      ensures data == old(data) + [elem] && n == old(n) + 1
      ensures cap == (if old(n) >= old(cap) then GrownCap(old(cap)) else old(cap))
    {
      if n >= cap {
        cap := if cap == 0 then 1024 else cap * 2;
      }
      data := data + [elem];
      n := n + 1;
    }
  }

  /** createBuffers: k empty buffers, pairwise distinct objects. */
  method CreateBuffers<T>(nBuffs: nat) returns (buffs: array<Buffer<T>>)
    ensures fresh(buffs) && buffs.Length == nBuffs
    ensures forall i :: 0 <= i < nBuffs ==> fresh(buffs[i])
    ensures forall i :: 0 <= i < nBuffs ==> buffs[i].Valid() && buffs[i].data == [] && buffs[i].cap == 1024
    ensures forall i, j :: 0 <= i < j < nBuffs ==> buffs[i] != buffs[j]
  {
    var first := new Buffer<T>();
    buffs := new Buffer<T>[nBuffs](_ => first);
    var i := 0;
    while i < nBuffs
      invariant 0 <= i <= nBuffs
      invariant forall k :: 0 <= k < i ==> fresh(buffs[k])
      invariant forall k :: 0 <= k < i ==> buffs[k].Valid() && buffs[k].data == [] && buffs[k].cap == 1024
      invariant forall k, j :: 0 <= k < j < i ==> buffs[k] != buffs[j]
    {
      var b := new Buffer<T>();
      buffs[i] := b;
      i := i + 1;
    }
  }
}
