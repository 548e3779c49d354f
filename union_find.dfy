// Disjoint sets over 0..n-1 with union by rank and path compression
// (parent/rank arrays updated in place).

module UnionFinds {

  /** The largest rank; ranks strictly grow along parent links, so
      `MaxRank(r) - r[x]` bounds the distance from x to its root. */
  function MaxRank(r: seq<nat>): (mx: nat)
    ensures forall i :: 0 <= i < |r| ==> r[i] <= mx
  {
    if r == [] then 0
    else
      var rest := MaxRank(r[1..]);
      assert forall i :: 1 <= i < |r| ==> r[i] == r[1..][i - 1];
      if r[0] <= rest then rest else r[0]
  }

  /** A forest: parents in range and ranks strictly increasing towards roots. */
  ghost predicate Forest(p: seq<int>, r: seq<nat>)
  {
    && |p| == |r|
    && (forall i :: 0 <= i < |p| ==> 0 <= p[i] < |p|)
    && (forall i :: 0 <= i < |p| && p[i] != i ==> r[i] < r[p[i]])
  }

  /** The representative of x: follow parent links until a self-parent. */
  ghost function Root(p: seq<int>, r: seq<nat>, x: int): (root: int)
    requires Forest(p, r) && 0 <= x < |p|
    ensures 0 <= root < |p| && p[root] == root
    ensures x != root ==> r[x] < r[root]
    decreases MaxRank(r) - r[x]
  {
    if p[x] == x then x else Root(p, r, p[x])
  }

  /** Pointing x straight at its root keeps the forest and every representative. */
  lemma {:induction false} CompressKeepsRoots(p: seq<int>, r: seq<nat>, x: int, z: int)
    requires Forest(p, r) && 0 <= x < |p| && 0 <= z < |p|
    ensures Forest(p[x := Root(p, r, x)], r)
    ensures Root(p[x := Root(p, r, x)], r, z) == Root(p, r, z)
    decreases MaxRank(r) - r[z]
  {
    var R := Root(p, r, x);
    var p' := p[x := R];
    assert Forest(p', r);
    if z == x {
      if p[x] != x {
        assert p'[R] == R;
      }
    } else if p[z] != z {
      CompressKeepsRoots(p, r, x, p[z]);
    }
  }

  /** Hanging root sY under root sX (bumping sX's rank when the ranks tie)
      keeps a forest and merges exactly the two sets. */
  lemma {:induction false} LinkRoots(p: seq<int>, r: seq<nat>, sX: int, sY: int, z: int)
    requires Forest(p, r) && 0 <= sX < |p| && 0 <= sY < |p| && 0 <= z < |p|
    requires p[sX] == sX && p[sY] == sY && sX != sY && r[sY] <= r[sX]
    ensures Forest(p[sY := sX], Linked(r, sX, sY))
    ensures Root(p[sY := sX], Linked(r, sX, sY), z) ==
      (if Root(p, r, z) == sY then sX else Root(p, r, z))
    decreases MaxRank(r) - r[z]
  {
    var p', r' := p[sY := sX], Linked(r, sX, sY);
    assert Forest(p', r');
    if z == sY {
      assert p'[sX] == sX;
    } else if p[z] != z {
      LinkRoots(p, r, sX, sY, p[z]);
    }
  }

  /** The ranks after linking sY under sX. */
  function Linked(r: seq<nat>, sX: int, sY: int): (r': seq<nat>)
    requires 0 <= sX < |r| && 0 <= sY < |r|
    ensures |r'| == |r| && r'[sX] >= r[sX]
    ensures forall i :: 0 <= i < |r| && i != sX ==> r'[i] == r[i]
  {
    if r[sX] == r[sY] then r[sX := r[sX] + 1] else r
  }

  class UnionFind {
    var parent: array<int>
    var rank: array<nat>

    ghost predicate Valid()
      reads this, parent, rank
    {
      Forest(parent[..], rank[..])
    }

    /** The representative findSet(x) returns. */
    ghost function Rep(x: int): int
      reads this, parent, rank
      requires Valid() && 0 <= x < parent.Length
    {
      Root(parent[..], rank[..], x)
    }

    /** createUnionFind: every element its own parent, rank 0. */
    constructor (n: nat)
      ensures fresh(parent) && fresh(rank) && Valid()
      ensures parent[..] == seq(n, i => i) && rank[..] == seq(n, i => 0)
      ensures forall x :: 0 <= x < n ==> Rep(x) == x
    {
      parent := new int[n](i => i);
      rank := new nat[n](i => 0);
    }

    /** findSet: walk to the root, then point every node on the way at it.
        No representative changes; ranks are untouched. */
    method FindSet(x: int) returns (root: int)
      requires Valid() && 0 <= x < parent.Length
      modifies parent
      ensures Valid()
      ensures root == old(Rep(x)) && 0 <= root < parent.Length && parent[root] == root
      ensures rank[..] == old(rank[..])
      ensures forall z :: 0 <= z < parent.Length ==> Rep(z) == old(Rep(z))
    {
      ghost var p0, r0 := parent[..], rank[..];
      root := x;
      while parent[root] != root
        invariant 0 <= root < parent.Length
        invariant Root(p0, r0, root) == Root(p0, r0, x)
        decreases MaxRank(r0) - r0[root]
      {
        root := parent[root];
      }
      var y := x;
      while y != root
        invariant 0 <= y < parent.Length && rank[..] == r0
        invariant Forest(parent[..], r0)
        invariant forall z :: 0 <= z < parent.Length ==> Root(parent[..], r0, z) == Root(p0, r0, z)
        invariant Root(parent[..], r0, y) == root
        decreases MaxRank(r0) - r0[y]
      {
        ghost var p := parent[..];
        var next := parent[y];
        forall z | 0 <= z < parent.Length
          ensures Root(p[y := root], r0, z) == Root(p, r0, z)
        {
          CompressKeepsRoots(p, r0, y, z);
        }
        CompressKeepsRoots(p, r0, y, y);
        parent[y] := root;
        assert parent[..] == p[y := root];
        y := next;
      }
    }

    /** unionSet: merge the sets of x and y, the lower-rank root going under
        the other; nothing but representatives in those two sets changes. */
    method UnionSet(x: int, y: int)
      requires Valid() && 0 <= x < parent.Length && 0 <= y < parent.Length
      modifies parent, rank
      ensures Valid()
      ensures Rep(x) == Rep(y)
      ensures Rep(x) == old(Rep(x)) || Rep(x) == old(Rep(y))
      ensures forall z :: 0 <= z < parent.Length ==>
        Rep(z) == (if old(Rep(z)) == old(Rep(x)) || old(Rep(z)) == old(Rep(y)) then Rep(x) else old(Rep(z)))
      ensures old(Rep(x)) == old(Rep(y)) ==> rank[..] == old(rank[..])
      ensures old(Rep(x)) != old(Rep(y)) ==>
        var R := Rep(x);
        var other := if R == old(Rep(x)) then old(Rep(y)) else old(Rep(x));
        && old(rank[other]) <= old(rank[R])
        && rank[..] == Linked(old(rank[..]), R, other)
    {
      var setX := FindSet(x);
      var setY := FindSet(y);
      if setX == setY {
        return;
      }
      if rank[setX] < rank[setY] {
        setX, setY := setY, setX;
      }
      Link(setX, setY);
    }

    /** The linking step of unionSet: root sY goes under root sX, whose rank
        grows when the two ranks tie; sY's set joins sX's. */
    method Link(sX: int, sY: int)
      requires Valid() && 0 <= sX < parent.Length && 0 <= sY < parent.Length
      requires parent[sX] == sX && parent[sY] == sY && sX != sY && rank[sY] <= rank[sX]
      modifies parent, rank
      ensures Valid()
      ensures parent[..] == old(parent[..])[sY := sX] && rank[..] == Linked(old(rank[..]), sX, sY)
      ensures forall z :: 0 <= z < parent.Length ==> Rep(z) == (if old(Rep(z)) == sY then sX else old(Rep(z)))
    {
      ghost var p, r := parent[..], rank[..];
      forall z | 0 <= z < parent.Length
        ensures Root(p[sY := sX], Linked(r, sX, sY), z) == (if Root(p, r, z) == sY then sX else Root(p, r, z))
      {
        LinkRoots(p, r, sX, sY, z);
      }
      LinkRoots(p, r, sX, sY, sX);
      parent[sY] := sX;
      if rank[sX] == rank[sY] {
        rank[sX] := rank[sX] + 1;
      }
      assert parent[..] == p[sY := sX];
      assert rank[..] == Linked(r, sX, sY);
    }
  }
}
