/** The fixed size memory pool of pool/pool.h.

    A pointer to an object of a pool is represented by a reference to the object's descriptor: `container_of`
    only moves between the two addresses. */
module Pool {
  import opened SimpleQueue

  class PoolDescriptor<T> {
    var owner: Pool?<T>
    var inUse: bool
    const obj: T

    constructor (obj: T)
      ensures this.obj == obj
    {
      this.obj := obj;
      owner, inUse := null, false;
    }
  }

  ghost predicate Disjoint<T>(s: seq<T>, t: seq<T>) {
    forall i, j :: 0 <= i < |s| && 0 <= j < |t| ==> s[i] != t[j]
  }

  /** Moving the last element of one sequence to the front of another keeps them apart. */
  lemma MoveLast<T>(s: seq<T>, rest: seq<T>, x: T, t: seq<T>)
    requires Distinct(s) && Distinct(t) && Disjoint(s, t) && s == rest + [x]
    ensures Distinct(rest) && Disjoint(rest, t) && Disjoint(rest, [x] + t) && x !in rest && x !in t && Distinct([x] + t)
    ensures forall y :: y in s <==> y in rest || y == x
  {
    assert s[|rest|] == x;
    forall i | 0 <= i < |rest| ensures rest[i] == s[i] && rest[i] != x && rest[i] in s {
    }
  }

  ghost function Reversed<T>(s: seq<T>): seq<T> {
    if s == [] then [] else [s[|s| - 1]] + Reversed(s[..|s| - 1])
  }

  lemma {:induction false} ReversedMembers<T>(s: seq<T>)
    requires Distinct(s)
    ensures |Reversed(s)| == |s| && Distinct(Reversed(s))
    ensures forall y :: y in Reversed(s) <==> y in s
  {
    if s == [] {
    } else {
      var rest, x := s[..|s| - 1], s[|s| - 1];
      ReversedMembers(rest);
      assert s == rest + [x];
      assert x !in rest;
    }
  }

  lemma {:induction false} ReversedAt<T>(s: seq<T>)
    ensures |Reversed(s)| == |s| && forall k :: 0 <= k < |s| ==> Reversed(s)[k] == s[|s| - 1 - k]
  {
    if s == [] {
    } else {
      ReversedAt(s[..|s| - 1]);
    }
  }

  lemma ReversedEmpty<S, T>(s: seq<S>, t: seq<T>)
    ensures Reversed(s[..0]) == [] && Reversed(t[..0]) == []
  {
  }

  lemma ReversedStep<T>(s: seq<T>, i: nat)
    requires Distinct(s) && i < |s|
    ensures Reversed(s[..i + 1]) == [s[i]] + Reversed(s[..i])
    ensures s[i] !in Reversed(s[..i])
    ensures forall k :: 0 <= k < |Reversed(s[..i])| ==> Reversed(s[..i])[k] in s
  {
    var p := s[..i];
    assert s[..i + 1][..i] == p;
    ReversedMembers(p);
    ReversedAt(p);
    var r := Reversed(p);
    forall k | 0 <= k < |r| ensures r[k] in s {
      assert r[k] == s[i - 1 - k];
    }
    assert s[i] !in p;
  }

  ghost function Elements<T>(s: seq<T>): set<T> {
    set x | x in s
  }

  lemma {:induction false} DistinctCount<T>(s: seq<T>)
    ensures |Elements(s)| <= |s|
    ensures Distinct(s) ==> |Elements(s)| == |s|
  {
    if s == [] {
    } else {
      var rest := s[..|s| - 1];
      DistinctCount(rest);
      assert Elements(s) == Elements(rest) + {s[|s| - 1]};
    }
  }

  /** Distinct members of `b` that miss one member of `b` are fewer than `b`. */
  lemma MissingOne<T>(a: seq<T>, b: seq<T>, x: T)
    requires Distinct(a) && (forall y :: y in a ==> y in b) && x in b && x !in a
    ensures |a| < |b|
  {
    DistinctCount(a);
    DistinctCount(b);
    var sa, sb := Elements(a), Elements(b);
    assert sa + {x} <= sb;
    Subset(sa + {x}, sb);
  }

  lemma {:induction false} Subset<T>(a: set<T>, b: set<T>)
    requires a <= b
    ensures |a| <= |b|
  {
    assert b == a + (b - a);
  }

  class Pool<T> {
    const desc: seq<PoolDescriptor<T>>
    const nodes: seq<Node<PoolDescriptor<T>>>
    const freeDesc: SimpleQueue<PoolDescriptor<T>>   // nodes that offer an unallocated descriptor
    const freeNodes: SimpleQueue<PoolDescriptor<T>>  // spare nodes, one for each allocated descriptor

    /** Everything a pool is made of; it is all preallocated, so this never changes. */
    ghost function Repr(): set<object> {
      {this, freeDesc, freeNodes} + (set o: object | o in desc) + (set o: object | o in nodes)
    }

    /** The free descriptors, the next one to hand out last. */
    ghost function FreeList(): seq<PoolDescriptor<T>>
      reads freeDesc, freeDesc.nodes
    {
      Data(freeDesc.nodes)
    }

    ghost predicate Valid()
      reads Repr()
    {
      && |nodes| == |desc| && Distinct(desc) && freeDesc != freeNodes
      && (forall n :: n in freeDesc.nodes ==> n in nodes)
      && (forall n :: n in freeNodes.nodes ==> n in nodes)
      && Disjoint(freeDesc.nodes, freeNodes.nodes)
      && freeDesc.Valid() && freeNodes.Valid()
      && |freeDesc.nodes| + |freeNodes.nodes| == |desc|
      && (forall d :: d in desc ==> d.owner == this && (d.inUse <==> d !in FreeList()))
      && (forall d :: d in FreeList() ==> d in desc)
      && Distinct(FreeList())
    }

    /** The pool over preallocated descriptors and nodes: all of them are free. */
    constructor (desc: seq<PoolDescriptor<T>>, nodes: seq<Node<PoolDescriptor<T>>>)
      requires Distinct(desc) && Distinct(nodes) && |desc| == |nodes|
      modifies desc, nodes
      ensures Valid() && this.desc == desc && this.nodes == nodes
      ensures fresh({this, freeDesc, freeNodes})
      ensures |FreeList()| == |desc| && forall d :: d in desc ==> !d.inUse
    {
      hide SimpleQueue.Valid, Reversed;
      this.desc, this.nodes := desc, nodes;
      freeDesc := new SimpleQueue();
      freeNodes := new SimpleQueue();
      new;
      OfferAll();
      ReversedMembers(desc);
      ReversedMembers(nodes);
    }

    /** The loop of the constructor. */
    method OfferAll()
      requires Distinct(desc) && Distinct(nodes) && |desc| == |nodes|
      requires freeDesc.Valid() && freeDesc.nodes == []
      modifies freeDesc, desc, nodes
      ensures freeDesc.Valid()
      ensures freeDesc.nodes == Reversed(nodes) && FreeList() == Reversed(desc)
      ensures forall k :: 0 <= k < |desc| ==> desc[k].owner == this && !desc[k].inUse
    {
      hide SimpleQueue.Valid, Reversed;
      var i := 0;
      ReversedEmpty(desc, nodes);
      while i < |desc|
        invariant i <= |desc| && freeDesc.Valid()
        invariant freeDesc.nodes == Reversed(nodes[..i]) && FreeList() == Reversed(desc[..i])
        invariant forall k :: 0 <= k < i ==> desc[k].owner == this && !desc[k].inUse
      {
        ReversedStep(desc, i);
        ReversedStep(nodes, i);
        desc[i].owner := this;
        Offer(freeDesc, desc[i], nodes[i]);
        i := i + 1;
      }
      assert desc[..i] == desc && nodes[..i] == nodes;
    }

    /** Put `d`, held by `node`, at the head of the free list (pool.h:95-97 and 75-77). */
    static method Offer(free: SimpleQueue<PoolDescriptor<T>>, d: PoolDescriptor<T>, node: Node<PoolDescriptor<T>>)
      requires free.Valid() && node !in free.nodes
      modifies free, free.nodes, node, d`inUse
      ensures free.Valid() && free.nodes == [node] + old(free.nodes)
      ensures Data(free.nodes) == [d] + old(Data(free.nodes)) && !d.inUse
    {
      hide SimpleQueue.Valid;
      ghost var list := Data(free.nodes);
      d.inUse := false;
      node.data := d;
      free.PushNode(node);
      assert Data(free.nodes) == [d] + list;
    }

    /** Pool::alloc. */
    method Alloc() returns (r: PoolDescriptor?<T>)
      requires Valid()
      modifies Repr()
      ensures Valid()
      ensures r == null <==> old(FreeList()) == []
      ensures r == null ==> FreeList() == old(FreeList())
      ensures r != null ==> r in desc && !old(r.inUse) && old(FreeList()) == FreeList() + [r]
      ensures forall d :: d in desc ==> d.inUse == (old(d.inUse) || d == r)
    {
      hide SimpleQueue.Valid;
      ghost var fd, fn, free := freeDesc.nodes, freeNodes.nodes, FreeList();
      var node := freeDesc.PopNode();
      if node == null {
        return null;
      }
      MoveLast(fd, freeDesc.nodes, node, fn);
      ghost var rest := FreeList();
      assert free == rest + [node.data];
      MoveLast(free, rest, node.data, []);
      label L:
      freeNodes.PushNode(node);
      assert freeDesc.Valid() && FreeList() == rest by {
        assert unchanged@L(freeDesc) && unchanged@L(freeDesc.nodes);
      }
      node.data.inUse := true;
      assert freeDesc.Valid() && freeNodes.Valid() && FreeList() == rest;
      r := node.data;
    }

    /** Pool::free. Succeeds iff `d` is an outstanding descriptor of this pool. */
    method Free(d: PoolDescriptor<T>) returns (ok: bool)
      requires Valid()
      requires d.owner == this ==> d in desc  // only a pool's constructor writes `owner`
      modifies Repr()
      ensures Valid()
      ensures ok <==> d in desc && old(d.inUse)
      ensures FreeList() == if ok then [d] + old(FreeList()) else old(FreeList())
      ensures forall e :: e in desc ==> e.inUse == (old(e.inUse) && !(ok && e == d))
    {
      hide SimpleQueue.Valid;
      if !d.inUse {
        return false;
      }
      if d.owner != this {
        return false;
      }
      ghost var fd, fn, free := freeDesc.nodes, freeNodes.nodes, FreeList();
      MissingOne(free, desc, d);
      var node := freeNodes.PopNode();
      if node == null {
        return false;
      }
      MoveLast(fn, freeNodes.nodes, node, fd);
      assert FreeList() == free;
      label L:
      Offer(freeDesc, d, node);
      assert freeNodes.Valid() by {
        assert unchanged@L(freeNodes) && unchanged@L(freeNodes.nodes);
      }
      ok := true;
    }
  }

  /** A second free of an object, after `n` allocations by others: it is caught iff the object has not been handed
      out again, which happens when everything that was free before it has been. Then it takes the object away from
      its new owner. */
  method FreeAgain<T>(pool: Pool<T>, d: PoolDescriptor<T>, n: nat) returns (ok: bool)
    requires pool.Valid() && d in pool.desc && d.inUse
    modifies pool.Repr()
    ensures pool.Valid() && (ok <==> n > |old(pool.FreeList())|)
  {
    hide SimpleQueue.Valid;
    var first := pool.Free(d);
    ghost var free := pool.FreeList();
    assert free[0] == d;
    for i := 0 to n
      invariant pool.Valid()
      invariant pool.FreeList() == if i <= |free| then free[..|free| - i] else []
    {
      var e := pool.Alloc();
    }
    assert d in pool.FreeList() <==> n < |free|;
    ok := pool.Free(d);
  }
}
