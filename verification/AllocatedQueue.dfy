/** The preallocated queues of queue/allocated_queue.h: a SimpleQueue whose nodes come from a Pool. */
module AllocatedQueue {
  import opened SimpleQueue
  import opened Pool

  /** alloc::Queue and alloc::SortedQueue; the two differ in the push only. */
  class AllocQueue<T> {
    const pool: Pool<Node<T>>
    const queue: SimpleQueue<T>
    /** The nodes embedded in the pool's descriptors, and the address arithmetic that finds those again. */
    const objs: seq<Node<T>>
    const containerOf: map<Node<T>, PoolDescriptor<Node<T>>>

    ghost function Capacity(): nat {
      |objs|
    }

    /** The nodes on the queue, head first. */
    ghost function Nodes(): seq<Node<T>>
      reads queue
    {
      queue.nodes
    }

    /** All of a queue is preallocated, so its footprint never changes. */
    ghost const Repr: set<object>

    /** Two views of the same storage: what the pool has handed out is exactly what is on the queue. */
    ghost predicate Valid()
      reads this, Repr
      ensures Valid() ==> this in Repr && queue in Repr && forall n :: n in Nodes() ==> n as object in Repr
    {
      && Layout()
      && pool.Valid()
      && (forall n :: n in queue.nodes ==> n in objs)
      && queue.Valid()
      && (forall n :: n in objs ==> (n in queue.nodes <==> containerOf[n].inUse))
      && |queue.nodes| + |pool.FreeList()| == |objs|
    }

    /** The abstract value: the elements, head first. */
    ghost function Contents(): (c: seq<T>)
      requires Valid()
      reads Repr
      ensures |c| == |Nodes()| <= Capacity() && forall i :: 0 <= i < |c| ==> c[i] == Nodes()[i].data
    {
      Data(Nodes())
    }

    /** What the constructor sets up once and for all. */
    ghost predicate Layout() {
      && PoolLayout(objs, pool, containerOf) && queue as object !in pool.Repr()
      && Repr == {this, queue} + pool.Repr() + (set o: object | o in objs)
    }

    static ghost predicate PoolLayout(objs: seq<Node<T>>, pool: Pool<Node<T>>,
                                      containerOf: map<Node<T>, PoolDescriptor<Node<T>>>)
    {
      && |objs| == |pool.desc| && Distinct(objs)
      && (forall d :: d in pool.desc ==> d.obj in objs && d.obj in containerOf && containerOf[d.obj] == d)
      && (forall n :: n in objs ==> n in containerOf && containerOf[n] in pool.desc && containerOf[n].obj == n)
      && (forall n :: n in objs ==> n as object !in pool.Repr())
    }

    /** The nodes embedded in the SIZE descriptors; `blank` is what the memory holds before its first use. */
    static method NewObjects(size: nat, blank: T) returns (objs: seq<Node<T>>)
      ensures |objs| == size && Distinct(objs) && fresh(objs)
    {
      objs := [];
      for i := 0 to size
        invariant |objs| == i && Distinct(objs) && fresh(objs)
      {
        var o := new Node(blank);
        objs := objs + [o];
      }
    }

    /** The descriptors and the nodes of alloc::Pool<Node<T>, SIZE>. */
    static method NewDescriptors(objs: seq<Node<T>>)
      returns (desc: seq<PoolDescriptor<Node<T>>>, nodes: seq<Node<PoolDescriptor<Node<T>>>>,
               containerOf: map<Node<T>, PoolDescriptor<Node<T>>>)
      requires Distinct(objs)
      ensures |desc| == |nodes| == |objs| && Distinct(desc) && Distinct(nodes) && fresh(desc) && fresh(nodes)
      ensures forall i :: 0 <= i < |objs| ==> desc[i].obj == objs[i]
      ensures forall i :: 0 <= i < |objs| ==> objs[i] in containerOf && containerOf[objs[i]] == desc[i]
    {
      desc, nodes, containerOf := [], [], map[];
      for i := 0 to |objs|
        invariant |desc| == |nodes| == i && Distinct(desc) && Distinct(nodes) && fresh(desc) && fresh(nodes)
        invariant forall i :: 0 <= i < |desc| ==> desc[i].obj == objs[i]
        invariant forall i :: 0 <= i < |desc| ==> objs[i] in containerOf && containerOf[objs[i]] == desc[i]
      {
        var d := new PoolDescriptor(objs[i]);
        var n := new Node(d);
        desc, nodes, containerOf := desc + [d], nodes + [n], containerOf[objs[i] := d];
      }
    }

    /** The constructor of alloc::Pool<Node<T>, SIZE>. */
    static method NewPool(size: nat, blank: T)
      returns (objs: seq<Node<T>>, pool: Pool<Node<T>>, containerOf: map<Node<T>, PoolDescriptor<Node<T>>>)
      ensures |objs| == size && PoolLayout(objs, pool, containerOf)
      ensures fresh(objs) && fresh(pool.Repr())
      ensures pool.Valid() && |pool.FreeList()| == size && forall d :: d in pool.desc ==> !d.inUse
    {
      hide SimpleQueue.Valid, Pool.Valid;
      objs := NewObjects(size, blank);
      var desc, nodes;
      desc, nodes, containerOf := NewDescriptors(objs);
      label L:
      pool := new Pool(desc, nodes);
      forall i | 0 <= i < |objs| ensures objs[i] as object !in pool.Repr() {
        assert allocated(objs[i]);
      }
    }

    /** alloc::Queue::Queue for a queue of `size` elements. */
    constructor (size: nat, blank: T)
      ensures Valid() && Capacity() == size && Nodes() == []
      ensures fresh(Repr)
    {
      hide SimpleQueue.Valid, Pool.Valid, Distinct;
      var objs, pool, containerOf := NewPool(size, blank);
      this.objs, this.pool, this.containerOf := objs, pool, containerOf;
      queue := new SimpleQueue();
      Repr := {this, queue} + pool.Repr() + (set o: object | o in objs);
    }

    /** The pool has handed out the nodes on the queue and one more, `node`. */
    ghost predicate OneMore(node: Node<T>)
      reads this, Repr
    {
      && Layout() && pool.Valid()
      && (forall n :: n in queue.nodes ==> n in objs) && queue.Valid()
      && node in objs && node !in queue.nodes
      && (forall n :: n in objs ==> (n in queue.nodes || n == node <==> containerOf[n].inUse))
      && |queue.nodes| + |pool.FreeList()| + 1 == |objs|
    }

    /** `m_pool.alloc()` and, on success, `node->data = obj`. */
    method Take(obj: T) returns (node: Node?<T>)
      requires Valid()
      modifies Repr
      ensures node == null <==> |old(Nodes())| == Capacity()
      ensures queue.nodes == old(queue.nodes) && forall n :: n in queue.nodes ==> n.data == old(n.data)
      ensures if node == null then Valid() else OneMore(node) && node.data == obj
    {
      hide SimpleQueue.Valid, Pool.Valid;
      var d := pool.Alloc();
      if d == null {
        return null;
      }
      node := d.obj;
      node.data := obj;
      assert pool.Valid() && queue.Valid();
    }

    /** push_node of a node that was taken from the pool. */
    method Link(node: Node<T>)
      requires OneMore(node)
      modifies queue, queue.nodes, node
      ensures Valid() && Nodes() == [node] + old(Nodes())
      ensures node.data == old(node.data) && forall n :: n in old(Nodes()) ==> n.data == old(n.data)
    {
      hide SimpleQueue.Valid, Pool.Valid;
      queue.PushNode(node);
      assert pool.Valid();
    }

    /** alloc::Queue::push. */
    method Push(obj: T) returns (r: Node?<T>)
      requires Valid()
      modifies Repr
      ensures Valid()
      ensures r == null <==> |old(Nodes())| == Capacity()
      ensures Nodes() == if r == null then old(Nodes()) else [r] + old(Nodes())
      ensures r != null ==> r.data == obj
      ensures forall n :: n in old(Nodes()) ==> n.data == old(n.data)
      ensures Contents() == if r == null then old(Contents()) else [obj] + old(Contents())
    {
      hide SimpleQueue.Valid, Pool.Valid, Valid;
      ghost var stored := Contents();
      r := Take(obj);
      if r != null {
        Link(r);
        assert Contents() == [obj] + stored;
      }
    }

    static lemma InsertedData(was: seq<Node<T>>, stored: seq<T>, now: seq<Node<T>>, k: nat, node: Node<T>)
      requires k <= |was| == |stored| && now == Inserted(was, k, node)
      requires forall i :: 0 <= i < |was| ==> was[i].data == stored[i]
      ensures Data(now) == Inserted(stored, k, node.data)
    {
    }

    static lemma RemovedData(was: seq<Node<T>>, stored: seq<T>, now: seq<Node<T>>, i: nat)
      requires i < |was| == |stored| && now == Removed(was, i)
      requires forall i :: 0 <= i < |was| ==> was[i].data == stored[i]
      ensures Data(now) == Removed(stored, i)
    {
    }

    /** The sorted push_node of a node that was taken from the pool. */
    method LinkSorted(node: Node<T>, sort: (T, T) -> bool)
      requires OneMore(node)
      modifies queue, queue.nodes, node
      ensures Valid() && Nodes() == Inserted(old(Nodes()), InsertPos(sort, old(Data(Nodes())), old(node.data)), node)
      ensures node.data == old(node.data) && forall n :: n in old(Nodes()) ==> n.data == old(n.data)
    {
      hide SimpleQueue.Valid, Pool.Valid;
      InsertedMembers(queue.nodes, InsertPos(sort, Data(queue.nodes), node.data), node);
      queue.PushSortedNode(node, sort);
      assert pool.Valid();
    }

    /** alloc::SortedQueue::push. */
    method PushSorted(obj: T, sort: (T, T) -> bool) returns (r: Node?<T>)
      requires Valid()
      modifies Repr
      ensures Valid()
      ensures r == null <==> |old(Nodes())| == Capacity()
      ensures r == null ==> Nodes() == old(Nodes())
      ensures r != null ==>
        r.data == obj && Nodes() == Inserted(old(Nodes()), InsertPos(sort, old(Data(Nodes())), obj), r)
      ensures forall n :: n in old(Nodes()) ==> n.data == old(n.data)
      ensures Contents() == if r == null then old(Contents()) else SortedInsert(sort, old(Contents()), obj)
    {
      hide SimpleQueue.Valid, Pool.Valid, Valid;
      ghost var was := Nodes();
      ghost var stored := Data(was);
      r := Take(obj);
      if r != null {
        assert Data(was) == stored;
        LinkSorted(r, sort);
        InsertedData(was, stored, Nodes(), InsertPos(sort, stored, obj), r);
      }
    }

    /** alloc::Queue::peek. */
    method Peek() returns (r: Node?<T>)
      requires Valid()
      ensures r == if Nodes() == [] then null else Nodes()[|Nodes()| - 1]
      ensures r != null ==> r.data == Contents()[|Contents()| - 1]
    {
      r := queue.PeekNode();
    }

    /** alloc::Queue::pop. The free of the popped node cannot fail. */
    method Pop()
      requires Valid()
      modifies Repr
      ensures Valid()
      ensures Nodes() == if old(Nodes()) == [] then [] else old(Nodes())[..|old(Nodes())| - 1]
      ensures forall n :: n in old(Nodes()) ==> n.data == old(n.data)
      ensures Contents() == if old(Contents()) == [] then [] else old(Contents())[..|old(Contents())| - 1]
      ensures forall n :: n in old(Nodes()) && n != old(Nodes())[|old(Nodes())| - 1] ==> n in Nodes()
    {
      hide SimpleQueue.Valid, Pool.Valid;
      ghost var was := Nodes();
      var node := queue.PopNode();
      if node == null {
        return;
      }
      MoveLast(was, queue.nodes, node, []);
      assert pool.Valid();
      Release(node);
    }

    /** alloc::Queue::remove; `i` is where `node` is on the queue. The free cannot fail. */
    method Remove(node: Node<T>, ghost i: nat)
      requires Valid() && i < |Nodes()| && Nodes()[i] == node
      modifies Repr
      ensures Valid()
      ensures Nodes() == Removed(old(Nodes()), i)
      ensures forall n :: n in old(Nodes()) ==> n.data == old(n.data)
      ensures Contents() == Removed(old(Contents()), i)
      ensures forall n :: n in old(Nodes()) && n != node ==> n in Nodes()
    {
      hide SimpleQueue.Valid, Pool.Valid;
      ghost var was := Nodes();
      ghost var stored := Data(was);
      RemovedMembers(was, i);
      queue.RemoveNode(node, i);
      assert pool.Valid();
      Release(node);
      RemovedData(was, stored, Nodes(), i);
    }

    /** Give a node that just left the queue back to the pool. */
    method Release(node: Node<T>)
      requires OneMore(node)
      modifies pool.Repr()
      ensures Valid() && Nodes() == old(Nodes())
    {
      hide SimpleQueue.Valid, Pool.Valid;
      forall i | 0 <= i < |queue.nodes| ensures queue.nodes[i] as object !in pool.Repr() {
        var n := queue.nodes[i];
        assert n in queue.nodes;
        assert n in objs;
      }
      var ok := pool.Free(containerOf[node]);
      assert ok;
      assert queue.Valid();
      forall n | n in objs ensures n in queue.nodes <==> containerOf[n].inUse {
        assert containerOf[n] in pool.desc;
      }
    }
  }
}
