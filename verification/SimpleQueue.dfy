/** The intrusive doubly linked queues of queue/queue_simple.h.

    `nodes` lists the nodes on a queue from the head to the tail; nodes enter at the head (or, in the
    sorted variant, at their place) and are popped at the tail. */
module SimpleQueue {

  /** queue/queue_node.h: a node with its two links. */
  class Node<T> {
    var prev: Node?<T>
    var next: Node?<T>
    var data: T

    constructor (data: T)
      ensures this.data == data
    {
      this.data := data;
      prev, next := null, null;
    }
  }

  /** The stored objects, in the order of the nodes. */
  ghost function Data<T>(s: seq<Node<T>>): (d: seq<T>)
    reads s
    ensures |d| == |s| && forall i :: 0 <= i < |s| ==> d[i] == s[i].data
  {
    seq(|s|, i requires 0 <= i < |s| reads s => s[i].data)
  }

  ghost predicate Distinct<T>(s: seq<T>) {
    forall i, j :: 0 <= i < j < |s| ==> s[i] != s[j]
  }

  function Inserted<T>(s: seq<T>, k: nat, x: T): seq<T>
    requires k <= |s|
  {
    s[..k] + [x] + s[k..]
  }

  lemma InsertedMembers<T>(s: seq<T>, k: nat, x: T)
    requires k <= |s| && Distinct(s) && x !in s
    ensures Distinct(Inserted(s, k, x))
    ensures forall y :: y in Inserted(s, k, x) <==> y == x || y in s
  {
    assert s == s[..k] + s[k..];
  }

  function Removed<T>(s: seq<T>, i: nat): seq<T>
    requires i < |s|
  {
    s[..i] + s[i + 1..]
  }

  lemma RemovedMembers<T>(s: seq<T>, i: nat)
    requires i < |s| && Distinct(s)
    ensures Distinct(Removed(s, i)) && s[i] !in Removed(s, i)
    ensures forall y :: y in s <==> y in Removed(s, i) || y == s[i]
  {
    assert s == s[..i] + [s[i]] + s[i + 1..];
  }

  // ---------------------------------------------------------------- where a sorted push inserts

  /** The first index, from the head, whose element must be popped before `x`. */
  function InsertPos<T>(sort: (T, T) -> bool, d: seq<T>, x: T): (k: nat)
    ensures k <= |d|
    ensures forall i :: 0 <= i < k ==> !sort(d[i], x)
    ensures k < |d| ==> sort(d[k], x)
  {
    if d == [] || sort(d[0], x) then 0 else 1 + InsertPos(sort, d[1..], x)
  }

  function SortedInsert<T>(sort: (T, T) -> bool, d: seq<T>, x: T): seq<T> {
    var k := InsertPos(sort, d, x);
    Inserted(d, k, x)
  }

  /** Pushing all of `xs`, first to last, on an empty sorted queue. */
  function SortedInsertAll<T>(sort: (T, T) -> bool, xs: seq<T>): seq<T> {
    if xs == [] then [] else SortedInsert(sort, SortedInsertAll(sort, xs[..|xs| - 1]), xs[|xs| - 1])
  }

  /** No element may have to be popped before one that is nearer the tail. */
  ghost predicate PopsInOrder<T>(sort: (T, T) -> bool, d: seq<T>) {
    forall i, j :: 0 <= i < j < |d| ==> !sort(d[i], d[j])
  }

  ghost predicate StrictOrder<T(!new)>(sort: (T, T) -> bool) {
    && (forall a :: !sort(a, a))
    && (forall a, b, c :: sort(a, b) && sort(b, c) ==> sort(a, c))
  }

  /** A strict weak order: incomparability ("a tie") is transitive as well. */
  ghost predicate StrictWeakOrder<T(!new)>(sort: (T, T) -> bool) {
    && StrictOrder(sort)
    && (forall a, b, c :: sort(a, c) ==> sort(a, b) || sort(b, c))
  }

  /** A sorted push keeps the pop order; a strict order is enough for that. */
  lemma SortedInsertKeepsOrder<T(!new)>(sort: (T, T) -> bool, d: seq<T>, x: T)
    requires StrictOrder(sort) && PopsInOrder(sort, d)
    ensures PopsInOrder(sort, SortedInsert(sort, d, x))
  {
  }

  /** Under a strict weak order the queue splits exactly at the new element: what is popped before it is
      what has to be. In particular a newly pushed tie is popped before the elements it ties with. */
  lemma SortedInsertSplits<T(!new)>(sort: (T, T) -> bool, d: seq<T>, x: T, j: nat)
    requires StrictWeakOrder(sort) && PopsInOrder(sort, d) && j < |d|
    ensures InsertPos(sort, d, x) <= j <==> sort(d[j], x)
    ensures !sort(d[j], x) && !sort(x, d[j]) ==> j < InsertPos(sort, d, x)
  {
  }

  /** Any run of sorted pushes holds exactly the pushed elements, ready to be popped in order. */
  lemma {:induction false} SortedInsertAllOrdered<T(!new)>(sort: (T, T) -> bool, xs: seq<T>)
    requires StrictOrder(sort)
    ensures PopsInOrder(sort, SortedInsertAll(sort, xs))
    ensures multiset(SortedInsertAll(sort, xs)) == multiset(xs)
  {
    hide StrictOrder, Inserted;
    if xs == [] {
    } else {
      var rest, x := xs[..|xs| - 1], xs[|xs| - 1];
      var d := SortedInsertAll(sort, rest);
      SortedInsertAllOrdered(sort, rest);
      SortedInsertKeepsOrder(sort, d, x);
      InsertedElements(d, InsertPos(sort, d, x), x);
      assert xs == rest + [x];
    }
  }

  lemma InsertedElements<T>(d: seq<T>, k: nat, x: T)
    requires k <= |d|
    ensures multiset(Inserted(d, k, x)) == multiset(d) + multiset{x}
  {
    assert d == d[..k] + d[k..];
  }

  ghost function IndexOf<N>(s: seq<N>, x: N): (j: nat)
    requires x in s
    ensures j < |s| && s[j] == x
  {
    var j :| 0 <= j < |s| && s[j] == x; j
  }

  // ---------------------------------------------------------------- the queue as written

  /** SimpleSortedQueue::push_node never sets `it->prev->next`, so that the two chains part. A queue is listed as pops
      along `prev` see it; `met` says whether a walk along `next` from the head comes by. */
  datatype Slot<T> = Slot(item: T, met: bool)

  function Items<T>(q: seq<Slot<T>>): (d: seq<T>)
    ensures |d| == |q| && forall i :: 0 <= i < |q| ==> d[i] == q[i].item
  {
    seq(|q|, i requires 0 <= i < |q| => q[i].item)
  }

  function Walk<T>(q: seq<Slot<T>>): seq<T> {
    if q == [] then [] else (if q[0].met then [q[0].item] else []) + Walk(q[1..])
  }

  /** Where the search of the push ends: at the first element of the walk that must be popped before `x`. */
  function FindMet<T>(sort: (T, T) -> bool, q: seq<Slot<T>>, x: T): (j: nat)
    ensures j <= |q|
    ensures j < |q| ==> q[j].met && sort(q[j].item, x)
    ensures forall i :: 0 <= i < j ==> !(q[i].met && sort(q[i].item, x))
  {
    if q == [] || (q[0].met && sort(q[0].item, x)) then 0 else 1 + FindMet(sort, q[1..], x)
  }

  /** The new element is on the walk only at an end. */
  function PutAt<T>(q: seq<Slot<T>>, j: nat, x: T): seq<Slot<T>>
    requires j <= |q|
  {
    Inserted(q, j, Slot(x, j == 0 || j == |q|))
  }

  function PushAsWritten<T>(sort: (T, T) -> bool, q: seq<Slot<T>>, x: T): seq<Slot<T>> {
    PutAt(q, FindMet(sort, q, x), x)
  }

  lemma {:induction false} WalkConcat<T>(a: seq<Slot<T>>, b: seq<Slot<T>>)
    ensures Walk(a + b) == Walk(a) + Walk(b)
  {
    if a == [] {
      assert a + b == b;
    } else {
      var head := if a[0].met then [a[0].item] else [];
      assert (a + b)[0] == a[0] && (a + b)[1..] == a[1..] + b;
      WalkConcat(a[1..], b);
      Associative(head, Walk(a[1..]), Walk(b));
    }
  }

  lemma Associative<T>(a: seq<T>, b: seq<T>, c: seq<T>)
    ensures a + (b + c) == (a + b) + c
  {
  }

  lemma WalkOne<T>(s: Slot<T>)
    ensures Walk([s]) == if s.met then [s.item] else []
    ensures Walk<T>([]) == []
  {
    assert [s][1..] == [];
  }

  /** The walk afterwards: as it was, with the new element at an end or not at all. */
  lemma WalkAfter<T>(q: seq<Slot<T>>, j: nat, x: T)
    requires j <= |q|
    ensures Walk(PutAt(q, j, x)) == if j == |q| then Walk(q) + [x] else if j == 0 then [x] + Walk(q) else Walk(q)
  {
    hide Walk;
    var s := Slot(x, j == 0 || j == |q|);
    var a, b := q[..j], q[j..];
    WalkConcat(a + [s], b);
    WalkConcat(a, [s]);
    WalkConcat(a, b);
    WalkOne(s);
    assert a + b == q;
    if j == |q| {
      assert b == [];
    } else if j == 0 {
      assert a == [];
    } else {
      assert Walk(a) + [] == Walk(a);
    }
  }

  predicate SameMarks<S, T>(q: seq<Slot<S>>, r: seq<Slot<T>>) {
    |q| == |r| && forall i :: 0 <= i < |q| ==> q[i].met == r[i].met
  }

  /** The search along `next` ends there: `r` are the nodes, `q` their objects. */
  lemma {:induction false} FindWalk<S, T>(sort: (T, T) -> bool, q: seq<Slot<T>>, r: seq<Slot<S>>, x: T)
    requires SameMarks(q, r)
    ensures var k, j := InsertPos(sort, Walk(q), x), FindMet(sort, q, x);
      && |Walk(r)| == |Walk(q)| && (k == |Walk(q)| <==> j == |q|)
      && (k < |Walk(q)| ==> j < |q| && Walk(r)[k] == r[j].item)
  {
    if q == [] {
    } else {
      FindWalk(sort, q[1..], r[1..], x);
      var rest := Walk(q[1..]);
      if q[0].met {
        assert ([q[0].item] + rest)[1..] == rest;
        assert Walk(r) == [r[0].item] + Walk(r[1..]);
      } else {
        assert [] + rest == rest && Walk(r) == Walk(r[1..]) == [] + Walk(r[1..]);
      }
    }
  }

  lemma {:induction false} WalkAligned<S, T>(q: seq<Slot<T>>, r: seq<Slot<S>>, f: S ~> T)
    requires SameMarks(q, r) && forall i :: 0 <= i < |r| ==> f.requires(r[i].item) && f(r[i].item) == q[i].item
    ensures |Walk(r)| == |Walk(q)|
    ensures forall i :: 0 <= i < |Walk(r)| ==> f.requires(Walk(r)[i]) && f(Walk(r)[i]) == Walk(q)[i]
  {
    if q == [] {
    } else {
      var a, b := Walk(q[1..]), Walk(r[1..]);
      WalkAligned(q[1..], r[1..], f);
      if q[0].met {
        assert Walk(q) == [q[0].item] + a && Walk(r) == [r[0].item] + b;
      } else {
        assert Walk(q) == [] + a == a && Walk(r) == [] + b == b;
      }
      hide Walk;
    }
  }

  /** The chains agree: every element is on the walk. */
  predicate ChainsAgree<T>(q: seq<Slot<T>>) {
    forall i :: 0 <= i < |q| ==> q[i].met
  }

  lemma {:induction false} AgreeingWalk<T>(q: seq<Slot<T>>)
    ensures |Walk(q)| <= |q| && (|Walk(q)| == |q| <==> ChainsAgree(q))
    ensures Walk(q) == Items(q) <==> ChainsAgree(q)
  {
    if q == [] {
    } else {
      AgreeingWalk(q[1..]);
      assert ChainsAgree(q) <==> q[0].met && ChainsAgree(q[1..]) by {
        assert forall i :: 1 <= i < |q| ==> q[i] == q[1..][i - 1];
        assert forall i :: 0 <= i < |q[1..]| ==> q[1..][i] == q[i + 1];
      }
      assert Items(q) == [q[0].item] + Items(q[1..]);
    }
  }

  /** On a queue whose chains agree, the push as written does what it should to pops, and the chains still agree iff the
      search ended at NULL (the tail) or at m_head. */
  lemma AsWrittenChainsAgree<T>(sort: (T, T) -> bool, q: seq<Slot<T>>, x: T)
    requires ChainsAgree(q)
    ensures var k := InsertPos(sort, Items(q), x);
      && Items(PushAsWritten(sort, q, x)) == SortedInsert(sort, Items(q), x)
      && (ChainsAgree(PushAsWritten(sort, q, x)) <==> k == 0 || k == |q|)
  {
    var k := InsertPos(sort, Items(q), x);
    assert k == FindMet(sort, q, x);
    assert PushAsWritten(sort, q, x)[k].met <==> k == 0 || k == |q|;
  }

  /** On any chains, a push as written keeps the pop order iff the element in front of which it links the new one is
      where the pop chain needs it. */
  lemma AsWrittenInOrder<T(!new)>(sort: (T, T) -> bool, q: seq<Slot<T>>, x: T)
    requires StrictOrder(sort) && PopsInOrder(sort, Items(q))
    ensures PopsInOrder(sort, Items(PushAsWritten(sort, q, x))) <==> InPlace(sort, q, x)
  {
    var d, p, j := Items(q), InsertPos(sort, Items(q), x), FindMet(sort, q, x);
    SortedInsertKeepsOrder(sort, d, x);
    PutItems(q, j, x);
    var b := Inserted(d, j, x);
    if p < j {
      assert sort(b[p], b[j]);
    }
  }

  lemma PutItems<T>(q: seq<Slot<T>>, j: nat, x: T)
    requires j <= |q|
    ensures Items(PutAt(q, j, x)) == Inserted(Items(q), j, x)
  {
  }

  predicate InPlace<T>(sort: (T, T) -> bool, q: seq<Slot<T>>, x: T) {
    FindMet(sort, q, x) == InsertPos(sort, Items(q), x)
  }

  /** Pushing all of `xs`, first to last, as written on an empty queue. */
  function AsWrittenAll<T>(sort: (T, T) -> bool, xs: seq<T>): (q: seq<Slot<T>>)
    ensures |q| == |xs|
  {
    if xs == [] then [] else PushAsWritten(sort, AsWrittenAll(sort, xs[..|xs| - 1]), xs[|xs| - 1])
  }

  /** No element is lost to pops, though the search of later pushes misses those that are not on the walk. */
  lemma {:induction false} AsWrittenAllHolds<T>(sort: (T, T) -> bool, xs: seq<T>)
    ensures multiset(Items(AsWrittenAll(sort, xs))) == multiset(xs)
  {
    hide Inserted, FindMet;
    if xs == [] {
    } else {
      var rest, x := xs[..|xs| - 1], xs[|xs| - 1];
      var q := AsWrittenAll(sort, rest);
      AsWrittenAllHolds(sort, rest);
      PutItems(q, FindMet(sort, q, x), x);
      InsertedElements(Items(q), FindMet(sort, q, x), x);
      assert xs == rest + [x];
    }
  }

  /** Every push goes to one of the ends of the queue as it should be. */
  predicate AllAtEnds<T>(sort: (T, T) -> bool, xs: seq<T>) {
    xs == [] ||
    var rest, x := xs[..|xs| - 1], xs[|xs| - 1];
    AllAtEnds(sort, rest) && var k := InsertPos(sort, SortedInsertAll(sort, rest), x); k == 0 || k == |rest|
  }

  /** Over any run of pushes as written, the chains agree iff all pushes went to an end; then they are the queue as it
      should be. */
  lemma {:induction false} AsWrittenAllAgree<T>(sort: (T, T) -> bool, xs: seq<T>)
    ensures var q := AsWrittenAll(sort, xs);
      && (ChainsAgree(q) <==> AllAtEnds(sort, xs)) && (Walk(q) == Items(q) <==> AllAtEnds(sort, xs))
      && (AllAtEnds(sort, xs) ==> Items(q) == SortedInsertAll(sort, xs))
  {
    hide InsertPos, FindMet, Inserted, Walk, ChainsAgree;
    AgreeingWalk(AsWrittenAll(sort, xs));
    if xs == [] {
      NothingAgrees<T>();
    } else {
      var rest, x := xs[..|xs| - 1], xs[|xs| - 1];
      var q := AsWrittenAll(sort, rest);
      AsWrittenAllAgree(sort, rest);
      if ChainsAgree(q) {
        AsWrittenChainsAgree(sort, q, x);
      } else {
        StaysApart(q, FindMet(sort, q, x), x);
      }
    }
  }

  lemma NothingAgrees<T>()
    ensures ChainsAgree<T>([])
  {
  }

  lemma StaysApart<T>(q: seq<Slot<T>>, j: nat, x: T)
    requires j <= |q| && !ChainsAgree(q)
    ensures !ChainsAgree(PutAt(q, j, x))
  {
    var i :| 0 <= i < |q| && !q[i].met;
    assert !PutAt(q, j, x)[if i < j then i else i + 1].met;
  }

  predicate AllInPlace<T>(sort: (T, T) -> bool, xs: seq<T>) {
    xs == [] ||
    (AllInPlace(sort, xs[..|xs| - 1]) && InPlace(sort, AsWrittenAll(sort, xs[..|xs| - 1]), xs[|xs| - 1]))
  }

  /** Over any run of pushes as written, elements are popped in order iff every push found its place. */
  lemma {:induction false} AsWrittenAllInOrder<T(!new)>(sort: (T, T) -> bool, xs: seq<T>)
    requires StrictOrder(sort)
    ensures PopsInOrder(sort, Items(AsWrittenAll(sort, xs))) <==> AllInPlace(sort, xs)
  {
    hide InPlace, Inserted, FindMet;
    if xs == [] {
    } else {
      var rest, x := xs[..|xs| - 1], xs[|xs| - 1];
      var q := AsWrittenAll(sort, rest);
      AsWrittenAllInOrder(sort, rest);
      if PopsInOrder(sort, Items(q)) {
        AsWrittenInOrder(sort, q, x);
      } else {
        PutItems(q, FindMet(sort, q, x), x);
        StaysOutOfOrder(sort, Items(q), FindMet(sort, q, x), x);
      }
    }
  }

  lemma StaysOutOfOrder<T(!new)>(sort: (T, T) -> bool, d: seq<T>, j: nat, x: T)
    requires j <= |d| && !PopsInOrder(sort, d)
    ensures !PopsInOrder(sort, Inserted(d, j, x))
  {
    var a, b :| 0 <= a < b < |d| && sort(d[a], d[b]);
    var e := Inserted(d, j, x);
    var a', b' := if a < j then a else a + 1, if b < j then b else b + 1;
    assert sort(e[a'], e[b']);
  }

  lemma PushedLast<T>(sort: (T, T) -> bool, xs: seq<T>, x: T)
    ensures AsWrittenAll(sort, xs + [x]) == PushAsWritten(sort, AsWrittenAll(sort, xs), x)
  {
    assert (xs + [x])[..|xs|] == xs;
  }

  lemma FindExact<T>(sort: (T, T) -> bool, q: seq<Slot<T>>, x: T, j: nat)
    requires j < |q| && q[j].met && sort(q[j].item, x)
    requires forall i :: 0 <= i < j ==> !(q[i].met && sort(q[i].item, x))
    ensures FindMet(sort, q, x) == j
  {
  }

  /** As written, after pushing the keys 10, 5, 7 (smaller keys first) the chains disagree but pops are still in
      order; after another push of 8, they give 5, 8, 7, 10. */
  lemma AsWrittenPopsOutOfOrder(sort: (int, int) -> bool)
    requires forall a, b :: sort(a, b) <==> a < b
    ensures AsWrittenAll(sort, [10, 5, 7]) == [Slot(10, true), Slot(7, false), Slot(5, true)]
    ensures AsWrittenAll(sort, [10, 5, 7, 8]) == [Slot(10, true), Slot(7, false), Slot(8, false), Slot(5, true)]
    ensures PopsInOrder(sort, [10, 7, 5]) && !PopsInOrder(sort, [10, 7, 8, 5])
  {
    var two, three := [Slot(10, true), Slot(5, true)], [Slot(10, true), Slot(7, false), Slot(5, true)];
    SmallQueues(sort, two, three);
    hide *;
    PushedLast(sort, [], 10);
    PushedLast(sort, [10], 5);
    PushedLast(sort, [10, 5], 7);
    PushedLast(sort, [10, 5, 7], 8);
  }

  lemma SmallQueues(sort: (int, int) -> bool, two: seq<Slot<int>>, three: seq<Slot<int>>)
    requires forall a, b :: sort(a, b) <==> a < b
    requires two == [Slot(10, true), Slot(5, true)] && three == [Slot(10, true), Slot(7, false), Slot(5, true)]
    ensures AsWrittenAll(sort, []) == [] && PushAsWritten(sort, [], 10) == [Slot(10, true)]
    ensures PushAsWritten(sort, [Slot(10, true)], 5) == two && PushAsWritten(sort, two, 7) == three
    ensures PushAsWritten(sort, three, 8) == [Slot(10, true), Slot(7, false), Slot(8, false), Slot(5, true)]
    ensures [] + [10] == [10] && [10] + [5] == [10, 5] && [10, 5] + [7] == [10, 5, 7] && [10, 5, 7] + [8] == [10, 5, 7, 8]
    ensures PopsInOrder(sort, [10, 7, 5]) && !PopsInOrder(sort, [10, 7, 8, 5])
  {
    FindExact(sort, two, 7, 1);
    FindExact(sort, three, 8, 2);
    assert sort([10, 7, 8, 5][1], [10, 7, 8, 5][2]);
  }

  // ---------------------------------------------------------------- the linked structure

  /** Nodes, or their objects, with what the walk along `next` meets. */
  function Slots<N>(s: seq<N>, met: seq<bool>): (q: seq<Slot<N>>)
    requires |s| == |met|
    ensures |q| == |s| && forall i :: 0 <= i < |q| ==> q[i] == Slot(s[i], met[i])
  {
    seq(|s|, i requires 0 <= i < |s| => Slot(s[i], met[i]))
  }

  lemma SlotsInserted<N>(s: seq<N>, met: seq<bool>, j: nat, x: N)
    requires |s| == |met| && j <= |s|
    ensures |Inserted(s, j, x)| == |Inserted(met, j, j == 0 || j == |s|)|
    ensures Slots(Inserted(s, j, x), Inserted(met, j, j == 0 || j == |s|)) == PutAt(Slots(s, met), j, x)
  {
  }

  lemma DataInserted<T>(s: seq<Node<T>>, data: seq<T>, j: nat, node: Node<T>)
    requires |data| == |s| && j <= |s| && forall i :: 0 <= i < |s| ==> s[i].data == data[i]
    ensures Data(Inserted(s, j, node)) == Inserted(data, j, node.data)
  {
  }

  class SimpleQueue<T> {
    var head: Node?<T>
    var tail: Node?<T>
    var size: nat
    ghost var nodes: seq<Node<T>>

    /** `fwd` is the chain along `next` from the head, `nodes` the chain along `prev` up to the tail. */
    ghost predicate Chains(fwd: seq<Node<T>>)
      reads this, nodes, fwd
    {
      && size == |nodes|
      && Distinct(nodes) && Distinct(fwd)
      && (nodes == [] <==> fwd == [])
      && (forall n :: n in fwd ==> n in nodes)
      && head == (if nodes == [] then null else nodes[0])
      && tail == (if nodes == [] then null else nodes[|nodes| - 1])
      && (nodes != [] ==>
            && fwd[0] == nodes[0] && fwd[|fwd| - 1] == nodes[|nodes| - 1]
            && nodes[0].prev == null && nodes[|nodes| - 1].next == null)
      && (forall i {:trigger nodes[i].prev} :: 1 <= i < |nodes| ==> nodes[i].prev == nodes[i - 1])
      && (forall i {:trigger fwd[i].next} :: 0 <= i < |fwd| - 1 ==> fwd[i].next == fwd[i + 1])
    }

    /** Both chains hold the same nodes in the same order. */
    ghost predicate Valid()
      reads this, nodes
      ensures Valid() ==> Distinct(nodes)
    {
      Chains(nodes)
    }

    constructor ()
      ensures Valid() && nodes == []
    {
      head, tail, size, nodes := null, null, 0, [];
    }

    /** SimpleQueue::push_node. */
    method PushNode(node: Node<T>)
      requires Valid() && node !in nodes
      modifies this, nodes, node
      ensures Valid() && nodes == [node] + old(nodes)
      ensures node.data == old(node.data)
      ensures forall n :: n in old(nodes) ==> n.data == old(n.data)
    {
      if head == null {
        head, tail := node, node;
        node.prev := null;
        node.next := null;
        size := 1;
      } else {
        size := size + 1;
        head.prev := node;
        node.next := head;
        node.prev := null;
        head := node;
      }
      nodes := [node] + nodes;
    }

    /** SimpleQueue::pop_node. */
    method PopNode() returns (r: Node?<T>)
      requires Valid()
      modifies this, nodes
      ensures Valid()
      ensures r == null <==> old(nodes) == []
      ensures r == null ==> nodes == old(nodes)
      ensures r != null ==> old(nodes) == nodes + [r]
      ensures forall n :: n in old(nodes) ==> n.data == old(n.data)
    {
      r := tail;
      if r == null {
        return;
      }
      tail := r.prev;
      size := size - 1;
      nodes := nodes[..|nodes| - 1];
      if tail == null {
        head := null;
      } else {
        tail.next := null;
      }
    }

    /** SimpleQueue::remove_node: `i` is where `node` is on the queue. */
    method RemoveNode(node: Node<T>, ghost i: nat)
      requires Valid() && i < |nodes| && nodes[i] == node
      modifies this, nodes
      ensures Valid() && nodes == Removed(old(nodes), i)
      ensures forall n :: n in old(nodes) ==> n.data == old(n.data)
    {
      if node == head {
        if head.next == null {
          head, tail := null, null;
        } else {
          head := node.next;
          head.prev := null;
        }
      } else if node == tail {
        tail := node.prev;
        tail.next := null;
      } else {
        node.prev.next := node.next;
        node.next.prev := node.prev;
      }
      size := size - 1;
      nodes := Removed(nodes, i);
    }

    /** SimpleQueue::peek_node. */
    method PeekNode() returns (r: Node?<T>)
      requires Valid()
      ensures r == if nodes == [] then null else nodes[|nodes| - 1]
    {
      r := tail;
    }

    /** The search of SimpleSortedQueue::push_node: the first node, walking `next` from the head, that has to
        be popped before `x`. */
    method FindAfter(x: T, sort: (T, T) -> bool, ghost fwd: seq<Node<T>>, ghost d: seq<T>)
      returns (it: Node?<T>, ghost k: nat)
      requires Chains(fwd) && |d| == |fwd| && forall i :: 0 <= i < |d| ==> d[i] == fwd[i].data
      ensures k == InsertPos(sort, d, x)
      ensures it == if k < |fwd| then fwd[k] else null
    {
      it, k := head, 0;
      while it != null
        invariant k <= |fwd| && it == if k < |fwd| then fwd[k] else null
        invariant forall i :: 0 <= i < k ==> !sort(d[i], x)
        decreases |fwd| - k
      {
        if sort(it.data, x) {
          break;
        }
        it, k := it.next, k + 1;
      }
    }

    /** The branch of SimpleSortedQueue::push_node for an empty queue. */
    method LinkOnly(node: Node<T>)
      requires nodes == []
      modifies this, node
      ensures Valid() && nodes == [node] && node.data == old(node.data)
    {
      head, tail := node, node;
      node.prev := null;
      node.next := null;
      size := 1;
      nodes := [node];
    }

    /** The branch of SimpleSortedQueue::push_node for a node that belongs at the tail. */
    method LinkAtTail(node: Node<T>, ghost fwd: seq<Node<T>>)
      requires Chains(fwd) && nodes != [] && node !in nodes
      modifies this, nodes, node
      ensures Chains(fwd + [node]) && nodes == old(nodes) + [node]
      ensures forall n :: n in nodes ==> n.data == old(n.data)
    {
      size := size + 1;
      node.prev := tail;
      node.next := null;
      tail.next := node;
      tail := node;
      nodes := nodes + [node];
    }

    /** The branch for a node that replaces the head. */
    method LinkAtHead(node: Node<T>, ghost fwd: seq<Node<T>>)
      requires Chains(fwd) && nodes != [] && node !in nodes
      modifies this, nodes, node
      ensures Chains([node] + fwd) && nodes == [node] + old(nodes)
      ensures forall n :: n in nodes ==> n.data == old(n.data)
    {
      size := size + 1;
      node.next := head;
      node.prev := head.prev;
      head.prev := node;
      head := node;
      nodes := [node] + nodes;
    }

    /** The branch for a node that belongs before `it`, not the head, with the link `it->prev->next = node`. */
    method LinkBetween(node: Node<T>, it: Node<T>, ghost k: nat)
      requires Valid() && 0 < k < |nodes| && nodes[k] == it && node !in nodes
      modifies this, nodes, node
      ensures Valid() && nodes == Inserted(old(nodes), k, node)
      ensures forall n :: n in nodes ==> n.data == old(n.data)
    {
      InsertedMembers(nodes, k, node);
      size := size + 1;
      node.next := it;
      node.prev := it.prev;
      it.prev.next := node;  // missing from the source
      it.prev := node;
      nodes := Inserted(nodes, k, node);
    }

    /** The same branch as written; `j` is where `it` is along `prev`. */
    method LinkBetweenAsWritten(node: Node<T>, it: Node<T>, ghost fwd: seq<Node<T>>, ghost j: nat)
      requires Chains(fwd) && 0 < j < |nodes| && nodes[j] == it && node !in nodes
      modifies this, nodes, node
      ensures Chains(fwd) && nodes == Inserted(old(nodes), j, node)
      ensures forall n :: n in nodes ==> n.data == old(n.data)
    {
      InsertedMembers(nodes, j, node);
      size := size + 1;
      node.next := it;
      node.prev := it.prev;
      it.prev := node;
      nodes := Inserted(nodes, j, node);
    }

    /** SimpleSortedQueue::push_node with the missing forward link restored. */
    method PushSortedNode(node: Node<T>, sort: (T, T) -> bool)
      requires Valid() && node !in nodes
      modifies this, nodes, node
      ensures Valid()
      ensures var k := InsertPos(sort, old(Data(nodes)), old(node.data));
              nodes == Inserted(old(nodes), k, node)
      ensures node.data == old(node.data)
      ensures forall n :: n in old(nodes) ==> n.data == old(n.data)
    {
      ghost var d := Data(nodes);
      if head == null {
        LinkOnly(node);
      } else {
        var it;
        ghost var k;
        it, k := FindAfter(node.data, sort, nodes, d);
        if it == null {
          LinkAtTail(node, nodes);
        } else if it == head {
          LinkAtHead(node, nodes);
        } else {
          LinkBetween(node, it, k);
        }
      }
    }

    /** SimpleSortedQueue::push_node exactly as written: `fwd` is the chain along `next`, `d` are its objects, and `j` is
        where the node at which the search ends is along `prev`. */
    method LinkSortedAsWritten(node: Node<T>, sort: (T, T) -> bool, ghost fwd: seq<Node<T>>, ghost d: seq<T>, ghost j: nat)
      requires Chains(fwd) && node !in nodes && |d| == |fwd| && forall i :: 0 <= i < |d| ==> d[i] == fwd[i].data
      requires var k := InsertPos(sort, d, node.data);
        if k < |fwd| then j < |nodes| && nodes[j] == fwd[k] else j == |nodes|
      modifies this, nodes, node
      ensures nodes == Inserted(old(nodes), j, node)
      ensures Chains(if j == |old(nodes)| then fwd + [node] else if j == 0 then [node] + fwd else fwd)
      ensures node.data == old(node.data) && forall n :: n in old(nodes) ==> n.data == old(n.data)
    {
      if head == null {
        LinkOnly(node);
      } else {
        var it;
        ghost var k;
        it, k := FindAfter(node.data, sort, fwd, d);
        if it == null {
          LinkAtTail(node, fwd);
        } else if it == head {
          LinkAtHead(node, fwd);
        } else {
          LinkBetweenAsWritten(node, it, fwd, j);
        }
      }
    }

    /** The same on any queue such pushes can produce: it does to the nodes what PushAsWritten does to their objects. */
    method PushSortedNodeAsWritten(node: Node<T>, sort: (T, T) -> bool, ghost met: seq<bool>)
      returns (ghost met': seq<bool>)
      requires |met| == |nodes| && Chains(Walk(Slots(nodes, met))) && node !in nodes
      modifies this, nodes, node
      ensures |met'| == |nodes| && Chains(Walk(Slots(nodes, met')))
      ensures Slots(Data(nodes), met') == PushAsWritten(sort, Slots(old(Data(nodes)), met), old(node.data))
      ensures node.data == old(node.data) && forall n :: n in old(nodes) ==> n.data == old(n.data)
    {
      hide Chains, Walk, Inserted;
      ghost var data, x := Data(nodes), node.data;
      ghost var q, r := Slots(data, met), Slots(nodes, met);
      ghost var j := FindMet(sort, q, x);
      FindWalk(sort, q, r, x);
      WalkAligned(q, r, (n: Node<T>) reads n => n.data);
      LinkSortedAsWritten(node, sort, Walk(r), Walk(q), j);
      met' := Inserted(met, j, j == 0 || j == |met|);
      WalkAfter(r, j, node);
      SlotsInserted(old(nodes), met, j, node);
      SlotsInserted(data, met, j, x);
      DataInserted(old(nodes), data, j, node);
    }
  }
}
