/** The receive side of IPv4UDPSocket on its two preallocated structures: a pool of packets, and a queue of pointers
    to the packets that are filled. */
module SocketBuffer {
  import opened AllocatedQueue
  import opened Bytes
  import opened Pool
  import opened Return
  import opened Sequences
  import opened SimpleQueue
  import opened SocketSpec

  /** packet_t. */
  class Packet {
    const buff: array<Byte>
    var len: nat
    var ip: Ip
    var port: nat

    constructor ()
      ensures buff.Length == MTU && len == 0 && fresh(buff)
    {
      buff := new Byte[MTU](_ => 0);
      len, ip, port := 0, [0, 0, 0, 0], 0;
    }
  }

  /** A pointer to a packet is represented by its descriptor in the pool. */
  type PacketRef = PoolDescriptor<Packet>

  const NOBODY: int := -1

  lemma BufferedOne(size: nat, q: seq<Datagram>, d: Datagram)
    requires |q| <= size && size > 0
    ensures Buffered(size, q, d) == (if |q| == size then q[1..] else q) + [d]
  {
  }

  class Socket {
    const rx: AllocQueue<PacketRef>
    const pool: Pool<Packet>
    var addr: Ip
    var blocked: int

    ghost const Repr: set<object>

    ghost predicate Layout() {
      && rx in rx.Repr && rx.Repr !! pool.Repr() && this !in rx.Repr + pool.Repr()
      && rx.Capacity() == |pool.desc| > 0
      && Repr == {this} + rx.Repr + pool.Repr() + Storage(pool.desc)
      && Apart(pool.desc, rx.Repr + pool.Repr() + {this})
    }

    static ghost function Storage(desc: seq<PacketRef>): set<object> {
      (set d | d in desc :: d.obj as object) + (set d | d in desc :: d.obj.buff as object)
    }

    /** The packets of the descriptors do not overlap, and nothing else is kept in them. */
    static ghost predicate Apart(desc: seq<PacketRef>, others: set<object>) {
      && (forall d :: d in desc ==> d.obj.buff.Length == MTU)
      && (forall i, j :: 0 <= i < j < |desc| ==> desc[i].obj != desc[j].obj && desc[i].obj.buff != desc[j].obj.buff)
      && Storage(desc) !! others
    }

    lemma LayoutFacts()
      requires Layout()
      ensures rx.Repr !! pool.Repr() && this !in rx.Repr + pool.Repr() && rx.Capacity() == |pool.desc| > 0
      ensures Repr >= {this} + rx.Repr + pool.Repr()
      ensures forall d :: d in pool.desc ==>
        && d.obj in Repr && d.obj.buff in Repr && d.obj.buff.Length == MTU
        && d.obj !in rx.Repr + pool.Repr() && d.obj.buff !in rx.Repr + pool.Repr()
      ensures forall d, e :: d in pool.desc && e in pool.desc && d != e ==> d.obj != e.obj && d.obj.buff != e.obj.buff
    {
    }

    /** What the pool has handed out is exactly `c`, without repetition. */
    ghost predicate Held(c: seq<PacketRef>)
      reads pool.Repr()
    {
      && pool.Valid() && Distinct(c) && (forall d :: d in c ==> d in pool.desc)
      && (forall d :: d in pool.desc ==> (d.inUse <==> d in c))
      && |c| + |pool.FreeList()| == |pool.desc|
    }

    ghost predicate Valid()
      reads this, Repr
    {
      && Layout() && rx.Valid() && Held(rx.Contents())
      && (forall d :: d in rx.Contents() ==> d.obj.len <= MTU)
    }

    static ghost function Stored(p: Packet): Datagram
      requires p.len <= p.buff.Length
      reads p, p.buff
    {
      Datagram(p.buff[..p.len], p.ip, p.port)
    }

    /** The datagrams of the packets `c`; the queue is pushed at the front, so the oldest one is the last. */
    static ghost function Datagrams(c: seq<PacketRef>): (q: seq<Datagram>)
      requires forall d :: d in c ==> d.obj.len <= d.obj.buff.Length
      reads set d | d in c :: d.obj
      reads set d | d in c :: d.obj.buff
      ensures |q| == |c| && forall i :: 0 <= i < |c| ==> q[i] == Stored(c[|c| - 1 - i].obj)
    {
      seq(|c|, i requires 0 <= i < |c| reads (set d | d in c :: d.obj), (set d | d in c :: d.obj.buff)
        requires forall d :: d in c ==> d.obj.len <= d.obj.buff.Length => Stored(c[|c| - 1 - i].obj))
    }

    /** The datagrams on the queue, oldest first. */
    ghost function Waiting(): (q: seq<Datagram>)
      requires Layout() && rx.Valid()
      requires forall d :: d in rx.Contents() ==> d in pool.desc && d.obj.len <= MTU
      reads this, Repr
    {
      Datagrams(rx.Contents())
    }

    /** The abstract value: the datagrams that wait to be read, oldest first. */
    ghost function View(): (q: seq<Datagram>)
      requires Valid()
      reads Repr
      ensures |q| <= |pool.desc|
    {
      Waiting()
    }

    // -------------------------------------------------------------- construction

    /** The descriptors of alloc::Pool<packet_t, SIZE> with their packets, and the pool's nodes. */
    static method NewDescriptors(size: nat) returns (desc: seq<PacketRef>, nodes: seq<Node<PacketRef>>)
      ensures |desc| == |nodes| == size && Distinct(desc) && Distinct(nodes) && fresh(desc) && fresh(nodes)
      ensures Apart(desc, {}) && fresh(Storage(desc))
      ensures Storage(desc) !! (set d: object | d in desc) + (set n: object | n in nodes)
    {
      desc, nodes := [], [];
      for i := 0 to size
        invariant |desc| == |nodes| == i && Distinct(desc) && Distinct(nodes) && fresh(desc) && fresh(nodes)
        invariant Apart(desc, {}) && fresh(Storage(desc))
        invariant Storage(desc) !! (set d: object | d in desc) + (set n: object | n in nodes)
      {
        var p := new Packet();
        var d := new PoolDescriptor(p);
        var n := new Node(d);
        assert Storage(desc + [d]) == Storage(desc) + {p, p.buff};
        desc, nodes := desc + [d], nodes + [n];
      }
    }

    /** alloc::Pool<packet_t, SIZE>. */
    static method NewPool(size: nat) returns (pool: Pool<Packet>)
      ensures pool.Valid() && |pool.desc| == |pool.FreeList()| == size && forall d :: d in pool.desc ==> !d.inUse
      ensures Apart(pool.desc, {}) && Storage(pool.desc) !! pool.Repr()
      ensures fresh(pool.Repr()) && fresh(Storage(pool.desc))
    {
      hide SimpleQueue.Valid, Pool.Valid, Apart;
      var desc, nodes := NewDescriptors(size);
      pool := new Pool(desc, nodes);
    }

    /** alloc::IPv4UDPSocket<SIZE>, not yet bound. */
    constructor (size: nat)
      requires size > 0
      ensures Valid() && View() == [] && |pool.desc| == size && blocked == NOBODY && addr == [0, 0, 0, 0]
      ensures fresh(Repr)
    {
      hide SimpleQueue.Valid, Pool.Valid, AllocQueue.Valid, AllocQueue.Contents, Apart, Valid, View, Layout;
      var pool := NewPool(size);
      var rx := new AllocQueue(size, pool.desc[0]);
      this.pool, this.rx := pool, rx;
      addr, blocked := [0, 0, 0, 0], NOBODY;
      Repr := {this} + rx.Repr + pool.Repr() + Storage(pool.desc);
      new;
      ApartFrom(pool.desc, rx.Repr + pool.Repr() + {this});
      NothingQueued();
    }

    /** A socket over a new pool and a new queue. */
    lemma NothingQueued()
      requires rx in rx.Repr && rx.Repr !! pool.Repr() && this !in rx.Repr + pool.Repr()
      requires rx.Capacity() == |pool.desc| > 0 && Repr == {this} + rx.Repr + pool.Repr() + Storage(pool.desc)
      requires Apart(pool.desc, rx.Repr + pool.Repr() + {this})
      requires rx.Valid() && rx.Nodes() == [] && pool.Valid() && |pool.FreeList()| == |pool.desc|
      requires forall d :: d in pool.desc ==> !d.inUse
      ensures Valid() && View() == []
    {
      hide SimpleQueue.Valid, Pool.Valid, AllocQueue.Valid, Apart, Storage;
      assert Held(rx.Contents());
    }

    static lemma ApartFrom(desc: seq<PacketRef>, others: set<object>)
      requires Apart(desc, {}) && Storage(desc) !! others
      ensures Apart(desc, others)
    {
    }

    /** bind(), without the subscription at the UDP layer. */
    method Bind(ip: Ip)
      requires Valid()
      modifies `addr
      ensures Valid() && View() == old(View()) && addr == ip
    {
      hide SimpleQueue.Valid, Pool.Valid, AllocQueue.Valid, Layout, Apart, Storage, Held;
      LayoutFacts();
      addr := ip;
    }

    // -------------------------------------------------------------- the pool

    /** `m_pool.alloc()` while `c` is handed out: it fails only when that is all. */
    method TakePacket(ghost c: seq<PacketRef>) returns (d: PoolDescriptor?<Packet>)
      requires Held(c)
      modifies pool.Repr()
      ensures d == null <==> |c| == |pool.desc|
      ensures if d == null then Held(c) else d in pool.desc && d !in c && Held([d] + c)
    {
      hide Pool.Valid;
      d := pool.Alloc();
      if d != null {
        assert forall e :: e in pool.desc ==> (e.inUse <==> e in [d as PacketRef] + c);
      }
    }

    /** `m_pool.free()` of a packet that is handed out cannot fail. */
    method FreePacket(d: PacketRef, ghost c: seq<PacketRef>) returns (ok: bool)
      requires Held(c + [d])
      modifies pool.Repr()
      ensures Held(c) && ok
    {
      hide Pool.Valid;
      assert (c + [d])[|c|] == d;
      forall i | 0 <= i < |c| ensures (c + [d])[i] == c[i] && c[i] != d {
      }
      ok := pool.Free(d);
    }

    // -------------------------------------------------------------- the operations

    /** receive() of a packet with the payload `data`, addressed to `dst`, from `src` and `port`. `woken` is the task
        that is woken up. */
    method Receive(data: seq<Byte>, dst: nat, src: nat, port: nat) returns (ret: RetType, woken: int)
      requires Valid()
      modifies Repr
      ensures Valid() && addr == old(addr) && blocked == old(blocked)
      ensures ret == if |data| > MTU || !AcceptsFrom(addr, dst) then RetError else RetSuccess
      ensures View() == if ret == RetSuccess
                        then Buffered(|pool.desc|, old(View()), Datagram(data, RecordedIp(src), port))
                        else old(View())
      ensures woken == if ret == RetSuccess then blocked else NOBODY
    {
      hide SimpleQueue.Valid, Pool.Valid, AllocQueue.Valid, Layout, Apart, Storage, Held, Buffered;
      LayoutFacts();
      if |data| > MTU {
        // larger than a packet's buffer
        return RetError, NOBODY;
      }
      if addr != [0, 0, 0, 0] {
        if IpValue(addr) != dst {
          // addressed to another interface
          return RetError, NOBODY;
        }
      }
      ghost var q := View();
      var buff := Reserve();
      StillWaiting(if |q| == |pool.desc| then 1 else 0);
      Enqueue(buff, data, src, port);
      BufferedOne(|pool.desc|, q, Datagram(data, RecordedIp(src), port));
      return RetSuccess, blocked;
    }

    /** Get a packet: when there is none, drop the oldest one that is queued, after which there is one. */
    method Reserve() returns (d: PacketRef)
      requires Valid()
      modifies rx.Repr, pool.Repr()
      ensures rx.Valid() && d in pool.desc && d !in rx.Contents() && Held([d] + rx.Contents())
      ensures rx.Contents() == var c := old(rx.Contents()); if |c| == |pool.desc| then c[..|c| - 1] else c
    {
      hide SimpleQueue.Valid, Pool.Valid, AllocQueue.Valid, AllocQueue.Contents, Layout, Apart, Storage, Held;
      LayoutFacts();
      ghost var c := rx.Contents();
      var buff := TakePacket(c);
      if buff == null {
        var oldest := rx.Peek();
        rx.Pop();
        assert c == rx.Contents() + [oldest.data];
        var ok := FreePacket(oldest.data, rx.Contents());
        buff := TakePacket(rx.Contents());
      }
      d := buff;
    }

    /** What is left on the queue when only the oldest packet may have gone. */
    twostate lemma StillWaiting(k: nat)
      requires old(Valid()) && Layout() && rx.Valid()
      requires k <= |old(rx.Contents())| && rx.Contents() == old(rx.Contents())[..|old(rx.Contents())| - k]
      requires forall d :: d in pool.desc ==> unchanged(d.obj) && unchanged(d.obj.buff)
      ensures forall d :: d in rx.Contents() ==> d in pool.desc && d.obj.len <= MTU
      ensures Waiting() == old(View())[k..]
    {
      hide SimpleQueue.Valid, Pool.Valid, AllocQueue.Valid, Layout, Apart, Storage;
      LayoutFacts();
      var c := old(rx.Contents());
      forall i | 0 <= i < |rx.Contents()| ensures Waiting()[i] == old(View())[i + k] {
        var e := rx.Contents()[|rx.Contents()| - 1 - i];
        assert e == c[|c| - 1 - (i + k)] && e in c;
      }
    }

    /** Push the packet and fill it. The push cannot fail. */
    method Enqueue(d: PacketRef, data: seq<Byte>, src: nat, port: nat)
      requires Layout() && rx.Valid() && d in pool.desc && d !in rx.Contents() && Held([d] + rx.Contents())
      requires |data| <= MTU && forall e :: e in rx.Contents() ==> e.obj.len <= MTU
      modifies rx.Repr, d.obj, d.obj.buff
      ensures Valid() && rx.Contents() == [d] + old(rx.Contents())
      ensures View() == old(Waiting()) + [Datagram(data, RecordedIp(src), port)]
    {
      hide SimpleQueue.Valid, Pool.Valid, AllocQueue.Valid, AllocQueue.Contents, Layout, Apart, Storage, Held, Datagrams;
      LayoutFacts();
      Capacity(d, rx.Contents());
      ghost var c := rx.Contents();
      var node := rx.Push(d);
      Fill(d.obj, data, src, port);
      assert rx.Valid() && rx.Contents() == [d] + c;
      OneMoreWaiting(d);
    }

    lemma HeldMembers(c: seq<PacketRef>)
      requires Held(c)
      ensures forall e :: e in c ==> e in pool.desc
    {
    }

    /** A packet more has been handed out than `c`, so the queue that holds `c` is not full. */
    lemma Capacity(d: PacketRef, c: seq<PacketRef>)
      requires Held([d] + c)
      ensures |c| < |pool.desc| && forall e :: e in c ==> e in pool.desc && e != d
    {
      hide Pool.Valid;
      assert ([d] + c)[0] == d;
      forall i | 0 <= i < |c| ensures ([d] + c)[i + 1] == c[i] && c[i] in [d] + c {
      }
    }

    /** What is on the queue when `d` was pushed and filled. */
    twostate lemma OneMoreWaiting(d: PacketRef)
      requires old(Layout() && rx.Valid()) && rx.Valid() && Held([d] + old(rx.Contents())) && d.obj.len <= MTU
      requires forall e :: e in old(rx.Contents()) ==> old(e.obj.len) <= MTU
      requires d in pool.desc && rx.Contents() == [d] + old(rx.Contents())
      requires forall e :: e in pool.desc && e != d ==> unchanged(e.obj) && unchanged(e.obj.buff)
      ensures forall e :: e in old(rx.Contents()) ==> e in pool.desc
      ensures forall e :: e in rx.Contents() ==> e in pool.desc && e.obj.len <= MTU
      ensures d.obj.buff.Length == MTU && Waiting() == old(Waiting()) + [Stored(d.obj)]
    {
      hide SimpleQueue.Valid, Pool.Valid, AllocQueue.Valid, Layout, Apart, Storage, Held;
      var c := old(rx.Contents());
      LayoutFacts();
      Capacity(d, c);
      var q := old(Waiting());
      forall i | 0 <= i < |c| ensures Waiting()[i] == q[i] {
        var e := c[|c| - 1 - i];
        assert e in c && e == rx.Contents()[|c| - i];
      }
    }

    /** Copy the payload and the source into a packet. */
    static method Fill(p: Packet, data: seq<Byte>, src: nat, port: nat)
      requires |data| <= p.buff.Length
      modifies p, p.buff
      ensures p.len == |data| && Stored(p) == Datagram(data, RecordedIp(src), port)
    {
      forall i | 0 <= i < |data| {
        p.buff[i] := data[i];
      }
      p.len, p.ip, p.port := |data|, RecordedIp(src), port;
      assert p.buff[..p.len] == data;
    }

    /** recv() by task `tid` into the first `len` bytes of `buff`, up to the point where it may block. With nothing to
        read it blocks only if no task ever did: receive() leaves `blocked` as it is. */
    method Recv(tid: nat, buff: array<Byte>, len: nat)
      returns (ret: RetType, size: nat, ip: Ip, port: nat)
      requires Valid() && len <= buff.Length && buff !in Repr
      modifies Repr, buff
      ensures Valid() && addr == old(addr)
      ensures ret == if old(View()) != [] then RetSuccess else if old(blocked) == NOBODY then RetBlocked else RetError
      ensures blocked == if ret == RetBlocked then tid else old(blocked)
      ensures ret == RetSuccess ==>
        View() == old(View())[1..] && Delivered(old(View())[0], old(buff[..]), buff[..], len, size, ip, port)
      ensures ret != RetSuccess ==> View() == [] && buff[..] == old(buff[..])
    {
      hide SimpleQueue.Valid, Pool.Valid, AllocQueue.Valid, Layout, Apart, Storage, Held;
      LayoutFacts();
      size, ip, port := len, [0, 0, 0, 0], 0;
      var first := rx.Peek();
      if first == null {
        if blocked != NOBODY {
          // `blocked` is set, now or from an earlier wait
          return RetError, size, ip, port;
        }
        blocked := tid;
        return RetBlocked, size, ip, port;
      }
      ret, size, ip, port := TakeFirst(buff, len);
    }

    /** The rest of recv(), also where a blocked task resumes: the source assumes there is a packet then. The packet
        goes back to the pool before it is copied. */
    method TakeFirst(buff: array<Byte>, len: nat) returns (ret: RetType, size: nat, ip: Ip, port: nat)
      requires Valid() && View() != [] && len <= buff.Length && buff !in Repr
      modifies rx.Repr, pool.Repr(), buff
      ensures Valid() && View() == old(View())[1..] && ret == RetSuccess
      ensures Delivered(old(View())[0], old(buff[..]), buff[..], len, size, ip, port)
    {
      hide SimpleQueue.Valid, Pool.Valid, AllocQueue.Valid, Layout, Apart, Storage, Held;
      LayoutFacts();
      ghost var q, was := View(), buff[..];
      var d := Unlink();
      var packet := d.obj;
      StillWaiting(1);
      var min := Min(packet.len, len);
      assert Stored(packet) == q[0];
      label L:
      Copy(buff, packet, min);
      assert rx.Valid() && Held(rx.Contents()) && rx.Contents() == old@L(rx.Contents());
      assert Waiting() == q[1..];
      assert packet.buff[..min] == q[0].data[..min] by {
        assert packet.buff[..packet.len][..min] == packet.buff[..min];
      }
      return RetSuccess, packet.len, packet.ip, packet.port;
    }

    /** Take the oldest packet off the queue and give it back to the pool, which cannot fail. */
    method Unlink() returns (d: PacketRef)
      requires Valid() && View() != []
      modifies rx.Repr, pool.Repr()
      ensures rx.Valid() && Held(rx.Contents())
      ensures rx.Contents() == old(rx.Contents())[..|old(rx.Contents())| - 1]
      ensures d == old(rx.Contents())[|old(rx.Contents())| - 1] && d in pool.desc
    {
      hide SimpleQueue.Valid, Pool.Valid, AllocQueue.Valid, AllocQueue.Contents, Layout, Apart, Storage, Held;
      LayoutFacts();
      HeldMembers(rx.Contents());
      ghost var c := rx.Contents();
      var first := rx.Peek();
      d := first.data;
      rx.Pop();
      assert c == rx.Contents() + [d];
      var ok := FreePacket(d, rx.Contents());
    }

    /** memcpy. */
    static method Copy(buff: array<Byte>, p: Packet, n: nat)
      requires n <= buff.Length && n <= p.len <= p.buff.Length && buff != p.buff
      modifies buff
      ensures buff[..] == p.buff[..n] + old(buff[..])[n..]
    {
      forall i | 0 <= i < n {
        buff[i] := p.buff[i];
      }
    }
  }

  /** What a caller of recv() gets: as much of the datagram as fits, its real length, and where it came from. */
  ghost predicate Delivered(d: Datagram, was: seq<Byte>, now: seq<Byte>, len: nat, size: nat, ip: Ip, port: nat) {
    && size == |d.data| && ip == d.ip && port == d.port && |now| == |was|
    && var n := Min(size, len); n <= |was| && now == d.data[..n] + was[n..]
  }
}
