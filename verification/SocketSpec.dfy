/** The receive side of a UDP socket, net/stack/IPv4UDP/IPv4UDPSocket.h, as a drop-oldest queue of datagrams. */
module SocketSpec {
  import opened Bytes
  import opened Options
  import opened Sequences

  const MTU: nat := 1472  // 1518 less the Ethernet, IPv4 and UDP headers and the frame check sequence

  type Ip = s: seq<Byte> | |s| == 4 witness [0, 0, 0, 0]

  datatype Datagram = Datagram(data: seq<Byte>, ip: Ip, port: nat)

  // ---------------------------------------------------------------- addresses

  /** ipv4::IPv4Address: the address in system order. */
  function IpValue(ip: Ip): (v: nat)
    ensures v < 0x1_0000_0000
  {
    0x100_0000 * (ip[0] as nat) + 0x1_0000 * (ip[1] as nat) + 0x100 * (ip[2] as nat) + ip[3] as nat
  }

  /** A socket that is bound to 0.0.0.0 receives on every interface. */
  predicate AcceptsFrom(bound: Ip, dst: nat) {
    bound == [0, 0, 0, 0] || IpValue(bound) == dst
  }

  /** A socket that is bound to an address receives what is sent to exactly that address, first byte most significant;
      one bound to 0.0.0.0 receives everything. */
  lemma AcceptsExact(bound: Ip, v: nat)
    requires v < 0x1_0000_0000
    ensures bound == [0, 0, 0, 0] ==> AcceptsFrom(bound, v)
    ensures bound != [0, 0, 0, 0] ==>
      (AcceptsFrom(bound, v) <==> bound == [v / 0x100_0000, v / 0x1_0000 % 256, v / 0x100 % 256, v % 256])
  {
    hide IpValue;
    var octets: Ip := [v / 0x100_0000, v / 0x1_0000 % 256, v / 0x100 % 256, v % 256];
    FromOctets(v, octets);
    ToOctets(bound);
  }

  lemma FromOctets(v: nat, ip: Ip)
    requires v < 0x1_0000_0000 && ip == [v / 0x100_0000, v / 0x1_0000 % 256, v / 0x100 % 256, v % 256]
    ensures IpValue(ip) == v
  {
    Quotients(v);
    LastDigit(v);
    LastDigit(v / 0x100);
    LastDigit(v / 0x1_0000);
  }

  lemma ToOctets(ip: Ip)
    ensures var v := IpValue(ip); ip == [v / 0x100_0000, v / 0x1_0000 % 256, v / 0x100 % 256, v % 256]
  {
    var v, a, b, c, d := IpValue(ip), ip[0] as nat, ip[1] as nat, ip[2] as nat, ip[3] as nat;
    assert v == 256 * (256 * (256 * a + b) + c) + d;
    hide IpValue;
    Quotients(v);
    Digit(256 * (256 * a + b) + c, d);
    Digit(256 * a + b, c);
    Digit(a, b);
    assert ip == [a, b, c, d];
  }

  lemma Digit(m: nat, d: nat)
    requires d < 256
    ensures (256 * m + d) / 256 == m && (256 * m + d) % 256 == d
  {
  }

  lemma LastDigit(v: nat)
    ensures v == 256 * (v / 256) + v % 256
  {
  }

  lemma Quotients(v: nat)
    ensures v / 0x1_0000 == v / 0x100 / 256 && v / 0x100_0000 == v / 0x1_0000 / 256
  {
  }

  /** The source address as receive() stores it: `addr << 24`, `<< 16`, `<< 8` and `addr` cut down to a byte each. */
  function RecordedIp(v: nat): Ip {
    [v * 0x100_0000 % 256, v * 0x1_0000 % 256, v * 0x100 % 256, v % 256]
  }

  /** Shifting left instead of right leaves the first three bytes zero, so only addresses 0.0.0.x are reported. */
  lemma RecordedIpExact(ip: Ip)
    ensures RecordedIp(IpValue(ip)) == ip <==> ip[0] == ip[1] == ip[2] == 0
    ensures RecordedIp(IpValue(ip)) == [0, 0, 0, ip[3]]
  {
  }

  // ---------------------------------------------------------------- the queue

  /** Put the newest datagram behind the others; when all `size` places are taken, the oldest one goes. */
  function Buffered(size: nat, q: seq<Datagram>, d: Datagram): (r: seq<Datagram>)
    requires |q| <= size
    ensures |r| <= size
  {
    Last(size, q + [d])
  }

  datatype Event = Receive(d: Datagram) | Recv

  /** A run of receptions of good packets and of reads: the datagrams that are queued, and the ones that were read. */
  function Run(size: nat, q: seq<Datagram>, events: seq<Event>): (r: (seq<Datagram>, seq<Datagram>))
    requires |q| <= size
    ensures |r.0| <= size
    decreases |events|
  {
    if events == [] then (q, [])
    else
      match events[0]
      case Receive(d) => Run(size, Buffered(size, q, d), events[1..])
      case Recv =>
        if q == [] then Run(size, q, events[1..])
        else
          var (q', out) := Run(size, q[1..], events[1..]);
          (q', [q[0]] + out)
  }

  function Arrived(events: seq<Event>): seq<Datagram> {
    if events == [] then []
    else (match events[0] case Receive(d) => [d] case Recv => []) + Arrived(events[1..])
  }

  lemma ArrivedStep(past: seq<Datagram>, events: seq<Event>)
    ensures events == [] ==> past + Arrived(events) == past
    ensures events != [] && events[0].Recv? ==> past + Arrived(events) == past + Arrived(events[1..])
    ensures events != [] && events[0].Receive? ==>
      past + Arrived(events) == (past + [events[0].d]) + Arrived(events[1..])
  {
    if events != [] && events[0].Recv? {
      assert [] + Arrived(events[1..]) == Arrived(events[1..]);
    }
  }

  /** Over any run, the queue holds the most recent datagrams in the order of their arrival. */
  lemma {:induction false} QueueHoldsNewest(size: nat, q: seq<Datagram>, past: seq<Datagram>, events: seq<Event>)
    requires |q| <= size && q == Last(|q|, past)
    ensures var q' := Run(size, q, events).0; q' == Last(|q'|, past + Arrived(events))
    decreases |events|
  {
    hide Last, Arrived;
    ArrivedStep(past, events);
    if events == [] {
    } else {
      match events[0] {
        case Receive(d) =>
          LastPush(size, q, past, [d]);
          QueueHoldsNewest(size, Buffered(size, q, d), past + [d], events[1..]);
        case Recv =>
          if q == [] {
            QueueHoldsNewest(size, q, past, events[1..]);
          } else {
            LastPop(q, past, 1);
            QueueHoldsNewest(size, q[1..], past, events[1..]);
          }
      }
    }
  }

  /** Which arrivals the reads of a run return, as positions among all arrivals; `n` of them came before. */
  function ReadPositions(size: nat, q: seq<Datagram>, n: nat, events: seq<Event>): seq<int>
    requires |q| <= size
    decreases |events|
  {
    if events == [] then []
    else
      match events[0]
      case Receive(d) => ReadPositions(size, Buffered(size, q, d), n + 1, events[1..])
      case Recv =>
        if q == [] then ReadPositions(size, q, n, events[1..])
        else [n - |q|] + ReadPositions(size, q[1..], n, events[1..])
  }

  /** `out` are the elements of `all` at the positions `p`, which rise from `low` on and stay below `high`. */
  ghost predicate Selected(all: seq<Datagram>, out: seq<Datagram>, p: seq<int>, low: int, high: int) {
    && |p| == |out| && 0 <= low <= high <= |all|
    && (forall i, j :: 0 <= i < j < |p| ==> p[i] < p[j])
    && (forall i :: 0 <= i < |p| ==> low <= p[i] < high && out[i] == all[p[i]])
  }

  lemma SelectedNone(all: seq<Datagram>, low: int)
    requires 0 <= low <= |all|
    ensures Selected(all, [], [], low, low)
  {
  }

  lemma SelectedFirst(all: seq<Datagram>, out: seq<Datagram>, p: seq<int>, low: int, high: int)
    requires low >= 0 && Selected(all, out, p, low + 1, high)
    ensures Selected(all, [all[low]] + out, [low] + p, low, high)
  {
  }

  /** The reads return datagrams that arrived, each at most once and in the order of arrival, and none that is still
      queued: what is missing has been dropped. */
  lemma {:induction false} ReadsInOrder(size: nat, q: seq<Datagram>, past: seq<Datagram>, events: seq<Event>)
    requires |q| <= size && q == Last(|q|, past)
    ensures var (q', out) := Run(size, q, events);
            var all := past + Arrived(events);
      Selected(all, out, ReadPositions(size, q, |past|, events), |past| - |q|, |all| - |q'|)
    decreases |events|
  {
    hide Last, Selected, Arrived;
    ArrivedStep(past, events);
    if events == [] {
      SelectedNone(past, |past| - |q|);
    } else {
      var rest := events[1..];
      match events[0] {
        case Receive(d) =>
          var q1 := Buffered(size, q, d);
          LastPush(size, q, past, [d]);
          ReadsInOrder(size, q1, past + [d], rest);
          SelectedFromLower(past + Arrived(events), Run(size, q1, rest).1, ReadPositions(size, q1, |past| + 1, rest),
                            |past| - |q|, |past| + 1 - |q1|, |past + Arrived(events)| - |Run(size, q1, rest).0|);
        case Recv =>
          if q == [] {
            ReadsInOrder(size, q, past, rest);
          } else {
            var (q', out) := Run(size, q[1..], rest);
            LastPop(q, past, 1);
            LastHead(q, past);
            ReadsInOrder(size, q[1..], past, rest);
            var all, low := past + Arrived(rest), |past| - |q|;
            SelectedFirst(all, out, ReadPositions(size, q[1..], |past|, rest), low, |all| - |q'|);
          }
      }
    }
  }

  lemma SelectedFromLower(all: seq<Datagram>, out: seq<Datagram>, p: seq<int>, lower: int, low: int, high: int)
    requires 0 <= lower <= low && Selected(all, out, p, low, high)
    ensures Selected(all, out, p, lower, high)
  {
  }

  lemma LastHead(q: seq<Datagram>, past: seq<Datagram>)
    requires q != [] && q == Last(|q|, past)
    ensures |q| <= |past| && q[0] == past[|past| - |q|]
  {
  }

  /** How many datagrams a run drops: those that arrive when the queue is full. */
  function Drops(size: nat, q: seq<Datagram>, events: seq<Event>): nat
    requires |q| <= size
    decreases |events|
  {
    if events == [] then 0
    else
      match events[0]
      case Receive(d) => (if |q| == size then 1 else 0) + Drops(size, Buffered(size, q, d), events[1..])
      case Recv => Drops(size, if q == [] then q else q[1..], events[1..])
  }

  /** Every datagram that arrives is read, still queued, or was dropped for a newer one. */
  lemma {:induction false} NothingElseLost(size: nat, q: seq<Datagram>, events: seq<Event>)
    requires |q| <= size
    ensures var (q', out) := Run(size, q, events);
      |q| + |Arrived(events)| == |out| + |q'| + Drops(size, q, events)
    decreases |events|
  {
    if events == [] {
    } else {
      match events[0] {
        case Receive(d) => NothingElseLost(size, Buffered(size, q, d), events[1..]);
        case Recv => NothingElseLost(size, if q == [] then q else q[1..], events[1..]);
      }
    }
  }

  /** Receptions less reads. */
  function Net(events: seq<Event>): int {
    if events == [] then 0
    else Net(events[..|events| - 1]) + (if events[|events| - 1].Receive? then 1 else -1)
  }

  /** From event `i` on there are more than `c` receptions beyond the reads, and from no later event on are there so
      many reads beyond the receptions that a full queue would fall to `c`. */
  ghost predicate LeavesMoreThan(size: nat, c: int, events: seq<Event>, i: nat)
    requires i <= |events|
  {
    Net(events[i..]) > c && forall j :: i <= j <= |events| ==> Net(events[j..]) + size > c
  }

  lemma NetOfTail(events: seq<Event>, i: nat)
    requires i < |events|
    ensures var n := |events| - 1;
      Net(events[i..]) == Net(events[..n][i..]) + (if events[n].Receive? then 1 else -1)
  {
    assert events[i..][..|events[i..]| - 1] == events[..|events| - 1][i..];
  }

  /** The last event moves the threshold by one. */
  lemma LastEventShifts(size: nat, c: int, events: seq<Event>, i: nat)
    requires i < |events| && c < size
    ensures var n := |events| - 1;
      LeavesMoreThan(size, c, events, i) <==>
      LeavesMoreThan(size, if events[n].Receive? then c - 1 else c + 1, events[..n], i)
  {
    hide Net;
    var n := |events| - 1;
    NetOfTail(events, i);
    NetOfNothing(events);
    forall j | i <= j <= n
      ensures Net(events[j..]) == Net(events[..n][j..]) + (if events[n].Receive? then 1 else -1)
    {
      NetOfTail(events, j);
    }
  }

  lemma NetOfNothing(events: seq<Event>)
    ensures Net(events[|events|..]) == 0
  {
  }

  lemma {:induction false} RunConcat(size: nat, q: seq<Datagram>, events: seq<Event>, e: Event)
    requires |q| <= size
    ensures var q1 := Run(size, q, events).0;
      Run(size, q, events + [e]).0 ==
        match e case Receive(d) => Buffered(size, q1, d) case Recv => if q1 == [] then [] else q1[1..]
    decreases |events|
  {
    if events == [] {
      assert [e][1..] == [] && [] + [e] == [e];
    } else {
      assert (events + [e])[1..] == events[1..] + [e];
      match events[0] {
        case Receive(d) => RunConcat(size, Buffered(size, q, d), events[1..], e);
        case Recv => RunConcat(size, if q == [] then q else q[1..], events[1..], e);
      }
    }
  }

  lemma RunSnoc(size: nat, q: seq<Datagram>, events: seq<Event>, e: Event)
    requires |q| <= size
    ensures var q1 := Run(size, q, events).0;
      |Run(size, q, events + [e]).0| == if e.Receive? then Min(size, |q1| + 1) else if q1 == [] then 0 else |q1| - 1
  {
    hide Run;
    RunConcat(size, q, events, e);
  }

  /** Over any run from an empty queue, more than `c` datagrams are queued in the end iff the events leave them. */
  lemma {:induction false} QueueLengthExact(size: nat, c: int, events: seq<Event>)
    requires -1 <= c <= size
    ensures |Run(size, [], events).0| > c <==> exists i: nat :: i <= |events| && LeavesMoreThan(size, c, events, i)
    decreases |events|
  {
    hide Run, LeavesMoreThan;
    QueueLengthEnds(size, c, events);
    if events != [] && 0 <= c < size {
      var n := |events| - 1;
      var c' := if events[n].Receive? then c - 1 else c + 1;
      QueueLengthExact(size, c', events[..n]);
      RunSnoc(size, [], events[..n], events[n]);
      assert events == events[..n] + [events[n]];
      forall i | 0 <= i < |events|
        ensures LeavesMoreThan(size, c, events, i) <==> LeavesMoreThan(size, c', events[..n], i)
      {
        LastEventShifts(size, c, events, i);
      }
    }
  }

  lemma QueueLengthEnds(size: nat, c: int, events: seq<Event>)
    requires -1 <= c <= size
    ensures Run(size, [], []).0 == []
    ensures c == -1 ==> LeavesMoreThan(size, c, events, |events|)
    ensures c >= 0 ==> !LeavesMoreThan(size, c, events, |events|)
    ensures c == size ==> forall i :: 0 <= i <= |events| ==> !LeavesMoreThan(size, c, events, i)
  {
    NetOfNothing(events);
  }

  /** recv() assumes that a task finds a packet when it resumes after it was woken. It does iff, from some event on
      since it blocked on the empty queue, receptions outnumber reads and at no later point the reads still to come
      could have emptied even a full queue. */
  lemma ResumedFindsPacket(size: nat, events: seq<Event>)
    ensures Run(size, [], events).0 != [] <==> exists i: nat :: i <= |events| && LeavesMoreThan(size, 0, events, i)
  {
    QueueLengthExact(size, 0, events);
  }

  /** They need not: a task that calls recv() between the wakeup and the dispatch takes the packet. */
  lemma RobbedWaiter(size: nat, d: Datagram)
    requires size > 0
    ensures Run(size, [], [Receive(d)]).0 == [d] && Run(size, [], [Receive(d), Recv]).0 == []
  {
    assert [Receive(d), Recv][1..] == [Recv] && [Receive(d)][1..] == [] && [Recv][1..] == [];
    assert [] + [d] == [d];
  }

  // ---------------------------------------------------------------- whom receive() wakes

  datatype Use = Arrives(d: Datagram) | Reads(t: nat)

  /** `blocked` is m_blocked; `waits` says that this task's label in recv() is the one behind BLOCK(). */
  datatype Rx = Rx(q: seq<Datagram>, blocked: Option<nat>, waits: bool)

  /** receive(), which wakes `blocked`, and recv(), called or resumed by task `t`. */
  function Used(size: nat, s: Rx, u: Use): (s': Rx)
    requires |s.q| <= size
    ensures |s'.q| <= size
  {
    match u
    case Arrives(d) => s.(q := Buffered(size, s.q, d))
    case Reads(t) =>
      var rest := if s.q == [] then [] else s.q[1..];
      if s.blocked == Some(t) && s.waits then s.(q := rest, waits := false)
      else if s.q == [] && s.blocked == None then s.(blocked := Some(t), waits := true)
      else s.(q := rest)
  }

  function AllUsed(size: nat, uses: seq<Use>): (s: Rx)
    ensures |s.q| <= size
  {
    if uses == [] then Rx([], None, false) else Used(size, AllUsed(size, uses[..|uses| - 1]), uses[|uses| - 1])
  }

  /** The datagrams are those of the queue above, whoever reads them. */
  function Events(uses: seq<Use>): seq<Event> {
    if uses == [] then []
    else Events(uses[..|uses| - 1]) + [match uses[|uses| - 1] case Arrives(d) => Receive(d) case Reads(_) => Recv]
  }

  lemma {:induction false} UsedQueue(size: nat, uses: seq<Use>)
    ensures AllUsed(size, uses).q == Run(size, [], Events(uses)).0
  {
    if uses == [] {
    } else {
      var n := |uses| - 1;
      UsedQueue(size, uses[..n]);
      RunConcat(size, [], Events(uses[..n]), Events(uses)[|Events(uses)| - 1]);
    }
  }

  /** m_blocked is never cleared: the first task that blocks is woken by every datagram from then on, and it waits in
      recv() iff it has not come back to recv() since. */
  lemma {:induction false} WokenExact(size: nat, uses: seq<Use>, i: nat)
    requires i < |uses| && uses[i].Reads?
    requires AllUsed(size, uses[..i]).q == [] && AllUsed(size, uses[..i]).blocked == None
    ensures var s := AllUsed(size, uses);
      && s.blocked == Some(uses[i].t)
      && (s.waits <==> forall j :: i < j < |uses| ==> uses[j] != Reads(uses[i].t))
    decreases |uses|
  {
    hide Used;
    var n, w := |uses| - 1, uses[i].t;
    var before := uses[..n];
    UsedStep(size, AllUsed(size, before), uses[n]);
    if i == n {
    } else {
      assert before[..i] == uses[..i];
      WokenExact(size, before, i);
      hide AllUsed;
      if forall j :: i < j < n ==> before[j] != Reads(w) {
        forall j | i < j < n ensures uses[j] != Reads(w) {
          assert before[j] == uses[j];
        }
      } else {
        var j :| i < j < n && before[j] == Reads(w);
        assert uses[j] == Reads(w);
      }
    }
  }

  lemma UsedStep(size: nat, s: Rx, u: Use)
    requires |s.q| <= size
    ensures s.blocked.Some? ==>
      Used(size, s, u).blocked == s.blocked
      && (Used(size, s, u).waits <==> s.waits && u != Reads(s.blocked.value))
    ensures u.Reads? && s.q == [] && s.blocked == None ==>
      Used(size, s, u).blocked == Some(u.t) && Used(size, s, u).waits
  {
  }
}
