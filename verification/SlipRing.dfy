/** The ring protocol of net/slip/SLIPRingDevice.h: N devices in a circle, each with a FIFO link to the next. A frame
    is forwarded and delivered by every device it reaches, until its TTL is used up. */
module SlipRing {
  import opened Bytes

  const TTL_WRAP: nat := 0x1_0000_0000

  /** `id` says which transmission a frame comes from. */
  datatype Frame = Frame(ttl: nat, data: seq<Byte>, id: nat)

  datatype Sent = Sent(origin: nat, data: seq<Byte>)

  datatype Delivery = Delivery(id: nat, data: seq<Byte>)

  /** `links[i]` leads from device i to the next one; `hops[id]` counts the devices a transmission has reached. */
  datatype Ring = Ring(n: nat, links: seq<seq<Frame>>, delivered: seq<seq<Delivery>>, sent: seq<Sent>, hops: seq<nat>)

  datatype Event = Transmit(i: nat, data: seq<Byte>) | Poll(i: nat)

  function NextDevice(n: nat, i: nat): nat {
    if i + 1 == n then 0 else i + 1
  }

  function PrevDevice(n: nat, i: nat): nat
    requires i < n
  {
    if i == 0 then n - 1 else i - 1
  }

  /** `ttl--` on 32 bits. */
  function Decrement(ttl: nat): nat {
    if ttl == 0 then TTL_WRAP - 1 else ttl - 1
  }

  predicate Shaped(r: Ring) {
    |r.links| == |r.delivered| == r.n && |r.hops| == |r.sent|
  }

  predicate Fits(n: nat, e: Event) {
    e.i < n
  }

  function Step(r: Ring, e: Event): (r': Ring)
    requires Shaped(r) && Fits(r.n, e)
    ensures Shaped(r') && r'.n == r.n
  {
    match e
    case Transmit(i, data) =>
      r.(links := r.links[i := r.links[i] + [Frame(r.n - 1, data, |r.sent|)]],
         sent := r.sent + [Sent(i, data)], hops := r.hops + [0])
    case Poll(i) =>
      var l := PrevDevice(r.n, i);
      if r.links[l] == [] then r
      else
        var f := r.links[l][0];
        var ttl := Decrement(f.ttl);
        var links := r.links[l := r.links[l][1..]];
        if f.data == [] then r.(links := links)  // "not big enough", ignored
        else
          r.(links := if ttl > 0 then links[i := links[i] + [f.(ttl := ttl)]] else links,
             delivered := r.delivered[i := r.delivered[i] + [Delivery(f.id, f.data)]],
             hops := if f.id < |r.hops| then r.hops[f.id := r.hops[f.id] + 1] else r.hops)
  }

  function Run(r: Ring, events: seq<Event>): (r': Ring)
    requires Shaped(r) && forall k :: 0 <= k < |events| ==> Fits(r.n, events[k])
    ensures Shaped(r') && r'.n == r.n
    decreases |events|
  {
    if events == [] then r else Run(Step(r, events[0]), events[1..])
  }

  function Empty(n: nat): (r: Ring)
    ensures Shaped(r) && r.n == n
  {
    Ring(n, seq(n, _ => []), seq(n, _ => []), [], [])
  }

  // ---------------------------------------------------------------- distances

  /** The device, and so the link behind it, that is `h` hops from `o`. */
  function After(n: nat, o: nat, h: nat): nat
    requires o < n && h < n
  {
    if o + h < n then o + h else o + h - n
  }

  function Distance(n: nat, o: nat, d: nat): nat
    requires o < n && d < n
  {
    if d >= o then d - o else d + n - o
  }

  /** A transmission from `o` that has made `h` hops has been delivered to the devices 1 to h hops away. */
  predicate Reached(n: nat, o: nat, h: nat, d: nat)
    requires o < n && d < n
  {
    1 <= Distance(n, o, d) <= h
  }

  function Deliveries(log: seq<Delivery>, id: nat): nat {
    if log == [] then 0 else Deliveries(log[..|log| - 1], id) + (if log[|log| - 1].id == id then 1 else 0)
  }

  // ---------------------------------------------------------------- the invariant

  /** A frame in flight is where its TTL says, with the data it was sent with. */
  ghost predicate FrameOk(r: Ring, l: nat, f: Frame)
    requires Shaped(r) && r.n >= 2
  {
    && f.id < |r.sent| && r.sent[f.id].origin < r.n && r.hops[f.id] < r.n - 1
    && f.data == r.sent[f.id].data && f.ttl == r.n - 1 - r.hops[f.id]
    && l == After(r.n, r.sent[f.id].origin, r.hops[f.id])
  }

  ghost predicate InFlight(r: Ring, l: nat, id: nat)
    requires l < |r.links|
  {
    exists p :: 0 <= p < |r.links[l]| && r.links[l][p].id == id
  }

  ghost predicate Logged(r: Ring, d: nat, id: nat)
    requires Shaped(r) && d < r.n && id < |r.sent| && r.sent[id].origin < r.n
  {
    Deliveries(r.delivered[d], id) == if Reached(r.n, r.sent[id].origin, r.hops[id], d) then 1 else 0
  }

  ghost predicate DistinctIds(q: seq<Frame>) {
    forall p, p' :: 0 <= p < p' < |q| ==> q[p].id != q[p'].id
  }

  ghost predicate FramesOk(r: Ring)
    requires Shaped(r) && r.n >= 2
  {
    && (forall l, p :: 0 <= l < r.n && 0 <= p < |r.links[l]| ==> FrameOk(r, l, r.links[l][p]))
    && (forall l :: 0 <= l < r.n ==> DistinctIds(r.links[l]))
  }

  /** Every transmission that has not been everywhere is in flight; one without data gets nowhere. */
  ghost predicate Pending(r: Ring, id: nat)
    requires Shaped(r) && r.n >= 2 && id < |r.sent|
  {
    && r.sent[id].origin < r.n && r.hops[id] <= r.n - 1
    && (r.sent[id].data == [] ==> r.hops[id] == 0)
    && (r.sent[id].data != [] && r.hops[id] < r.n - 1 ==> InFlight(r, After(r.n, r.sent[id].origin, r.hops[id]), id))
  }

  ghost predicate LogsOk(r: Ring)
    requires Shaped(r)
  {
    && (forall id :: 0 <= id < |r.sent| ==> r.sent[id].origin < r.n)
    && (forall d, id :: 0 <= d < r.n && 0 <= id < |r.sent| ==> Logged(r, d, id))
    && (forall d, p :: 0 <= d < r.n && 0 <= p < |r.delivered[d]| ==>
          r.delivered[d][p].id < |r.sent| && r.delivered[d][p].data == r.sent[r.delivered[d][p].id].data)
  }

  ghost predicate Inv(r: Ring) {
    && Shaped(r) && 2 <= r.n <= TTL_WRAP
    && FramesOk(r) && LogsOk(r)
    && (forall id :: 0 <= id < |r.sent| ==> Pending(r, id))
  }

  lemma EmptyInv(n: nat)
    requires 2 <= n <= TTL_WRAP
    ensures Inv(Empty(n))
  {
  }

  // ---------------------------------------------------------------- every step keeps it

  lemma {:induction false} NotYetDelivered(log: seq<Delivery>, id: nat)
    requires forall p :: 0 <= p < |log| ==> log[p].id < id
    ensures Deliveries(log, id) == 0
  {
    if log == [] {
    } else {
      NotYetDelivered(log[..|log| - 1], id);
    }
  }

  lemma TransmitKeeps(r: Ring, i: nat, data: seq<Byte>)
    requires Inv(r) && i < r.n
    ensures Inv(Step(r, Transmit(i, data)))
  {
    var r' := Step(r, Transmit(i, data));
    var k := |r.sent|;
    forall l, p | 0 <= l < r.n && 0 <= p < |r'.links[l]| ensures FrameOk(r', l, r'.links[l][p]) {
      if p < |r.links[l]| {
        assert FrameOk(r, l, r.links[l][p]);
      }
    }
    forall l | 0 <= l < r.n ensures DistinctIds(r'.links[l]) {
      assert DistinctIds(r.links[l]);
      forall p | 0 <= p < |r.links[l]| ensures r.links[l][p].id < k {
        assert FrameOk(r, l, r.links[l][p]);
      }
    }
    forall id | 0 <= id < |r'.sent| ensures Pending(r', id) {
      if id < k {
        assert Pending(r, id);
        if r.sent[id].data != [] && r.hops[id] < r.n - 1 {
          var l := After(r.n, r.sent[id].origin, r.hops[id]);
          var p :| 0 <= p < |r.links[l]| && r.links[l][p].id == id;
          assert r'.links[l][p].id == id;
        }
      } else {
        assert r'.links[i][|r.links[i]|].id == id;
      }
    }
    forall d, id | 0 <= d < r.n && 0 <= id < |r'.sent| ensures Logged(r', d, id) {
      if id < k {
        assert Logged(r, d, id);
      } else {
        NotYetDelivered(r.delivered[d], k);
      }
    }
  }

  /** The head of link `l` arrives one hop further than the transmission had got, at a device it had not reached. */
  lemma Arrival(n: nat, o: nat, h: nat)
    requires o < n && h + 1 < n
    ensures var l := After(n, o, h); var i := NextDevice(n, l);
      && PrevDevice(n, i) == l && i == After(n, o, h + 1) && Distance(n, o, i) == h + 1
    ensures forall d :: 0 <= d < n ==> (Distance(n, o, d) == h + 1 <==> d == NextDevice(n, After(n, o, h)))
  {
  }

  lemma PollKeepsFrames(r: Ring, i: nat)
    requires Inv(r) && i < r.n && r.links[PrevDevice(r.n, i)] != []
    ensures FramesOk(Step(r, Poll(i)))
  {
    PollKeepsIds(r, i);
    hide DistinctIds;
    var r', l := Step(r, Poll(i)), PrevDevice(r.n, i);
    var f := r.links[l][0];
    assert FrameOk(r, l, f);
    Arrival(r.n, r.sent[f.id].origin, r.hops[f.id]);
    forall m, p | 0 <= m < r.n && 0 <= p < |r'.links[m]| ensures FrameOk(r', m, r'.links[m][p]) {
      OtherFrame(r, l, m, if m == l then p + 1 else p);
    }
  }

  lemma PollKeepsIds(r: Ring, i: nat)
    requires Inv(r) && i < r.n && r.links[PrevDevice(r.n, i)] != []
    ensures forall m :: 0 <= m < r.n ==> DistinctIds(Step(r, Poll(i)).links[m])
  {
    var r', l := Step(r, Poll(i)), PrevDevice(r.n, i);
    var f := r.links[l][0];
    assert FrameOk(r, l, f);
    Arrival(r.n, r.sent[f.id].origin, r.hops[f.id]);
    forall m | 0 <= m < r.n ensures DistinctIds(r'.links[m]) {
      assert DistinctIds(r.links[m]);
      if m == i && f.data != [] {
        forall p | 0 <= p < |r.links[i]| ensures r.links[i][p].id != f.id {
          assert FrameOk(r, i, r.links[i][p]);
        }
      }
    }
  }

  /** Frames other than the head of `l` belong to other transmissions. */
  lemma OtherFrame(r: Ring, l: nat, m: nat, p: nat)
    requires Inv(r) && l < r.n && r.links[l] != [] && m < r.n
    ensures p < |r.links[m]| && (m != l || p > 0) ==>
      FrameOk(r, m, r.links[m][p]) && r.links[m][p].id != r.links[l][0].id
  {
  }

  lemma PollKeepsPending(r: Ring, i: nat, id: nat)
    requires Inv(r) && i < r.n && r.links[PrevDevice(r.n, i)] != [] && id < |r.sent|
    ensures Pending(Step(r, Poll(i)), id)
  {
    var r', l := Step(r, Poll(i)), PrevDevice(r.n, i);
    var f := r.links[l][0];
    assert FrameOk(r, l, f) && Pending(r, id);
    Arrival(r.n, r.sent[f.id].origin, r.hops[f.id]);
    if id == f.id {
      if f.data != [] && r'.hops[id] < r.n - 1 {
        assert r'.links[i][|r'.links[i]| - 1].id == id;
      }
    } else if r.sent[id].data != [] && r.hops[id] < r.n - 1 {
      var m := After(r.n, r.sent[id].origin, r.hops[id]);
      var p :| 0 <= p < |r.links[m]| && r.links[m][p].id == id;
      if m == l {
        assert r'.links[m][p - 1].id == id;
      } else {
        assert r'.links[m][p].id == id;
      }
    }
  }

  lemma PollKeepsLogs(r: Ring, i: nat)
    requires Inv(r) && i < r.n && r.links[PrevDevice(r.n, i)] != []
    ensures LogsOk(Step(r, Poll(i)))
  {
    var r', l := Step(r, Poll(i)), PrevDevice(r.n, i);
    var f := r.links[l][0];
    assert FrameOk(r, l, f);
    Arrival(r.n, r.sent[f.id].origin, r.hops[f.id]);
    forall d, id | 0 <= d < r.n && 0 <= id < |r'.sent| ensures Logged(r', d, id) {
      assert Logged(r, d, id);
    }
  }

  lemma StepKeeps(r: Ring, e: Event)
    requires Inv(r) && Fits(r.n, e)
    ensures Inv(Step(r, e))
  {
    match e
    case Transmit(i, data) => TransmitKeeps(r, i, data);
    case Poll(i) =>
      if r.links[PrevDevice(r.n, i)] != [] {
        PollKeepsFrames(r, i);
        PollKeepsLogs(r, i);
        forall id | 0 <= id < |r.sent| ensures Pending(Step(r, e), id) {
          PollKeepsPending(r, i, id);
        }
      }
  }

  lemma {:induction false} RunKeeps(r: Ring, events: seq<Event>)
    requires Inv(r) && forall k :: 0 <= k < |events| ==> Fits(r.n, events[k])
    ensures Inv(Run(r, events))
    decreases |events|
  {
    if events == [] {
    } else {
      StepKeeps(r, events[0]);
      RunKeeps(Step(r, events[0]), events[1..]);
    }
  }

  // ---------------------------------------------------------------- exactly once

  ghost predicate Quiet(r: Ring) {
    forall l :: 0 <= l < |r.links| ==> r.links[l] == []
  }

  /** Exactly once: over any run of a ring of two devices or more, with any number of frames under way, a device gets
      a transmission at most once, its sender never, and always with the data that was sent; and when no frame is
      under way any more, everybody else has got it, unless it has no data: such a frame is ignored. */
  lemma ExactlyOnce(n: nat, events: seq<Event>, id: nat, d: nat)
    requires 2 <= n <= TTL_WRAP && forall k :: 0 <= k < |events| ==> Fits(n, events[k])
    requires id < |Run(Empty(n), events).sent| && d < n
    ensures var r := Run(Empty(n), events);
      && Deliveries(r.delivered[d], id) <= (if d == r.sent[id].origin then 0 else 1)
      && (Quiet(r) && d != r.sent[id].origin ==>
            Deliveries(r.delivered[d], id) == if r.sent[id].data == [] then 0 else 1)
      && (forall p :: 0 <= p < |r.delivered[d]| && r.delivered[d][p].id == id ==> r.delivered[d][p].data == r.sent[id].data)
  {
    var r := Run(Empty(n), events);
    EmptyInv(n);
    RunKeeps(Empty(n), events);
    assert Logged(r, d, id) && Pending(r, id);
  }

  // ---------------------------------------------------------------- the data that arrive

  function Datas(log: seq<Delivery>): (r: seq<seq<Byte>>)
    ensures |r| == |log| && forall k :: 0 <= k < |r| ==> r[k] == log[k].data
  {
    seq(|log|, k requires 0 <= k < |log| => log[k].data)
  }

  /** The transmissions among the events. */
  function Transmissions(events: seq<Event>): seq<Sent> {
    if events == [] then []
    else (match events[0] case Transmit(i, data) => [Sent(i, data)] case Poll(_) => []) + Transmissions(events[1..])
  }

  /** How often devices other than `d` sent `x`; a frame without data does not count. */
  function FromOthers(sent: seq<Sent>, d: nat, x: seq<Byte>): nat {
    if sent == [] then 0
    else
      var y := sent[|sent| - 1];
      FromOthers(sent[..|sent| - 1], d, x) + (if y.origin != d && y.data == x && x != [] then 1 else 0)
  }

  lemma {:induction false} RunSends(r: Ring, events: seq<Event>)
    requires Shaped(r) && forall k :: 0 <= k < |events| ==> Fits(r.n, events[k])
    ensures Run(r, events).sent == r.sent + Transmissions(events)
    decreases |events|
  {
    if events == [] {
      assert r.sent + [] == r.sent;
    } else {
      var r1 := Step(r, events[0]);
      var head := match events[0] case Transmit(i, data) => [Sent(i, data)] case Poll(_) => [];
      assert r1.sent == r.sent + head;
      RunSends(r1, events[1..]);
      assert (r.sent + head) + Transmissions(events[1..]) == r.sent + (head + Transmissions(events[1..]));
    }
  }

  /** How often the log has a delivery of one of the first `m` transmissions whose data are `x`. */
  function Tally(log: seq<Delivery>, sent: seq<Sent>, x: seq<Byte>, m: nat): nat
    requires m <= |sent|
  {
    if m == 0 then 0 else Tally(log, sent, x, m - 1) + if sent[m - 1].data == x then Deliveries(log, m - 1) else 0
  }

  lemma {:induction false} TallyStep(log: seq<Delivery>, y: Delivery, sent: seq<Sent>, x: seq<Byte>, m: nat)
    requires m <= |sent| && y.id < |sent| && y.data == sent[y.id].data
    ensures Tally(log + [y], sent, x, m) == Tally(log, sent, x, m) + if y.id < m && y.data == x then 1 else 0
  {
    if m == 0 {
    } else {
      TallyStep(log, y, sent, x, m - 1);
      assert (log + [y])[..|log|] == log;
    }
  }

  lemma {:induction false} TallyNothing(sent: seq<Sent>, x: seq<Byte>, m: nat)
    requires m <= |sent|
    ensures Tally([], sent, x, m) == 0
  {
    if m == 0 {
    } else {
      TallyNothing(sent, x, m - 1);
    }
  }

  lemma {:induction false} TallyIsLog(log: seq<Delivery>, sent: seq<Sent>, x: seq<Byte>)
    requires forall p :: 0 <= p < |log| ==> log[p].id < |sent| && log[p].data == sent[log[p].id].data
    ensures Tally(log, sent, x, |sent|) == multiset(Datas(log))[x]
  {
    if log == [] {
      TallyNothing(sent, x, |sent|);
    } else {
      var n := |log| - 1;
      TallyIsLog(log[..n], sent, x);
      TallyStep(log[..n], log[n], sent, x, |sent|);
      assert log[..n] + [log[n]] == log;
      assert Datas(log) == Datas(log[..n]) + [log[n].data];
    }
  }

  /** The deliveries of one transmission that are due to device `d`. */
  function Due(y: Sent, d: nat): nat {
    if y.origin == d || y.data == [] then 0 else 1
  }

  lemma {:induction false} TallyBound(log: seq<Delivery>, sent: seq<Sent>, d: nat, x: seq<Byte>, m: nat)
    requires m <= |sent|
    requires forall id :: 0 <= id < m ==> Deliveries(log, id) <= Due(sent[id], d)
    ensures Tally(log, sent, x, m) <= FromOthers(sent[..m], d, x)
    ensures (forall id :: 0 <= id < m ==> Deliveries(log, id) == Due(sent[id], d)) ==>
      Tally(log, sent, x, m) == FromOthers(sent[..m], d, x)
  {
    if m == 0 {
    } else {
      TallyBound(log, sent, d, x, m - 1);
      assert sent[..m][..m - 1] == sent[..m - 1];
    }
  }

  lemma DeliveriesDue(r: Ring, d: nat, id: nat)
    requires Inv(r) && d < r.n && id < |r.sent|
    ensures Deliveries(r.delivered[d], id) <= Due(r.sent[id], d)
    ensures Quiet(r) ==> Deliveries(r.delivered[d], id) == Due(r.sent[id], d)
  {
    assert Logged(r, d, id) && Pending(r, id);
  }

  /** Exactly once, told by the data: over any run a device gets no data more often than the others sent them, and when
      no frame is under way any more, just as often. */
  lemma OthersArrive(n: nat, events: seq<Event>, d: nat, x: seq<Byte>)
    requires 2 <= n <= TTL_WRAP && d < n && forall k :: 0 <= k < |events| ==> Fits(n, events[k])
    ensures var r := Run(Empty(n), events);
      && multiset(Datas(r.delivered[d]))[x] <= FromOthers(Transmissions(events), d, x)
      && (Quiet(r) ==> multiset(Datas(r.delivered[d]))[x] == FromOthers(Transmissions(events), d, x))
  {
    hide Inv, Due, FromOthers, Deliveries;
    var r := Run(Empty(n), events);
    EmptyInv(n);
    RunKeeps(Empty(n), events);
    RunSends(Empty(n), events);
    assert [] + Transmissions(events) == Transmissions(events);
    var log, sent := r.delivered[d], r.sent;
    forall id | 0 <= id < |sent|
      ensures Deliveries(log, id) <= Due(sent[id], d)
      ensures Quiet(r) ==> Deliveries(log, id) == Due(sent[id], d)
    {
      DeliveriesDue(r, d, id);
    }
    LogMatches(r, d);
    TallyIsLog(log, sent, x);
    TallyBound(log, sent, d, x, |sent|);
    assert sent[..|sent|] == sent;
  }

  lemma LogMatches(r: Ring, d: nat)
    requires Inv(r) && d < r.n
    ensures forall p :: 0 <= p < |r.delivered[d]| ==>
      r.delivered[d][p].id < |r.sent| && r.delivered[d][p].data == r.sent[r.delivered[d][p].id].data
  {
  }

  /** Device 0 polled `n` times. */
  function Polls(n: nat): (e: seq<Event>)
    ensures |e| == n && forall k :: 0 <= k < n ==> e[k] == Poll(0)
  {
    seq(n, _ => Poll(0))
  }

  function Copies(n: nat, d: Delivery): (s: seq<Delivery>)
    ensures |s| == n && forall k :: 0 <= k < n ==> s[k] == d
  {
    seq(n, _ => d)
  }

  /** In a ring of one, a frame comes back to its sender as often as its TTL says. */
  lemma {:induction false} ComesBack(r: Ring, f: Frame, n: nat)
    requires Shaped(r) && r.n == 1 && r.links[0] == [f] && f.data != [] && n <= f.ttl && f.ttl > 0
    ensures var r' := Run(r, Polls(n));
      && r'.delivered[0] == r.delivered[0] + Copies(n, Delivery(f.id, f.data))
      && r'.links[0] == if n < f.ttl then [f.(ttl := f.ttl - n)] else []
    decreases n
  {
    if n == 0 {
      assert r.delivered[0] + Copies(0, Delivery(f.id, f.data)) == r.delivered[0];
    } else {
      var r1, d := Step(r, Poll(0)), Delivery(f.id, f.data);
      assert Polls(n)[1..] == Polls(n - 1);
      assert Run(r, Polls(n)) == Run(r1, Polls(n - 1));
      assert r1.delivered[0] == r.delivered[0] + [d];
      assert (r.delivered[0] + [d]) + Copies(n - 1, d) == r.delivered[0] + Copies(n, d);
      if f.ttl > 1 {
        assert r1.links[0] == [f.(ttl := f.ttl - 1)];
        ComesBack(r1, f.(ttl := f.ttl - 1), n - 1);
      } else {
        assert Run(r1, []) == r1 && Polls(0) == [] && Copies(0, d) == [];
      }
    }
  }

  /** A ring of one is different: the TTL of 0 wraps around. After `n` receptions the sender has got its own frame
      `n` times, and the frame is still under way unless n is 2^32. */
  ghost predicate OneAfter(data: seq<Byte>, n: nat)
    requires 0 < n <= TTL_WRAP
  {
    var r := Run(Step(Empty(1), Transmit(0, data)), Polls(n));
    && r.links[0] == (if n < TTL_WRAP then [Frame(TTL_WRAP - n, data, 0)] else [])
    && r.delivered[0] == Copies(n, Delivery(0, data))
  }

  lemma RingOfOne(data: seq<Byte>)
    requires data != []
    ensures forall n: nat :: 0 < n <= TTL_WRAP ==> OneAfter(data, n)
    ensures Quiet(Run(Step(Empty(1), Transmit(0, data)), Polls(TTL_WRAP)))
  {
    forall n: nat | 0 < n <= TTL_WRAP ensures OneAfter(data, n) {
      OneAfterPolls(data, n);
    }
    assert OneAfter(data, TTL_WRAP);
  }

  lemma OneAfterPolls(data: seq<Byte>, n: nat)
    requires data != [] && 0 < n <= TTL_WRAP
    ensures OneAfter(data, n)
  {
    var r := Step(Empty(1), Transmit(0, data));
    var r1 := Step(r, Poll(0));
    assert r.links[0] == [Frame(0, data, 0)] && r1.links[0] == [Frame(TTL_WRAP - 1, data, 0)];
    assert r1.delivered[0] == [Delivery(0, data)];
    assert Polls(n)[1..] == Polls(n - 1) && Polls(n)[0] == Poll(0);
    ComesBack(r1, Frame(TTL_WRAP - 1, data, 0), n - 1);
    assert [Delivery(0, data)] + Copies(n - 1, Delivery(0, data)) == Copies(n, Delivery(0, data));
  }

  // ---------------------------------------------------------------- quiescence

  function LinkTtl(q: seq<Frame>): nat {
    if q == [] then 0 else q[0].ttl + LinkTtl(q[1..])
  }

  function TtlSum(links: seq<seq<Frame>>): nat {
    if links == [] then 0 else LinkTtl(links[0]) + TtlSum(links[1..])
  }

  lemma {:induction false} LinkTtlPush(q: seq<Frame>, f: Frame)
    ensures LinkTtl(q + [f]) == LinkTtl(q) + f.ttl
  {
    if q == [] {
    } else {
      assert (q + [f])[1..] == q[1..] + [f];
      LinkTtlPush(q[1..], f);
    }
  }

  lemma {:induction false} TtlSumUpdate(links: seq<seq<Frame>>, i: nat, q: seq<Frame>)
    requires i < |links|
    ensures TtlSum(links[i := q]) + LinkTtl(links[i]) == TtlSum(links) + LinkTtl(q)
  {
    if i == 0 {
    } else {
      assert links[i := q][1..] == links[1..][i - 1 := q];
      TtlSumUpdate(links[1..], i - 1, q);
    }
  }

  /** Every frame that is received uses up one unit of the TTLs under way (all of its own if it is ignored), and a
      transmission brings n - 1 of them. */
  lemma StepUsesTtl(r: Ring, e: Event)
    requires Inv(r) && Fits(r.n, e)
    ensures
      match e
      case Transmit(_, _) => TtlSum(Step(r, e).links) == TtlSum(r.links) + r.n - 1
      case Poll(i) =>
        var q := r.links[PrevDevice(r.n, i)];
        if q == [] then TtlSum(Step(r, e).links) == TtlSum(r.links)
        else TtlSum(Step(r, e).links) == TtlSum(r.links) - (if q[0].data == [] then q[0].ttl else 1) < TtlSum(r.links)
  {
    match e
    case Transmit(i, data) =>
      var f := Frame(r.n - 1, data, |r.sent|);
      LinkTtlPush(r.links[i], f);
      TtlSumUpdate(r.links, i, r.links[i] + [f]);
    case Poll(i) =>
      var l := PrevDevice(r.n, i);
      if r.links[l] != [] {
        var f := r.links[l][0];
        assert FrameOk(r, l, f);
        TtlSumUpdate(r.links, l, r.links[l][1..]);
        if f.ttl > 1 && f.data != [] {
          var links := r.links[l := r.links[l][1..]];
          LinkTtlPush(links[i], f.(ttl := f.ttl - 1));
          TtlSumUpdate(links, i, links[i] + [f.(ttl := f.ttl - 1)]);
        }
      }
  }

  /** Receptions only: every device polled finds a frame. */
  predicate AllReceive(r: Ring, polls: seq<nat>)
    requires Shaped(r)
    decreases |polls|
  {
    polls == [] ||
    (polls[0] < r.n && r.links[PrevDevice(r.n, polls[0])] != [] && AllReceive(Step(r, Poll(polls[0])), polls[1..]))
  }

  /** So a ring in which nobody transmits comes to rest: no more receptions can follow than the TTLs add up to. */
  lemma {:induction false} ComesToRest(r: Ring, polls: seq<nat>)
    requires Inv(r) && AllReceive(r, polls)
    ensures |polls| <= TtlSum(r.links)
    decreases |polls|
  {
    if polls == [] {
    } else {
      StepKeeps(r, Poll(polls[0]));
      StepUsesTtl(r, Poll(polls[0]));
      ComesToRest(Step(r, Poll(polls[0])), polls[1..]);
    }
  }

  lemma {:induction false} TtlSumZero(links: seq<seq<Frame>>)
    requires forall l, p :: 0 <= l < |links| && 0 <= p < |links[l]| ==> links[l][p].ttl > 0
    ensures TtlSum(links) == 0 <==> forall l :: 0 <= l < |links| ==> links[l] == []
  {
    if links == [] {
    } else {
      if links[0] != [] {
        assert links[0][0].ttl > 0;
      }
      TtlSumZero(links[1..]);
    }
  }

  /** The ring is at rest exactly when all TTLs are used up. */
  lemma AtRest(r: Ring)
    requires Inv(r)
    ensures Quiet(r) <==> TtlSum(r.links) == 0
  {
    forall l, p | 0 <= l < |r.links| && 0 <= p < |r.links[l]| ensures r.links[l][p].ttl > 0 {
      assert FrameOk(r, l, r.links[l][p]);
    }
    TtlSumZero(r.links);
  }
}
