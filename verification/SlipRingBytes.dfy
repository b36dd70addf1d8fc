/** The ring down to the bytes: devices as in SlipRingDevice, each with a decoder, and links that carry single bytes.
    Such a ring refines the ring of frames of SlipRing. */
module SlipRingBytes {
  import opened Bytes
  import opened Options
  import opened Slip
  import opened SlipRing
  import opened SlipRingDevice

  /** Bytes of m_packet's payload, of the decoder's buffer and of the encoder's. */
  datatype Sizes = Sizes(packet: nat, decoder: nat, encoder: nat)

  /** `links[i]` leads from device i to the next one, whose decoder reads it. */
  datatype Wire = Wire(n: nat, links: seq<seq<Byte>>, decoders: seq<Decoder>, delivered: seq<seq<seq<Byte>>>)

  /** The devices have room for these data and the header. */
  predicate Room(s: Sizes, data: seq<Byte>) {
    |data| <= s.packet && HEADER + |data| <= s.decoder && 2 * (HEADER + |data| + 1) <= s.encoder
  }

  predicate WellFormed(w: Wire) {
    |w.links| == |w.decoders| == |w.delivered| == w.n
  }

  predicate Permitted(s: Sizes, n: nat, e: Event) {
    Fits(n, e) && (e.Transmit? ==> Room(s, e.data))
  }

  predicate AllPermitted(s: Sizes, n: nat, events: seq<Event>) {
    forall k :: 0 <= k < |events| ==> Permitted(s, n, events[k])
  }

  function Append<T>(q: seq<T>, x: Option<T>): seq<T> {
    match x case None => q case Some(y) => q + [y]
  }

  /** A transmission puts a whole frame on the link; poll() takes one byte, if there is one. */
  function StepBytes(s: Sizes, w: Wire, e: Event): (w': Wire)
    requires WellFormed(w) && Fits(w.n, e)
    ensures WellFormed(w') && w'.n == w.n
  {
    match e
    case Transmit(i, data) =>
      w.(links := w.links[i := w.links[i] + Encode(TtlBytes(w.n - 1) + data)])
    case Poll(i) =>
      var l := PrevDevice(w.n, i);
      if w.links[l] == [] then w
      else
        var (d, out) := PollByte(s.decoder, s.encoder, s.packet, w.decoders[i], w.links[l][0]);
        var w1 := w.(links := w.links[l := w.links[l][1..]], decoders := w.decoders[i := d]);
        match out
        case None => w1
        case Some(a) =>
          w1.(links := match a.forward case None => w1.links case Some(f) => w1.links[i := w1.links[i] + f],
              delivered := w.delivered[i := Append(w.delivered[i], a.deliver)])
  }

  function RunBytes(s: Sizes, w: Wire, events: seq<Event>): (w': Wire)
    requires WellFormed(w) && AllPermitted(s, w.n, events)
    ensures WellFormed(w') && w'.n == w.n
    decreases |events|
  {
    if events == [] then w else RunBytes(s, StepBytes(s, w, events[0]), events[1..])
  }

  function Silent(n: nat): (w: Wire)
    ensures WellFormed(w) && w.n == n
  {
    Wire(n, seq(n, _ => []), seq(n, _ => INITIAL), seq(n, _ => []))
  }

  // ---------------------------------------------------------------- one link

  function Carried(q: seq<Frame>): seq<Byte> {
    if q == [] then [] else Encode(FrameBytes(q[0])) + Carried(q[1..])
  }

  lemma {:induction false} CarriedPush(q: seq<Frame>, f: Frame)
    ensures Carried(q + [f]) == Carried(q) + Encode(FrameBytes(f))
  {
    hide Encode, FrameBytes;
    if q == [] {
      assert q + [f] == [f] && [f][1..] == [];
    } else {
      CarriedPush(q[1..], f);
      assert (q + [f])[1..] == q[1..] + [f];
    }
  }

  /** Of what the frames `q` amount to, the decoder `d` has taken a part of the first one and `bytes` are left. */
  ghost predicate LinkOk(s: Sizes, d: Decoder, bytes: seq<Byte>, q: seq<Frame>) {
    && (forall p :: 0 <= p < |q| ==> Room(s, q[p].data))
    && |bytes| <= |Carried(q)|
    && Taken(s, d, Carried(q), |Carried(q)| - |bytes|)
    && bytes == Carried(q)[|Carried(q)| - |bytes|..]
    && (q != [] ==> |Carried(q)| - |bytes| < |Encode(FrameBytes(q[0]))|)
  }

  ghost predicate Taken(s: Sizes, d: Decoder, all: seq<Byte>, k: nat)
    requires k <= |all|
  {
    if k == 0 then !d.parsing else d == Feed(true, s.decoder, INITIAL, all[..k]).0
  }

  lemma LinkPush(s: Sizes, d: Decoder, bytes: seq<Byte>, q: seq<Frame>, f: Frame)
    requires LinkOk(s, d, bytes, q) && Room(s, f.data)
    ensures LinkOk(s, d, bytes + Encode(FrameBytes(f)), q + [f])
  {
    hide Room, Encode, Feed, FrameBytes;
    CarriedPush(q, f);
    var k := |Carried(q)| - |bytes|;
    assert (Carried(q) + Encode(FrameBytes(f)))[..k] == Carried(q)[..k];
    NotEmpty(FrameBytes(f));
  }

  lemma NotEmpty(p: seq<Byte>)
    ensures |Encode(p)| >= 2 && Encode(p)[0] == END
  {
  }

  /** The k-th byte of a frame, counted from 0. */
  lemma PushWithin(size: nat, p: seq<Byte>, k: nat)
    requires |p| <= size && k < |Encode(p)|
    ensures var (d, out) := Push(true, size, Feed(true, size, INITIAL, Encode(p)[..k]).0, Encode(p)[k]);
      && d == Feed(true, size, INITIAL, Encode(p)[..k + 1]).0
      && out == (if k + 1 == |Encode(p)| then Some(p) else None)
      && (k + 1 == |Encode(p)| ==> !d.parsing)
  {
    hide Encode, Push;
    var e := Encode(p);
    FeedFrame(true, size, INITIAL, p);
    assert Seen(true, p) == p;
    assert e[..k + 1][..k] == e[..k] && e[..k + 1][k] == e[k];
    FeedConcat(true, size, INITIAL, e[..k + 1], e[k + 1..]);
    assert e == e[..k + 1] + e[k + 1..];
    var outs := Feed(true, size, INITIAL, e[..k + 1]).1;
    assert Feed(true, size, INITIAL, e).1[k] == outs[k];
    if k + 1 == |e| {
      assert e[..k + 1] == e;
    }
  }

  /** What poll() does with the next byte of a link. */
  lemma PushNext(s: Sizes, d: Decoder, bytes: seq<Byte>, q: seq<Frame>)
    requires LinkOk(s, d, bytes, q) && bytes != []
    ensures q != []
    ensures var p, k := FrameBytes(q[0]), |Carried(q)| - |bytes|;
      var (d', out) := Push(true, s.decoder, d, bytes[0]);
      && d' == Feed(true, s.decoder, INITIAL, Encode(p)[..k + 1]).0
      && out == (if k + 1 == |Encode(p)| then Some(p) else None)
      && (k + 1 == |Encode(p)| ==> !d'.parsing)
  {
    var p, k := FrameBytes(q[0]), |Carried(q)| - |bytes|;
    assert Room(s, q[0].data);
    hide FrameBytes, Encode, Feed, Room, Push, Carried;
    CarriedFirst(q);
    WithinFirst(Encode(p), Carried(q[1..]), k);
    assert |p| <= s.decoder by {
      FrameBytesLength(q[0]);
      assert Room(s, q[0].data);
      Fitted(s, q[0].data);
    }
    PushWithin(s.decoder, p, k);
    if k == 0 {
      NotEmpty(p);
      assert Encode(p)[..0] == [];
      FeedNothing(true, s.decoder, INITIAL);
      OpensFrame(s.decoder, d);
    }
  }

  lemma WithinFirst(a: seq<Byte>, b: seq<Byte>, k: nat)
    requires k < |a|
    ensures (a + b)[..k] == a[..k] && (a + b)[k..] != [] && (a + b)[k..][0] == a[k]
  {
  }

  lemma CarriedFirst(q: seq<Frame>)
    ensures Carried(q) == if q == [] then [] else Encode(FrameBytes(q[0])) + Carried(q[1..])
  {
  }

  /** Between two frames, END has the same effect whatever came before. */
  lemma OpensFrame(size: nat, d: Decoder)
    requires !d.parsing
    ensures Push(true, size, d, END) == Push(true, size, INITIAL, END)
  {
  }

  lemma FrameBytesLength(f: Frame)
    ensures |FrameBytes(f)| == HEADER + |f.data|
  {
  }

  lemma Fitted(s: Sizes, data: seq<Byte>)
    requires Room(s, data)
    ensures |data| <= s.packet && HEADER + |data| <= s.decoder && 2 * (HEADER + |data| + 1) <= s.encoder
  {
  }

  /** So a poll either takes a byte and leaves the frames as they are, or completes and handles the first one. */
  lemma LinkPoll(s: Sizes, d: Decoder, bytes: seq<Byte>, q: seq<Frame>)
    requires LinkOk(s, d, bytes, q) && bytes != []
    ensures q != []
    ensures var (d', out) := PollByte(s.decoder, s.encoder, s.packet, d, bytes[0]);
      match out
      case None => LinkOk(s, d', bytes[1..], q)
      case Some(a) => LinkOk(s, d', bytes[1..], q[1..]) && a == Handle(s.encoder, s.packet, FrameBytes(q[0]))
  {
    hide FrameBytes, Encode, Feed, Room, Handle, Counted;
    PushNext(s, d, bytes, q);
    var p, k, all := FrameBytes(q[0]), |Carried(q)| - |bytes|, Carried(q);
    if k + 1 == |Encode(p)| {
      assert all[k..][1..] == Carried(q[1..]);
      if q[1..] != [] {
        NotEmpty(FrameBytes(q[1]));
      }
    } else {
      assert all[..k + 1] == Encode(p)[..k + 1];
    }
  }

  // ---------------------------------------------------------------- the whole ring

  ghost predicate LinkRefines(s: Sizes, w: Wire, r: Ring, i: nat)
    requires WellFormed(w) && Shaped(r) && r.n == w.n && i < r.n
  {
    LinkOk(s, w.decoders[i], w.links[PrevDevice(r.n, i)], r.links[PrevDevice(r.n, i)])
  }

  /** The bytes on the wire stand for the frames of `r`, and the same data were delivered. */
  ghost predicate Refines(s: Sizes, w: Wire, r: Ring) {
    && WellFormed(w) && Shaped(r) && r.n == w.n
    && (forall i :: 0 <= i < r.n ==> LinkRefines(s, w, r, i))
    && (forall i :: 0 <= i < r.n ==> w.delivered[i] == Datas(r.delivered[i]))
  }

  lemma SilentRefines(s: Sizes, n: nat)
    ensures Refines(s, Silent(n), Empty(n))
  {
  }

  /** Links lead to different devices. */
  lemma PrevDistinct(n: nat, i: nat, j: nat)
    requires i < n && j < n
    ensures PrevDevice(n, i) == PrevDevice(n, j) <==> i == j
    ensures PrevDevice(n, i) == i <==> n == 1
  {
  }

  /** The reception, if any, that the event is in the ring of frames. */
  predicate Completed(s: Sizes, w: Wire, e: Event)
    requires WellFormed(w) && Fits(w.n, e)
  {
    match e
    case Transmit(_, _) => true
    case Poll(i) =>
      var bytes := w.links[PrevDevice(w.n, i)];
      bytes != [] && PollByte(s.decoder, s.encoder, s.packet, w.decoders[i], bytes[0]).1.Some?
  }

  lemma TransmitRefines(s: Sizes, w: Wire, r: Ring, i: nat, data: seq<Byte>)
    requires Refines(s, w, r) && i < w.n && Room(s, data)
    ensures Refines(s, StepBytes(s, w, Transmit(i, data)), Step(r, Transmit(i, data)))
  {
    hide LinkOk, Encode, TtlBytes, Room;
    var w', r' := StepBytes(s, w, Transmit(i, data)), Step(r, Transmit(i, data));
    var f := Frame(r.n - 1, data, |r.sent|);
    forall j | 0 <= j < r.n ensures LinkRefines(s, w', r', j) {
      assert LinkRefines(s, w, r, j);
      if PrevDevice(r.n, j) == i {
        LinkPush(s, w.decoders[j], w.links[i], r.links[i], f);
      }
    }
  }

  /** A byte that completes no frame changes nothing in the ring of frames. */
  lemma SilentPollRefines(s: Sizes, w: Wire, r: Ring, i: nat)
    requires Refines(s, w, r) && i < w.n && !Completed(s, w, Poll(i))
    ensures Refines(s, StepBytes(s, w, Poll(i)), r)
  {
    hide LinkOk, PollByte;
    var w', l := StepBytes(s, w, Poll(i)), PrevDevice(w.n, i);
    assert LinkRefines(s, w, r, i);
    if w.links[l] != [] {
      LinkPoll(s, w.decoders[i], w.links[l], r.links[l]);
      forall j | 0 <= j < r.n ensures LinkRefines(s, w', r, j) {
        assert LinkRefines(s, w, r, j);
        PrevDistinct(r.n, i, j);
      }
    }
  }

  /** The byte that completes a frame is its reception. */
  lemma ReceptionRefines(s: Sizes, w: Wire, r: Ring, i: nat)
    requires Refines(s, w, r) && Inv(r) && i < w.n && Completed(s, w, Poll(i))
    ensures Refines(s, StepBytes(s, w, Poll(i)), Step(r, Poll(i)))
  {
    hide LinkOk, PollByte, Handle, Encode, FrameBytes;
    var l := PrevDevice(w.n, i);
    var w', r' := StepBytes(s, w, Poll(i)), Step(r, Poll(i));
    assert LinkRefines(s, w, r, i);
    LinkPoll(s, w.decoders[i], w.links[l], r.links[l]);
    var f := r.links[l][0];
    assert FrameOk(r, l, f);
    LinkFits(s, w.decoders[i], w.links[l], r.links[l]);
    HandleIsReception(s.encoder, s.packet, f);
    forall j | 0 <= j < r.n ensures LinkRefines(s, w', r', j) {
      assert LinkRefines(s, w, r, j);
      PrevDistinct(r.n, i, j);
      PrevDistinct(r.n, i, i);
      if PrevDevice(r.n, j) == i && f.data != [] && f.ttl > 1 {
        LinkPush(s, w.decoders[j], w.links[i], r.links[i], f.(ttl := f.ttl - 1));
      }
    }
    assert w'.delivered[i] == Datas(r'.delivered[i]);
  }

  lemma LinkFits(s: Sizes, d: Decoder, bytes: seq<Byte>, q: seq<Frame>)
    requires LinkOk(s, d, bytes, q) && q != []
    ensures Room(s, q[0].data)
  {
  }

  /** Every step of the ring of bytes is a step of the ring of frames, or none. */
  lemma StepRefines(s: Sizes, w: Wire, r: Ring, e: Event)
    requires Refines(s, w, r) && Inv(r) && Permitted(s, w.n, e)
    ensures Refines(s, StepBytes(s, w, e), if Completed(s, w, e) then Step(r, e) else r)
  {
    hide Refines;
    SameSize(s, w, r);
    match e
    case Transmit(i, data) => TransmitRefines(s, w, r, i, data);
    case Poll(i) =>
      if Completed(s, w, e) {
        ReceptionRefines(s, w, r, i);
      } else {
        SilentPollRefines(s, w, r, i);
      }
  }

  lemma SameSize(s: Sizes, w: Wire, r: Ring)
    requires Refines(s, w, r)
    ensures WellFormed(w) && Shaped(r) && w.n == r.n
  {
  }

  /** The events that are events of the ring of frames. */
  function FrameEvents(s: Sizes, w: Wire, events: seq<Event>): (es: seq<Event>)
    requires WellFormed(w) && AllPermitted(s, w.n, events)
    ensures forall k :: 0 <= k < |es| ==> Fits(w.n, es[k])
    decreases |events|
  {
    if events == [] then []
    else
      (if Completed(s, w, events[0]) then [events[0]] else []) + FrameEvents(s, StepBytes(s, w, events[0]), events[1..])
  }

  /** So every run of the ring of bytes is a run of the ring of frames. */
  lemma {:induction false} RunRefines(s: Sizes, w: Wire, r: Ring, events: seq<Event>)
    requires Refines(s, w, r) && Inv(r) && AllPermitted(s, w.n, events)
    ensures Refines(s, RunBytes(s, w, events), Run(r, FrameEvents(s, w, events)))
    decreases |events|
  {
    hide Refines, Inv, Step, StepBytes, Completed;
    SameSize(s, w, r);
    if events == [] {
    } else {
      var e, rest := events[0], events[1..];
      var w1 := StepBytes(s, w, e);
      var es := FrameEvents(s, w1, rest);
      assert Permitted(s, w.n, e) && AllPermitted(s, w1.n, rest);
      StepRefines(s, w, r, e);
      if Completed(s, w, e) {
        StepKeeps(r, e);
        RunRefines(s, w1, Step(r, e), rest);
        assert ([e] + es)[0] == e && ([e] + es)[1..] == es;
      } else {
        RunRefines(s, w1, r, rest);
        assert [] + es == es;
      }
    }
  }

  // ---------------------------------------------------------------- exactly once

  lemma {:induction false} SameTransmissions(s: Sizes, w: Wire, events: seq<Event>)
    requires WellFormed(w) && AllPermitted(s, w.n, events)
    ensures Transmissions(FrameEvents(s, w, events)) == Transmissions(events)
    decreases |events|
  {
    hide StepBytes;
    if events == [] {
    } else {
      var e, rest := events[0], events[1..];
      var w1 := StepBytes(s, w, e);
      var es := FrameEvents(s, w1, rest);
      SameTransmissions(s, w1, rest);
      if Completed(s, w, e) {
        assert ([e] + es)[0] == e && ([e] + es)[1..] == es;
      } else {
        assert [] + es == es;
      }
    }
  }

  /** A wire without bytes carries no frames. */
  lemma QuietWire(s: Sizes, w: Wire, r: Ring)
    requires Refines(s, w, r) && forall l :: 0 <= l < w.n ==> w.links[l] == []
    ensures Quiet(r)
  {
    hide Encode, FrameBytes;
    forall l | 0 <= l < r.n ensures r.links[l] == [] {
      var i := NextDevice(r.n, l);
      assert LinkRefines(s, w, r, i) && PrevDevice(r.n, i) == l;
    }
  }

  /** Over any run of a ring of two devices or more, byte by byte, a device passes up no data more often than the others
      sent them, and just as often when the links are empty. */
  lemma DataArrive(s: Sizes, n: nat, events: seq<Event>, d: nat, x: seq<Byte>)
    requires 2 <= n <= TTL_WRAP && d < n && AllPermitted(s, n, events)
    ensures var w := RunBytes(s, Silent(n), events);
      && multiset(w.delivered[d])[x] <= FromOthers(Transmissions(events), d, x)
      && ((forall l :: 0 <= l < n ==> w.links[l] == []) ==>
            multiset(w.delivered[d])[x] == FromOthers(Transmissions(events), d, x))
  {
    hide LinkRefines, Inv;
    var es := FrameEvents(s, Silent(n), events);
    var w, r := RunBytes(s, Silent(n), events), Run(Empty(n), es);
    EmptyInv(n);
    SilentRefines(s, n);
    RunRefines(s, Silent(n), Empty(n), events);
    SameTransmissions(s, Silent(n), events);
    OthersArrive(n, es, d, x);
    if forall l :: 0 <= l < n ==> w.links[l] == [] {
      QuietWire(s, w, r);
    }
  }
}
