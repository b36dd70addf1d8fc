/** net/slip/SLIPRingDevice.h as written. Neither poll() nor transmit2() calls RESET(), so that a later call by the
    same task resumes at the CALL that was executed last (CoroutineRuns.StuckAtLastCall); a retransmission points `buff`
    at the encoded frame; and the decoder leaves escape codes in place of the bytes they stand for. The last two faults
    can be repaired by parameters, to tell what each of them does. */
module SlipRingAsWritten {
  import opened Bytes
  import opened Options
  import opened Slip
  import opened SlipRingDevice
  import SlipRing

  // ---------------------------------------------------------------- one call of poll()

  /** A task's label in poll(): the CALL of read() or the start, which lead to the same, of write(), or of receive(). */
  datatype Label = AtRead | AtWrite | AtReceive

  /** `packet` is what m_packet holds. */
  datatype Poller = Poller(decoder: Decoder, at: Label, packet: seq<Byte>)

  /** `Undefined`: the call uses a local pointer that it never set, or dereferences NULL. */
  datatype Outcome = Nothing | Done(a: Action) | Undefined

  /** poll() while the byte `b` waits on the serial line, as written if neither `repaired` nor `kept`. `repaired` is as
      in Slip; with `kept` the payload is taken from the decoded frame. */
  function PollOnce(repaired: bool, kept: bool, size: nat, encSize: nat, packetSize: nat, w: Poller, b: Byte)
    : (Poller, Outcome)
  {
    match w.at
    case AtReceive => (w, Done(Action(None, Some(w.packet))))
    case AtWrite => (w, Undefined)
    case AtRead =>
      var (d, out) := Push(repaired, size, w.decoder, b);
      match out
      case None => (w.(decoder := d), Nothing)
      case Some(frame) =>
        if |frame| <= HEADER then (w.(decoder := d), Done(Action(None, None)))
        else Forward(kept, encSize, packetSize, w.(decoder := d.(buf := Counted(frame))), Counted(frame))
  }

  /** From line 102 on. */
  function Forward(kept: bool, encSize: nat, packetSize: nat, w: Poller, counted: seq<Byte>): (Poller, Outcome)
    requires |counted| > HEADER
  {
    if TtlOf(counted) == 0 then Deliver(packetSize, w, None, counted)
    else if Returns(encSize, counted) then
      FrameSize(counted);
      Deliver(packetSize, w.(at := AtWrite), Some(Encode(counted)), if kept then counted else Encode(counted))
    else if kept then Deliver(packetSize, w, None, counted)
    else (w, Undefined)
  }

  /** From line 114 on. */
  function Deliver(packetSize: nat, w: Poller, forward: Option<seq<Byte>>, buff: seq<Byte>): (Poller, Outcome)
    requires |buff| > HEADER
  {
    var data := buff[HEADER..];
    if |data| <= packetSize then (Poller(w.decoder, AtReceive, data), Done(Action(forward, Some(data))))
    else (w.(packet := []), Done(Action(forward, None)))
  }

  /** poll() once for each byte that arrives: what the calls did, in order. */
  function PollEach(repaired: bool, kept: bool, size: nat, encSize: nat, packetSize: nat, w: Poller, bytes: seq<Byte>)
    : seq<Outcome>
    decreases |bytes|
  {
    if bytes == [] then []
    else
      var (w1, out) := PollOnce(repaired, kept, size, encSize, packetSize, w, bytes[0]);
      (if out == Nothing then [] else [out]) + PollEach(repaired, kept, size, encSize, packetSize, w1, bytes[1..])
  }

  function AllDone(actions: seq<Action>): (r: seq<Outcome>)
    ensures |r| == |actions| && forall i :: 0 <= i < |r| ==> r[i] == Done(actions[i])
  {
    seq(|actions|, i requires 0 <= i < |actions| => Done(actions[i]))
  }

  // ---------------------------------------------------------------- after the first frame

  function Repeated(n: nat, o: Outcome): (r: seq<Outcome>)
    ensures |r| == n && forall i :: 0 <= i < n ==> r[i] == o
  {
    seq(n, _ => o)
  }

  /** What a poller does that is past its read(). */
  function Stuck(w: Poller): Outcome
    requires w.at != AtRead
  {
    if w.at == AtReceive then Done(Action(None, Some(w.packet))) else Undefined
  }

  /** It never reads again: it passes the same packet up at every call, or uses an unset pointer. */
  lemma {:induction false} NeverReadsAgain(repaired: bool, kept: bool, size: nat, encSize: nat, packetSize: nat,
                                           w: Poller, bytes: seq<Byte>)
    requires w.at != AtRead
    ensures PollEach(repaired, kept, size, encSize, packetSize, w, bytes) == Repeated(|bytes|, Stuck(w))
    decreases |bytes|
  {
    if bytes == [] {
    } else {
      NeverReadsAgain(repaired, kept, size, encSize, packetSize, w, bytes[1..]);
    }
  }

  /** Bytes that complete no frame are read and decoded. */
  lemma {:induction false} ReadsOn(repaired: bool, kept: bool, size: nat, encSize: nat, packetSize: nat, w: Poller,
                                   a: seq<Byte>, b: seq<Byte>)
    requires w.at == AtRead && Feed(repaired, size, w.decoder, a).1 == Nones(|a|)
    ensures PollEach(repaired, kept, size, encSize, packetSize, w, a + b) ==
      PollEach(repaired, kept, size, encSize, packetSize, w.(decoder := Feed(repaired, size, w.decoder, a).0), b)
    decreases |a|
  {
    hide Push;
    if a == [] {
      assert a + b == b;
    } else {
      var (d, out) := Push(repaired, size, w.decoder, a[0]);
      FeedConcat(repaired, size, w.decoder, [a[0]], a[1..]);
      FeedOne(repaired, size, w.decoder, a[0]);
      assert [a[0]] + a[1..] == a && (a + b)[1..] == a[1..] + b;
      var outs := Feed(repaired, size, w.decoder, a).1;
      assert outs[0] == out && outs[1..] == Feed(repaired, size, d, a[1..]).1;
      assert Nones(|a|)[1..] == Nones(|a| - 1);
      ReadsOn(repaired, kept, size, encSize, packetSize, w.(decoder := d), a[1..], b);
      assert [] + PollEach(repaired, kept, size, encSize, packetSize, w.(decoder := d), a[1..] + b)
        == PollEach(repaired, kept, size, encSize, packetSize, w.(decoder := d), a[1..] + b);
    }
  }

  lemma OpenFrame(repaired: bool, size: nat, d: Decoder, frame: seq<Byte>)
    requires !d.parsing && |frame| <= size
    ensures var open := [END] + Body(frame);
      Feed(repaired, size, d, open) == (Decoder(Seen(repaired, frame), true, false), Nones(|open|))
  {
    var d1 := Decoder([], true, false);
    FeedOne(repaired, size, d, END);
    FeedBody(repaired, size, d1, frame);
    FeedConcat(repaired, size, d, [END], Body(frame));
    assert [None] + Nones(|Body(frame)|) == Nones(1 + |Body(frame)|);
    assert [] + Seen(repaired, frame) == Seen(repaired, frame);
  }

  /** A frame, and then anything: the frame is handled at its closing END. */
  lemma FirstFrame(repaired: bool, kept: bool, size: nat, encSize: nat, packetSize: nat, w: Poller, first: seq<Byte>,
                   rest: seq<Byte>)
    requires w.at == AtRead && !w.decoder.parsing && |first| <= size
    ensures var (w1, out) := AfterFrame(repaired, kept, encSize, packetSize, w, first);
      PollEach(repaired, kept, size, encSize, packetSize, w, Encode(first) + rest) ==
      [out] + PollEach(repaired, kept, size, encSize, packetSize, w1, rest)
  {
    var open, q := [END] + Body(first), Seen(repaired, first);
    OpenFrame(repaired, size, w.decoder, first);
    ReadsOn(repaired, kept, size, encSize, packetSize, w, open, [END] + rest);
    assert open + ([END] + rest) == Encode(first) + rest;
    assert ([END] + rest)[1..] == rest;
    hide Forward, Encode, Body, Counted;
    assert PollOnce(repaired, kept, size, encSize, packetSize, w.(decoder := Decoder(q, true, false)), END)
      == AfterFrame(repaired, kept, encSize, packetSize, w, first);
  }

  /** What poll() does with a frame at its closing END. */
  function AfterFrame(repaired: bool, kept: bool, encSize: nat, packetSize: nat, w: Poller, frame: seq<Byte>)
    : (Poller, Outcome)
  {
    var q := Seen(repaired, frame);
    if |q| <= HEADER then (w.(decoder := Decoder(q, false, false)), Done(Action(None, None)))
    else Forward(kept, encSize, packetSize, w.(decoder := Decoder(Counted(q), false, false)), Counted(q))
  }

  /** Two frames in a row: if the first one is forwarded or passed up, the second one is never handled. Instead, each of
      its bytes has the packet of the first one passed up again, or an unset pointer used. */
  lemma SecondFrameNeverRead(repaired: bool, kept: bool, size: nat, encSize: nat, packetSize: nat, w: Poller,
                             first: seq<Byte>, second: seq<Byte>)
    requires w.at == AtRead && !w.decoder.parsing && |first| <= size
    ensures var (w1, out) := AfterFrame(repaired, kept, encSize, packetSize, w, first);
      && (w1.at == AtRead <==> out == Undefined || out == Done(Action(None, None)))
      && var all := PollEach(repaired, kept, size, encSize, packetSize, w, Encode(first) + Encode(second));
         w1.at != AtRead ==> all == [out] + Repeated(|Encode(second)|, Stuck(w1))
  {
    var (w1, out) := AfterFrame(repaired, kept, encSize, packetSize, w, first);
    hide Encode, Counted, Returns;
    FirstFrame(repaired, kept, size, encSize, packetSize, w, first, Encode(second));
    if w1.at != AtRead {
      NeverReadsAgain(repaired, kept, size, encSize, packetSize, w1, Encode(second));
    }
  }

  function Payload(buff: seq<Byte>): seq<Byte> {
    if |buff| < HEADER then [] else buff[HEADER..]
  }

  /** As written, for a first frame that is not forwarded and fits the packet, and for one that is forwarded and whose
      encoded form fits: what is passed up, again and again. */
  lemma PassedUpForEver(size: nat, encSize: nat, packetSize: nat, w: Poller, first: seq<Byte>, second: seq<Byte>)
    requires w.at == AtRead && !w.decoder.parsing && HEADER < |first| <= size
    ensures var q, n := Seen(false, first), |Encode(second)|;
      var sent := Encode(Counted(q));
      var all := PollEach(false, false, size, encSize, packetSize, w, Encode(first) + Encode(second));
      && (TtlOf(first) == 1 && |first| <= HEADER + packetSize ==>
            all == Repeated(1 + n, Done(Action(None, Some(Payload(q))))))
      && (TtlOf(first) != 1 && Returns(encSize, Counted(q)) && |sent| <= HEADER + packetSize ==>
            all == [Done(Action(Some(sent), Some(Payload(sent))))] +
                   Repeated(n, Done(Action(None, Some(Payload(sent))))))
  {
    var q := Seen(false, first);
    FrameSize(Counted(q));
    CountedTtl(q);
    LastHop(false, first);
    LastHop(false, q);
    CountedSize(q);
    SecondFrameNeverRead(false, false, size, encSize, packetSize, w, first, second);
    hide Encode, Counted, Returns, TtlOf;
    var o := Done(Action(None, Some(Payload(q))));
    assert [o] + Repeated(|Encode(second)|, o) == Repeated(1 + |Encode(second)|, o);
  }

  lemma CountedTtl(frame: seq<Byte>)
    requires |frame| >= HEADER
    ensures TtlOf(Counted(frame)) == SlipRing.Decrement(TtlOf(frame)) && Counted(frame)[HEADER..] == frame[HEADER..]
  {
    TtlRoundTrip(SlipRing.Decrement(TtlOf(frame)), frame[HEADER..]);
  }

  // ---------------------------------------------------------------- exactly when it does what it means

  predicate Clean(repaired: bool, s: seq<Byte>) {
    repaired || forall i :: 0 <= i < |s| ==> !IsSpecial(s[i])
  }

  /** For this frame, the call does what it evidently means: it is too short to do anything, has no further to go and
      arrives unchanged, is forwarded unchanged and (unless `kept`) too large to be passed up, or cannot be encoded. */
  predicate AsMeant(repaired: bool, kept: bool, encSize: nat, packetSize: nat, frame: seq<Byte>) {
    |frame| <= HEADER ||
    var fits := |frame| - HEADER <= packetSize;
    if TtlOf(frame) == 1 then fits ==> Clean(repaired, frame[HEADER..])
    else if Clean(repaired, frame) then kept || (Returns(encSize, Counted(frame)) && !fits)
    else
      && kept && (fits ==> Clean(repaired, frame[HEADER..]))
      && !Returns(encSize, Counted(frame)) && !Returns(encSize, Counted(Seen(repaired, frame)))
  }

  /** No byte follows the first frame that is forwarded or passed up, and up to there, it included, all frames are
      handled as meant. */
  predicate Unharmed(repaired: bool, kept: bool, size: nat, encSize: nat, packetSize: nat, d: Decoder, bytes: seq<Byte>)
    decreases |bytes|
  {
    bytes == [] ||
    var rest, d1 := bytes[1..], PollByte(size, encSize, packetSize, d, bytes[0]).0;
    match Push(true, size, d, bytes[0]).1
    case None => Unharmed(repaired, kept, size, encSize, packetSize, d1, rest)
    case Some(frame) =>
      && AsMeant(repaired, kept, encSize, packetSize, frame)
      && if Handle(encSize, packetSize, frame) == Action(None, None)
         then Unharmed(repaired, kept, size, encSize, packetSize, d1, rest)
         else rest == []
  }

  lemma {:induction false} FewerActions(size: nat, encSize: nat, packetSize: nat, d: Decoder, bytes: seq<Byte>)
    ensures |PollAll(size, encSize, packetSize, d, bytes).1| <= |bytes|
    ensures !d.parsing && bytes != [] ==> |PollAll(size, encSize, packetSize, d, bytes).1| < |bytes|
    decreases |bytes|
  {
    if bytes == [] {
    } else {
      FewerActions(size, encSize, packetSize, PollByte(size, encSize, packetSize, d, bytes[0]).0, bytes[1..]);
    }
  }

  /** The decoder `w` has taken the same bytes as the repaired decoder `d`. */
  predicate Tracks(repaired: bool, w: Decoder, d: Decoder) {
    && w.parsing == d.parsing && w.escape == d.escape && |w.buf| == |d.buf|
    && (d.parsing ==> w.buf == Seen(repaired, d.buf))
  }

  lemma TracksPush(repaired: bool, size: nat, w: Decoder, d: Decoder, b: Byte)
    requires Tracks(repaired, w, d)
    ensures var (w1, q), (d1, p) := Push(repaired, size, w, b), Push(true, size, d, b);
      && Tracks(repaired, w1, d1) && (q == None <==> p == None)
      && (p.Some? ==> q == Some(Seen(repaired, p.value)) && w1.buf == q.value && d1.buf == p.value && !d1.parsing)
  {
    if d.parsing && b != END && b != ESC && |d.buf| < size {
      var x := Stored(true, d.escape, b);
      assert Seen(repaired, d.buf + [x]) == Seen(repaired, d.buf) + [Stored(repaired, d.escape, b)];
    }
  }

  lemma LastHop(repaired: bool, frame: seq<Byte>)
    requires |frame| >= HEADER
    ensures SlipRing.Decrement(TtlOf(frame)) == 0 <==> TtlOf(frame) == 1
    ensures TtlOf(Seen(repaired, frame)) == 1 <==> TtlOf(frame) == 1
  {
    OneByteByByte(frame);
    OneByteByByte(Seen(repaired, frame));
  }

  lemma OneByteByByte(frame: seq<Byte>)
    requires |frame| >= HEADER
    ensures TtlOf(frame) == 1 <==> frame[0] == 1 && frame[1] == 0 && frame[2] == 0 && frame[3] == 0
    ensures TtlOf(frame) < SlipRing.TTL_WRAP
  {
  }

  /** Counting down loses nothing of a frame, and neither does encoding it. */
  lemma CountedInjective(a: seq<Byte>, b: seq<Byte>)
    requires |a| >= HEADER && |b| >= HEADER
    ensures Counted(a) == Counted(b) <==> a == b
  {
    if Counted(a) == Counted(b) {
      CountedTtl(a);
      CountedTtl(b);
      OneByteByByte(a);
      OneByteByByte(b);
      hide Counted;
      SameHeader(a, b);
      assert a == a[..HEADER] + a[HEADER..] && b == b[..HEADER] + b[HEADER..];
    }
  }

  lemma SameHeader(a: seq<Byte>, b: seq<Byte>)
    requires |a| >= HEADER && |b| >= HEADER && TtlOf(a) == TtlOf(b)
    ensures a[..HEADER] == b[..HEADER]
  {
    var a1, a2, a3, b1, b2, b3 := a[1] as nat, a[2] as nat, a[3] as nat, b[1] as nat, b[2] as nat, b[3] as nat;
    SameDigit(a[0], 256 * (256 * a3 + a2) + a1, b[0], 256 * (256 * b3 + b2) + b1);
    SameDigit(a[1], 256 * a3 + a2, b[1], 256 * b3 + b2);
    SameDigit(a[2], a3, b[2], b3);
  }

  lemma SameDigit(a: Byte, m: nat, b: Byte, n: nat)
    requires 256 * m + a == 256 * n + b
    ensures a == b && m == n
  {
  }

  lemma EncodeInjective(a: seq<Byte>, b: seq<Byte>)
    ensures Encode(a) == Encode(b) <==> a == b
  {
    if Encode(a) == Encode(b) {
      var size := |a| + |b|;
      FeedFrame(true, size, INITIAL, a);
      FeedFrame(true, size, INITIAL, b);
      hide Encode, Feed;
      var n := |Encode(a)| - 1;
      assert (Nones(n) + [Some(Seen(true, a))])[n] == (Nones(n) + [Some(Seen(true, b))])[n];
      assert Seen(true, a) == a && Seen(true, b) == b;
    }
  }

  lemma CleanExact(repaired: bool, s: seq<Byte>)
    ensures Seen(repaired, s) == s <==> Clean(repaired, s)
    ensures |s| >= HEADER ==> Seen(repaired, s)[HEADER..] == Seen(repaired, s[HEADER..])
    ensures |s| >= HEADER && Clean(repaired, s) ==> Clean(repaired, s[HEADER..])
  {
    SeenExact(repaired, s);
  }

  lemma LastHopExact(repaired: bool, kept: bool, encSize: nat, packetSize: nat, w: Poller, frame: seq<Byte>)
    requires w.at == AtRead && |frame| > HEADER && TtlOf(frame) == 1
    ensures var (w1, out) := Forward(kept, encSize, packetSize, w, Counted(Seen(repaired, frame)));
      var a := Handle(encSize, packetSize, frame);
      && out != Nothing && (out == Done(a) <==> AsMeant(repaired, kept, encSize, packetSize, frame))
      && (out == Done(a) ==> w1.decoder == w.decoder && (w1.at == AtRead <==> a == Action(None, None)))
  {
    var q := Seen(repaired, frame);
    CountedTtl(q);
    LastHop(repaired, frame);
    LastHop(repaired, q);
    CountedSize(q);
    CleanExact(repaired, frame);
    CleanExact(repaired, frame[HEADER..]);
    hide Seen, Encode, Counted, TtlOf, Returns, Clean;
  }

  lemma NextHopExact(repaired: bool, kept: bool, encSize: nat, packetSize: nat, w: Poller, frame: seq<Byte>)
    requires w.at == AtRead && |frame| > HEADER && TtlOf(frame) != 1
    ensures var (w1, out) := Forward(kept, encSize, packetSize, w, Counted(Seen(repaired, frame)));
      var a := Handle(encSize, packetSize, frame);
      && out != Nothing && (out == Done(a) <==> AsMeant(repaired, kept, encSize, packetSize, frame))
      && (out == Done(a) ==> w1.decoder == w.decoder && (w1.at == AtRead <==> a == Action(None, None)))
  {
    var q := Seen(repaired, frame);
    CountedTtl(q);
    LastHop(repaired, frame);
    LastHop(repaired, q);
    CountedSize(q);
    FrameSize(Counted(q));
    CleanExact(repaired, frame);
    CleanExact(repaired, frame[HEADER..]);
    CountedInjective(q, frame);
    EncodeInjective(Counted(q), Counted(frame));
    hide Seen, Encode, Counted, TtlOf, Returns, Clean;
  }

  /** What poll() does from line 102 on is what it means iff the frame is like that. */
  lemma ForwardExact(repaired: bool, kept: bool, encSize: nat, packetSize: nat, w: Poller, frame: seq<Byte>)
    requires w.at == AtRead && |frame| > HEADER
    ensures var (w1, out) := Forward(kept, encSize, packetSize, w, Counted(Seen(repaired, frame)));
      var a := Handle(encSize, packetSize, frame);
      && out != Nothing && (out == Done(a) <==> AsMeant(repaired, kept, encSize, packetSize, frame))
      && (out == Done(a) ==> w1.decoder == w.decoder && (w1.at == AtRead <==> a == Action(None, None)))
  {
    hide Seen, Encode, Counted, TtlOf, Returns, Clean, Forward, Handle, AsMeant;
    if TtlOf(frame) == 1 {
      LastHopExact(repaired, kept, encSize, packetSize, w, frame);
    } else {
      NextHopExact(repaired, kept, encSize, packetSize, w, frame);
    }
  }

  lemma CountedSize(frame: seq<Byte>)
    requires |frame| >= HEADER
    ensures |Counted(frame)| == |frame|
  {
  }

  /** The call that completes `frame`. */
  lemma CompletesFrame(repaired: bool, kept: bool, size: nat, encSize: nat, packetSize: nat, w: Poller, d: Decoder,
                       b: Byte, frame: seq<Byte>)
    requires w.at == AtRead && Tracks(repaired, w.decoder, d) && Push(true, size, d, b).1 == Some(frame)
    ensures var (w1, out) := PollOnce(repaired, kept, size, encSize, packetSize, w, b);
      var d1, a := PollByte(size, encSize, packetSize, d, b).0, Handle(encSize, packetSize, frame);
      && out != Nothing && (out == Done(a) <==> AsMeant(repaired, kept, encSize, packetSize, frame))
      && (out == Done(a) ==> Tracks(repaired, w1.decoder, d1) && !d1.parsing)
      && (out == Done(a) ==> (w1.at == AtRead <==> a == Action(None, None)))
  {
    hide Push, Seen, Counted, Forward, AsMeant, Handle;
    TracksPush(repaired, size, w.decoder, d, b);
    ShortFrame(repaired, kept, encSize, packetSize, frame);
    if |frame| > HEADER {
      var q := Seen(repaired, frame);
      CountedSize(q);
      CountedSize(frame);
      var decoder := Push(repaired, size, w.decoder, b).0.(buf := Counted(q));
      ForwardExact(repaired, kept, encSize, packetSize, w.(decoder := decoder), frame);
    }
  }

  lemma ShortFrame(repaired: bool, kept: bool, encSize: nat, packetSize: nat, frame: seq<Byte>)
    ensures |Seen(repaired, frame)| == |frame|
    ensures |frame| <= HEADER ==>
      AsMeant(repaired, kept, encSize, packetSize, frame) && Handle(encSize, packetSize, frame) == Action(None, None)
  {
  }

  /** So, whatever its decoder has been given so far, poll() as written does the same as it should for a stream of bytes
      iff the stream is like that. With both repairs, which leave the missing RESET, iff no byte follows the first frame
      that is forwarded or passed up. */
  lemma {:induction false} PollExact(repaired: bool, kept: bool, size: nat, encSize: nat, packetSize: nat, w: Poller,
                                     d: Decoder, bytes: seq<Byte>)
    requires w.at == AtRead && Tracks(repaired, w.decoder, d)
    ensures PollEach(repaired, kept, size, encSize, packetSize, w, bytes) ==
            AllDone(PollAll(size, encSize, packetSize, d, bytes).1)
      <==> Unharmed(repaired, kept, size, encSize, packetSize, d, bytes)
    decreases |bytes|
  {
    hide AsMeant, Handle, Push, Tracks, Forward;
    if bytes == [] {
    } else {
      var b, rest := bytes[0], bytes[1..];
      var (w1, out) := PollOnce(repaired, kept, size, encSize, packetSize, w, b);
      var d1 := PollByte(size, encSize, packetSize, d, b).0;
      var tail := PollEach(repaired, kept, size, encSize, packetSize, w1, rest);
      var goal := PollAll(size, encSize, packetSize, d1, rest).1;
      TracksPush(repaired, size, w.decoder, d, b);
      match Push(true, size, d, b).1 {
        case None =>
          PollExact(repaired, kept, size, encSize, packetSize, w1, d1, rest);
          assert [] + tail == tail && [] + goal == goal;
        case Some(frame) =>
          var a := Handle(encSize, packetSize, frame);
          CompletesFrame(repaired, kept, size, encSize, packetSize, w, d, b, frame);
          if w1.at != AtRead {
            NeverReadsAgain(repaired, kept, size, encSize, packetSize, w1, rest);
          } else if out == Done(a) {
            PollExact(repaired, kept, size, encSize, packetSize, w1, d1, rest);
          }
          FewerActions(size, encSize, packetSize, d1, rest);
          OneMore(out, tail, a, goal);
      }
    }
  }

  /** The frame with TTL 1 and the datum 0xC0: as written, 0xDC is passed up. */
  lemma SpecialDatum(size: nat, encSize: nat, packetSize: nat)
    requires size >= 5 && packetSize >= 1
    ensures var frame := TtlBytes(1) + [END];
      var w := Poller(INITIAL, AtRead, []);
      && PollEach(false, false, size, encSize, packetSize, w, Encode(frame)) == [Done(Action(None, Some([ESC_END])))]
      && PollAll(size, encSize, packetSize, INITIAL, Encode(frame)).1 == [Action(None, Some([END]))]
  {
    var frame, w := TtlBytes(1) + [END], Poller(INITIAL, AtRead, []);
    var q := Seen(false, frame);
    TtlRoundTrip(1, [END]);
    LastHop(false, frame);
    CountedTtl(q);
    CountedTtl(frame);
    assert q[HEADER..] == [ESC_END];
    FirstFrame(false, false, size, encSize, packetSize, w, frame, []);
    PollFrame(size, encSize, packetSize, INITIAL, frame);
    hide Encode, Counted, Seen, TtlOf;
    assert Encode(frame) + [] == Encode(frame);
  }

  lemma OneMore(out: Outcome, tail: seq<Outcome>, a: Action, goal: seq<Action>)
    ensures [out] + tail == AllDone([a] + goal) <==> out == Done(a) && tail == AllDone(goal)
  {
    var all := AllDone([a] + goal);
    assert all == [Done(a)] + AllDone(goal);
    assert all[0] == Done(a) && all[1..] == AllDone(goal);
    assert ([out] + tail)[0] == out && ([out] + tail)[1..] == tail;
  }

  // ---------------------------------------------------------------- poll() in place

  class PollingTask {
    const device: Device
    var at: Label          // _current[sched_dispatched] in poll()
    var packet: seq<Byte>  // the payload of m_packet

    ghost predicate Valid()
      reads this, device, device.decoder
    {
      device.Valid()
    }

    ghost function View(): Poller
      requires Valid()
      reads this, device, device.decoder, device.decoder.data
    {
      Poller(device.decoder.View(), at, packet)
    }

    constructor (device: Device)
      requires device.Valid()
      ensures Valid() && View() == Poller(device.decoder.View(), AtRead, []) && this.device == device
    {
      this.device, at, packet := device, AtRead, [];
    }

    /** poll(), while the byte `b` waits on the serial line. */
    method Poll(b: Byte) returns (out: Outcome)
      requires Valid()
      modifies this, device.decoder, device.decoder.data, device.encoder, device.encoder.data
      ensures Valid()
      ensures (View(), out) ==
        PollOnce(false, false, device.decoder.data.Length, device.encoder.size, device.packetSize, old(View()), b)
    {
      hide Encode, Counted, Overruns, Returns, WriteEnd;
      if at == AtReceive {
        return Done(Action(None, Some(packet)));
      } else if at == AtWrite {
        return Undefined;
      }
      var got := device.decoder.PushAsWritten(b);
      if got == None {
        return Nothing;
      }
      var frame := got.value;
      if |frame| <= HEADER {
        return Done(Action(None, None));
      }
      var buff := device.CountDown(frame);
      FrameSize(buff);
      var forward := None;
      if TtlOf(buff) > 0 {
        InBoundsExact(device.encoder.size, buff);
        var ok := device.encoder.Encode(buff);
        if !ok {
          return Undefined;
        }
        buff := device.encoder.data[..device.encoder.len];
        at := AtWrite;
        forward := Some(buff);
      }
      packet := [];
      if |buff| - HEADER > device.packetSize {
        return Done(Action(forward, None));
      }
      packet, at := buff[HEADER..], AtReceive;
      return Done(Action(forward, Some(packet)));
    }
  }

  // ---------------------------------------------------------------- transmit2()

  /** `Unset`: what is written is wherever the uninitialised `buff` points. */
  datatype Transmission = Failed | Sent(bytes: seq<Byte>) | Unset

  function TransmitMeant(encSize: nat, frame: seq<Byte>): Transmission {
    if frame != [] && Returns(encSize, frame) then Sent(Encode(frame)) else Failed
  }

  /** What is sent is one frame, which the next device takes for what it was; an empty packet, or one that does not fit
      the encoder, is not sent. */
  lemma TransmitArrives(encSize: nat, frame: seq<Byte>, size: nat, packetSize: nat, d: Decoder)
    requires encSize > 0 && !d.parsing && |frame| <= size
    ensures var t := TransmitMeant(encSize, frame);
      && (t == Failed <==> frame == [] || (|Encode(frame)| > encSize && !Overruns(encSize, frame)))
      && (t != Failed ==> t.Sent? && PollAll(size, encSize, packetSize, d, t.bytes).1 == [Handle(encSize, packetSize, frame)])
  {
    hide Handle;
    InBoundsExact(encSize, frame);
    PollFrame(size, encSize, packetSize, d, frame);
  }

  /** Calls of transmit2() by one task; `sent` says that its label is the one of write(). */
  function TransmitEach(encSize: nat, sent: bool, frames: seq<seq<Byte>>): (r: seq<Transmission>)
    ensures |r| == |frames|
    decreases |frames|
  {
    if frames == [] then []
    else
      var t := if sent then Unset else TransmitMeant(encSize, frames[0]);
      [t] + TransmitEach(encSize, sent || t.Sent?, frames[1..])
  }

  function AllMeant(encSize: nat, frames: seq<seq<Byte>>): (r: seq<Transmission>)
    ensures |r| == |frames| && forall i :: 0 <= i < |r| ==> r[i] == TransmitMeant(encSize, frames[i])
  {
    seq(|frames|, i requires 0 <= i < |frames| => TransmitMeant(encSize, frames[i]))
  }

  /** The code as written transmits what it should iff no call follows the first one that sends something. */
  lemma {:induction false} TransmitExact(encSize: nat, frames: seq<seq<Byte>>)
    ensures TransmitEach(encSize, false, frames) == AllMeant(encSize, frames)
      <==> forall i :: 0 <= i < |frames| - 1 ==> TransmitMeant(encSize, frames[i]) == Failed
    decreases |frames|
  {
    hide TransmitMeant;
    TransmitKinds(encSize, frames);
    if frames == [] {
    } else {
      var rest := frames[1..];
      TransmitExact(encSize, rest);
      var t := TransmitMeant(encSize, frames[0]);
      var each := TransmitEach(encSize, t.Sent?, rest);
      assert AllMeant(encSize, frames) == [t] + AllMeant(encSize, rest);
      assert TransmitEach(encSize, false, frames) == [t] + each;
      assert ([t] + each)[1..] == each && ([t] + AllMeant(encSize, rest))[1..] == AllMeant(encSize, rest);
      if t.Sent? && rest != [] {
        assert each[0] == Unset;
        assert AllMeant(encSize, rest)[0] != Unset;
      }
      forall i | 0 <= i < |rest| ensures rest[i] == frames[i + 1] {
      }
      if forall i :: 0 <= i < |rest| - 1 ==> TransmitMeant(encSize, rest[i]) == Failed {
        forall i | 0 < i < |frames| - 1 ensures TransmitMeant(encSize, frames[i]) == Failed {
          assert frames[i] == rest[i - 1];
        }
      }
    }
  }

  lemma TransmitKinds(encSize: nat, frames: seq<seq<Byte>>)
    ensures forall i :: 0 <= i < |frames| ==>
      TransmitMeant(encSize, frames[i]) == Failed || TransmitMeant(encSize, frames[i]).Sent?
  {
  }

  // ---------------------------------------------------------------- the shipped sizes

  /** The encoder of alloc::SLIPRingDevice<SIZE>. */
  function ShippedEncoder(size: nat): nat {
    (size + 1) * 2
  }

  lemma {:induction false} SpecialsConcat(a: seq<Byte>, b: seq<Byte>)
    ensures Specials(a + b) == Specials(a) + Specials(b)
  {
    if b == [] {
      assert a + b == a;
    } else {
      assert (a + b)[..|a + b| - 1] == a + b[..|b| - 1];
      SpecialsConcat(a, b[..|b| - 1]);
    }
  }

  /** What a device with packets of `size` bytes forwards: the encoder's size leaves no room for the header, so that
      payloads of up to `size` bytes are lost if too many of their bytes, and of the TTL's, are special. */
  lemma ShippedForwardsExact(size: nat, f: SlipRing.Frame)
    requires 1 < f.ttl < SlipRing.TTL_WRAP && f.data != []
    ensures var counted := TtlBytes(f.ttl - 1) + f.data;
      Handle(ShippedEncoder(size), size, FrameBytes(f)).forward.Some? <==>
      HEADER + |f.data| + Specials(TtlBytes(f.ttl - 1)) + Specials(f.data) <= 2 * size
      || Overruns(ShippedEncoder(size), counted)
  {
    hide Specials, Encode, WriteEnd, Returns;
    var counted := TtlBytes(f.ttl - 1) + f.data;
    TtlRoundTrip(f.ttl, f.data);
    FrameSize(counted);
    SpecialsConcat(TtlBytes(f.ttl - 1), f.data);
    InBoundsExact(ShippedEncoder(size), counted);
  }

  /** `n` bytes of which the last `k` are END. */
  function Ending(n: nat, k: nat): (d: seq<Byte>)
    requires k <= n
    ensures |d| == n && forall i :: 0 <= i < n ==> d[i] == if i < n - k then 0 else END
  {
    seq(n, i requires 0 <= i < n => if i < n - k then 0 else END)
  }

  lemma {:induction false} EndingSpecials(n: nat, k: nat)
    requires k <= n
    ensures Specials(Ending(n, k)) == k
  {
    if n == 0 {
    } else {
      assert Ending(n, k)[..n - 1] == Ending(n - 1, if k == 0 then 0 else k - 1);
      EndingSpecials(n - 1, if k == 0 then 0 else k - 1);
    }
  }

  lemma NoSpecial(b: Byte)
    requires !IsSpecial(b)
    ensures Specials([b]) == 0
  {
    assert [b][..0] == [];
  }

  lemma NoSpecials(a: Byte, b: Byte, c: Byte, d: Byte)
    requires !IsSpecial(a) && !IsSpecial(b) && !IsSpecial(c) && !IsSpecial(d)
    ensures Specials([a, b, c, d]) == 0
  {
    hide Specials, IsSpecial;
    NoSpecial(a);
    NoSpecial(b);
    NoSpecial(c);
    NoSpecial(d);
    SpecialsConcat([a], [b]);
    SpecialsConcat([a] + [b], [c]);
    SpecialsConcat([a] + [b] + [c], [d]);
    assert [a] + [b] + [c] + [d] == [a, b, c, d];
  }

  /** For every size from 4 on there is a payload of that size for which the shipped encoder writes past its buffer,
      with every TTL below 0xC0. */
  lemma ShippedEncoderOverruns(size: nat, ttl: nat)
    requires size >= 4 && ttl < END
    ensures Overruns(ShippedEncoder(size), TtlBytes(ttl) + Ending(size, size - 3))
    ensures WriteEnd(ShippedEncoder(size), TtlBytes(ttl) + Ending(size, size - 3)) > ShippedEncoder(size)
  {
    var p := TtlBytes(ttl) + Ending(size, size - 3);
    NoSpecials(ttl, 0, 0, 0);
    assert TtlBytes(ttl) == [ttl, 0, 0, 0];
    EndingSpecials(size, size - 3);
    SpecialsConcat(TtlBytes(ttl), Ending(size, size - 3));
    FrameSize(p);
    assert p[|p| - 1] == END;
    InBoundsExact(ShippedEncoder(size), p);
  }
}
