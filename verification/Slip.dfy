/** The SLIP codec of net/slip/slip.h as functions on byte strings. */
module Slip {
  import opened Bytes
  import opened Options

  const END: Byte := 0xC0
  const ESC: Byte := 0xDB
  const ESC_END: Byte := 0xDC
  const ESC_ESC: Byte := 0xDD

  predicate IsSpecial(b: Byte) {
    b == END || b == ESC
  }

  // ---------------------------------------------------------------- encoding

  function EncodeByte(b: Byte): seq<Byte> {
    if b == END then [ESC, ESC_END] else if b == ESC then [ESC, ESC_ESC] else [b]
  }

  function Body(p: seq<Byte>): seq<Byte> {
    if p == [] then [] else Body(p[..|p| - 1]) + EncodeByte(p[|p| - 1])
  }

  function Encode(p: seq<Byte>): seq<Byte> {
    [END] + Body(p) + [END]
  }

  /** The body of a frame as RFC 1055 has it, from the front and in its own numbers. */
  function Escaped(p: seq<Byte>): seq<Byte> {
    if p == [] then []
    else (if p[0] == 0xC0 then [0xDB, 0xDC] else if p[0] == 0xDB then [0xDB, 0xDD] else [p[0]]) + Escaped(p[1..])
  }

  lemma {:induction false} EscapedConcat(a: seq<Byte>, b: seq<Byte>)
    ensures Escaped(a + b) == Escaped(a) + Escaped(b)
    decreases |a|
  {
    if a == [] {
      assert a + b == b;
    } else {
      assert (a + b)[1..] == a[1..] + b;
      EscapedConcat(a[1..], b);
    }
  }

  lemma {:induction false} BodyEscapes(p: seq<Byte>)
    ensures Body(p) == Escaped(p)
  {
    if p == [] {
    } else {
      var n := |p| - 1;
      BodyEscapes(p[..n]);
      EscapedConcat(p[..n], [p[n]]);
      assert p == p[..n] + [p[n]] && [p[n]][1..] == [];
      assert Escaped([p[n]]) == EncodeByte(p[n]);
    }
  }

  /** A frame is what RFC 1055 says. */
  lemma EncodeIsRfc1055(p: seq<Byte>)
    ensures Encode(p) == [0xC0] + Escaped(p) + [0xC0]
  {
    BodyEscapes(p);
  }

  function Specials(p: seq<Byte>): nat {
    if p == [] then 0 else Specials(p[..|p| - 1]) + (if IsSpecial(p[|p| - 1]) then 1 else 0)
  }

  /** The size of a frame, the documented bound on it, and the absence of END inside. */
  lemma {:induction false} FrameSize(p: seq<Byte>)
    ensures |Encode(p)| == |p| + 2 + Specials(p) <= 2 * (|p| + 1)
    ensures Specials(p) <= |p| && END !in Body(p)
  {
    if p == [] {
    } else {
      FrameSize(p[..|p| - 1]);
    }
  }

  /** The bound is attained by payloads that consist of special bytes. */
  lemma FrameSizeTight(p: seq<Byte>)
    ensures |Encode(p)| == 2 * (|p| + 1) <==> forall i :: 0 <= i < |p| ==> IsSpecial(p[i])
  {
    FrameSize(p);
    AllSpecial(p);
  }

  lemma {:induction false} AllSpecial(p: seq<Byte>)
    ensures Specials(p) <= |p|
    ensures Specials(p) == |p| <==> forall i :: 0 <= i < |p| ==> IsSpecial(p[i])
  {
    hide IsSpecial;
    if p == [] {
    } else {
      AllSpecial(p[..|p| - 1]);
    }
  }

  // ---------------------------------------------------------------- decoding

  /** The decoder; `buf` is what m_buff holds. */
  datatype Decoder = Decoder(buf: seq<Byte>, parsing: bool, escape: bool)

  const INITIAL: Decoder := Decoder([], false, false)

  /** The byte that is stored for `b`. As written the source computes the unescaped byte and then stores `b`
      itself; repaired, it stores the unescaped one, and the case for ESC_END does not fall into the next. */
  function Stored(repaired: bool, escape: bool, b: Byte): Byte {
    if repaired && escape && b == ESC_END then END
    else if repaired && escape && b == ESC_ESC then ESC
    else b
  }

  /** UnallocatedSLIPDecoder::push for a buffer of `size` bytes. Outside a frame only END is treated apart: other
      bytes take the same path as inside. */
  function Push(repaired: bool, size: nat, d: Decoder, b: Byte): (Decoder, Option<seq<Byte>>) {
    if !d.parsing && b == END then (Decoder([], true, false), None)
    else if b == END then (d.(parsing := false), Some(d.buf))
    else if b == ESC then (d.(escape := true), None)
    else if |d.buf| == size then (d.(parsing := false, escape := false), None)
    else (d.(buf := d.buf + [Stored(repaired, d.escape, b)], escape := false), None)
  }

  /** The decoder after all of `bytes`, and what each push returned. */
  function Feed(repaired: bool, size: nat, d: Decoder, bytes: seq<Byte>): (r: (Decoder, seq<Option<seq<Byte>>>))
    ensures |r.1| == |bytes|
  {
    if bytes == [] then (d, [])
    else
      var (d1, outs) := Feed(repaired, size, d, bytes[..|bytes| - 1]);
      var (d2, out) := Push(repaired, size, d1, bytes[|bytes| - 1]);
      (d2, outs + [out])
  }

  lemma {:induction false} FeedConcat(repaired: bool, size: nat, d: Decoder, a: seq<Byte>, b: seq<Byte>)
    ensures var (d1, o1) := Feed(repaired, size, d, a);
            var (d2, o2) := Feed(repaired, size, d1, b);
            Feed(repaired, size, d, a + b) == (d2, o1 + o2)
  {
    if b == [] {
      assert a + b == a;
      assert Feed(repaired, size, d, a).1 + [] == Feed(repaired, size, d, a).1;
    } else {
      var c := b[..|b| - 1];
      assert (a + b)[..|a + b| - 1] == a + c;
      FeedConcat(repaired, size, d, a, c);
      var (d1, o1) := Feed(repaired, size, d, a);
      var (d2, o2) := Feed(repaired, size, d1, c);
      var out := Push(repaired, size, d2, b[|c|]).1;
      assert o1 + (o2 + [out]) == (o1 + o2) + [out];
    }
  }

  function Nones(n: nat): seq<Option<seq<Byte>>> {
    seq(n, _ => None)
  }

  /** What a frame with payload `p` decodes to: without the repair the escape codes stay in place of the bytes
      they stand for. */
  function Seen(repaired: bool, p: seq<Byte>): (q: seq<Byte>)
    ensures |q| == |p|
  {
    seq(|p|, i requires 0 <= i < |p| =>
      if repaired then p[i] else if p[i] == END then ESC_END else if p[i] == ESC then ESC_ESC else p[i])
  }

  lemma SeenExact(repaired: bool, p: seq<Byte>)
    ensures Seen(repaired, p) == p <==> repaired || forall i :: 0 <= i < |p| ==> !IsSpecial(p[i])
  {
  }

  /** Inside a frame the body of a payload that fits is stored; one that does not fit ends the parsing. */
  lemma {:induction false} FeedBody(repaired: bool, size: nat, d: Decoder, p: seq<Byte>)
    requires d.parsing && !d.escape && |d.buf| <= size
    ensures var (d', outs) := Feed(repaired, size, d, Body(p));
      && outs == Nones(|Body(p)|)
      && (|d.buf| + |p| <= size ==> d' == d.(buf := d.buf + Seen(repaired, p)))
      && (|d.buf| + |p| > size ==> !d'.parsing && !d'.escape && |d'.buf| == size)
  {
    hide Feed, EncodeByte, Push;
    if p == [] {
      FeedNothing(repaired, size, d);
      assert d.buf + Seen(repaired, p) == d.buf;
    } else {
      var q, b := p[..|p| - 1], p[|p| - 1];
      FeedBody(repaired, size, d, q);
      var d1 := Feed(repaired, size, d, Body(q)).0;
      FeedConcat(repaired, size, d, Body(q), EncodeByte(b));
      FeedCode(repaired, size, d1, b);
      var x := Seen(repaired, [b])[0];
      assert Seen(repaired, p) == Seen(repaired, q) + [x];
      assert (d.buf + Seen(repaired, q)) + [x] == d.buf + Seen(repaired, p);
      assert Nones(|Body(q)|) + Nones(|EncodeByte(b)|) == Nones(|Body(p)|);
    }
  }

  lemma FeedCode(repaired: bool, size: nat, d: Decoder, b: Byte)
    requires !d.escape && |d.buf| <= size
    ensures var (d', outs) := Feed(repaired, size, d, EncodeByte(b));
      && outs == Nones(|EncodeByte(b)|)
      && d' == if |d.buf| == size then d.(parsing := false) else d.(buf := d.buf + [Seen(repaired, [b])[0]])
  {
    if IsSpecial(b) {
      FeedConcat(repaired, size, d, [ESC], EncodeByte(b)[1..]);
      assert EncodeByte(b) == [ESC] + EncodeByte(b)[1..];
      FeedOne(repaired, size, d, ESC);
      FeedOne(repaired, size, d.(escape := true), EncodeByte(b)[1]);
      assert EncodeByte(b)[1..] == [EncodeByte(b)[1]];
    } else {
      FeedOne(repaired, size, d, b);
    }
  }

  lemma FeedOne(repaired: bool, size: nat, d: Decoder, b: Byte)
    ensures Feed(repaired, size, d, [b]) == (Push(repaired, size, d, b).0, [Push(repaired, size, d, b).1])
  {
    assert [b][..0] == [];
    assert [] + [Push(repaired, size, d, b).1] == [Push(repaired, size, d, b).1];
  }

  // ---------------------------------------------------------------- whatever comes between two ENDs

  predicate AfterEsc(escape: bool, b: seq<Byte>) {
    if b == [] then escape else b[|b| - 1] == 0xDB
  }

  /** Every byte but 0xDB counts. Behind a 0xDB, 0xDC stands for 0xC0 and 0xDD for 0xDB; as written nothing does. */
  function Unescaped(repaired: bool, escape: bool, b: seq<Byte>): seq<Byte> {
    if b == [] then []
    else
      var rest, x := b[..|b| - 1], b[|b| - 1];
      Unescaped(repaired, escape, rest) +
      (if x == 0xDB then []
       else if repaired && AfterEsc(escape, rest) && x == 0xDC then [0xC0]
       else if repaired && AfterEsc(escape, rest) && x == 0xDD then [0xDB]
       else [x])
  }

  lemma {:induction false} FeedAny(repaired: bool, size: nat, d: Decoder, b: seq<Byte>)
    requires d.parsing && |d.buf| <= size && END !in b
    ensures var (d', outs) := Feed(repaired, size, d, b);
      var u := Unescaped(repaired, d.escape, b);
      && outs == Nones(|b|)
      && (|d.buf| + |u| <= size ==> d' == Decoder(d.buf + u, true, AfterEsc(d.escape, b)))
      && (|d.buf| + |u| > size ==> !d'.parsing)
  {
    if b == [] {
      assert d.buf + [] == d.buf;
    } else {
      var n := |b| - 1;
      var rest := b[..n];
      FeedAny(repaired, size, d, rest);
      assert Nones(n) + [None] == Nones(n + 1);
      hide Feed, Unescaped, AfterEsc;
      FeedLast(repaired, size, d, b);
      UnescapedLast(repaired, d.escape, b);
      var u := Unescaped(repaired, d.escape, rest);
      assert forall x: Byte :: (d.buf + u) + [x] == d.buf + (u + [x]);
      assert u + [] == u;
    }
  }

  lemma FeedLast(repaired: bool, size: nat, d: Decoder, b: seq<Byte>)
    requires b != []
    ensures var n := |b| - 1;
      var (d1, outs) := Feed(repaired, size, d, b[..n]);
      var (d2, out) := Push(repaired, size, d1, b[n]);
      Feed(repaired, size, d, b) == (d2, outs + [out])
  {
  }

  lemma UnescapedLast(repaired: bool, escape: bool, b: seq<Byte>)
    requires b != []
    ensures var n := |b| - 1;
      && AfterEsc(escape, b) == (b[n] == ESC)
      && Unescaped(repaired, escape, b) == Unescaped(repaired, escape, b[..n]) +
           if b[n] == ESC then [] else [Stored(repaired, AfterEsc(escape, b[..n]), b[n])]
  {
  }

  /** So for any bytes between two ENDs, encoded or not: the decoder returns what counts of them, at the closing END, or
      nothing if that is too large. */
  lemma AnyFrame(repaired: bool, size: nat, d: Decoder, b: seq<Byte>)
    requires !d.parsing && END !in b
    ensures var (d', outs) := Feed(repaired, size, d, [END] + b + [END]);
      var u := Unescaped(repaired, false, b);
      if |u| <= size then !d'.parsing && outs == Nones(|b| + 1) + [Some(u)]
      else d' == Decoder([], true, false) && outs == Nones(|b| + 2)
  {
    hide Unescaped;
    var d1 := Decoder([], true, false);
    FeedOne(repaired, size, d, END);
    FeedAny(repaired, size, d1, b);
    var d2 := Feed(repaired, size, d1, b).0;
    FeedOne(repaired, size, d2, END);
    FeedConcat(repaired, size, d, [END], b);
    FeedConcat(repaired, size, d, [END] + b, [END]);
    assert [] + Unescaped(repaired, false, b) == Unescaped(repaired, false, b);
    assert [None] + Nones(|b|) == Nones(|b| + 1) && Nones(|b| + 1) + [None] == Nones(|b| + 2);
  }

  // ---------------------------------------------------------------- whole streams

  function EncodeAll(ps: seq<seq<Byte>>): seq<Byte> {
    if ps == [] then [] else Encode(ps[0]) + EncodeAll(ps[1..])
  }

  predicate Fit(size: nat, ps: seq<seq<Byte>>) {
    forall i :: 0 <= i < |ps| ==> |ps[i]| <= size
  }

  /** What pushing the frames of `ps` should return: nothing, except a payload at each closing END. */
  function Expected(repaired: bool, ps: seq<seq<Byte>>): seq<Option<seq<Byte>>> {
    if ps == [] then [] else Nones(|Encode(ps[0])| - 1) + [Some(Seen(repaired, ps[0]))] + Expected(repaired, ps[1..])
  }

  lemma FeedFrame(repaired: bool, size: nat, d: Decoder, p: seq<Byte>)
    requires !d.parsing
    ensures var (d', outs) := Feed(repaired, size, d, Encode(p));
      if |p| <= size then !d'.parsing && outs == Nones(|Encode(p)| - 1) + [Some(Seen(repaired, p))]
      else d' == Decoder([], true, false) && outs == Nones(|Encode(p)|)
  {
    hide Feed, Body, Seen;
    var d1 := Decoder([], true, false);
    FeedOne(repaired, size, d, END);
    FeedBody(repaired, size, d1, p);
    var d2 := Feed(repaired, size, d1, Body(p)).0;
    FeedOne(repaired, size, d2, END);
    FeedConcat(repaired, size, d, [END], Body(p));
    FeedConcat(repaired, size, d, [END] + Body(p), [END]);
    assert [] + Seen(repaired, p) == Seen(repaired, p);
    assert [None] + Nones(|Body(p)|) == Nones(|Body(p)| + 1) && Nones(|Body(p)| + 1) + [None] == Nones(|Body(p)| + 2);
  }

  /** SLIP stream round trip: pushing the concatenated frames of payloads that fit returns exactly the payloads, each
      at its closing END, and nothing at every other byte. */
  lemma {:induction false} StreamRoundTrip(repaired: bool, size: nat, d: Decoder, ps: seq<seq<Byte>>)
    requires !d.parsing && Fit(size, ps)
    ensures Feed(repaired, size, d, EncodeAll(ps)).1 == Expected(repaired, ps)
    ensures !Feed(repaired, size, d, EncodeAll(ps)).0.parsing
    decreases |ps|
  {
    if ps == [] {
    } else {
      FeedFrame(repaired, size, d, ps[0]);
      FeedConcat(repaired, size, d, Encode(ps[0]), EncodeAll(ps[1..]));
      StreamRoundTrip(repaired, size, Feed(repaired, size, d, Encode(ps[0])).0, ps[1..]);
    }
  }

  /** The payloads a stream of pushes returned. */
  function Received(outs: seq<Option<seq<Byte>>>): seq<seq<Byte>> {
    if outs == [] then []
    else Received(outs[..|outs| - 1]) + (match outs[|outs| - 1] case None => [] case Some(p) => [p])
  }

  lemma {:induction false} ReceivedConcat(a: seq<Option<seq<Byte>>>, b: seq<Option<seq<Byte>>>)
    ensures Received(a + b) == Received(a) + Received(b)
  {
    if b == [] {
      assert a + b == a;
    } else {
      assert (a + b)[..|a + b| - 1] == a + b[..|b| - 1];
      ReceivedConcat(a, b[..|b| - 1]);
    }
  }

  lemma {:induction false} ReceivedNones(n: nat)
    ensures Received(Nones(n)) == []
  {
    if n == 0 {
    } else {
      assert Nones(n)[..n - 1] == Nones(n - 1);
      ReceivedNones(n - 1);
    }
  }

  /** A decoder that takes a closing END for an opening one never recovers: for each frame that follows it returns an
      empty payload at the opening END and starts over at the closing one. */
  lemma {:induction false} InvertedForever(repaired: bool, size: nat, ps: seq<seq<Byte>>)
    ensures var (d, outs) := Feed(repaired, size, Decoder([], true, false), EncodeAll(ps));
      d == Decoder([], true, false) && Received(outs) == seq(|ps|, _ => [])
    decreases |ps|
  {
    hide Feed, Encode, Push;
    FeedNothing(repaired, size, Decoder([], true, false));
    if ps == [] {
    } else {
      var d := Decoder([], true, false);
      FeedInverted(repaired, size, ps[0]);
      FeedConcat(repaired, size, d, Encode(ps[0]), EncodeAll(ps[1..]));
      InvertedForever(repaired, size, ps[1..]);
      var o1, o2 := Feed(repaired, size, d, Encode(ps[0])).1, Feed(repaired, size, d, EncodeAll(ps[1..])).1;
      ReceivedConcat(o1, o2);
    }
  }

  /** Outside a frame, bytes other than END return nothing and stay outside. */
  lemma {:induction false} FeedOutside(repaired: bool, size: nat, d: Decoder, bytes: seq<Byte>)
    requires !d.parsing && END !in bytes
    ensures !Feed(repaired, size, d, bytes).0.parsing && Feed(repaired, size, d, bytes).1 == Nones(|bytes|)
  {
    if bytes == [] {
    } else {
      FeedOutside(repaired, size, d, bytes[..|bytes| - 1]);
    }
  }

  lemma FeedInverted(repaired: bool, size: nat, p: seq<Byte>)
    ensures var (d, outs) := Feed(repaired, size, Decoder([], true, false), Encode(p));
      d == Decoder([], true, false) && Received(outs) == [[]]
  {
    var d := Decoder([], true, false);
    var d1 := Decoder([], false, false);
    hide Feed, Body;
    FrameSize(p);
    FeedOne(repaired, size, d, END);
    FeedOutside(repaired, size, d1, Body(p));
    FeedOne(repaired, size, Feed(repaired, size, d1, Body(p)).0, END);
    FeedConcat(repaired, size, d, [END], Body(p));
    FeedConcat(repaired, size, d, [END] + Body(p), [END]);
    var o: seq<Option<seq<Byte>>> := [Some([])];
    ReceivedConcat(o, Nones(|Body(p)|));
    ReceivedConcat(o + Nones(|Body(p)|), [None]);
    ReceivedNones(|Body(p)|);
    ReceivedNones(1);
    assert Nones(1) == [None];
    assert Received(o) == [[]] by { assert o[..0] == []; }
  }

  function SeenAll(repaired: bool, ps: seq<seq<Byte>>): (r: seq<seq<Byte>>)
    ensures |r| == |ps| && forall i :: 0 <= i < |ps| ==> r[i] == Seen(repaired, ps[i])
  {
    seq(|ps|, i requires 0 <= i < |ps| => Seen(repaired, ps[i]))
  }

  /** How many frames come before the first one that is too large. */
  function Fitting(size: nat, ps: seq<seq<Byte>>): (k: nat)
    ensures k <= |ps| && Fit(size, ps[..k]) && (k < |ps| ==> |ps[k]| > size)
    ensures k == |ps| <==> Fit(size, ps)
  {
    if ps == [] || |ps[0]| > size then 0 else 1 + Fitting(size, ps[1..])
  }

  /** The payloads up to the first frame that does not fit, and an empty one for each frame after that. */
  function Outcome(repaired: bool, size: nat, ps: seq<seq<Byte>>): seq<seq<Byte>> {
    var k := Fitting(size, ps);
    SeenAll(repaired, ps[..k]) + (if k == |ps| then [] else seq(|ps| - k - 1, _ => []))
  }

  lemma OutcomeStep(repaired: bool, size: nat, ps: seq<seq<Byte>>)
    requires ps != []
    ensures Outcome(repaired, size, ps) ==
      if |ps[0]| <= size then [Seen(repaired, ps[0])] + Outcome(repaired, size, ps[1..]) else seq(|ps| - 1, _ => [])
  {
    var k := Fitting(size, ps[1..]);
    assert ps[1..][..k] == ps[1..k + 1];
  }

  lemma ReceivedFrame(repaired: bool, size: nat, d: Decoder, p: seq<Byte>)
    requires !d.parsing
    ensures Received(Feed(repaired, size, d, Encode(p)).1) == if |p| <= size then [Seen(repaired, p)] else []
  {
    FeedFrame(repaired, size, d, p);
    ReceivedNones(|Encode(p)|);
    ReceivedNones(|Encode(p)| - 1);
    ReceivedConcat(Nones(|Encode(p)| - 1), [Some(Seen(repaired, p))]);
    assert Received([Some(Seen(repaired, p))]) == [Seen(repaired, p)] by {
      assert [Some(Seen(repaired, p))][..0] == [];
    }
  }

  /** Everything a stream of frames returns. A frame that does not fit is discarded, as documented, but its closing
      END is taken for an opening one, and every later frame is lost with it. */
  lemma {:induction false} StreamOutcome(repaired: bool, size: nat, d: Decoder, ps: seq<seq<Byte>>)
    requires !d.parsing
    ensures Received(Feed(repaired, size, d, EncodeAll(ps)).1) == Outcome(repaired, size, ps)
    decreases |ps|
  {
    hide Feed, Outcome, Encode, Push;
    if ps == [] {
      FeedNothing(repaired, size, d);
    } else {
      var p, rest := ps[0], ps[1..];
      OutcomeStep(repaired, size, ps);
      FeedFrame(repaired, size, d, p);
      ReceivedFrame(repaired, size, d, p);
      var (d1, o1) := Feed(repaired, size, d, Encode(p));
      FeedConcat(repaired, size, d, Encode(p), EncodeAll(rest));
      ReceivedConcat(o1, Feed(repaired, size, d1, EncodeAll(rest)).1);
      if |p| <= size {
        StreamOutcome(repaired, size, d1, rest);
      } else {
        InvertedForever(repaired, size, rest);
      }
    }
  }

  lemma FeedNothing(repaired: bool, size: nat, d: Decoder)
    ensures Feed(repaired, size, d, []) == (d, []) && Outcome(repaired, size, []) == []
  {
  }

  /** The round trip holds iff every payload fits and, unless the decoder is repaired, none has a special byte. */
  lemma StreamRoundTripExact(repaired: bool, size: nat, d: Decoder, ps: seq<seq<Byte>>)
    requires !d.parsing
    ensures Received(Feed(repaired, size, d, EncodeAll(ps)).1) == ps
      <==> Fit(size, ps) && (repaired || forall i, j :: 0 <= i < |ps| && 0 <= j < |ps[i]| ==> !IsSpecial(ps[i][j]))
  {
    var r, k := Received(Feed(repaired, size, d, EncodeAll(ps)).1), Fitting(size, ps);
    StreamOutcome(repaired, size, d, ps);
    hide Feed;
    assert k < |ps| ==> |r| < |ps|;
    if k == |ps| {
      assert ps[..k] == ps;
      forall i | 0 <= i < |ps|
        ensures r[i] == ps[i] <==> repaired || forall j :: 0 <= j < |ps[i]| ==> !IsSpecial(ps[i][j])
      {
        SeenExact(repaired, ps[i]);
      }
    }
  }

  // ---------------------------------------------------------------- where the encoder writes

  /** What follows `j` encoded bytes takes at least one byte each, and never ends with ESC. */
  lemma {:induction false} BodyGrows(p: seq<Byte>, j: nat)
    requires j <= |p|
    ensures |Body(p)| >= |Body(p[..j])| + |p| - j
    ensures p != [] ==> |Body(p)| > 0 && Body(p)[|Body(p)| - 1] != ESC
  {
    if j == |p| {
      assert p[..j] == p;
    } else {
      BodyGrows(p[..|p| - 1], j);
      assert p[..|p| - 1][..j] == p[..j];
    }
  }

  lemma BodyStart()
    ensures Body([]) == []
  {
  }

  lemma BodyStep(p: seq<Byte>, j: nat)
    requires j < |p|
    ensures Body(p[..j + 1]) == Body(p[..j]) + EncodeByte(p[j])
  {
    assert p[..j + 1][..j] == p[..j];
  }

  const SIZE_WRAP: nat := 0x1_0000_0000  // size_t

  /** `m_size - 1`. */
  function Bound(size: nat): (b: nat)
    ensures size > 0 ==> b == size - 1
  {
    if size == 0 then SIZE_WRAP - 1 else size - 1
  }

  /** `i` and `j` when encode() leaves its loop. */
  function LoopEnd(size: nat, p: seq<Byte>, i: nat, j: nat): (nat, nat)
    requires j <= |p|
    decreases |p| - j
  {
    if j < |p| && i < Bound(size) then LoopEnd(size, p, i + |EncodeByte(p[j])|, j + 1) else (i, j)
  }

  /** encode() returns a frame, not NULL. */
  predicate Returns(size: nat, p: seq<Byte>) {
    LoopEnd(size, p, 1, 0).1 == |p|
  }

  /** One past the last byte that encode() writes. */
  function WriteEnd(size: nat, p: seq<Byte>): nat {
    LoopEnd(size, p, 1, 0).0 + (if Returns(size, p) then 1 else 0)
  }

  lemma {:induction false} LoopEndBounds(size: nat, p: seq<Byte>, i: nat, j: nat)
    requires j <= |p|
    ensures var (i', j') := LoopEnd(size, p, i, j); i <= i' && j <= j' <= |p|
    decreases |p| - j
  {
    if j < |p| && i < Bound(size) {
      LoopEndBounds(size, p, i + |EncodeByte(p[j])|, j + 1);
    }
  }

  lemma LoopEndStep(size: nat, p: seq<Byte>, i: nat, j: nat)
    requires j <= |p|
    ensures LoopEnd(size, p, i, j) ==
      if j < |p| && i < Bound(size) then LoopEnd(size, p, i + |EncodeByte(p[j])|, j + 1) else (i, j)
  {
  }

  /** The loop ends with the payload, or one or two bytes after the last index below `m_size - 1`. */
  lemma {:induction false} LoopEndExact(size: nat, p: seq<Byte>, j: nat)
    requires j <= |p| && (j > 0 ==> 1 + |Body(p[..j - 1])| < Bound(size))
    ensures var (i', j') := LoopEnd(size, p, 1 + |Body(p[..j])|, j);
      && j <= j' <= |p| && i' == 1 + |Body(p[..j'])|
      && (j' == |p| || i' >= Bound(size)) && (j' > 0 ==> 1 + |Body(p[..j' - 1])| < Bound(size))
    decreases |p| - j
  {
    hide Body;
    if j < |p| && 1 + |Body(p[..j])| < Bound(size) {
      BodyStep(p, j);
      LoopEndExact(size, p, j + 1);
    }
  }

  /** encode() writes one byte past a buffer of `size` bytes for these payloads: the last body byte fills it. */
  predicate Overruns(size: nat, p: seq<Byte>) {
    |Encode(p)| == size + 1 && (p == [] || IsSpecial(p[|p| - 1]))
  }

  /** Every write is in bounds iff there is a buffer and the payload is none of these. */
  lemma InBoundsExact(size: nat, p: seq<Byte>)
    requires size == 0 ==> |Encode(p)| < SIZE_WRAP
    ensures WriteEnd(size, p) <= size <==> size > 0 && !Overruns(size, p)
    ensures WriteEnd(size, p) <= if size == 0 then |Encode(p)| else size + 1
    ensures Returns(size, p) <==> size == 0 || |Encode(p)| <= size || Overruns(size, p)
  {
    hide Body;
    BodyStart();
    assert p[..0] == [];
    LoopEndExact(size, p, 0);
    var (i, j) := LoopEnd(size, p, 1, 0);
    BodyGrows(p, j);
    if j > 0 {
      BodyStep(p, j - 1);
    }
    if j < |p| {
      var n := |p| - 1;
      BodyStep(p, n);
      assert p[..n + 1] == p;
      BodyGrows(p[..n], j);
      assert p[..n][..j] == p[..j];
    } else {
      assert p[..j] == p;
    }
  }

  /** Buffers of the documented size have room for every payload. */
  lemma DocumentedSizeSuffices(size: nat, p: seq<Byte>)
    requires size >= 2 * (|p| + 1)
    ensures |Encode(p)| <= size && !Overruns(size, p)
  {
    FrameSize(p);
  }
}
