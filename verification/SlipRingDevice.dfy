/** What a device of the ring does with the bytes of its link: net/slip/SLIPRingDevice.h on top of the codec. */
module SlipRingDevice {
  import opened Bytes
  import opened Options
  import opened Return
  import opened Slip
  import SlipCodec
  import SlipRing

  // ---------------------------------------------------------------- ring frames as bytes

  const HEADER: nat := 4

  /** slip_ring_header_t, least significant byte first. */
  function TtlBytes(ttl: nat): (h: seq<Byte>)
    ensures |h| == HEADER
  {
    [ttl % 256, ttl / 256 % 256, ttl / 65536 % 256, ttl / 16777216 % 256]
  }

  function TtlOf(frame: seq<Byte>): nat
    requires |frame| >= HEADER
  {
    frame[0] as nat + 256 * (frame[1] as nat) + 65536 * (frame[2] as nat) + 16777216 * (frame[3] as nat)
  }

  lemma TtlRoundTrip(ttl: nat, data: seq<Byte>)
    requires ttl < SlipRing.TTL_WRAP
    ensures TtlOf(TtlBytes(ttl) + data) == ttl && (TtlBytes(ttl) + data)[HEADER..] == data
  {
    var b, c, d := ttl / 256, ttl / 65536, ttl / 16777216;
    assert c == b / 256 && d == c / 256 && d < 256;
  }

  /** The order of the bytes in memory. */
  lemma TtlOrder()
    ensures TtlBytes(0x0403_0201) == [1, 2, 3, 4]
  {
  }

  function FrameBytes(f: SlipRing.Frame): seq<Byte> {
    TtlBytes(f.ttl) + f.data
  }

  // ---------------------------------------------------------------- a complete frame

  /** What a device puts on its outgoing link, and what it passes up the stack. */
  datatype Action = Action(forward: Option<seq<Byte>>, deliver: Option<seq<Byte>>)

  function Counted(frame: seq<Byte>): seq<Byte>
    requires |frame| >= HEADER
  {
    TtlBytes(SlipRing.Decrement(TtlOf(frame))) + frame[HEADER..]
  }

  /** poll() for a complete frame, with an encoder of `encSize` bytes and a packet of `packetSize`. */
  function Handle(encSize: nat, packetSize: nat, frame: seq<Byte>): Action {
    if |frame| <= HEADER then Action(None, None)
    else
      var counted := Counted(frame);
      Action(if SlipRing.Decrement(TtlOf(frame)) > 0 && Returns(encSize, counted) then Some(Encode(counted)) else None,
             if |frame| - HEADER <= packetSize then Some(frame[HEADER..]) else None)
  }

  /** For a frame of the protocol that is SlipRing.Step's reception: deliver the data, and forward the frame with one
      hop less to live unless it was the last. */
  lemma HandleIsReception(encSize: nat, packetSize: nat, f: SlipRing.Frame)
    requires 0 < f.ttl < SlipRing.TTL_WRAP && |f.data| <= packetSize && 2 * (HEADER + |f.data| + 1) <= encSize
    ensures Handle(encSize, packetSize, FrameBytes(f)) ==
      if f.data == [] then Action(None, None)
      else Action(if f.ttl > 1 then Some(Encode(FrameBytes(f.(ttl := f.ttl - 1)))) else None, Some(f.data))
  {
    TtlRoundTrip(f.ttl, f.data);
    FrameSize(Counted(FrameBytes(f)));
    InBoundsExact(encSize, Counted(FrameBytes(f)));
  }

  /** And for any frame with data, whatever the sizes: 32 bits are counted down, also from 0, and both actions depend on
      the room there is. */
  lemma HandleExact(encSize: nat, packetSize: nat, f: SlipRing.Frame)
    requires f.ttl < SlipRing.TTL_WRAP && f.data != []
    ensures var counted := FrameBytes(f.(ttl := if f.ttl == 0 then 0xFFFF_FFFF else f.ttl - 1));
      Handle(encSize, packetSize, FrameBytes(f)) ==
        Action(if f.ttl != 1 && Returns(encSize, counted) then Some(Encode(counted)) else None,
               if |f.data| <= packetSize then Some(f.data) else None)
  {
    hide Encode, Returns;
    TtlRoundTrip(f.ttl, f.data);
  }

  // ---------------------------------------------------------------- a stream of bytes

  /** poll() for one byte: a completed frame has its TTL counted down in the decoder's buffer. */
  function PollByte(size: nat, encSize: nat, packetSize: nat, d: Decoder, b: Byte): (Decoder, Option<Action>) {
    var (d1, out) := Push(true, size, d, b);
    match out
    case None => (d1, None)
    case Some(frame) =>
      (if |frame| <= HEADER then d1 else d1.(buf := Counted(frame)), Some(Handle(encSize, packetSize, frame)))
  }

  function PollAll(size: nat, encSize: nat, packetSize: nat, d: Decoder, bytes: seq<Byte>): (Decoder, seq<Action>)
    decreases |bytes|
  {
    if bytes == [] then (d, [])
    else
      var (d1, out) := PollByte(size, encSize, packetSize, d, bytes[0]);
      var (d2, rest) := PollAll(size, encSize, packetSize, d1, bytes[1..]);
      (d2, (match out case None => [] case Some(a) => [a]) + rest)
  }

  lemma {:induction false} PollConcat(size: nat, encSize: nat, packetSize: nat, d: Decoder, a: seq<Byte>, b: seq<Byte>)
    ensures var (d1, o1) := PollAll(size, encSize, packetSize, d, a);
            var (d2, o2) := PollAll(size, encSize, packetSize, d1, b);
            PollAll(size, encSize, packetSize, d, a + b) == (d2, o1 + o2)
    decreases |a|
  {
    hide PollByte;
    var (d1, o1) := PollAll(size, encSize, packetSize, d, a);
    var o2 := PollAll(size, encSize, packetSize, d1, b).1;
    if a == [] {
      assert a + b == b;
      assert [] + o2 == o2;
    } else {
      assert (a + b)[1..] == a[1..] + b;
      var (e, x) := PollByte(size, encSize, packetSize, d, a[0]);
      PollConcat(size, encSize, packetSize, e, a[1..], b);
      var head := match x case None => [] case Some(y) => [y];
      var rest := PollAll(size, encSize, packetSize, e, a[1..]).1;
      assert head + (rest + o2) == (head + rest) + o2;
    }
  }

  /** Bytes that complete no frame: the device only decodes. */
  lemma {:induction false} PollSilently(size: nat, encSize: nat, packetSize: nat, d: Decoder, bytes: seq<Byte>)
    requires Feed(true, size, d, bytes).1 == Nones(|bytes|)
    ensures PollAll(size, encSize, packetSize, d, bytes) == (Feed(true, size, d, bytes).0, [])
  {
    if bytes == [] {
    } else {
      var n := |bytes| - 1;
      var a, b := bytes[..n], bytes[n];
      var (d1, o1) := Feed(true, size, d, a);
      assert Feed(true, size, d, bytes).1 == o1 + [Push(true, size, d1, b).1];
      assert o1 == Nones(n) by {
        assert o1 == Feed(true, size, d, bytes).1[..n];
      }
      assert Push(true, size, d1, b).1 == Feed(true, size, d, bytes).1[n] == None;
      PollSilently(size, encSize, packetSize, d, a);
      PollConcat(size, encSize, packetSize, d, a, [b]);
      assert bytes == a + [b];
      assert [b][1..] == [];
    }
  }

  /** A device that is between two frames handles a frame exactly once, at its closing END. */
  lemma PollFrame(size: nat, encSize: nat, packetSize: nat, d: Decoder, frame: seq<Byte>)
    requires !d.parsing && |frame| <= size
    ensures var (d', out) := PollAll(size, encSize, packetSize, d, Encode(frame));
      !d'.parsing && out == [Handle(encSize, packetSize, frame)]
  {
    var d1 := Decoder([], true, false);
    FeedOne(true, size, d, END);
    FeedBody(true, size, d1, frame);
    FeedConcat(true, size, d, [END], Body(frame));
    var open := [END] + Body(frame);
    var d2 := Feed(true, size, d, open).0;
    assert [None] + Nones(|Body(frame)|) == Nones(|open|);
    PollSilently(size, encSize, packetSize, d, open);
    PollConcat(size, encSize, packetSize, d, open, [END]);
    assert d2.buf == frame by {
      assert [] + Seen(true, frame) == frame;
    }
    assert [END][1..] == [];
  }

  function HandleAll(encSize: nat, packetSize: nat, frames: seq<seq<Byte>>): seq<Action> {
    if frames == [] then [] else [Handle(encSize, packetSize, frames[0])] + HandleAll(encSize, packetSize, frames[1..])
  }

  /** So a link that carries encoded frames is a FIFO of frames: each one is handled once, in order. */
  lemma {:induction false} PollStream(size: nat, encSize: nat, packetSize: nat, d: Decoder, frames: seq<seq<Byte>>)
    requires !d.parsing && Fit(size, frames)
    ensures PollAll(size, encSize, packetSize, d, EncodeAll(frames)).1 == HandleAll(encSize, packetSize, frames)
    decreases |frames|
  {
    if frames == [] {
    } else {
      PollFrame(size, encSize, packetSize, d, frames[0]);
      PollConcat(size, encSize, packetSize, d, Encode(frames[0]), EncodeAll(frames[1..]));
      PollStream(size, encSize, packetSize, PollAll(size, encSize, packetSize, d, Encode(frames[0])).0, frames[1..]);
    }
  }

  // ---------------------------------------------------------------- the device

  class Device {
    const decoder: SlipCodec.SLIPDecoder
    const encoder: SlipCodec.SLIPEncoder
    const packetSize: nat  // capacity of m_packet
    const headerSize: nat  // its bytes for headers
    var hpos: nat          // those that are left

    ghost predicate Valid()
      reads this, decoder
    {
      && decoder.Valid() && decoder.data != encoder.data && hpos <= headerSize
      && 0 < encoder.size < encoder.data.Length < SIZE_WRAP
    }

    /** Behind the encoder's buffer there is at least one byte of memory, which belongs to something else. */
    constructor (size: nat, encSize: nat, packetSize: nat, headerSize: nat)
      requires 0 < encSize && encSize + 1 < SIZE_WRAP
      ensures Valid() && fresh(decoder) && fresh(decoder.data) && fresh(encoder) && fresh(encoder.data)
      ensures decoder.View() == INITIAL && decoder.data.Length == size
      ensures encoder.size == encSize && this.packetSize == packetSize && hpos == this.headerSize == headerSize
    {
      this.packetSize, this.headerSize, hpos := packetSize, headerSize, headerSize;
      decoder := new SlipCodec.SLIPDecoder(size);
      encoder := new SlipCodec.SLIPEncoder(encSize, 1);
    }

    /** `hdr->ttl--` in the decoder's buffer. */
    method CountDown(frame: seq<Byte>) returns (counted: seq<Byte>)
      requires Valid() && decoder.View().buf == frame && |frame| > HEADER
      modifies decoder.data
      ensures Valid() && counted == Counted(frame) && decoder.View() == old(decoder.View()).(buf := counted)
    {
      var h := TtlBytes(SlipRing.Decrement(TtlOf(frame)));
      var data := decoder.data;
      data[0], data[1], data[2], data[3] := h[0], h[1], h[2], h[3];
      assert decoder.data[..decoder.len] == h + frame[HEADER..];
      counted := decoder.data[..decoder.len];
    }

    /** poll() for the byte `b`, with what it evidently means: the payload is delivered from the decoded frame, not
        from the encoded one, and RESET() is called before every return, which the source never does (see
        SlipRingAsWritten). `out` lists what is written to the serial device and passed up. */
    method Poll(b: Byte) returns (ret: RetType, out: Option<Action>)
      requires Valid()
      modifies this`hpos, decoder, decoder.data, encoder, encoder.data
      ensures Valid()
      ensures (decoder.View(), out) ==
        PollByte(decoder.data.Length, encoder.size, packetSize, old(decoder.View()), b)
      ensures ret == if out.Some? && |old(decoder.View()).buf| > HEADER && out.value.deliver == None
                     then RetError else RetSuccess
      ensures hpos == if out.Some? && |old(decoder.View()).buf| > HEADER then headerSize else old(hpos)
    {
      hide Encode, Counted, Overruns, Returns, WriteEnd;
      var buff := decoder.Push(b);
      if buff == None {
        // inside a frame
        return RetSuccess, None;
      }
      var frame := buff.value;
      if |frame| <= HEADER {
        // no data behind the header
        return RetSuccess, Some(Action(None, None));
      }
      var counted := CountDown(frame);
      var forward := None;
      if SlipRing.Decrement(TtlOf(frame)) > 0 {
        // the frame has further to go
        InBoundsExact(encoder.size, counted);
        var ok := encoder.Encode(counted);
        if ok {
          forward := Some(encoder.data[..encoder.len]);
        }
      }
      hpos := headerSize;
      if |frame| - HEADER > packetSize {
        return RetError, Some(Action(forward, None));
      }
      return RetSuccess, Some(Action(forward, Some(frame[HEADER..])));
    }

    /** transmit(), which takes the header from the device's own packet: it succeeds iff that has HEADER bytes left. */
    method Transmit() returns (ret: RetType)
      requires Valid()
      modifies `hpos
      ensures Valid() && ret == (if old(hpos) >= HEADER then RetSuccess else RetError)
      ensures hpos == HeaderLeft(headerSize, old(hpos), Transmits)
    {
      if HEADER > hpos {
        return RetError;
      }
      hpos := hpos - HEADER;
      ret := RetSuccess;
    }
  }

  // ---------------------------------------------------------------- header space

  /** transmit(), and a poll() that gets as far as m_packet.clear(). */
  datatype HeaderUse = Transmits | Clears

  function HeaderLeft(headerSize: nat, hpos: nat, u: HeaderUse): nat {
    match u
    case Transmits => if hpos >= HEADER then hpos - HEADER else hpos
    case Clears => headerSize
  }

  function HeaderAfter(headerSize: nat, uses: seq<HeaderUse>): nat {
    if uses == [] then headerSize else HeaderLeft(headerSize, HeaderAfter(headerSize, uses[..|uses| - 1]), uses[|uses| - 1])
  }

  /** The calls of transmit() since the last clear(). */
  function SinceClear(uses: seq<HeaderUse>): nat {
    if uses == [] || uses[|uses| - 1] == Clears then 0 else 1 + SinceClear(uses[..|uses| - 1])
  }

  /** Over any run, the next transmit() succeeds iff the header space has room for as many headers as there have been
      transmissions since the last clear(), and one more. alloc::SLIPRingDevice has no header space, so there it always
      fails. */
  lemma {:induction false} TransmitExact(headerSize: nat, uses: seq<HeaderUse>)
    ensures HeaderAfter(headerSize, uses) >= HEADER <==> HEADER * (SinceClear(uses) + 1) <= headerSize
    ensures HeaderAfter(headerSize, uses) ==
      if HEADER * SinceClear(uses) <= headerSize then headerSize - HEADER * SinceClear(uses) else headerSize % HEADER
    decreases |uses|
  {
    if uses == [] {
    } else {
      TransmitExact(headerSize, uses[..|uses| - 1]);
    }
  }
}
