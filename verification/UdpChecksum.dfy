/** The UDP checksum of net/udp/udp.h: a 32-bit sum with deferred carries, against the word by word one's complement
    sum of section 2 of RFC 1071 over the words that RFC 768 names. */
module UdpChecksum {
  import opened Bytes

  const WRAP: nat := 0x1_0000_0000  // uint32_t
  const UDP_PROTO: Byte := 0x11
  const MAX_PAYLOAD: nat := 65535   // what the 16 bits of the length field allow

  // ---------------------------------------------------------------- the definition

  type Word = w: nat | w <= 0xFFFF

  /** A big-endian word. */
  function Pair(high: Byte, low: Byte): (w: Word)
    ensures w == 256 * (high as nat) + low as nat
  {
    256 * (high as nat) + low as nat
  }

  /** The bytes as big-endian words; an odd last byte is padded with a zero. */
  function Words(b: seq<Byte>): seq<Word> {
    if b == [] then [] else if |b| == 1 then [Pair(b[0], 0)] else [Pair(b[0], b[1])] + Words(b[2..])
  }

  /** One's complement addition: the carry goes around to the low end. */
  function EndAround(a: Word, b: Word): Word {
    if a + b > 0xFFFF then a + b - 0xFFFF else a + b
  }

  function OnesSum(ws: seq<Word>): Word {
    if ws == [] then 0 else EndAround(OnesSum(ws[..|ws| - 1]), ws[|ws| - 1])
  }

  /** The pseudo header, the UDP header and the data. */
  function Covered(header: seq<Byte>, src: seq<Byte>, dst: seq<Byte>, payload: seq<Byte>): seq<Byte>
    requires |header| == 8
  {
    src + dst + [0, UDP_PROTO] + header[4..6] + header + payload
  }

  function Checksum(header: seq<Byte>, src: seq<Byte>, dst: seq<Byte>, payload: seq<Byte>): Word
    requires |header| == 8
  {
    0xFFFF - OnesSum(Words(Covered(header, src, dst, payload)))
  }

  // ---------------------------------------------------------------- sums

  /** What the loops add up: even bytes are high ones. */
  function ByteSum(b: seq<Byte>): nat {
    if b == [] then 0
    else ByteSum(b[..|b| - 1]) + (if |b| % 2 == 0 then b[|b| - 1] else Pair(b[|b| - 1], 0))
  }

  function Total(header: seq<Byte>, src: seq<Byte>, dst: seq<Byte>, payload: seq<Byte>): nat
    requires |header| == 8
  {
    ByteSum(payload) + ByteSum(src) + ByteSum(dst) + ByteSum(header) + UDP_PROTO + Pair(header[4], header[5])
  }

  function Sum(ws: seq<Word>): nat {
    if ws == [] then 0 else Sum(ws[..|ws| - 1]) + ws[|ws| - 1]
  }

  /** The representative of `t` modulo 65535 that end-around addition arrives at: 0 for 0 only. */
  function Canon(t: nat): (w: Word)
    ensures w % 0xFFFF == t % 0xFFFF && (w == 0 <==> t == 0)
  {
    if t == 0 then 0 else 1 + (t - 1) % 0xFFFF
  }

  lemma CanonUnique(t: nat, w: Word)
    requires w % 0xFFFF == t % 0xFFFF && (w == 0 <==> t == 0)
    ensures w == Canon(t)
  {
  }

  lemma {:induction false} OnesSumIsSum(ws: seq<Word>)
    ensures OnesSum(ws) == Canon(Sum(ws))
  {
    if ws == [] {
    } else {
      var rest := ws[..|ws| - 1];
      OnesSumIsSum(rest);
      CanonUnique(Sum(ws), OnesSum(ws));
    }
  }

  lemma {:induction false} ByteSumConcat(a: seq<Byte>, b: seq<Byte>)
    requires |a| % 2 == 0
    ensures ByteSum(a + b) == ByteSum(a) + ByteSum(b)
  {
    if b == [] {
      assert a + b == a;
    } else {
      assert (a + b)[..|a + b| - 1] == a + b[..|b| - 1];
      ByteSumConcat(a, b[..|b| - 1]);
    }
  }

  lemma {:induction false} SumConcat(a: seq<Word>, b: seq<Word>)
    ensures Sum(a + b) == Sum(a) + Sum(b)
  {
    if b == [] {
      assert a + b == a;
    } else {
      assert (a + b)[..|a + b| - 1] == a + b[..|b| - 1];
      SumConcat(a, b[..|b| - 1]);
    }
  }

  lemma SumOne(w: Word)
    ensures Sum([w]) == w
  {
    assert [w][..0] == [];
  }

  lemma ByteSumTwo(x: Byte, y: Byte)
    ensures ByteSum([x, y]) == Pair(x, y) && ByteSum([x]) == Pair(x, 0)
  {
    assert [x, y][..1] == [x] && [x][..0] == [];
    assert ByteSum([]) == 0 && ByteSum([x]) == ByteSum([x][..0]) + Pair(x, 0);
  }

  lemma {:induction false} WordsSum(b: seq<Byte>)
    ensures Sum(Words(b)) == ByteSum(b)
    decreases |b|
  {
    if b == [] {
    } else if |b| == 1 {
      SumOne(Pair(b[0], 0));
      ByteSumTwo(b[0], 0);
      assert b == [b[0]];
    } else {
      WordsSum(b[2..]);
      assert b == [b[0], b[1]] + b[2..];
      ByteSumConcat([b[0], b[1]], b[2..]);
      ByteSumTwo(b[0], b[1]);
      SumConcat([Pair(b[0], b[1])], Words(b[2..]));
      SumOne(Pair(b[0], b[1]));
    }
  }

  /** The code adds up exactly the words that are covered. */
  lemma TotalIsSum(header: seq<Byte>, src: seq<Byte>, dst: seq<Byte>, payload: seq<Byte>)
    requires |header| == 8 && |src| == |dst| == 4
    ensures Total(header, src, dst, payload) == Sum(Words(Covered(header, src, dst, payload)))
  {
    WordsSum(Covered(header, src, dst, payload));
    ByteSumConcat(src + dst + [0, UDP_PROTO] + header[4..6] + header, payload);
    ByteSumConcat(src + dst + [0, UDP_PROTO] + header[4..6], header);
    ByteSumConcat(src + dst + [0, UDP_PROTO], header[4..6]);
    ByteSumConcat(src + dst, [0, UDP_PROTO]);
    ByteSumConcat(src, dst);
    assert header[4..6] == [header[4], header[5]];
    ByteSumTwo(header[4], header[5]);
    ByteSumTwo(0, UDP_PROTO);
  }

  lemma {:induction false} ByteSumBound(b: seq<Byte>)
    ensures ByteSum(b) <= 0xFF00 * |b|
  {
    if b == [] {
    } else {
      ByteSumBound(b[..|b| - 1]);
    }
  }

  /** A payload of up to 65535 bytes does not overflow the 32-bit sum. */
  lemma NoOverflow(header: seq<Byte>, src: seq<Byte>, dst: seq<Byte>, payload: seq<Byte>)
    requires |header| == 8 && |src| == |dst| == 4 && |payload| <= MAX_PAYLOAD
    ensures 0 < Total(header, src, dst, payload) < WRAP
  {
    ByteSumBound(header);
    ByteSumBound(src);
    ByteSumBound(dst);
    ByteSumBound(payload);
  }

  // ---------------------------------------------------------------- the code

  /** uint32_t arithmetic. */
  function Wrapped(t: nat): (w: nat)
    ensures w < WRAP && (t < WRAP ==> w == t)
  {
    t % WRAP
  }

  function Add(sum: nat, b: nat): nat {
    Wrapped(sum + b)
  }

  lemma AddWrapped(t: nat, b: nat)
    ensures Add(Wrapped(t), b) == Wrapped(t + b)
  {
  }

  /** One of the four loops; `t` is the exact sum before it. */
  method AddBytes(start: nat, bytes: seq<Byte>, ghost t: nat) returns (sum: nat)
    requires start == Wrapped(t)
    ensures sum == Wrapped(t + ByteSum(bytes))
  {
    hide Wrapped, Add;
    sum := start;
    for i := 0 to |bytes|
      invariant sum == Wrapped(t + ByteSum(bytes[..i]))
    {
      assert bytes[..i + 1][..i] == bytes[..i];
      var b: Word;
      if i % 2 == 1 {
        b := Pair(0, bytes[i]);  // second byte of a word
      } else {
        b := Pair(bytes[i], 0);  // first byte of a word
      }
      AddWrapped(t + ByteSum(bytes[..i]), b);
      sum := Add(sum, b);
    }
    assert bytes[..|bytes|] == bytes;
  }

  /** The loop that folds the carries in. */
  method FoldCarries(total: nat) returns (sum: nat)
    requires total < WRAP
    ensures sum == Canon(total)
  {
    sum := total;
    while sum / 0x10000 != 0
      invariant sum % 0xFFFF == total % 0xFFFF && (sum == 0 <==> total == 0)
      decreases sum
    {
      FoldStep(sum);
      sum := sum % 0x10000 + sum / 0x10000;
    }
    CanonUnique(total, sum);
  }

  lemma FoldStep(sum: nat)
    requires sum >= 0x10000
    ensures var s := sum % 0x10000 + sum / 0x10000; 0 < s < sum && s % 0xFFFF == sum % 0xFFFF
  {
    var q, r := sum / 0x10000, sum % 0x10000;
    assert sum == (r + q) + 0xFFFF * q;
  }

  /** A word as hton16 leaves it in memory. */
  function NetworkOrder(w: Word): seq<Byte> {
    [w / 256, w % 256]
  }

  /** checksum(): for every payload that UDP allows, of odd or even length, it is the RFC's. */
  method ComputeChecksum(header: seq<Byte>, src: seq<Byte>, dst: seq<Byte>, payload: seq<Byte>)
    returns (stored: seq<Byte>)
    requires |header| == 8 && |src| == |dst| == 4
    ensures |payload| <= MAX_PAYLOAD ==> stored == NetworkOrder(Checksum(header, src, dst, payload))
    ensures stored == NetworkOrder(0xFFFF - Canon(Wrapped(Total(header, src, dst, payload))))
  {
    hide ByteSum, OnesSum, Words, Sum, Covered, Canon, NetworkOrder, Pair, Wrapped, Add;
    ghost var t := 0;
    var sum := AddBytes(0, payload, t);
    t := t + ByteSum(payload);
    sum := AddBytes(sum, src, t);
    t := t + ByteSum(src);
    sum := AddBytes(sum, dst, t);
    t := t + ByteSum(dst);
    sum := AddBytes(sum, header, t);
    t := t + ByteSum(header);
    AddWrapped(t, UDP_PROTO);
    AddWrapped(t + UDP_PROTO, Pair(header[4], header[5]));
    sum := Add(sum, UDP_PROTO);
    sum := Add(sum, Pair(header[4], header[5]));
    assert sum == Wrapped(Total(header, src, dst, payload));
    sum := FoldCarries(sum);
    stored := NetworkOrder(0xFFFF - sum);
    if |payload| <= MAX_PAYLOAD {
      NoOverflow(header, src, dst, payload);
      TotalIsSum(header, src, dst, payload);
      OnesSumIsSum(Words(Covered(header, src, dst, payload)));
    }
  }

  // ---------------------------------------------------------------- what it is for

  /** A receiver adds up everything, the checksum included, and expects 0xFFFF. Of all values of the field, that is
      true of the checksum only, except that 0 and 0xFFFF are the same to it. */
  lemma ReceiverAccepts(header: seq<Byte>, src: seq<Byte>, dst: seq<Byte>, payload: seq<Byte>, field: Word)
    requires |header| == 8 && |src| == |dst| == 4 && header[6] == header[7] == 0
    ensures var c := Checksum(header, src, dst, payload);
      OnesSum(Words(Covered(header[..6] + NetworkOrder(field), src, dst, payload))) == 0xFFFF
      <==> field == c || (c == 0 && field == 0xFFFF)
  {
    var header' := header[..6] + NetworkOrder(field);
    TotalIsSum(header, src, dst, payload);
    TotalIsSum(header', src, dst, payload);
    OnesSumIsSum(Words(Covered(header, src, dst, payload)));
    OnesSumIsSum(Words(Covered(header', src, dst, payload)));
    FieldSum(header, field);
    var t, t' := Total(header, src, dst, payload), Total(header', src, dst, payload);
    assert t' == t + field;
    CanonAdd(t, field);
  }

  lemma FieldSum(header: seq<Byte>, field: Word)
    requires |header| == 8 && header[6] == header[7] == 0
    ensures ByteSum(header[..6] + NetworkOrder(field)) == ByteSum(header) + field
  {
    ByteSumConcat(header[..6], NetworkOrder(field));
    ByteSumConcat(header[..6], [0, 0]);
    ByteSumTwo(field / 256, field % 256);
    ByteSumTwo(0, 0);
    assert header == header[..6] + [0, 0];
  }

  lemma CanonAdd(t: nat, field: Word)
    requires t > 0
    ensures Canon(t + field) == 0xFFFF
      <==> field == 0xFFFF - Canon(t) || (Canon(t) == 0xFFFF && field == 0xFFFF)
  {
  }

  /** RFC 768 has a computed zero sent as all ones, because zero stands for no checksum. */
  function Transmitted(c: Word): Word {
    if c == 0 then 0xFFFF else c
  }

  /** The code does not do that; it sends what the RFC asks for iff the sum is no multiple of 65535. */
  lemma ZeroExact(header: seq<Byte>, src: seq<Byte>, dst: seq<Byte>, payload: seq<Byte>)
    requires |header| == 8 && |src| == |dst| == 4
    ensures Checksum(header, src, dst, payload) == Transmitted(Checksum(header, src, dst, payload))
      <==> Total(header, src, dst, payload) % 0xFFFF != 0
    ensures Checksum(header, src, dst, payload) == 0 ==> Transmitted(Checksum(header, src, dst, payload)) == 0xFFFF
  {
    TotalIsSum(header, src, dst, payload);
    OnesSumIsSum(Words(Covered(header, src, dst, payload)));
  }

  lemma ByteSumFour(a: Byte, b: Byte, c: Byte, d: Byte)
    ensures ByteSum([a, b, c, d]) == Pair(a, b) + Pair(c, d)
  {
    assert [a, b, c, d] == [a, b] + [c, d];
    ByteSumConcat([a, b], [c, d]);
    ByteSumTwo(a, b);
    ByteSumTwo(c, d);
  }

  /** An empty datagram, 8 bytes long, with the sum 65535. */
  lemma ZeroExample(header: seq<Byte>, src: seq<Byte>, dst: seq<Byte>)
    requires header == [0, 0, 0, 0] + [0, 8, 0, 0] && src == [0xFF, 0xDE, 0, 0] && dst == [0, 0, 0, 0]
    ensures Checksum(header, src, dst, []) == 0
  {
    hide ByteSum, Words, OnesSum, Sum, Covered;
    TotalIsSum(header, src, dst, []);
    OnesSumIsSum(Words(Covered(header, src, dst, [])));
    NoBytes();
    ByteSumConcat([0, 0, 0, 0], [0, 8, 0, 0]);
    ByteSumFour(0, 0, 0, 0);
    ByteSumFour(0, 8, 0, 0);
    ByteSumFour(0xFF, 0xDE, 0, 0);
  }

  lemma NoBytes()
    ensures ByteSum([]) == 0
  {
  }
}
