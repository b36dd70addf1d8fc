/** The frame check sequence of net/eth/eth.h, CRC-32 with the lookup table of net/eth/crctable.c. */
module Crc32 {
  import opened Crc32Table
  import opened PolynomialDivision

  // ---------------------------------------------------------------- whole frames

  const ALL_ONES: bv32 := 0xFFFF_FFFF

  function FeedByte(c: bv32, b: bv8): bv32 {
    Steps(8, Xor(c, b as bv32))
  }

  /** The bit-serial register after the bytes of `data`. */
  function Register(c: bv32, data: seq<bv8>): bv32 {
    if data == [] then c else FeedByte(Register(c, data[..|data| - 1]), data[|data| - 1])
  }

  function Fcs(data: seq<bv8>): bv32 {
    Xor(Register(ALL_ONES, data), ALL_ONES)
  }

  /** Byte `k` of a word, counted from the least significant one. */
  function ByteOf(w: bv32, k: nat): bv8 {
    match k
    case 0 => (w & 0xFF) as bv8
    case 1 => ((w >> 8) & 0xFF) as bv8
    case 2 => ((w >> 16) & 0xFF) as bv8
    case _ => ((w >> 24) & 0xFF) as bv8
  }

  /** The four bytes of a word, most significant first: how hton32 leaves it in memory. */
  function BigEndian(w: bv32): seq<bv8> {
    [ByteOf(w, 3), ByteOf(w, 2), ByteOf(w, 1), ByteOf(w, 0)]
  }

  /** A word read from memory, most significant byte first. */
  function Read(b: seq<bv8>): bv32
    requires |b| == 4
  {
    ((b[0] as bv32) << 24) | ((b[1] as bv32) << 16) | ((b[2] as bv32) << 8) | (b[3] as bv32)
  }

  lemma ReadBack(w: bv32)
    ensures |BigEndian(w)| == 4 && Read(BigEndian(w)) == w
  {
  }

  function LittleEndian(w: bv32): seq<bv8> {
    [ByteOf(w, 0), ByteOf(w, 1), ByteOf(w, 2), ByteOf(w, 3)]
  }

  /** One table lookup does the work of eight shifts. */
  lemma TableStep(c: bv32, b: bv8)
    ensures FeedByte(c, b) == Xor(Entry(Xor(c, b as bv32) & 0xFF), c >> 8)
  {
    hide Steps, Xor, Entry;
    var x := Xor(c, b as bv32);
    Halves(c, b);
    TableIsEightSteps(x & 0xFF);
    StepsLinear(8, x & 0xFF, (c >> 8) << 8);
    ShiftBack(c >> 8);
  }

  lemma Halves(c: bv32, b: bv8)
    ensures var x := Xor(c, b as bv32);
      x & 0xFF < 256 && x == Xor(x & 0xFF, (c >> 8) << 8) && (c >> 8) < 0x100_0000
  {
  }

  function Half(w: bv32): bv32 {
    w >> 1
  }

  function Double(w: bv32): bv32 {
    w << 1
  }

  lemma StepEven(w: bv32)
    requires w < 0x8000_0000
    ensures Step(Double(w)) == w
  {
  }

  lemma EightDoubles(w: bv32)
    requires w < 0x100_0000
    ensures Double(Double(Double(Double(Double(Double(Double(Double(w)))))))) == w << 8
    ensures w < 0x8000_0000 && Double(w) < 0x8000_0000 && Double(Double(w)) < 0x8000_0000
    ensures Double(Double(Double(w))) < 0x8000_0000 && Double(Double(Double(Double(w)))) < 0x8000_0000
    ensures Double(Double(Double(Double(Double(w))))) < 0x8000_0000
    ensures Double(Double(Double(Double(Double(Double(w)))))) < 0x8000_0000
    ensures Double(Double(Double(Double(Double(Double(Double(w))))))) < 0x8000_0000
  {
  }

  /** Eight steps on zero bits only shift. */
  lemma ShiftBack(w: bv32)
    requires w < 0x100_0000
    ensures Steps(8, w << 8) == w
  {
    hide Step, Double;
    EightDoubles(w);
    var w1 := Double(w);
    var w2 := Double(w1);
    var w3 := Double(w2);
    var w4 := Double(w3);
    var w5 := Double(w4);
    var w6 := Double(w5);
    var w7 := Double(w6);
    StepEven(w7);
    StepEven(w6);
    StepEven(w5);
    StepEven(w4);
    StepEven(w3);
    StepEven(w2);
    StepEven(w1);
    StepEven(w);
    assert Steps(8, Double(w7)) == Steps(7, w7) == Steps(6, w6) == Steps(5, w5) == Steps(4, w4);
    assert Steps(4, w4) == Steps(3, w3) == Steps(2, w2) == Steps(1, w1) == Steps(0, w);
  }

  /** calculate_fcs: `stored` is what the returned word looks like in memory: the check sequence, most significant byte
      first. */
  method CalculateFcs(data: seq<bv8>) returns (stored: seq<bv8>)
    ensures stored == BigEndian(Fcs(data)) && |stored| == 4 && Read(stored) == Fcs(data)
  {
    hide Entry, FeedByte, Xor, BigEndian, Read;
    var crc := ALL_ONES;
    var i := 0;
    while i < |data|
      invariant i <= |data| && crc == Register(ALL_ONES, data[..i])
    {
      TableStep(crc, data[i]);
      assert data[..i + 1][..i] == data[..i];
      crc := Xor(Entry(Xor(crc, data[i] as bv32) & 0xFF), crc >> 8);
      i := i + 1;
    }
    assert data[..i] == data;
    crc := Xor(crc, ALL_ONES);
    stored := BigEndian(crc);
    ReadBack(crc);
  }

  // ---------------------------------------------------------------- the register as a polynomial

  /** The `n` lowest bits of `w`, lowest first: the order in which Ethernet sends a byte. */
  function LowBits(n: nat, w: bv32): (m: Poly)
    ensures |m| == n
  {
    if n == 0 then [] else [w & 1 == 1] + LowBits(n - 1, Half(w))
  }

  /** The shift register as a polynomial: its lowest bit is the coefficient of x^31. */
  function Bits(c: bv32): (p: Poly)
    ensures |p| == 32
  {
    LowBits(32, c)
  }

  /** `w` has only its `n` lowest bits set. */
  ghost predicate Below(n: nat, w: bv32) {
    if n == 0 then w == 0 else Below(n - 1, Half(w))
  }

  function Upper(w: bv32): bv32 {
    w >> 8
  }

  lemma EightHalves(w: bv32)
    ensures Half(Half(Half(Half(Half(Half(Half(Half(w)))))))) == Upper(w)
  {
  }

  lemma BelowByte(n: nat, w: bv32)
    ensures Below(n + 8, w) == Below(n, Upper(w))
  {
    hide Half, Upper;
    var h2 := Half(Half(w));
    var h4 := Half(Half(h2));
    var h6 := Half(Half(h4));
    EightHalves(w);
    assert Below(n + 8, w) == Below(n + 7, Half(w)) == Below(n + 6, h2) == Below(n + 5, Half(h2)) == Below(n + 4, h4);
    assert Below(n + 4, h4) == Below(n + 3, Half(h4)) == Below(n + 2, h6) == Below(n + 1, Half(h6));
    assert Below(n + 1, Half(h6)) == Below(n, Half(Half(h6)));
  }

  lemma ByteBelow(b: bv8)
    ensures Below(8, b as bv32)
  {
    BelowByte(0, b as bv32);
  }

  lemma WordBelow(c: bv32)
    ensures Below(32, c)
  {
    hide Below, Upper;
    BelowByte(24, c);
    BelowByte(16, Upper(c));
    BelowByte(8, Upper(Upper(c)));
    BelowByte(0, Upper(Upper(Upper(c))));
    NothingLeft(c);
  }

  lemma NothingLeft(c: bv32)
    ensures Below(0, Upper(Upper(Upper(Upper(c)))))
  {
  }

  lemma SplitLowest(w: bv32)
    ensures w == Xor(Bit(w & 1 == 1), Double(Half(w))) && Half(w) < 0x8000_0000
  {
  }

  lemma {:induction false} LowBitsInjective(n: nat, c: bv32, d: bv32)
    requires Below(n, c) && Below(n, d) && LowBits(n, c) == LowBits(n, d)
    ensures c == d
  {
    hide Xor, Bit, Double, Half;
    if n == 0 {
    } else {
      SplitLowest(c);
      SplitLowest(d);
      assert LowBits(n, c)[0] == (c & 1 == 1) && LowBits(n, d)[0] == (d & 1 == 1);
      assert LowBits(n, c)[1..] == LowBits(n - 1, Half(c)) && LowBits(n, d)[1..] == LowBits(n - 1, Half(d));
      LowBitsInjective(n - 1, Half(c), Half(d));
    }
  }

  lemma BitsInjective(c: bv32, d: bv32)
    requires Bits(c) == Bits(d)
    ensures c == d
  {
    WordBelow(c);
    WordBelow(d);
    LowBitsInjective(32, c, d);
  }

  lemma {:induction false} LowBitsEnd(n: nat, w: bv32)
    requires Below(n, w)
    ensures LowBits(n + 1, w) == LowBits(n, w) + [false]
  {
    hide Half;
    if n == 0 {
    } else {
      LowBitsEnd(n - 1, Half(w));
    }
  }

  lemma BitsHalf(c: bv32)
    ensures Bits(Half(c)) == Bits(c)[1..] + [false] && Bits(c)[0] == (c & 1 == 1)
  {
    hide Half;
    WordBelow(c);
    LowBitsEnd(31, Half(c));
  }

  lemma HalfXor(c: bv32, d: bv32)
    ensures Half(Xor(c, d)) == Xor(Half(c), Half(d))
    ensures (Xor(c, d) & 1 == 1) == ((c & 1 == 1) != (d & 1 == 1))
  {
    XorShift(c, d);
  }

  lemma {:induction false} LowBitsXor(n: nat, c: bv32, d: bv32)
    ensures LowBits(n, Xor(c, d)) == Plus(LowBits(n, c), LowBits(n, d))
  {
    hide Xor, Half;
    if n == 0 {
    } else {
      HalfXor(c, d);
      LowBitsXor(n - 1, Half(c), Half(d));
    }
  }

  lemma PolynomialBits8()
    ensures LowBits(8, 0xED) == [true, false, true, true, false, true, true, true]
  {
  }

  lemma PolynomialBits16()
    ensures LowBits(16, 0xEDB8) == [false, false, false, true, true, true, false, true]
      + [true, false, true, true, false, true, true, true]
  {
    PolynomialBits8();
  }

  lemma PolynomialBits24()
    ensures LowBits(24, 0xEDB883) == [true, true, false, false, false, false, false, true]
      + [false, false, false, true, true, true, false, true]
      + [true, false, true, true, false, true, true, true]
  {
    PolynomialBits16();
  }

  lemma PolynomialBits32()
    ensures LowBits(32, 0xEDB88320) == [false, false, false, false, false, true, false, false]
      + [true, true, false, false, false, false, false, true]
      + [false, false, false, true, true, true, false, true]
      + [true, false, true, true, false, true, true, true]
  {
    PolynomialBits24();
  }

  lemma BitsPolynomial()
    ensures Bits(POLYNOMIAL) == GENERATOR[1..]
  {
    hide LowBits;
    PolynomialBits32();
  }

  function Bit(b: bool): bv32 {
    if b then 1 else 0
  }

  lemma StepUnfolded(x: bv32)
    ensures Step(x) == if x & 1 == 1 then Xor(Half(x), POLYNOMIAL) else Half(x)
  {
  }

  lemma HalfBit(c: bv32, b: bool)
    ensures Half(Xor(c, Bit(b))) == Half(c)
    ensures (Xor(c, Bit(b)) & 1 == 1) == ((c & 1 == 1) != b)
  {
  }

  lemma StepCases(c: bv32, b: bool)
    ensures Step(Xor(c, Bit(b))) == if (c & 1 == 1) != b then Xor(Half(c), POLYNOMIAL) else Half(c)
  {
    hide Step, Xor, Half, Bit;
    StepUnfolded(Xor(c, Bit(b)));
    HalfBit(c, b);
  }

  /** A step of the register is a step of the division. */
  lemma StepBits(c: bv32, b: bool)
    ensures Bits(Step(Xor(c, Bit(b)))) == DivisionStep(Bits(c), b)
  {
    hide Step, Xor, Bit, LowBits, Half;
    StepCases(c, b);
    BitsHalf(c);
    LowBitsXor(32, Half(c), POLYNOMIAL);
    BitsPolynomial();
  }

  lemma {:induction false} FeedBits(n: nat, c: bv32, w: bv32)
    requires Below(n, w)
    ensures Bits(Steps(n, Xor(c, w))) == Remainder(Bits(c), LowBits(n, w))
  {
    hide Step, Xor, Bit, Bits, Half, Double, DivisionStep;
    if n == 0 {
      XorZero(c, c);
    } else {
      var b, h := Bit(w & 1 == 1), Half(w);
      SplitLowest(w);
      XorAssociative(c, b, Double(h));
      StepLinear(Xor(c, b), Double(h));
      StepEven(h);
      StepBits(c, w & 1 == 1);
      FeedBits(n - 1, Step(Xor(c, b)), h);
      var m := LowBits(n, w);
      assert m[0] == (w & 1 == 1) && m[1..] == LowBits(n - 1, h);
    }
  }

  /** The bits of a frame in the order in which they are sent. */
  function FrameBits(data: seq<bv8>): (m: Poly)
    ensures |m| == 8 * |data|
  {
    if data == [] then [] else FrameBits(data[..|data| - 1]) + LowBits(8, data[|data| - 1] as bv32)
  }

  lemma {:induction false} RemainderConcat(r: Poly, a: Poly, b: Poly)
    requires |r| == 32
    ensures Remainder(r, a + b) == Remainder(Remainder(r, a), b)
    decreases |a|
  {
    hide DivisionStep;
    if a == [] {
      assert a + b == b;
    } else {
      assert (a + b)[1..] == a[1..] + b;
      RemainderConcat(DivisionStep(r, a[0]), a[1..], b);
    }
  }

  lemma {:induction false} RegisterIsRemainder(c: bv32, data: seq<bv8>)
    ensures Bits(Register(c, data)) == Remainder(Bits(c), FrameBits(data))
  {
    hide Bits, LowBits, Below, Steps, Remainder, Xor;
    if data == [] {
      RemainderNothing(Bits(c));
    } else {
      var rest, b := data[..|data| - 1], data[|data| - 1];
      RegisterIsRemainder(c, rest);
      ByteBelow(b);
      FeedBits(8, Register(c, rest), b as bv32);
      RemainderConcat(Bits(c), FrameBits(rest), LowBits(8, b as bv32));
    }
  }

  lemma RemainderNothing(r: Poly)
    requires |r| == 32
    ensures Remainder(r, []) == r
  {
  }

  /** The frame with its first 32 bits complemented, times x^32. */
  function Complemented(data: seq<bv8>): Poly {
    Dividend(Bits(ALL_ONES), FrameBits(data))
  }

  /** The standard's definition: divide that by the generator; the complement of the remainder is the FCS, and it is
      the only word of which this is true. */
  lemma FcsIsComplementedRemainder(data: seq<bv8>, fcs: bv32)
    ensures fcs == Fcs(data) <==>
      exists q: Poly :: |q| == 8 * |data| &&
        Complemented(data) == Plus(Times(q), Zeros(8 * |data|) + Bits(Xor(fcs, ALL_ONES)))
  {
    hide Bits, Times, Plus, Dividend, Register, FrameBits, Xor;
    var m, r, c := FrameBits(data), Bits(ALL_ONES), Register(ALL_ONES, data);
    Division(r, m);
    RegisterIsRemainder(ALL_ONES, data);
    XorTwice(c, ALL_ONES);
    XorTwice(fcs, ALL_ONES);
    forall q: Poly | |q| == |m| && Dividend(r, m) == Plus(Times(q), Zeros(|m|) + Bits(Xor(fcs, ALL_ONES)))
      ensures fcs == Fcs(data)
    {
      DivisionUnique(q, Bits(Xor(fcs, ALL_ONES)), Quotient(r, m), Bits(c));
      BitsInjective(Xor(fcs, ALL_ONES), c);
    }
  }

  lemma XorTwice(a: bv32, b: bv32)
    ensures Xor(Xor(a, b), b) == a
  {
  }
}
