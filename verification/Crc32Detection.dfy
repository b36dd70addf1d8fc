/** What the frame check sequence is for: the errors it detects, and how a receiver recognises it. */
module Crc32Detection {
  import opened Crc32Table
  import opened Crc32

  lemma {:induction false} RegisterConcat(c: bv32, a: seq<bv8>, b: seq<bv8>)
    ensures Register(c, a + b) == Register(Register(c, a), b)
  {
    hide FeedByte;
    if b == [] {
      assert a + b == a;
    } else {
      assert (a + b)[..|a + b| - 1] == a + b[..|b| - 1];
      RegisterConcat(c, a, b[..|b| - 1]);
    }
  }

  /** A difference in the register never goes away. */
  lemma {:induction false} RegisterInjective(c: bv32, d: bv32, data: seq<bv8>)
    requires Register(c, data) == Register(d, data)
    ensures c == d
  {
    hide Steps, Xor;
    if data == [] {
    } else {
      var rest, b := data[..|data| - 1], data[|data| - 1] as bv32;
      StepsInjective(8, Xor(Register(c, rest), b), Xor(Register(d, rest), b));
      XorCancels(Register(c, rest), Register(d, rest), b);
      RegisterInjective(c, d, rest);
    }
  }

  lemma XorCancels(a: bv32, b: bv32, c: bv32)
    ensures Xor(a, c) == Xor(b, c) <==> a == b
    ensures Xor(c, a) == Xor(c, b) <==> a == b
  {
  }

  // ---------------------------------------------------------------- up to four bytes as a word

  function Place(k: nat, x: bv8): bv32 {
    match k
    case 0 => x as bv32
    case 1 => (x as bv32) << 8
    case 2 => (x as bv32) << 16
    case _ => (x as bv32) << 24
  }

  /** The bytes of a word, least significant first. */
  function Word(a: seq<bv8>): bv32 {
    if a == [] then 0 else Xor(Word(a[..|a| - 1]), Place(|a| - 1, a[|a| - 1]))
  }

  lemma PlaceDown(k: nat, x: bv8)
    requires 0 < k < 4
    ensures Place(k, x) == Place(k - 1, x) << 8 && Place(k - 1, x) < 0x100_0000
  {
  }

  lemma {:induction false} PlaceBack(k: nat, x: bv8)
    requires k < 4
    ensures Steps(8 * k, Place(k, x)) == x as bv32
  {
    hide Steps;
    if k == 0 {
      NoSteps(Place(k, x));
    } else {
      PlaceDown(k, x);
      ShiftBack(Place(k - 1, x));
      StepsAdd(8, 8 * (k - 1), Place(k, x));
      PlaceBack(k - 1, x);
    }
  }

  lemma NoSteps(c: bv32)
    ensures Steps(0, c) == c
  {
  }

  /** Up to four bytes can be fed to the register all at once. */
  lemma {:induction false} FeedWord(c: bv32, a: seq<bv8>)
    requires |a| <= 4
    ensures Register(c, a) == Steps(8 * |a|, Xor(c, Word(a)))
  {
    hide Steps, Xor, Place;
    if a == [] {
      NoSteps(c);
      XorZero(c, c);
    } else {
      var rest, x, k := a[..|a| - 1], a[|a| - 1], |a| - 1;
      FeedWord(c, rest);
      PlaceBack(k, x);
      StepsLinear(8 * k, Xor(c, Word(rest)), Place(k, x));
      XorAssociative(c, Word(rest), Place(k, x));
      StepsAdd(8 * k, 8, Xor(c, Word(a)));
    }
  }

  function Limit(k: nat): bv32 {
    match k
    case 0 => 0
    case 1 => 0xFF
    case 2 => 0xFFFF
    case 3 => 0xFF_FFFF
    case _ => 0xFFFF_FFFF
  }

  lemma PlaceAbove(k: nat, u: bv32, x: bv8)
    requires k < 4 && u <= Limit(k)
    ensures Xor(u, Place(k, x)) <= Limit(k + 1)
  {
  }

  function Low(k: nat, w: bv32): bv32 {
    w & Limit(k)
  }

  lemma LowPart(k: nat, u: bv32, x: bv8)
    requires k < 4 && u <= Limit(k)
    ensures Low(k, Xor(u, Place(k, x))) == u
  {
  }

  lemma PlaceInjective(k: nat, x: bv8, y: bv8)
    requires k < 4 && Place(k, x) == Place(k, y)
    ensures x == y
  {
  }

  lemma WordNothing()
    ensures Word([]) <= Limit(0)
  {
  }

  lemma {:induction false} WordLimit(a: seq<bv8>)
    requires |a| <= 4
    ensures Word(a) <= Limit(|a|)
  {
    hide Xor, Place, Limit;
    if a == [] {
      WordNothing();
    } else {
      var k := |a| - 1;
      WordLimit(a[..k]);
      PlaceAbove(k, Word(a[..k]), a[k]);
    }
  }

  lemma WordStep(a: seq<bv8>)
    requires a != []
    ensures var k := |a| - 1; Word(a) == Xor(Word(a[..k]), Place(k, a[k]))
  {
  }

  lemma LastByteInjective(k: nat, u: bv32, x: bv8, v: bv32, y: bv8)
    requires k < 4 && u <= Limit(k) && v <= Limit(k) && Xor(u, Place(k, x)) == Xor(v, Place(k, y))
    ensures u == v && x == y
  {
    hide Xor, Place, Limit, Low;
    LowPart(k, u, x);
    LowPart(k, v, y);
    XorCancels(Place(k, x), Place(k, y), u);
    PlaceInjective(k, x, y);
  }

  lemma WordDetermines(a: seq<bv8>, b: seq<bv8>)
    requires |a| == |b| <= 4 && a != [] && Word(a) == Word(b)
    ensures var k := |a| - 1; Word(a[..k]) == Word(b[..k]) && a[k] == b[k]
  {
    hide Xor, Place, Limit, Word;
    var k := |a| - 1;
    WordStep(a);
    WordStep(b);
    WordLimit(a[..k]);
    WordLimit(b[..k]);
    LastByteInjective(k, Word(a[..k]), a[k], Word(b[..k]), b[k]);
  }

  lemma {:induction false} WordInjective(a: seq<bv8>, b: seq<bv8>)
    requires |a| == |b| <= 4 && Word(a) == Word(b)
    ensures a == b
  {
    hide Word;
    if a == [] {
    } else {
      var k := |a| - 1;
      WordDetermines(a, b);
      WordInjective(a[..k], b[..k]);
      assert a == a[..k] + [a[k]] && b == b[..k] + [b[k]];
    }
  }

  // ---------------------------------------------------------------- what is detected

  lemma WindowInjective(c: bv32, a: seq<bv8>, b: seq<bv8>)
    requires |a| == |b| <= 4 && Register(c, a) == Register(c, b)
    ensures a == b
  {
    hide Steps, Xor, Word;
    FeedWord(c, a);
    FeedWord(c, b);
    StepsInjective(8 * |a|, Xor(c, Word(a)), Xor(c, Word(b)));
    XorCancels(Word(a), Word(b), c);
    WordInjective(a, b);
  }

  /** Frames that differ within four consecutive bytes only have different check sequences. */
  lemma BurstDetected(before: seq<bv8>, a: seq<bv8>, b: seq<bv8>, rest: seq<bv8>)
    requires |a| == |b| <= 4
    ensures Fcs(before + a + rest) == Fcs(before + b + rest) <==> a == b
  {
    hide Register, Xor;
    if Fcs(before + a + rest) == Fcs(before + b + rest) {
      var c := Register(ALL_ONES, before);
      XorCancels(Register(ALL_ONES, before + a + rest), Register(ALL_ONES, before + b + rest), ALL_ONES);
      RegisterConcat(ALL_ONES, before + a, rest);
      RegisterConcat(ALL_ONES, before + b, rest);
      RegisterConcat(ALL_ONES, before, a);
      RegisterConcat(ALL_ONES, before, b);
      RegisterInjective(Register(c, a), Register(c, b), rest);
      WindowInjective(c, a, b);
    }
  }

  // ---------------------------------------------------------------- the receiver

  /** What an Ethernet receiver finds in its register after a good frame with its FCS. */
  const RESIDUE: bv32 := 0xDEBB_20E3

  lemma ResidueBytes()
    ensures Steps(8, 0xFFFF_FFFF) == 0x2DFD_1072
    ensures Steps(8, 0x2DFD_1072) == 0xBE26_ED00
    ensures Steps(8, 0x00BE_26ED) == 0xDEBB_20E3
  {
  }

  lemma ResidueValue()
    ensures Steps(32, ALL_ONES) == RESIDUE
  {
    hide Steps;
    ResidueBytes();
    ShiftBack(0x00BE_26ED);
    assert (0x00BE_26ED as bv32) << 8 == 0xBE26_ED00;
    StepsAdd(8, 24, 0xFFFF_FFFF);
    StepsAdd(8, 16, 0x2DFD_1072);
    StepsAdd(8, 8, 0xBE26_ED00);
  }

  lemma LittleEndianWord(w: bv32)
    ensures |LittleEndian(w)| == 4 && Word(LittleEndian(w)) == w
  {
    hide Xor, Place, ByteOf, Low, Word;
    var a := LittleEndian(w);
    assert a[..3][..2] == a[..2] && a[..2][..1] == a[..1] && a[..1][..0] == [];
    WordStep(a);
    WordStep(a[..3]);
    WordStep(a[..2]);
    WordStep(a[..1]);
    LowEnds(w);
    LowByte0(w);
    LowByte1(w);
    LowByte2(w);
    LowByte3(w);
  }

  lemma LowEnds(w: bv32)
    ensures Word([]) == Low(0, w) && Low(4, w) == w
  {
  }

  lemma LowByte0(w: bv32)
    ensures Xor(Low(0, w), Place(0, ByteOf(w, 0))) == Low(1, w)
  {
  }

  lemma LowByte1(w: bv32)
    ensures Xor(Low(1, w), Place(1, ByteOf(w, 1))) == Low(2, w)
  {
  }

  lemma LowByte2(w: bv32)
    ensures Xor(Low(2, w), Place(2, ByteOf(w, 2))) == Low(3, w)
  {
  }

  lemma LowByte3(w: bv32)
    ensures Xor(Low(3, w), Place(3, ByteOf(w, 3))) == Low(4, w)
  {
  }

  lemma XorOnes(c: bv32)
    ensures Xor(c, Xor(c, ALL_ONES)) == ALL_ONES
  {
  }

  /** The receiver accepts a frame iff it is followed by the FCS, least significant byte first. */
  lemma ReceiverAccepts(data: seq<bv8>, trailer: seq<bv8>)
    requires |trailer| == 4
    ensures Register(ALL_ONES, data + trailer) == RESIDUE <==> trailer == LittleEndian(Fcs(data))
  {
    hide Register, Steps, Xor, LittleEndian;
    var c, good := Register(ALL_ONES, data), LittleEndian(Fcs(data));
    RegisterConcat(ALL_ONES, data, trailer);
    LittleEndianWord(Fcs(data));
    FeedWord(c, good);
    XorOnes(c);
    ResidueValue();
    if Register(c, trailer) == Register(c, good) {
      WindowInjective(c, trailer, good);
    }
  }

  lemma Palindrome(w: bv32)
    ensures BigEndian(w) == LittleEndian(w) <==> ByteOf(w, 0) == ByteOf(w, 3) && ByteOf(w, 1) == ByteOf(w, 2)
  {
    hide ByteOf;
    if BigEndian(w) == LittleEndian(w) {
      assert BigEndian(w)[0] == LittleEndian(w)[0] && BigEndian(w)[1] == LittleEndian(w)[1];
    }
  }

  /** The word calculate_fcs returns holds these bytes the other way round, so a receiver accepts it exactly when the
      FCS reads the same from both ends. */
  lemma StoredOrderExact(data: seq<bv8>)
    ensures var fcs := Fcs(data);
      Register(ALL_ONES, data + BigEndian(fcs)) == RESIDUE <==>
      ByteOf(fcs, 0) == ByteOf(fcs, 3) && ByteOf(fcs, 1) == ByteOf(fcs, 2)
  {
    hide ByteOf, Register, Fcs;
    ReceiverAccepts(data, BigEndian(Fcs(data)));
    Palindrome(Fcs(data));
  }

  /** For the frame that consists of the byte 0x61 it does not. */
  lemma StoredOrderFails()
    ensures BigEndian(Fcs([0x61])) == [0xE8, 0xB7, 0xBE, 0x43]
    ensures Register(ALL_ONES, [0x61] + BigEndian(Fcs([0x61]))) != RESIDUE
  {
    var data: seq<bv8> := [0x61];
    assert data[..0] == [];
    assert Steps(8, 0xFFFF_FF9E) == 0x1748_41BC;
    assert Fcs(data) == 0xE8B7_BE43;
    FourBytes();
    StoredOrderExact(data);
  }

  lemma FourBytes()
    ensures BigEndian(0xE8B7_BE43) == [0xE8, 0xB7, 0xBE, 0x43]
  {
  }

  // ---------------------------------------------------------------- which frames are accepted in the stored order

  function Raised(c: bv32): bv32 {
    ((c ^ POLYNOMIAL) << 1) | 1
  }

  function High(c: bv32): bool {
    c & 0x8000_0000 != 0
  }

  /** The register backwards. */
  function Unstep(c: bv32): bv32 {
    if High(c) then Raised(c) else Double(c)
  }

  function Unsteps(n: nat, c: bv32): bv32 {
    if n == 0 then c else Unstep(Unsteps(n - 1, c))
  }

  lemma RaisedBits(c: bv32)
    requires High(c)
    ensures Raised(c) & 1 == 1 && Xor(Half(Raised(c)), POLYNOMIAL) == c
  {
  }

  lemma LowIsSmall(c: bv32)
    ensures !High(c) ==> c < 0x8000_0000
  {
  }

  lemma StepUnstep(c: bv32)
    ensures Step(Unstep(c)) == c
  {
    hide Step, Raised, High, Double, Half, Xor;
    if High(c) {
      RaisedBits(c);
      StepUnfolded(Raised(c));
    } else {
      LowIsSmall(c);
      StepEven(c);
    }
  }

  lemma {:induction false} StepsUnsteps(n: nat, c: bv32)
    ensures Steps(n, Unsteps(n, c)) == c
  {
    hide Step, Unstep;
    if n == 0 {
    } else {
      StepUnstep(Unsteps(n - 1, c));
      StepsUnsteps(n - 1, c);
    }
  }

  /** The register before `data` for which it is `c` afterwards. */
  function Before(c: bv32, data: seq<bv8>): bv32
    decreases |data|
  {
    if data == [] then c else Before(Xor(Unsteps(8, c), data[|data| - 1] as bv32), data[..|data| - 1])
  }

  lemma {:induction false} RegisterBefore(c: bv32, data: seq<bv8>)
    ensures Register(Before(c, data), data) == c
    decreases |data|
  {
    hide Steps, Unsteps, Xor;
    if data == [] {
    } else {
      var rest, b := data[..|data| - 1], data[|data| - 1] as bv32;
      RegisterBefore(Xor(Unsteps(8, c), b), rest);
      XorTwice(Unsteps(8, c), b);
      StepsUnsteps(8, c);
    }
  }

  /** The four bytes between `before` and `rest` that give the frame the check sequence `fcs`. */
  function Filling(before: seq<bv8>, rest: seq<bv8>, fcs: bv32): seq<bv8> {
    LittleEndian(Xor(Unsteps(32, Before(Xor(fcs, ALL_ONES), rest)), Register(ALL_ONES, before)))
  }

  /** There is exactly one such filling for every check sequence. */
  lemma FillingExact(before: seq<bv8>, a: seq<bv8>, rest: seq<bv8>, fcs: bv32)
    requires |a| == 4
    ensures Fcs(before + a + rest) == fcs <==> a == Filling(before, rest, fcs)
  {
    hide Register, Before, Steps, Unsteps, Xor, LittleEndian;
    var c, d := Register(ALL_ONES, before), Before(Xor(fcs, ALL_ONES), rest);
    var f := Filling(before, rest, fcs);
    LittleEndianWord(Xor(Unsteps(32, d), c));
    FeedWord(c, f);
    XorSwap(c, Unsteps(32, d));
    StepsUnsteps(32, d);
    RegisterBefore(Xor(fcs, ALL_ONES), rest);
    RegisterConcat(ALL_ONES, before + f, rest);
    RegisterConcat(ALL_ONES, before, f);
    XorTwice(fcs, ALL_ONES);
    BurstDetected(before, a, f, rest);
  }

  lemma XorSwap(c: bv32, u: bv32)
    ensures Xor(c, Xor(u, c)) == u
  {
  }

  /** The word that reads `low`, `high`, `high`, `low`. */
  function Mirror(low: bv8, high: bv8): bv32 {
    (low as bv32) | ((high as bv32) << 8) | ((high as bv32) << 16) | ((low as bv32) << 24)
  }

  lemma MirrorExact(w: bv32)
    ensures ByteOf(w, 0) == ByteOf(w, 3) && ByteOf(w, 1) == ByteOf(w, 2) <==>
      exists low: bv8, high: bv8 :: w == Mirror(low, high)
  {
    if ByteOf(w, 0) == ByteOf(w, 3) && ByteOf(w, 1) == ByteOf(w, 2) {
      MirrorOf(w);
    }
    forall low: bv8, high: bv8 | w == Mirror(low, high) ensures ByteOf(w, 0) == ByteOf(w, 3) && ByteOf(w, 1) == ByteOf(w, 2) {
      MirrorBytes(low, high);
    }
  }

  lemma MirrorOf(w: bv32)
    requires ByteOf(w, 0) == ByteOf(w, 3) && ByteOf(w, 1) == ByteOf(w, 2)
    ensures w == Mirror(ByteOf(w, 0), ByteOf(w, 1))
  {
    hide ByteOf, Mirror, Word;
    var m := Mirror(ByteOf(w, 0), ByteOf(w, 1));
    MirrorBytes(ByteOf(w, 0), ByteOf(w, 1));
    LittleEndianWord(w);
    LittleEndianWord(m);
    assert LittleEndian(w) == LittleEndian(m);
  }

  lemma MirrorBytes(low: bv8, high: bv8)
    ensures var w := Mirror(low, high); ByteOf(w, 0) == ByteOf(w, 3) == low && ByteOf(w, 1) == ByteOf(w, 2) == high
  {
  }

  /** So of the 2^32 ways to fill four bytes of a frame, exactly the 2^16 fillings below are accepted with the check
      sequence in the stored order. */
  lemma StoredOrderFillings(before: seq<bv8>, a: seq<bv8>, rest: seq<bv8>)
    requires |a| == 4
    ensures var data := before + a + rest;
      Register(ALL_ONES, data + BigEndian(Fcs(data))) == RESIDUE <==>
      exists low: bv8, high: bv8 :: a == Filling(before, rest, Mirror(low, high))
  {
    hide ByteOf, Register, Fcs, Filling, Mirror, BigEndian;
    var data := before + a + rest;
    StoredOrderExact(data);
    MirrorExact(Fcs(data));
    forall low: bv8, high: bv8
      ensures Fcs(data) == Mirror(low, high) <==> a == Filling(before, rest, Mirror(low, high))
    {
      FillingExact(before, a, rest, Mirror(low, high));
    }
  }

  /** The fillings are all different. */
  lemma FillingsDiffer(before: seq<bv8>, rest: seq<bv8>, low: bv8, high: bv8, low': bv8, high': bv8)
    requires Filling(before, rest, Mirror(low, high)) == Filling(before, rest, Mirror(low', high'))
    ensures low == low' && high == high'
  {
    hide Filling, Mirror, ByteOf, LittleEndian, Fcs;
    var a := Filling(before, rest, Mirror(low, high));
    FillingSize(before, rest, Mirror(low, high));
    FillingExact(before, a, rest, Mirror(low, high));
    FillingExact(before, a, rest, Mirror(low', high'));
    MirrorBytes(low, high);
    MirrorBytes(low', high');
  }

  lemma FillingSize(before: seq<bv8>, rest: seq<bv8>, fcs: bv32)
    ensures |Filling(before, rest, fcs)| == 4
  {
  }
}
