/** triple_buffer/TripleBuffer.h: a writer and a reader share three buffers through one control word that both
    change by compare-and-swap. Every load, compare-and-swap and index computation is one atomic step. */
module TripleBuffer {
  import opened Options

  // ---------------------------------------------------------------- the control word

  // | unused | new write | dirty 1 | dirty 0 | clean 1 | clean 0 | snap 1 | snap 0 |

  predicate NewWrite(ctl: bv8) {
    ctl & 0x40 != 0
  }

  /** The evident meaning of the macros, whose `>` stands for `>>`. */
  function Dirty(ctl: bv8): bv8 {
    (ctl & 0x30) >> 4
  }

  function Clean(ctl: bv8): bv8 {
    (ctl & 0x0C) >> 2
  }

  function Snap(ctl: bv8): bv8 {
    ctl & 0x03
  }

  /** What read() installs: clean and snap swapped, the flag cleared. */
  function ReadWord(ctl: bv8): bv8 {
    (ctl & 0x30) | ((ctl & 0x03) << 2) | ((ctl & 0x0C) >> 2)
  }

  /** What write() installs: clean and dirty swapped, the flag set. */
  function WriteWord(ctl: bv8): bv8 {
    0x40 | ((ctl & 0x0C) << 2) | ((ctl & 0x30) >> 2) | (ctl & 0x03)
  }

  const INITIAL_WORD: bv8 := 0x06

  /** The three fields name each buffer once. */
  predicate Permutation(ctl: bv8) {
    && ctl & 0x80 == 0
    && Dirty(ctl) < 3 && Clean(ctl) < 3 && Snap(ctl) < 3
    && Dirty(ctl) != Clean(ctl) && Clean(ctl) != Snap(ctl) && Dirty(ctl) != Snap(ctl)
  }

  lemma ReadWordFields(ctl: bv8)
    requires Permutation(ctl)
    ensures Permutation(ReadWord(ctl)) && !NewWrite(ReadWord(ctl))
    ensures Dirty(ReadWord(ctl)) == Dirty(ctl) && Clean(ReadWord(ctl)) == Snap(ctl) && Snap(ReadWord(ctl)) == Clean(ctl)
  {
  }

  lemma WriteWordFields(ctl: bv8)
    requires Permutation(ctl)
    ensures Permutation(WriteWord(ctl)) && NewWrite(WriteWord(ctl))
    ensures Dirty(WriteWord(ctl)) == Clean(ctl) && Clean(WriteWord(ctl)) == Dirty(ctl) && Snap(WriteWord(ctl)) == Snap(ctl)
  {
  }

  // ---------------------------------------------------------------- the two sides

  type Index = i: bv8 | i < 3

  /** Between calls a side may use the buffer its last successful call returned. `tries` counts failed swaps. */
  datatype Writer = WOut(held: Option<Index>) | WTop(tries: nat) | WLoaded(curr: bv8, tries: nat) | WSwapped
  datatype Reader = ROut(held: Option<Index>) | RTop(held: Option<Index>) | RLoaded(curr: bv8, held: Option<Index>) | RSwapped

  /** `history` lists what was in the buffers that write() published; `seen` is how many of those publications the
      last successful read() had before it. */
  datatype State = State(ctl: bv8, buffs: seq<nat>, w: Writer, r: Reader, history: seq<nat>, seen: nat)

  datatype Move =
    | WCall | WLoad | WCas | WIndex | WFill(x: nat)
    | RCall | RLoad | RCas | RIndex

  /** A move that is not possible changes nothing. */
  function Step(s: State, m: Move): State
    requires |s.buffs| == 3
  {
    match m
    case WCall => if s.w.WOut? then s.(w := WTop(0)) else s
    case WLoad => if s.w.WTop? then s.(w := WLoaded(s.ctl, s.w.tries)) else s
    case WCas =>
      if !s.w.WLoaded? then s
      else if s.ctl != s.w.curr then s.(w := WTop(s.w.tries + 1))
      else if Dirty(s.ctl) >= 3 then s
      else s.(ctl := WriteWord(s.ctl), w := WSwapped, history := s.history + [s.buffs[Dirty(s.ctl) as int]])
    case WIndex => if s.w.WSwapped? && Dirty(s.ctl) < 3 then s.(w := WOut(Some(Dirty(s.ctl)))) else s
    case WFill(x) =>
      if s.w.WOut? && s.w.held.Some? then s.(buffs := s.buffs[s.w.held.value as int := x]) else s
    case RCall => if s.r.ROut? then s.(r := RTop(s.r.held)) else s
    case RLoad =>
      if !s.r.RTop? then s
      else if !NewWrite(s.ctl) then s.(r := ROut(s.r.held))  // returns NULL, the old buffer stays valid
      else s.(r := RLoaded(s.ctl, s.r.held))
    case RCas =>
      if !s.r.RLoaded? then s
      else if s.ctl != s.r.curr then s.(r := RTop(s.r.held))
      else s.(ctl := ReadWord(s.ctl), r := RSwapped, seen := |s.history|)
    case RIndex => if s.r.RSwapped? && Snap(s.ctl) < 3 then s.(r := ROut(Some(Snap(s.ctl)))) else s
  }

  function Run(s: State, moves: seq<Move>): (s': State)
    requires |s.buffs| == 3
    ensures |s'.buffs| == 3
    decreases |moves|
  {
    if moves == [] then s else Run(Step(s, moves[0]), moves[1..])
  }

  // ---------------------------------------------------------------- the invariant

  ghost function ReaderHeld(s: State): Option<Index> {
    match s.r
    case ROut(held) => held
    case RTop(held) => held
    case RLoaded(_, held) => held
    case RSwapped => None
  }

  /** The reader's buffer is the snap buffer, and still holds what it had when it was published. */
  ghost predicate ReaderOk(s: State)
    requires |s.buffs| == 3 && Permutation(s.ctl) && s.seen <= |s.history|
  {
    && (ReaderHeld(s).Some? ==> ReaderHeld(s).value == Snap(s.ctl))
    && (ReaderHeld(s).Some? || s.r.RSwapped? ==> s.seen > 0 && s.buffs[Snap(s.ctl) as int] == s.history[s.seen - 1])
    && (s.r.RLoaded? ==> NewWrite(s.r.curr))
  }

  /** The writer's buffer is the dirty buffer; its swap fails at most once, because the reader can only swap while
      the flag is set. */
  ghost predicate WriterOk(s: State) {
    match s.w
    case WOut(held) => held.Some? ==> held.value == Dirty(s.ctl)
    case WTop(tries) => tries == 0 || (tries == 1 && !NewWrite(s.ctl))
    case WLoaded(curr, tries) =>
      || (tries == 0 && (curr == s.ctl || !NewWrite(s.ctl)))
      || (tries == 1 && curr == s.ctl && !NewWrite(s.ctl))
    case WSwapped => true
  }

  ghost predicate Inv(s: State) {
    && |s.buffs| == 3 && Permutation(s.ctl) && s.seen <= |s.history|
    && (NewWrite(s.ctl) <==> s.seen < |s.history|)
    && (NewWrite(s.ctl) ==> s.buffs[Clean(s.ctl) as int] == s.history[|s.history| - 1])
    && ReaderOk(s) && WriterOk(s)
  }

  lemma InitialInv(buffs: seq<nat>)
    requires |buffs| == 3
    ensures Inv(State(INITIAL_WORD, buffs, WOut(None), ROut(None), [], 0))
    ensures Dirty(INITIAL_WORD) == 0 && Clean(INITIAL_WORD) == 1 && Snap(INITIAL_WORD) == 2 && !NewWrite(INITIAL_WORD)
  {
  }

  lemma StepKeeps(s: State, m: Move)
    requires Inv(s)
    ensures Inv(Step(s, m))
  {
    ReadWordFields(s.ctl);
    WriteWordFields(s.ctl);
  }

  lemma {:induction false} RunKeeps(s: State, moves: seq<Move>)
    requires Inv(s)
    ensures Inv(Run(s, moves))
    decreases |moves|
  {
    if moves == [] {
    } else {
      StepKeeps(s, moves[0]);
      RunKeeps(Step(s, moves[0]), moves[1..]);
    }
  }

  // ---------------------------------------------------------------- what follows

  predicate WriterMove(m: Move) {
    m.WCall? || m.WLoad? || m.WCas? || m.WIndex? || m.WFill?
  }

  predicate WriterMoves(moves: seq<Move>) {
    forall i :: 0 <= i < |moves| ==> WriterMove(moves[i])
  }

  predicate ReaderMoves(moves: seq<Move>) {
    forall i :: 0 <= i < |moves| ==> !WriterMove(moves[i])
  }

  /** The writer leaves the reader's field and program counter alone, so that reading the control word again after
      the reader's swap gives the index that was just installed ... */
  lemma {:induction false} WriterLeavesSnap(s: State, moves: seq<Move>)
    requires Inv(s) && WriterMoves(moves)
    ensures var s' := Run(s, moves);
      Snap(s'.ctl) == Snap(s.ctl) && s'.r == s.r && s'.seen == s.seen && s.history <= s'.history
    decreases |moves|
  {
    if moves == [] {
    } else {
      WriteWordFields(s.ctl);
      StepKeeps(s, moves[0]);
      WriterLeavesSnap(Step(s, moves[0]), moves[1..]);
    }
  }

  /** ... and the reader the writer's, and what the buffers hold. */
  lemma {:induction false} ReaderLeavesDirty(s: State, moves: seq<Move>)
    requires Inv(s) && ReaderMoves(moves)
    ensures var s' := Run(s, moves);
      Dirty(s'.ctl) == Dirty(s.ctl) && s'.w == s.w && s'.buffs == s.buffs && s'.history == s.history
    decreases |moves|
  {
    if moves == [] {
    } else {
      ReadWordFields(s.ctl);
      StepKeeps(s, moves[0]);
      ReaderLeavesDirty(Step(s, moves[0]), moves[1..]);
    }
  }

  /** Exclusion: under every interleaving the writer and the reader never hold the same buffer. */
  lemma Exclusion(s: State, moves: seq<Move>)
    requires Inv(s)
    ensures var s' := Run(s, moves);
      Permutation(s'.ctl) &&
      (s'.w.WOut? && s'.w.held.Some? && ReaderHeld(s').Some? ==> s'.w.held.value != ReaderHeld(s').value)
  {
    RunKeeps(s, moves);
  }

  /** A buffer the reader holds keeps what was published in it, whatever the writer does meanwhile. */
  lemma SnapshotIsStable(s: State, moves: seq<Move>)
    requires Inv(s)
    ensures var s' := Run(s, moves);
      ReaderHeld(s').Some? ==> 0 < s'.seen <= |s'.history| && s'.buffs[ReaderHeld(s').value as int] == s'.history[s'.seen - 1]
  {
    RunKeeps(s, moves);
  }

  /** Freshness: a read() whose swap succeeds returns the buffer with the latest publication before the swap, even if
      the writer goes on before the index is computed, and a newer one than the read() before. */
  lemma ReadReturnsLatest(s: State, meanwhile: seq<Move>)
    requires Inv(s) && s.r.RLoaded? && s.ctl == s.r.curr
    requires WriterMoves(meanwhile)
    ensures var s' := Step(Run(Step(s, RCas), meanwhile), RIndex);
      && s.seen < s'.seen == |s.history|
      && s'.r == ROut(Some(Clean(s.ctl))) && s'.buffs[Clean(s.ctl) as int] == s.history[|s.history| - 1]
  {
    var s1 := Step(s, RCas);
    ReadWordFields(s.ctl);
    StepKeeps(s, RCas);
    WriterLeavesSnap(s1, meanwhile);
    RunKeeps(s1, meanwhile);
    StepKeeps(Run(s1, meanwhile), RIndex);
  }

  /** read() returns NULL iff nothing has been published since the last read() that did not, and then nothing changes. */
  lemma NullIffNothingNew(s: State)
    requires Inv(s) && s.r.RTop?
    ensures Step(s, RLoad).r.ROut? <==> s.seen == |s.history|
    ensures Step(s, RLoad).r.ROut? ==> Step(s, RLoad) == s.(r := ROut(ReaderHeld(s)))
  {
  }

  /** The reader keeps its buffer until its next swap succeeds, and then gets the one it swapped in. */
  lemma ReaderKeepsBuffer(s: State, m: Move)
    requires Inv(s)
    ensures ReaderHeld(Step(s, m)) ==
      if ReadSwaps(s, m) then None else if m.RIndex? && s.r.RSwapped? then Some(Snap(s.ctl)) else ReaderHeld(s)
  {
    hide Dirty, Clean, WriteWord, ReadWord;
  }

  predicate ReadSwaps(s: State, m: Move) {
    m.RCas? && s.r.RLoaded? && s.ctl == s.r.curr
  }

  predicate WriteSwaps(s: State, m: Move) {
    m.WCas? && s.w.WLoaded? && s.ctl == s.w.curr
  }

  /** No swap of write() succeeds in the run, and the writer writes nothing. */
  predicate NothingPublished(s: State, moves: seq<Move>)
    requires |s.buffs| == 3
    decreases |moves|
  {
    moves == [] ||
    (!moves[0].WFill? && !WriteSwaps(s, moves[0]) && NothingPublished(Step(s, moves[0]), moves[1..]))
  }

  lemma DirtyKeeps(s: State, m: Move)
    requires Inv(s) && !m.WFill? && !WriteSwaps(s, m)
    ensures Dirty(Step(s, m).ctl) == Dirty(s.ctl) && Step(s, m).buffs == s.buffs && Step(s, m).history == s.history
  {
    ReadWordFields(s.ctl);
    hide ReadWord, WriteWord, Dirty, Clean, Snap, NewWrite;
  }

  lemma {:induction false} DirtyKeptThrough(s: State, moves: seq<Move>)
    requires Inv(s) && NothingPublished(s, moves)
    ensures var s' := Run(s, moves);
      Inv(s') && Dirty(s'.ctl) == Dirty(s.ctl) && s'.buffs == s.buffs && s'.history == s.history
    decreases |moves|
  {
    hide Inv, Step;
    TriesBounded(s);
    if moves == [] {
    } else {
      DirtyKeeps(s, moves[0]);
      StepKeeps(s, moves[0]);
      DirtyKeptThrough(Step(s, moves[0]), moves[1..]);
    }
  }

  /** What the writer puts into its buffer is what its next swap publishes, whatever the reader does until then. */
  lemma FillIsPublished(s: State, x: nat, moves: seq<Move>)
    requires Inv(s) && s.w.WOut? && s.w.held.Some? && NothingPublished(Step(s, WFill(x)), moves)
    ensures var s' := Run(Step(s, WFill(x)), moves);
      WriteSwaps(s', WCas) ==> Step(s', WCas).history == s.history + [x]
  {
    var s1 := Step(s, WFill(x));
    StepKeeps(s, WFill(x));
    assert s1.buffs[Dirty(s1.ctl) as int] == x;
    DirtyKeptThrough(s1, moves);
    TriesBounded(Run(s1, moves));
    hide Inv, Dirty, WriteWord;
  }

  lemma RunNothing(s: State)
    requires |s.buffs| == 3
    ensures Run(s, []) == s
  {
  }

  lemma TriesBounded(s: State)
    requires Inv(s)
    ensures s.w.WTop? || s.w.WLoaded? ==> s.w.tries <= 1
    ensures |s.buffs| == 3 && Permutation(s.ctl)
  {
  }

  /** When read()'s swap succeeds, something has been published since the last time. */
  lemma SeenGrows(s: State)
    requires Inv(s) && s.r.RLoaded?
    ensures s.ctl == s.r.curr ==> s.seen < |s.history|
  {
  }

  lemma HeldContents(s: State)
    requires Inv(s) && s.r.ROut? && s.r.held.Some?
    ensures 0 < s.seen <= |s.history| && |s.buffs| == 3 && s.buffs[s.r.held.value as int] == s.history[s.seen - 1]
  {
  }

  /** write() is wait-free: in every reachable state at most one of its swaps has failed. */
  lemma WriteSwapsAtMostTwice(s: State, moves: seq<Move>)
    requires Inv(s)
    ensures var w := Run(s, moves).w; (w.WTop? || w.WLoaded?) ==> w.tries <= 1
  {
    RunKeeps(s, moves);
  }

  /** The swaps of read() that fail in a run. */
  function FailedReads(s: State, moves: seq<Move>): nat
    requires |s.buffs| == 3
    decreases |moves|
  {
    if moves == [] then 0
    else
      (if moves[0].RCas? && s.r.RLoaded? && s.ctl != s.r.curr then 1 else 0) + FailedReads(Step(s, moves[0]), moves[1..])
  }

  lemma RunCons(s: State, m: Move, rest: seq<Move>)
    requires |s.buffs| == 3
    ensures |Step(s, m).buffs| == 3 && Run(s, [m] + rest) == Run(Step(s, m), rest)
    ensures FailedReads(s, [m] + rest) ==
      (if m.RCas? && s.r.RLoaded? && s.ctl != s.r.curr then 1 else 0) + FailedReads(Step(s, m), rest)
  {
    assert ([m] + rest)[1..] == rest;
  }

  /** `n` times: read() loads, a whole write() runs, read() swaps. */
  function Rounds(n: nat): seq<Move> {
    if n == 0 then []
    else [RLoad] + ([WCall] + ([WLoad] + ([WCas] + ([WIndex] + ([RCas] + Rounds(n - 1))))))
  }

  /** The reader is about to load, there is something to read, and the writer rests. */
  ghost predicate Contended(s: State) {
    Inv(s) && s.r.RTop? && NewWrite(s.ctl) && s.w.WOut?
  }

  /** The reader has loaded `ctl`, and the writer has made `k` of the four steps of a write() since. */
  ghost predicate Overtaking(s: State, ctl: bv8, k: nat) {
    && Inv(s) && s.r.RLoaded? && s.r.curr == ctl && Permutation(ctl) && NewWrite(s.ctl)
    && s.ctl == (if k < 3 then ctl else WriteWord(ctl))
    && match k
       case 0 => s.w.WOut?
       case 1 => s.w == WTop(0)
       case 2 => s.w == WLoaded(ctl, 0)
       case 3 => s.w == WSwapped
       case _ => s.w.WOut?
  }

  function WriteStep(k: nat): Move {
    match k
    case 0 => WCall
    case 1 => WLoad
    case 2 => WCas
    case _ => WIndex
  }

  lemma ReaderLoads(s: State)
    requires Contended(s)
    ensures Overtaking(Step(s, RLoad), s.ctl, 0)
  {
    StepKeeps(s, RLoad);
  }

  lemma WriterGoesOn(s: State, ctl: bv8, k: nat)
    requires Overtaking(s, ctl, k) && k < 4
    ensures Overtaking(Step(s, WriteStep(k)), ctl, k + 1)
  {
    StepKeeps(s, WriteStep(k));
    WriteWordFields(ctl);
  }

  lemma ReaderFails(s: State, ctl: bv8)
    requires Overtaking(s, ctl, 4)
    ensures Contended(Step(s, RCas)) && s.r.RLoaded? && s.ctl != s.r.curr
  {
    StepKeeps(s, RCas);
    WriteWordFields(ctl);
  }

  lemma ThreeBuffers(s: State)
    ensures Contended(s) ==> |s.buffs| == 3
    ensures forall ctl, k :: Overtaking(s, ctl, k) ==> |s.buffs| == 3
  {
  }

  /** read() is not wait-free: for every number there is a run in which that many of its swaps fail. */
  lemma {:induction false} ReadMayFailAnyNumber(s: State, n: nat)
    requires Contended(s)
    ensures |s.buffs| == 3 && FailedReads(s, Rounds(n)) == n && Contended(Run(s, Rounds(n)))
    decreases n
  {
    hide Contended, Overtaking, Step, Run, FailedReads;
    ThreeBuffers(s);
    if n == 0 {
      NoFailures(s);
    } else {
      var rest := Rounds(n - 1);
      ReaderLoads(s);
      RunCons(s, RLoad, [WCall] + ([WLoad] + ([WCas] + ([WIndex] + ([RCas] + rest)))));
      var s1 := Step(s, RLoad);
      WriterGoesOn(s1, s.ctl, 0);
      RunCons(s1, WCall, [WLoad] + ([WCas] + ([WIndex] + ([RCas] + rest))));
      var s2 := Step(s1, WCall);
      WriterGoesOn(s2, s.ctl, 1);
      RunCons(s2, WLoad, [WCas] + ([WIndex] + ([RCas] + rest)));
      var s3 := Step(s2, WLoad);
      WriterGoesOn(s3, s.ctl, 2);
      RunCons(s3, WCas, [WIndex] + ([RCas] + rest));
      var s4 := Step(s3, WCas);
      WriterGoesOn(s4, s.ctl, 3);
      RunCons(s4, WIndex, [RCas] + rest);
      var s5 := Step(s4, WIndex);
      ReaderFails(s5, s.ctl);
      RunCons(s5, RCas, rest);
      ReadMayFailAnyNumber(Step(s5, RCas), n - 1);
    }
  }

  /** Such a state is reached by the first write(). */
  lemma ContendedAtFirst(buffs: seq<nat>)
    requires |buffs| == 3
    ensures var s := State(INITIAL_WORD, buffs, WOut(None), ROut(None), [], 0);
      Contended(Step(Step(Step(Step(Step(s, WCall), WLoad), WCas), WIndex), RCall))
  {
    var s := State(INITIAL_WORD, buffs, WOut(None), ROut(None), [], 0);
    InitialInv(buffs);
    StepKeeps(s, WCall);
    StepKeeps(Step(s, WCall), WLoad);
    StepKeeps(Step(Step(s, WCall), WLoad), WCas);
    StepKeeps(Step(Step(Step(s, WCall), WLoad), WCas), WIndex);
    StepKeeps(Step(Step(Step(Step(s, WCall), WLoad), WCas), WIndex), RCall);
  }

  lemma NoFailures(s: State)
    requires |s.buffs| == 3
    ensures Run(s, []) == s && FailedReads(s, []) == 0
  {
  }

  // ---------------------------------------------------------------- the macro as written

  /** `((ctl & 0b00110000) > 4)` is a comparison. */
  function DirtyAsWritten(ctl: bv8): bv8 {
    if ctl & 0x30 > 4 then 1 else 0
  }

  /** The comparison gives the dirty index iff that is not 2. */
  lemma DirtyAsWrittenExact(ctl: bv8)
    requires Permutation(ctl)
    ensures DirtyAsWritten(ctl) == Dirty(ctl) <==> Dirty(ctl) != 2
  {
  }

  /** The protocol with that macro: write() returns another buffer, all else is the same. */
  function StepAsWritten(s: State, m: Move): State
    requires |s.buffs| == 3
  {
    if m.WIndex? && s.w.WSwapped? then s.(w := WOut(Some(DirtyAsWritten(s.ctl)))) else Step(s, m)
  }

  function RunAsWritten(s: State, moves: seq<Move>): (s': State)
    requires |s.buffs| == 3
    ensures |s'.buffs| == 3
    decreases |moves|
  {
    if moves == [] then s else RunAsWritten(StepAsWritten(s, moves[0]), moves[1..])
  }

  ghost predicate RunsAsMeant(s: State, moves: seq<Move>)
    requires |s.buffs| == 3
  {
    forall k :: 0 <= k <= |moves| ==> RunAsWritten(s, moves[..k]) == Run(s, moves[..k])
  }

  /** How far the run has got: a read() has swapped, after that a write() has swapped, and it has returned. */
  function Stage(s: State, m: Move, k: nat): nat {
    if k == 0 && ReadSwaps(s, m) then 1
    else if k == 1 && WriteSwaps(s, m) then 2
    else if k == 2 && m.WIndex? then 3
    else k
  }

  function StageAfter(s: State, moves: seq<Move>, k: nat): nat
    requires |s.buffs| == 3
    decreases |moves|
  {
    if moves == [] then k else StageAfter(Step(s, moves[0]), moves[1..], Stage(s, moves[0], k))
  }

  /** Where buffer 2 is: with the reader before the first read(), unused after that, and with the first write() that
      swaps then. */
  ghost predicate WhereTwoIs(s: State, k: nat) {
    match k
    case 0 => Snap(s.ctl) == 2
    case 1 => Clean(s.ctl) == 2 && !NewWrite(s.ctl)
    case _ => Dirty(s.ctl) == 2 && s.w.WSwapped?
  }

  lemma StageStep(s: State, m: Move, k: nat)
    requires Inv(s) && k < 3 && WhereTwoIs(s, k)
    ensures var k' := Stage(s, m, k);
      && (k' < 3 ==> StepAsWritten(s, m) == Step(s, m) && WhereTwoIs(Step(s, m), k'))
      && (k' == 3 ==> StepAsWritten(s, m) != Step(s, m))
  {
    ReadWordFields(s.ctl);
    WriteWordFields(s.ctl);
    DirtyAsWrittenExact(s.ctl);
    hide ReadWord, WriteWord, Dirty, Clean, Snap, NewWrite, DirtyAsWritten;
  }

  lemma StepSize(s: State, m: Move)
    requires |s.buffs| == 3
    ensures |Step(s, m).buffs| == |StepAsWritten(s, m).buffs| == 3
  {
  }

  lemma RunsUnfold(s: State, moves: seq<Move>, k: nat)
    requires |s.buffs| == 3 && k < |moves|
    ensures |Step(s, moves[0]).buffs| == |StepAsWritten(s, moves[0]).buffs| == 3
    ensures RunAsWritten(s, moves[..k + 1]) == RunAsWritten(StepAsWritten(s, moves[0]), moves[1..][..k])
    ensures Run(s, moves[..k + 1]) == Run(Step(s, moves[0]), moves[1..][..k])
  {
    hide Step, StepAsWritten;
    StepSize(s, moves[0]);
    assert moves[..k + 1][0] == moves[0] && moves[..k + 1][1..] == moves[1..][..k];
  }

  lemma RunsAsMeantStep(s: State, moves: seq<Move>)
    requires |s.buffs| == 3 && moves != []
    ensures |Step(s, moves[0]).buffs| == 3
    ensures RunsAsMeant(s, moves) <==>
      StepAsWritten(s, moves[0]) == Step(s, moves[0]) && RunsAsMeant(Step(s, moves[0]), moves[1..])
  {
    StepSize(s, moves[0]);
    assert RunAsWritten(s, moves[..0]) == Run(s, moves[..0]);
    hide Step, StepAsWritten;
    var s1, s2, rest := Step(s, moves[0]), StepAsWritten(s, moves[0]), moves[1..];
    assert RunAsWritten(s2, rest[..0]) == s2 && Run(s1, rest[..0]) == s1;
    hide RunAsWritten, Run;
    RunsUnfold(s, moves, 0);
    if RunsAsMeant(s, moves) {
      assert RunAsWritten(s, moves[..1]) == Run(s, moves[..1]);
      forall k | 0 <= k <= |rest| ensures RunAsWritten(s1, rest[..k]) == Run(s1, rest[..k]) {
        RunsUnfold(s, moves, k);
        assert RunAsWritten(s, moves[..k + 1]) == Run(s, moves[..k + 1]);
      }
    } else if s1 == s2 {
      var k :| 0 <= k <= |moves| && RunAsWritten(s, moves[..k]) != Run(s, moves[..k]);
      RunsUnfold(s, moves, k - 1);
    }
  }

  lemma {:induction false} StagesExact(s: State, moves: seq<Move>, k: nat)
    requires Inv(s) && k < 3 && WhereTwoIs(s, k)
    ensures RunsAsMeant(s, moves) <==> StageAfter(s, moves, k) < 3
    decreases |moves|
  {
    hide Inv, WhereTwoIs, Step, StepAsWritten, Stage, RunsAsMeant;
    WellSized(s);
    if moves == [] {
      NothingToDo(s);
    } else {
      var k' := Stage(s, moves[0], k);
      StageGrows(s, moves[0], k);
      StageStep(s, moves[0], k);
      StepKeeps(s, moves[0]);
      RunsAsMeantStep(s, moves);
      StepSize(s, moves[0]);
      if k' < 3 {
        StagesExact(Step(s, moves[0]), moves[1..], k');
      } else {
        StaysThird(Step(s, moves[0]), moves[1..]);
      }
    }
  }

  lemma WellSized(s: State)
    requires Inv(s)
    ensures |s.buffs| == 3
  {
  }

  lemma NothingToDo(s: State)
    requires |s.buffs| == 3
    ensures RunsAsMeant(s, [])
  {
  }

  lemma StageGrows(s: State, m: Move, k: nat)
    requires k <= 3
    ensures k <= Stage(s, m, k) <= 3
  {
  }

  lemma {:induction false} StaysThird(s: State, moves: seq<Move>)
    requires |s.buffs| == 3
    ensures StageAfter(s, moves, 3) == 3
    decreases |moves|
  {
    if moves == [] {
    } else {
      StaysThird(Step(s, moves[0]), moves[1..]);
    }
  }

  ghost predicate Shared(s: State) {
    s.w.WOut? && s.w.held.Some? && s.w.held == ReaderHeld(s)
  }

  /** With the macro as written a run is what it should be, at each of its steps, iff no write() that swaps after a
      read() has swapped returns in it. Up to there, the two sides never hold the same buffer. */
  lemma AsWrittenExact(buffs: seq<nat>, moves: seq<Move>)
    requires |buffs| == 3
    ensures var s := State(INITIAL_WORD, buffs, WOut(None), ROut(None), [], 0);
      && (RunsAsMeant(s, moves) <==> StageAfter(s, moves, 0) < 3)
      && (RunsAsMeant(s, moves) ==> !Shared(RunAsWritten(s, moves)))
  {
    var s := State(INITIAL_WORD, buffs, WOut(None), ROut(None), [], 0);
    InitialInv(buffs);
    assert WhereTwoIs(s, 0);
    hide Inv, WhereTwoIs, Run, RunAsWritten;
    StagesExact(s, moves, 0);
    assert moves[..|moves|] == moves;
    Exclusion(s, moves);
  }

  const A_WRITE: seq<Move> := [WCall, WLoad, WCas, WIndex]
  const A_READ: seq<Move> := [RCall, RLoad, RCas, RIndex]

  lemma WholeWrite(s: State)
    requires |s.buffs| == 3 && s.w.WOut? && Dirty(s.ctl) < 3
    ensures RunAsWritten(s, A_WRITE) ==
      s.(ctl := WriteWord(s.ctl), w := WOut(Some(DirtyAsWritten(WriteWord(s.ctl)))),
         history := s.history + [s.buffs[Dirty(s.ctl) as int]])
  {
    hide WriteWord, Dirty, DirtyAsWritten;
    assert A_WRITE[1..] == [WLoad, WCas, WIndex] && A_WRITE[1..][1..] == [WCas, WIndex];
    assert A_WRITE[1..][1..][1..] == [WIndex] && A_WRITE[1..][1..][1..][1..] == [];
    var s1 := StepAsWritten(s, WCall);
    var s2 := StepAsWritten(s1, WLoad);
    var s3 := StepAsWritten(s2, WCas);
    assert RunAsWritten(s3, [WIndex]) == RunAsWritten(StepAsWritten(s3, WIndex), []);
  }

  lemma WholeRead(s: State)
    requires |s.buffs| == 3 && s.r.ROut? && NewWrite(s.ctl) && Snap(ReadWord(s.ctl)) < 3
    ensures RunAsWritten(s, A_READ) ==
      s.(ctl := ReadWord(s.ctl), r := ROut(Some(Snap(ReadWord(s.ctl)))), seen := |s.history|)
  {
    hide ReadWord, Snap, NewWrite;
    assert A_READ[1..] == [RLoad, RCas, RIndex] && A_READ[1..][1..] == [RCas, RIndex];
    assert A_READ[1..][1..][1..] == [RIndex] && A_READ[1..][1..][1..][1..] == [];
    var s1 := StepAsWritten(s, RCall);
    var s2 := StepAsWritten(s1, RLoad);
    var s3 := StepAsWritten(s2, RCas);
    assert RunAsWritten(s3, [RIndex]) == RunAsWritten(StepAsWritten(s3, RIndex), []);
  }

  lemma ToldOne(ctl: bv8)
    requires Dirty(ctl) == 2
    ensures DirtyAsWritten(ctl) == 1
  {
  }

  /** And then it does go wrong: when such a write() has returned, and the reader keeps to its calls, both sides hold
      the same buffer at once or after the next read(). */
  lemma LateWriteShares(s: State)
    requires |s.buffs| == 3 && Permutation(s.ctl) && Dirty(s.ctl) == 2 && NewWrite(s.ctl)
    requires s.w == WOut(Some(DirtyAsWritten(s.ctl))) && s.r == ROut(Some(Snap(s.ctl)))
    ensures Shared(s) || Shared(RunAsWritten(s, A_READ))
  {
    ToldOne(s.ctl);
    ReadWordFields(s.ctl);
    hide RunAsWritten, ReadWord, Dirty, Clean, Snap, NewWrite, DirtyAsWritten;
    WholeRead(s);
  }

  lemma {:induction false} RunAsWrittenConcat(s: State, a: seq<Move>, b: seq<Move>)
    requires |s.buffs| == 3
    ensures RunAsWritten(s, a + b) == RunAsWritten(RunAsWritten(s, a), b)
    decreases |a|
  {
    if a == [] {
      assert a + b == b;
    } else {
      assert (a + b)[1..] == a[1..] + b;
      RunAsWrittenConcat(StepAsWritten(s, a[0]), a[1..], b);
    }
  }

  lemma FourWords()
    ensures WriteWord(INITIAL_WORD) == 0x52 && ReadWord(0x52) == 0x18 && WriteWord(0x18) == 0x64 && ReadWord(0x64) == 0x21
    ensures Dirty(INITIAL_WORD) == 0 && Dirty(0x18) == 1 && Snap(0x18) == 0 && Snap(0x21) == 1
    ensures NewWrite(0x52) && NewWrite(0x64) && DirtyAsWritten(0x52) == 1 && DirtyAsWritten(0x64) == 1
  {
  }

  /** The shortest sequence of calls that goes wrong: after write, read, write and read both sides hold buffer 1. */
  lemma AsWrittenSharesABuffer(buffs: seq<nat>)
    requires |buffs| == 3
    ensures var s := State(INITIAL_WORD, buffs, WOut(None), ROut(None), [], 0);
      var s' := RunAsWritten(s, A_WRITE + A_READ + A_WRITE + A_READ);
      Shared(s') && s'.w == WOut(Some(1)) && s'.r == ROut(Some(1))
  {
    var s := State(INITIAL_WORD, buffs, WOut(None), ROut(None), [], 0);
    FourWords();
    hide RunAsWritten, ReadWord, WriteWord, Dirty, Snap, NewWrite, DirtyAsWritten;
    WholeWrite(s);
    var s1 := RunAsWritten(s, A_WRITE);
    WholeRead(s1);
    var s2 := RunAsWritten(s1, A_READ);
    WholeWrite(s2);
    var s3 := RunAsWritten(s2, A_WRITE);
    WholeRead(s3);
    RunAsWrittenConcat(s, A_WRITE, A_READ);
    RunAsWrittenConcat(s, A_WRITE + A_READ, A_WRITE);
    RunAsWrittenConcat(s, A_WRITE + A_READ + A_WRITE, A_READ);
  }

  // ---------------------------------------------------------------- the calls

  /** The shared memory and where both sides are; the methods run the source's loops, and let the other side make
      any moves before each of their own steps. */
  class TripleBuffer {
    var s: State

    ghost predicate Valid()
      reads this
    {
      Inv(s)
    }

    constructor (buffs: seq<nat>)
      requires |buffs| == 3
      ensures Valid() && s == State(INITIAL_WORD, buffs, WOut(None), ROut(None), [], 0)
    {
      s := State(INITIAL_WORD, buffs, WOut(None), ROut(None), [], 0);
    }

    method Move(other: seq<Move>, own: Move)
      requires Valid()
      modifies this
      ensures Valid() && s == Step(Run(old(s), other), own)
    {
      RunKeeps(s, other);
      StepKeeps(Run(s, other), own);
      s := Step(Run(s, other), own);
    }

    /** write(): publishes what the dirty buffer held and returns another one. `reader(k)` is what the reader does
        before the k-th step. */
    method Write(reader: nat -> seq<Move>) returns (index: Index)
      requires Valid() && s.w.WOut? && forall k :: ReaderMoves(reader(k))
      modifies this
      ensures Valid() && s.w == WOut(Some(index)) && index == Dirty(s.ctl)
      ensures s.buffs == old(s.buffs) && s.history == old(s.history) + [old(s.buffs)[Dirty(old(s.ctl)) as int]]
    {
      hide Run, Inv;
      TriesBounded(s);
      RunNothing(s);
      Move([], WCall);
      var k: nat := 0;
      while !s.w.WSwapped?
        invariant Valid() && s.buffs == old(s.buffs)
        invariant if s.w.WSwapped? then s.history == old(s.history) + [old(s.buffs)[Dirty(old(s.ctl)) as int]]
                  else s.w.WTop? && s.w.tries <= 1 && Dirty(s.ctl) == Dirty(old(s.ctl)) && s.history == old(s.history)
        decreases if s.w.WSwapped? then 0 else 2 - s.w.tries
      {
        ReaderLeavesDirty(s, reader(k));
        Move(reader(k), WLoad);
        ReaderLeavesDirty(s, reader(k + 1));
        Move(reader(k + 1), WCas);
        TriesBounded(s);
        k := k + 2;
      }
      ReaderLeavesDirty(s, reader(k));
      RunKeeps(s, reader(k));
      TriesBounded(Run(s, reader(k)));
      Move(reader(k), WIndex);
      index := s.w.held.value;
    }

    /** read(): NULL, or a buffer with something newer than the last one returned. `writer(k)` is what the writer
        does before the k-th step; the loop ends at the latest when the writer rests, from step `rest` on. */
    method Read(writer: nat -> seq<Move>, rest: nat) returns (index: Option<Index>)
      requires Valid() && s.r.ROut? && forall k: nat :: WriterMoves(writer(k)) && (k >= rest ==> writer(k) == [])
      modifies this
      ensures Valid() && (index.Some? ==> s.r == ROut(index))
      ensures index == None ==> s.seen == old(s.seen)
      ensures index.Some? ==> old(s.seen) < s.seen <= |s.history| && s.buffs[index.value as int] == s.history[s.seen - 1]
    {
      hide Run, Inv;
      TriesBounded(s);
      RunNothing(s);
      Move([], RCall);
      var k: nat := 0;
      while true
        invariant Valid() && s.r.RTop? && s.seen == old(s.seen)
        decreases rest - k
      {
        WriterLeavesSnap(s, writer(k));
        Move(writer(k), RLoad);
        if s.r.ROut? {
          return None;
        }
        assert s.r.RLoaded? && s.ctl == s.r.curr;
        WriterLeavesSnap(s, writer(k + 1));
        RunKeeps(s, writer(k + 1));
        SeenGrows(Run(s, writer(k + 1)));
        TriesBounded(s);
        RunNothing(s);
        Move(writer(k + 1), RCas);
        if s.r.RSwapped? {
          break;
        }
        k := k + 2;
      }
      WriterLeavesSnap(s, writer(k + 2));
      RunKeeps(s, writer(k + 2));
      TriesBounded(Run(s, writer(k + 2)));
      Move(writer(k + 2), RIndex);
      index := s.r.held;
      HeldContents(s);
    }
  }
}
