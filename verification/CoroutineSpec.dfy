/** The stackless coroutines of sched/macros: RESUME, RESET, CALL, BLOCK, SLEEP and YIELD.

    A function that suspends really returns; what it keeps is one label for each task. The reference is a thread
    that keeps its whole stack instead. Both count executed instructions with the same fuel, since a task may loop
    for ever without suspending. */
module CoroutineSpec {
  import opened Return

  /** A branch reads the statics only; CALL jumps to `onError` unless the callee returns RET_SUCCESS. */
  datatype Instr =
    | Effect(e: nat)
    | Branch(c: nat, target: nat)
    | Call(g: nat, onError: nat)
    | Suspend(kind: RetType)                 // BLOCK(), SLEEP(n) or YIELD()
    | Return(code: RetType, reset: bool)     // RESET() before the return, or not

  /** Functions, and what effects and conditions mean on the statics `S` that all tasks share. */
  datatype Program<!S> = Program(fns: seq<seq<Instr>>, eff: (nat, S) -> S, cond: (nat, S) -> bool)

  function Fetch<S>(p: Program<S>, f: nat, pc: nat): Instr
    requires f < |p.fns|
  {
    if pc < |p.fns[f]| then p.fns[f][pc] else Return(RetSuccess, true)
  }

  predicate IsSuspension(r: RetType) {
    r == RetBlocked || r == RetSleep || r == RetYield
  }

  /** What sched/macros.h asks of reentrant functions: no recursion (here: functions call lower ones), suspension
      codes are returned by suspending only, and RESET before every final return. */
  ghost predicate WellFormed<S>(p: Program<S>) {
    Acyclic(p) && forall f, pc :: 0 <= f < |p.fns| && 0 <= pc < |p.fns[f]| ==>
      match p.fns[f][pc]
      case Suspend(kind) => IsSuspension(kind)
      case Return(code, reset) => !IsSuspension(code) && reset
      case _ => true
  }

  predicate Acyclic<S>(p: Program<S>) {
    forall f, pc :: 0 <= f < |p.fns| && 0 <= pc < |p.fns[f]| && p.fns[f][pc].Call? ==> p.fns[f][pc].g < f
  }

  // ---------------------------------------------------------------- the macros

  /** The labels a function can be resumed at: &&_start, &&_call<z> and the one behind a suspension. */
  datatype Label = AtStart | AtCall(pc: nat) | After(pc: nat)

  /** One task's entry of every function's label array. */
  type Labels = seq<Label>

  datatype Outcome = OutOfFuel | Suspended(kind: RetType) | Finished(code: RetType)

  datatype Result<S> = Result(labels: Labels, store: S, out: Outcome, fuel: nat)

  /** Calling function `f`: RESUME jumps to the task's label. */
  function Enter<S>(p: Program<S>, f: nat, l: Labels, s: S, fuel: nat): (r: Result<S>)
    requires Acyclic(p) && f < |p.fns| == |l|
    ensures |r.labels| == |l| && r.fuel <= fuel
    decreases fuel, f, 2
  {
    match l[f]
    case AtStart => Go(p, f, 0, l, s, fuel)
    case After(pc) => Go(p, f, pc, l, s, fuel)
    case AtCall(pc) => InCall(p, f, pc, l, s, fuel)
  }

  /** Running function `f` from `pc` to its return. */
  function Go<S>(p: Program<S>, f: nat, pc: nat, l: Labels, s: S, fuel: nat): (r: Result<S>)
    requires Acyclic(p) && f < |p.fns| == |l|
    ensures |r.labels| == |l| && r.fuel <= fuel
    decreases fuel, f, 0
  {
    if fuel == 0 then Result(l, s, OutOfFuel, 0)
    else
      match Fetch(p, f, pc)
      case Effect(e) => Go(p, f, pc + 1, l, p.eff(e, s), fuel - 1)
      case Branch(c, target) => Go(p, f, if p.cond(c, s) then target else pc + 1, l, s, fuel - 1)
      case Call(_, _) => InCall(p, f, pc, l[f := AtCall(pc)], s, fuel - 1)
      case Suspend(kind) => Result(l[f := After(pc + 1)], s, Suspended(kind), fuel - 1)
      case Return(code, reset) => Result(if reset then l[f := AtStart] else l, s, Finished(code), fuel - 1)
  }

  /** The rest of a CALL from its label on: evaluate the callee, pass a suspension on or carry on. */
  function InCall<S>(p: Program<S>, f: nat, pc: nat, l: Labels, s: S, fuel: nat): (r: Result<S>)
    requires Acyclic(p) && f < |p.fns| == |l|
    ensures |r.labels| == |l| && r.fuel <= fuel
    decreases fuel, f, 1
  {
    match Fetch(p, f, pc)
    case Call(g, _) =>
      var r := Enter(p, g, l, s, fuel);
      if r.out.Finished? then Go(p, f, AfterCall(p, f, pc, r.out.code), r.labels, r.store, r.fuel) else r
    case _ => Result(l, s, OutOfFuel, 0)
  }

  /** Where a function goes on after its callee has returned `code`. */
  function AfterCall<S>(p: Program<S>, f: nat, pc: nat, code: RetType): nat
    requires f < |p.fns|
  {
    match Fetch(p, f, pc)
    case Call(_, onError) => if code == RetSuccess then pc + 1 else onError
    case _ => pc + 1
  }

  // ---------------------------------------------------------------- the reference: a thread with a stack

  datatype Frame = Frame(f: nat, pc: nat)

  datatype Thread<S> = Thread(stack: seq<Frame>, store: S, out: Outcome, fuel: nat)

  predicate Frames<S>(p: Program<S>, stack: seq<Frame>) {
    forall i :: 0 <= i < |stack| ==> stack[i].f < |p.fns|
  }

  /** The innermost function returns `code`: its caller goes on, or the task's function has finished. */
  function Pop<S>(p: Program<S>, below: seq<Frame>, s: S, code: RetType, fuel: nat): Thread<S>
    requires Frames(p, below)
    decreases fuel, 1
  {
    if below == [] then Thread([], s, Finished(code), fuel)
    else
      var top := below[|below| - 1];
      RunThread(p, below[..|below| - 1] + [top.(pc := AfterCall(p, top.f, top.pc, code))], s, fuel)
  }

  /** At most `fuel` instructions of a thread, up to its next suspension or its end. */
  function RunThread<S>(p: Program<S>, stack: seq<Frame>, s: S, fuel: nat): Thread<S>
    requires stack != [] && Frames(p, stack)
    decreases fuel, 0
  {
    var n := |stack| - 1;
    var below, top := stack[..n], stack[n];
    if fuel == 0 then Thread(stack, s, OutOfFuel, 0)
    else
      match Fetch(p, top.f, top.pc)
      case Effect(e) => RunThread(p, below + [top.(pc := top.pc + 1)], p.eff(e, s), fuel - 1)
      case Branch(c, target) =>
        RunThread(p, below + [top.(pc := if p.cond(c, s) then target else top.pc + 1)], s, fuel - 1)
      case Call(g, _) =>
        if g < |p.fns| then RunThread(p, stack + [Frame(g, 0)], s, fuel - 1) else Thread(stack, s, OutOfFuel, 0)
      case Suspend(kind) => Thread(below + [top.(pc := top.pc + 1)], s, Suspended(kind), fuel - 1)
      case Return(code, _) => Pop(p, below, s, code, fuel - 1)
  }

  // ---------------------------------------------------------------- labels hold what the stack would

  /** The frames from `f` on that the labels of a suspended task stand for: each caller is at a CALL of the next
      frame's function, the innermost one behind its suspension; nobody else is active below `f`. */
  ghost predicate Chain<S>(p: Program<S>, f: nat, stack: seq<Frame>, l: Labels)
    requires f < |p.fns| == |l|
    decreases f
  {
    && stack != [] && stack[0].f == f
    && if |stack| == 1 then l[f] == After(stack[0].pc) && Quiet(l, f)
       else
         && l[f] == AtCall(stack[0].pc)
         && Fetch(p, f, stack[0].pc).Call?
         && var g := Fetch(p, f, stack[0].pc).g;
            g < f && Chain(p, g, stack[1..], l) && forall h :: g < h < f ==> l[h] == AtStart
  }

  /** No function below `f` is active. */
  ghost predicate Quiet(l: Labels, f: nat)
    requires f <= |l|
  {
    forall h :: 0 <= h < f ==> l[h] == AtStart
  }

  ghost predicate SameAbove(l: Labels, l': Labels, f: nat)
    requires |l| == |l'|
  {
    forall h :: f < h < |l| ==> l'[h] == l[h]
  }

  /** `r`, the result of running `f` by its labels, agrees with the thread `th` that runs the same on the stack
      `below`: equal outcomes, statics and fuel, and the new labels hold what the thread keeps as its stack. */
  ghost predicate Agree<S>(p: Program<S>, f: nat, below: seq<Frame>, l: Labels, r: Result<S>, th: Thread<S>)
    requires f < |p.fns| == |l| == |r.labels| && Frames(p, below)
  {
    && SameAbove(l, r.labels, f)
    && match r.out
       case OutOfFuel => th.out == OutOfFuel && th.store == r.store
       case Suspended(kind) =>
         && th.out == Suspended(kind) && th.store == r.store && th.fuel == r.fuel
         && |th.stack| > |below| && th.stack[..|below|] == below && Chain(p, f, th.stack[|below|..], r.labels)
       case Finished(code) =>
         && Quiet(r.labels, f + 1) && th == Pop(p, below, r.store, code, r.fuel)
  }

  /** The frames `f` runs on when it is called with these labels: a new one, or those it was suspended with. */
  ghost predicate Resumes<S>(p: Program<S>, f: nat, frames: seq<Frame>, l: Labels)
    requires f < |p.fns| == |l|
  {
    if l[f] == AtStart then Quiet(l, f) && frames == [Frame(f, 0)] else Chain(p, f, frames, l)
  }

  lemma {:induction false} ChainFrames<S>(p: Program<S>, f: nat, frames: seq<Frame>, l: Labels)
    requires f < |p.fns| == |l| && (Chain(p, f, frames, l) || Resumes(p, f, frames, l))
    ensures Frames(p, frames) && frames != []
    ensures Chain(p, f, frames, l) ==> l[f] != AtStart
    decreases f
  {
    if |frames| > 1 {
      ChainFrames(p, Fetch(p, f, frames[0].pc).g, frames[1..], l);
      forall i | 0 <= i < |frames| ensures frames[i].f < |p.fns| {
        if i > 0 { assert frames[i] == frames[1..][i - 1]; }
      }
    }
  }

  lemma {:induction false} EnterAgrees<S>(p: Program<S>, f: nat, below: seq<Frame>, frames: seq<Frame>, l: Labels, s: S, fuel: nat)
    requires WellFormed(p) && f < |p.fns| == |l| && Frames(p, below) && Resumes(p, f, frames, l)
    ensures Frames(p, below + frames) && frames != []
    ensures Agree(p, f, below, l, Enter(p, f, l, s, fuel), RunThread(p, below + frames, s, fuel))
    decreases fuel, f, 2
  {
    ChainFrames(p, f, frames, l);
    match l[f]
    case AtStart => GoAgrees(p, f, 0, below, l, s, fuel);
    case After(pc) =>
      assert frames == [frames[0]];
      GoAgrees(p, f, pc, below, l, s, fuel);
    case AtCall(pc) =>
      assert frames == [frames[0]] + frames[1..];
      assert below + frames == below + [Frame(f, pc)] + frames[1..];
      var g := Fetch(p, f, pc).g;
      ChainFrames(p, g, frames[1..], l);
      assert Resumes(p, g, frames[1..], l);
      InCallAgrees(p, f, pc, below, frames[1..], l, s, fuel);
  }

  lemma {:induction false} GoAgrees<S>(p: Program<S>, f: nat, pc: nat, below: seq<Frame>, l: Labels, s: S, fuel: nat)
    requires WellFormed(p) && f < |p.fns| == |l| && Frames(p, below) && Quiet(l, f)
    ensures Agree(p, f, below, l, Go(p, f, pc, l, s, fuel), RunThread(p, below + [Frame(f, pc)], s, fuel))
    decreases fuel, f, 0
  {
    var stack := below + [Frame(f, pc)];
    assert stack[..|below|] == below && stack[|below|] == Frame(f, pc);
    if fuel == 0 {
    } else {
      match Fetch(p, f, pc)
      case Effect(e) => GoAgrees(p, f, pc + 1, below, l, p.eff(e, s), fuel - 1);
      case Branch(c, target) => GoAgrees(p, f, if p.cond(c, s) then target else pc + 1, below, l, s, fuel - 1);
      case Call(g, _) => InCallAgrees(p, f, pc, below, [Frame(g, 0)], l[f := AtCall(pc)], s, fuel - 1);
      case Suspend(kind) =>
        var th := RunThread(p, stack, s, fuel);
        assert th.stack[|below|..] == [Frame(f, pc + 1)];
      case Return(code, reset) =>
    }
  }

  lemma {:induction false} InCallAgrees<S>(p: Program<S>, f: nat, pc: nat, below: seq<Frame>, frames: seq<Frame>,
                                           l: Labels, s: S, fuel: nat)
    requires WellFormed(p) && f < |p.fns| == |l| && Frames(p, below)
    requires l[f] == AtCall(pc) && Fetch(p, f, pc).Call?
    requires var g := Fetch(p, f, pc).g; g < f && Resumes(p, g, frames, l) && forall h :: g < h < f ==> l[h] == AtStart
    ensures Frames(p, below + [Frame(f, pc)] + frames)
    ensures Agree(p, f, below, l, InCall(p, f, pc, l, s, fuel), RunThread(p, below + [Frame(f, pc)] + frames, s, fuel))
    decreases fuel, f, 1
  {
    var g := Fetch(p, f, pc).g;
    var here := below + [Frame(f, pc)];
    ChainFrames(p, g, frames, l);
    EnterAgrees(p, g, here, frames, l, s, fuel);
    var r := Enter(p, g, l, s, fuel);
    var th := RunThread(p, here + frames, s, fuel);
    match r.out
    case OutOfFuel =>
    case Suspended(kind) =>
      assert th.stack[..|below|] == below by {
        assert th.stack[..|here|][..|below|] == th.stack[..|below|];
      }
      var tail := th.stack[|below|..];
      assert tail[0] == th.stack[..|here|][|below|] == Frame(f, pc);
      assert tail[1..] == th.stack[|here|..];
    case Finished(code) =>
      assert Quiet(r.labels, f);
      assert here[..|here| - 1] == below;
      GoAgrees(p, f, AfterCall(p, f, pc, code), below, r.labels, r.store, r.fuel);
  }
}
