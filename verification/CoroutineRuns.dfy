/** Coroutines over whole runs: tasks are dispatched in any order, share their statics and suspend anywhere. */
module CoroutineRuns {
  import opened Return
  import opened CoroutineSpec

  /** A dispatch of task `t`, or anything else that changes the statics in between. */
  datatype Event<!S> = Dispatch(t: nat, fuel: nat) | Disturb(change: S -> S)

  /** The program with macros: every task's labels. Task `t` runs the function `roots[t]`. */
  datatype Macros<S> = Macros(labels: seq<Labels>, store: S)

  /** The same with threads: every task's stack, empty where the task's function is about to be called anew. */
  datatype Threads<S> = Threads(stacks: seq<seq<Frame>>, store: S)

  predicate Fits<S>(p: Program<S>, roots: seq<nat>, e: Event<S>) {
    e.Dispatch? ==> e.t < |roots|
  }

  predicate FitsAll<S>(p: Program<S>, roots: seq<nat>, events: seq<Event<S>>) {
    (forall i :: 0 <= i < |events| ==> Fits(p, roots, events[i])) && forall i :: 0 <= i < |roots| ==> roots[i] < |p.fns|
  }

  predicate LabelsFor<S>(p: Program<S>, roots: seq<nat>, m: Macros<S>) {
    |m.labels| == |roots| && forall i :: 0 <= i < |roots| ==> |m.labels[i]| == |p.fns|
  }

  predicate StacksFor<S>(p: Program<S>, roots: seq<nat>, h: Threads<S>) {
    |h.stacks| == |roots| &&
    forall i, j :: 0 <= i < |roots| && 0 <= j < |h.stacks[i]| ==> h.stacks[i][j].f < |p.fns|
  }

  // ---------------------------------------------------------------- one step

  function DispatchMacros<S>(p: Program<S>, roots: seq<nat>, m: Macros<S>, t: nat, fuel: nat): Result<S>
    requires Acyclic(p) && LabelsFor(p, roots, m) && t < |roots| && roots[t] < |p.fns|
  {
    Enter(p, roots[t], m.labels[t], m.store, fuel)
  }

  function DispatchThread<S>(p: Program<S>, roots: seq<nat>, h: Threads<S>, t: nat, fuel: nat): Thread<S>
    requires StacksFor(p, roots, h) && t < |roots| && roots[t] < |p.fns|
  {
    RunThread(p, if h.stacks[t] == [] then [Frame(roots[t], 0)] else h.stacks[t], h.store, fuel)
  }

  /** The labels of a task hold its thread's stack. */
  ghost predicate Holds<S>(p: Program<S>, root: nat, l: Labels, stack: seq<Frame>)
    requires root < |p.fns| == |l|
  {
    && (forall f :: root < f < |l| ==> l[f] == AtStart)
    && if stack == [] then Quiet(l, root + 1) else Chain(p, root, stack, l)
  }

  ghost predicate Related<S>(p: Program<S>, roots: seq<nat>, m: Macros<S>, h: Threads<S>) {
    && LabelsFor(p, roots, m) && StacksFor(p, roots, h) && m.store == h.store
    && (forall t :: 0 <= t < |roots| ==> roots[t] < |p.fns| && Holds(p, roots[t], m.labels[t], h.stacks[t]))
  }

  lemma HoldsResumes<S>(p: Program<S>, f: nat, l: Labels, stack: seq<Frame>)
    requires f < |p.fns| == |l| && Holds(p, f, l, stack)
    ensures Resumes(p, f, if stack == [] then [Frame(f, 0)] else stack, l)
  {
    if stack != [] {
      ChainFrames(p, f, stack, l);
    }
  }

  lemma AgreeHolds<S>(p: Program<S>, f: nat, l: Labels, stack: seq<Frame>, r: Result<S>, th: Thread<S>)
    requires f < |p.fns| == |l| == |r.labels| && Holds(p, f, l, stack) && Agree(p, f, [], l, r, th)
    ensures r.out == th.out && r.store == th.store
    ensures r.out != OutOfFuel ==> Frames(p, th.stack) && Holds(p, f, r.labels, th.stack)
  {
    assert th.stack[0..] == th.stack;
    if r.out.Suspended? {
      ChainFrames(p, f, th.stack, r.labels);
    }
  }

  /** A dispatch that suspends or finishes leaves the same outcome and statics as the thread's, and labels that
      again hold every task's stack: the other tasks' labels are not touched. */
  lemma DispatchAgrees<S>(p: Program<S>, roots: seq<nat>, m: Macros<S>, h: Threads<S>, t: nat, fuel: nat)
    requires WellFormed(p) && Related(p, roots, m, h) && t < |roots|
    ensures var r, th := DispatchMacros(p, roots, m, t, fuel), DispatchThread(p, roots, h, t, fuel);
      && r.out == th.out && r.store == th.store
      && (r.out != OutOfFuel ==>
            Related(p, roots, Macros(m.labels[t := r.labels], r.store), Threads(h.stacks[t := th.stack], th.store)))
  {
    hide Holds, Resumes, Agree, Enter, RunThread;
    var f, l := roots[t], m.labels[t];
    var stack := if h.stacks[t] == [] then [Frame(f, 0)] else h.stacks[t];
    HoldsResumes(p, f, l, h.stacks[t]);
    EnterAgrees(p, f, [], stack, l, m.store, fuel);
    assert [] + stack == stack;
    AgreeHolds(p, f, l, h.stacks[t], DispatchMacros(p, roots, m, t, fuel), DispatchThread(p, roots, h, t, fuel));
  }

  // ---------------------------------------------------------------- whole runs

  /** The outcomes of the dispatches of a run, and the final statics; a run ends where a dispatch does not come
      back within its fuel. */
  function RunMacros<S>(p: Program<S>, roots: seq<nat>, m: Macros<S>, events: seq<Event<S>>): (seq<Outcome>, S)
    requires Acyclic(p) && LabelsFor(p, roots, m) && FitsAll(p, roots, events)
    decreases |events|
  {
    if events == [] then ([], m.store)
    else
      match events[0]
      case Disturb(change) => RunMacros(p, roots, m.(store := change(m.store)), events[1..])
      case Dispatch(t, fuel) =>
        var r := DispatchMacros(p, roots, m, t, fuel);
        if r.out == OutOfFuel then ([OutOfFuel], r.store)
        else
          var (outs, s) := RunMacros(p, roots, Macros(m.labels[t := r.labels], r.store), events[1..]);
          ([r.out] + outs, s)
  }

  ghost function RunThreads<S>(p: Program<S>, roots: seq<nat>, h: Threads<S>, events: seq<Event<S>>): (seq<Outcome>, S)
    requires FitsAll(p, roots, events)
    decreases |events|
  {
    if events == [] || !StacksFor(p, roots, h) then ([], h.store)
    else
      match events[0]
      case Disturb(change) => RunThreads(p, roots, h.(store := change(h.store)), events[1..])
      case Dispatch(t, fuel) =>
        var th := DispatchThread(p, roots, h, t, fuel);
        if th.out == OutOfFuel then ([OutOfFuel], th.store)
        else
          var (outs, s) := RunThreads(p, roots, Threads(h.stacks[t := th.stack], th.store), events[1..]);
          ([th.out] + outs, s)
  }

  /** Suspension preserves meaning: however the dispatches of the tasks are interleaved, the functions behave as
      if every task had a thread with a stack of its own. */
  lemma {:induction false} SuspensionPreservesMeaning<S>(p: Program<S>, roots: seq<nat>, m: Macros<S>, h: Threads<S>,
                                                         events: seq<Event<S>>)
    requires WellFormed(p) && Related(p, roots, m, h) && FitsAll(p, roots, events)
    ensures RunMacros(p, roots, m, events) == RunThreads(p, roots, h, events)
    decreases |events|
  {
    if events == [] {
    } else {
      assert FitsAll(p, roots, events[1..]);
      match events[0]
      case Disturb(change) =>
        var m', h' := m.(store := change(m.store)), h.(store := change(h.store));
        assert Related(p, roots, m', h');
        SuspensionPreservesMeaning(p, roots, m', h', events[1..]);
      case Dispatch(t, fuel) =>
        assert Fits(p, roots, events[0]);
        DispatchAgrees(p, roots, m, h, t, fuel);
        var r, th := DispatchMacros(p, roots, m, t, fuel), DispatchThread(p, roots, h, t, fuel);
        if r.out != OutOfFuel {
          SuspensionPreservesMeaning(p, roots, Macros(m.labels[t := r.labels], r.store),
                                     Threads(h.stacks[t := th.stack], th.store), events[1..]);
        }
    }
  }

  /** RESUME's first execution sets all labels to the start, which is where threads that have not begun are. */
  lemma InitiallyRelated<S>(p: Program<S>, roots: seq<nat>, s: S)
    requires forall t :: 0 <= t < |roots| ==> roots[t] < |p.fns|
    ensures Related(p, roots, Macros(seq(|roots|, _ => seq(|p.fns|, _ => AtStart)), s), Threads(seq(|roots|, _ => []), s))
  {
  }

  // ---------------------------------------------------------------- without RESET

  lemma {:induction false} EnterSameAbove<S>(p: Program<S>, f: nat, l: Labels, s: S, fuel: nat)
    requires Acyclic(p) && f < |p.fns| == |l|
    ensures SameAbove(l, Enter(p, f, l, s, fuel).labels, f)
    decreases fuel, f, 2
  {
    match l[f]
    case AtStart => GoSameAbove(p, f, 0, l, s, fuel);
    case After(pc) => GoSameAbove(p, f, pc, l, s, fuel);
    case AtCall(pc) => InCallSameAbove(p, f, pc, l, s, fuel);
  }

  lemma {:induction false} GoSameAbove<S>(p: Program<S>, f: nat, pc: nat, l: Labels, s: S, fuel: nat)
    requires Acyclic(p) && f < |p.fns| == |l|
    ensures SameAbove(l, Go(p, f, pc, l, s, fuel).labels, f)
    decreases fuel, f, 0
  {
    if fuel > 0 {
      match Fetch(p, f, pc)
      case Effect(e) => GoSameAbove(p, f, pc + 1, l, p.eff(e, s), fuel - 1);
      case Branch(c, target) => GoSameAbove(p, f, if p.cond(c, s) then target else pc + 1, l, s, fuel - 1);
      case Call(_, _) => InCallSameAbove(p, f, pc, l[f := AtCall(pc)], s, fuel - 1);
      case Suspend(kind) =>
      case Return(code, reset) =>
    }
  }

  lemma {:induction false} InCallSameAbove<S>(p: Program<S>, f: nat, pc: nat, l: Labels, s: S, fuel: nat)
    requires Acyclic(p) && f < |p.fns| == |l|
    ensures SameAbove(l, InCall(p, f, pc, l, s, fuel).labels, f)
    decreases fuel, f, 1
  {
    match Fetch(p, f, pc)
    case Call(g, _) =>
      var r := Enter(p, g, l, s, fuel);
      EnterSameAbove(p, g, l, s, fuel);
      if r.out.Finished? {
        GoSameAbove(p, f, AfterCall(p, f, pc, r.out.code), r.labels, r.store, r.fuel);
      }
    case _ =>
  }

  // ---------------------------------------------------------------- what CALL hands back

  /** When its callee returns, CALL goes on behind itself iff the code is RET_SUCCESS, and otherwise where errors are
      handled; when the callee suspends, so does the caller, still at that CALL. */
  lemma CallHandsBack<S>(p: Program<S>, f: nat, pc: nat, l: Labels, s: S, fuel: nat)
    requires Acyclic(p) && f < |p.fns| == |l| && pc < |p.fns[f]| && p.fns[f][pc].Call?
    ensures var r := Enter(p, p.fns[f][pc].g, l, s, fuel);
      && |r.labels| == |l| && r.labels[f] == l[f]
      && (!r.out.Finished? ==> InCall(p, f, pc, l, s, fuel) == r)
      && (r.out == Finished(RetSuccess) ==> InCall(p, f, pc, l, s, fuel) == Go(p, f, pc + 1, r.labels, r.store, r.fuel))
      && (r.out.Finished? && r.out.code != RetSuccess ==>
            InCall(p, f, pc, l, s, fuel) == Go(p, f, p.fns[f][pc].onError, r.labels, r.store, r.fuel))
  {
    EnterSameAbove(p, p.fns[f][pc].g, l, s, fuel);
  }

  /** The same for a thread whose innermost function returns `code`. */
  lemma ReturnHandsBack<S>(p: Program<S>, below: seq<Frame>, caller: Frame, callee: Frame, s: S, fuel: nat)
    requires caller.f < |p.fns| && callee.f < |p.fns| && Frames(p, below)
    requires caller.pc < |p.fns[caller.f]| && p.fns[caller.f][caller.pc].Call?
    requires callee.pc < |p.fns[callee.f]| && p.fns[callee.f][callee.pc].Return?
    ensures var onError, code := p.fns[caller.f][caller.pc].onError, p.fns[callee.f][callee.pc].code;
      RunThread(p, below + [caller, callee], s, fuel + 1) ==
      RunThread(p, below + [caller.(pc := if code == RetSuccess then caller.pc + 1 else onError)], s, fuel)
  {
    var stack := below + [caller, callee];
    assert stack[..|stack| - 1] == below + [caller];
    assert (below + [caller])[..|below|] == below;
  }

  /** A function that passes on what its callee returns: `return CALL(g())`, with any error as RET_ERROR. */
  predicate PassesOn<S>(p: Program<S>, f: nat, g: nat) {
    g < f < |p.fns| && p.fns[f] == [Call(g, 2), Return(RetSuccess, true), Return(RetError, true)]
  }

  /** `f` fares as its callee does, as far as their callers can tell. */
  predicate FaresAs(mine: Outcome, callee: Outcome) {
    && (mine.Suspended? ==> mine == callee)
    && (mine.Finished? ==> callee.Finished? && (mine.code == RetSuccess || mine.code == RetError)
                           && (mine.code == RetSuccess <==> callee.code == RetSuccess))
  }

  lemma PassesOnOnce<S>(p: Program<S>, f: nat, g: nat, l: Labels, s: S, fuel: nat)
    requires Acyclic(p) && PassesOn(p, f, g) && |p.fns| == |l| && l[f] == AtCall(0)
    ensures var r, c := Enter(p, f, l, s, fuel), Enter(p, g, l, s, fuel);
      FaresAs(r.out, c.out) && (r.out.Suspended? ==> r == c && r.labels[f] == AtCall(0))
  {
    CallHandsBack(p, f, 0, l, s, fuel);
  }

  /** Dispatches of `f`, until it returns or the fuel runs out. */
  function Dispatched<S>(p: Program<S>, f: nat, l: Labels, s: S, fuels: seq<nat>): Outcome
    requires Acyclic(p) && f < |p.fns| == |l|
    decreases |fuels|
  {
    if fuels == [] then OutOfFuel
    else
      var r := Enter(p, f, l, s, fuels[0]);
      if r.out.Suspended? then Dispatched(p, f, r.labels, r.store, fuels[1..]) else r.out
  }

  lemma {:induction false} PassesOnAlways<S>(p: Program<S>, f: nat, g: nat, l: Labels, s: S, fuels: seq<nat>)
    requires Acyclic(p) && PassesOn(p, f, g) && |p.fns| == |l| && l[f] == AtCall(0)
    ensures FaresAs(Dispatched(p, f, l, s, fuels), Dispatched(p, g, l, s, fuels))
    decreases |fuels|
  {
    hide Enter, PassesOn, Acyclic;
    if fuels == [] {
    } else {
      PassesOnBounds(p, f, g);
      PassesOnOnce(p, f, g, l, s, fuels[0]);
      var r := Enter(p, f, l, s, fuels[0]);
      if r.out.Suspended? {
        PassesOnAlways(p, f, g, r.labels, r.store, fuels[1..]);
      }
    }
  }

  lemma PassesOnBounds<S>(p: Program<S>, f: nat, g: nat)
    requires PassesOn(p, f, g)
    ensures g < f < |p.fns|
  {
  }

  /** So, called from the start, it returns RET_SUCCESS iff its callee does, and RET_ERROR otherwise, however often that
      suspends in between. */
  lemma ResultPassedOn<S>(p: Program<S>, f: nat, g: nat, l: Labels, s: S, fuel: nat, fuels: seq<nat>)
    requires Acyclic(p) && PassesOn(p, f, g) && |p.fns| == |l| && l[f] == AtStart
    ensures FaresAs(Dispatched(p, f, l, s, [fuel + 1] + fuels), Dispatched(p, g, l[f := AtCall(0)], s, [fuel] + fuels))
  {
    var l1 := l[f := AtCall(0)];
    assert Enter(p, f, l, s, fuel + 1) == Enter(p, f, l1, s, fuel);
    assert ([fuel + 1] + fuels)[1..] == fuels && ([fuel] + fuels)[1..] == fuels;
    assert Dispatched(p, f, l, s, [fuel + 1] + fuels) == Dispatched(p, f, l1, s, [fuel] + fuels);
    PassesOnAlways(p, f, g, l1, s, [fuel] + fuels);
  }

  // ---------------------------------------------------------------- RESET forgotten

  /** `n` calls of function `f`, one after the other. */
  function Calls<S>(p: Program<S>, f: nat, l: Labels, s: S, fuel: nat, n: nat): (r: (Labels, S))
    requires Acyclic(p) && f < |p.fns| == |l|
    ensures |r.0| == |l|
    decreases n
  {
    if n == 0 then (l, s)
    else
      var r := Enter(p, f, l, s, fuel);
      Calls(p, f, r.labels, r.store, fuel, n - 1)
  }

  /** All of them return RET_SUCCESS. */
  predicate AllSucceed<S>(p: Program<S>, f: nat, l: Labels, s: S, fuel: nat, n: nat)
    requires Acyclic(p) && f < |p.fns| == |l|
    decreases n
  {
    n == 0 ||
    var r := Enter(p, f, l, s, fuel);
    r.out == Finished(RetSuccess) && r.fuel > 0 && AllSucceed(p, f, r.labels, r.store, fuel, n - 1)
  }

  /** A function that has got as far as its last CALL and returns behind it without RESET does nothing but that CALL
      from then on, however often it is called. */
  lemma {:induction false} StuckAtLastCall<S>(p: Program<S>, f: nat, pc: nat, l: Labels, s: S, fuel: nat, n: nat)
    requires Acyclic(p) && f < |p.fns| == |l| && l[f] == AtCall(pc) && pc < |p.fns[f]|
    requires Fetch(p, f, pc).Call? && Fetch(p, f, pc + 1).Return? && !Fetch(p, f, pc + 1).reset
    requires AllSucceed(p, Fetch(p, f, pc).g, l, s, fuel, n)
    ensures Calls(p, f, l, s, fuel, n) == Calls(p, Fetch(p, f, pc).g, l, s, fuel, n)
    decreases n
  {
    if n == 0 {
    } else {
      var g := Fetch(p, f, pc).g;
      var r := Enter(p, g, l, s, fuel);
      EnterSameAbove(p, g, l, s, fuel);
      assert Enter(p, f, l, s, fuel) == InCall(p, f, pc, l, s, fuel) == Go(p, f, pc + 1, r.labels, r.store, r.fuel);
      StuckAtLastCall(p, f, pc, r.labels, r.store, fuel, n - 1);
    }
  }

  /** A function that returns without RESET goes on behind its last suspension when it is called again: here
      effect 0 is skipped and the second call does not suspend. */
  lemma ForgottenReset()
    ensures
      var p := Program([[Effect(0), Suspend(RetYield), Effect(1), Return(RetSuccess, false)]],
                       (e: nat, log: seq<nat>) => log + [e], (c: nat, log: seq<nat>) => false);
      Acyclic(p) &&
      var r1 := Enter(p, 0, [AtStart], [], 10);
      var r2 := Enter(p, 0, r1.labels, r1.store, 10);
      var r3 := Enter(p, 0, r2.labels, r2.store, 10);
      && r1.out == Suspended(RetYield) && r1.store == [0]
      && r2.out == Finished(RetSuccess) && r2.store == [0, 1]
      && r3.out == Finished(RetSuccess) && r3.store == [0, 1, 1]
      && RunThread(p, [Frame(0, 0)], r2.store, 10).out == Suspended(RetYield)
  {
  }
}
