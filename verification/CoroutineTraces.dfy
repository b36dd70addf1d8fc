/** What a task does over all its dispatches, compared with a run that never suspends: no effect is skipped and none
    repeated, whatever other tasks do in between. */
module CoroutineTraces {
  import opened Return
  import opened CoroutineSpec
  import opened CoroutineRuns

  // ---------------------------------------------------------------- a run that never suspends

  datatype Move<S> = Ends(code: RetType) | Goes(stack: seq<Frame>, store: S)

  /** Where one instruction takes a thread, a suspension being passed over. */
  function Moved<S>(p: Program<S>, stack: seq<Frame>, s: S): (m: Move<S>)
    requires Acyclic(p) && stack != [] && Frames(p, stack)
    ensures m.Goes? ==> m.stack != [] && Frames(p, m.stack)
  {
    var n := |stack| - 1;
    var below, top := stack[..n], stack[n];
    match Fetch(p, top.f, top.pc)
    case Effect(e) => Goes(below + [top.(pc := top.pc + 1)], p.eff(e, s))
    case Branch(c, target) => Goes(below + [top.(pc := if p.cond(c, s) then target else top.pc + 1)], s)
    case Call(g, _) => Goes(stack + [Frame(g, 0)], s)
    case Suspend(kind) => Goes(below + [top.(pc := top.pc + 1)], s)
    case Return(code, _) =>
      if below == [] then Ends(code)
      else
        var caller := below[n - 1];
        Goes(below[..n - 1] + [caller.(pc := AfterCall(p, caller.f, caller.pc, code))], s)
  }

  function Next<S>(p: Program<S>, stack: seq<Frame>): Instr
    requires stack != [] && Frames(p, stack)
  {
    Fetch(p, stack[|stack| - 1].f, stack[|stack| - 1].pc)
  }

  lemma RunMoves<S>(p: Program<S>, stack: seq<Frame>, s: S, fuel: nat)
    requires Acyclic(p) && stack != [] && Frames(p, stack) && fuel > 0
    ensures match Moved(p, stack, s)
      case Ends(code) => RunThread(p, stack, s, fuel) == Thread([], s, Finished(code), fuel - 1)
      case Goes(next, s') =>
        RunThread(p, stack, s, fuel) ==
          if Next(p, stack).Suspend? then Thread(next, s', Suspended(Next(p, stack).kind), fuel - 1)
          else RunThread(p, next, s', fuel - 1)
  {
  }

  lemma NoFuel<S>(p: Program<S>, stack: seq<Frame>, s: S)
    requires stack != [] && Frames(p, stack)
    ensures RunThread(p, stack, s, 0) == Thread(stack, s, OutOfFuel, 0)
  {
  }

  /** A task's function is called anew when it has returned. */
  function Begun(root: nat, stack: seq<Frame>): (r: seq<Frame>)
    ensures r != []
  {
    if stack == [] then [Frame(root, 0)] else stack
  }

  lemma BegunFrames<S>(p: Program<S>, root: nat, stack: seq<Frame>)
    requires root < |p.fns| && Frames(p, stack)
    ensures Frames(p, Begun(root, stack)) && Frames(p, [])
  {
  }

  /** Exactly `steps` instructions of a task that does not stop at suspensions, its function being called over and
      over. */
  function Straight<S>(p: Program<S>, root: nat, stack: seq<Frame>, s: S, steps: nat): (r: (seq<Frame>, S))
    requires Acyclic(p) && root < |p.fns| && Frames(p, stack)
    ensures r.0 != [] && Frames(p, r.0)
    decreases steps
  {
    BegunFrames(p, root, stack);
    if steps == 0 then (Begun(root, stack), s)
    else
      match Moved(p, Begun(root, stack), s)
      case Ends(_) => Straight(p, root, [], s, steps - 1)
      case Goes(next, s') => Straight(p, root, next, s', steps - 1)
  }

  lemma StraightBegun<S>(p: Program<S>, root: nat, stack: seq<Frame>, s: S, steps: nat)
    requires Acyclic(p) && root < |p.fns| && Frames(p, stack)
    ensures Frames(p, Begun(root, stack))
    ensures Straight(p, root, Begun(root, stack), s, steps) == Straight(p, root, stack, s, steps)
  {
  }

  lemma StraightMoves<S>(p: Program<S>, root: nat, stack: seq<Frame>, s: S, steps: nat)
    requires Acyclic(p) && root < |p.fns| && stack != [] && Frames(p, stack) && steps > 0
    ensures Frames(p, []) && Straight(p, root, stack, s, steps) ==
      match Moved(p, stack, s)
      case Ends(_) => Straight(p, root, [], s, steps - 1)
      case Goes(next, s') => Straight(p, root, next, s', steps - 1)
  {
  }

  lemma {:induction false} StraightConcat<S>(p: Program<S>, root: nat, stack: seq<Frame>, s: S, a: nat, b: nat)
    requires Acyclic(p) && root < |p.fns| && Frames(p, stack)
    ensures Straight(p, root, stack, s, a + b) ==
      Straight(p, root, Straight(p, root, stack, s, a).0, Straight(p, root, stack, s, a).1, b)
    decreases a
  {
    hide Moved, Frames, Straight;
    BegunFrames(p, root, stack);
    StraightBegun(p, root, stack, s, a + b);
    StraightBegun(p, root, stack, s, a);
    StraightBegun(p, root, stack, s, b);
    StraightNone(p, root, stack, s);
    if a == 0 {
    } else {
      var begun := Begun(root, stack);
      StraightMoves(p, root, begun, s, a + b);
      StraightMoves(p, root, begun, s, a);
      match Moved(p, begun, s)
      case Ends(_) => StraightConcat(p, root, [], s, a - 1, b);
      case Goes(next, s') => StraightConcat(p, root, next, s', a - 1, b);
    }
  }

  // ---------------------------------------------------------------- dispatches are pieces of it

  /** What a thread does in a dispatch, however that ends, is the beginning of the straight run, and the rest goes on
      from there. */
  lemma {:induction false} DispatchIsStraight<S>(p: Program<S>, root: nat, stack: seq<Frame>, s: S, fuel: nat,
                                                 more: nat)
    requires Acyclic(p) && root < |p.fns| && stack != [] && Frames(p, stack)
    ensures var th := RunThread(p, stack, s, fuel);
      && th.fuel <= fuel && Frames(p, th.stack)
      && Straight(p, root, stack, s, fuel - th.fuel + more) == Straight(p, root, th.stack, th.store, more)
    decreases fuel
  {
    hide RunThread, Moved, Next, Frames, Straight;
    NoFuel(p, stack, s);
    if fuel == 0 {
    } else {
      RunMoves(p, stack, s, fuel);
      var th := RunThread(p, stack, s, fuel);
      match Moved(p, stack, s) {
        case Ends(_) => StraightMoves(p, root, stack, s, 1 + more);
        case Goes(next, s') =>
          if !Next(p, stack).Suspend? {
            DispatchIsStraight(p, root, next, s', fuel - 1, more);
          }
          StraightMoves(p, root, stack, s, fuel - th.fuel + more);
      }
    }
  }

  /** Dispatches of one task with nobody else in between: where it stands, the statics, and how many instructions it
      has executed. */
  function Successive<S>(p: Program<S>, root: nat, stack: seq<Frame>, s: S, fuels: seq<nat>): (r: (seq<Frame>, S, nat))
    requires Acyclic(p) && root < |p.fns| && Frames(p, stack)
    ensures Frames(p, r.0)
    decreases |fuels|
  {
    if fuels == [] then (stack, s, 0)
    else
      BegunFrames(p, root, stack);
      DispatchIsStraight(p, root, Begun(root, stack), s, fuels[0], 0);
      var th := RunThread(p, Begun(root, stack), s, fuels[0]);
      var (stack', s', used) := Successive(p, root, th.stack, th.store, fuels[1..]);
      (stack', s', fuels[0] - th.fuel + used)
  }

  /** Over any number of dispatches that suspend, finish or are cut short, they are one straight run. */
  lemma {:induction false} SuccessiveAreStraight<S>(p: Program<S>, root: nat, stack: seq<Frame>, s: S, fuels: seq<nat>,
                                                    more: nat)
    requires Acyclic(p) && root < |p.fns| && Frames(p, stack)
    ensures var (stack', s', used) := Successive(p, root, stack, s, fuels);
      Straight(p, root, stack, s, used + more) == Straight(p, root, stack', s', more)
    decreases |fuels|
  {
    hide RunThread, Straight, Frames;
    if fuels == [] {
    } else {
      BegunFrames(p, root, stack);
      var th := RunThread(p, Begun(root, stack), s, fuels[0]);
      DispatchIsStraight(p, root, Begun(root, stack), s, fuels[0], 0);
      var used := Successive(p, root, th.stack, th.store, fuels[1..]).2;
      DispatchIsStraight(p, root, Begun(root, stack), s, fuels[0], used + more);
      StraightBegun(p, root, stack, s, fuels[0] - th.fuel + used + more);
      SuccessiveAreStraight(p, root, th.stack, th.store, fuels[1..], more);
    }
  }

  // ---------------------------------------------------------------- interleaved tasks

  /** The statics are a log: every effect is recorded in the trace of the task that runs. Conditions do not depend on
      the statics, so that tasks do not influence each other. */
  datatype Log = Log(now: nat, traces: seq<seq<nat>>)

  function Record(e: nat, g: Log): (g': Log)
    ensures g'.now == g.now && |g'.traces| == |g.traces|
  {
    if g.now < |g.traces| then g.(traces := g.traces[g.now := g.traces[g.now] + [e]]) else g
  }

  function Recorder(fns: seq<seq<Instr>>, cond: nat -> bool): Program<Log> {
    Program(fns, Record, (c: nat, g: Log) => cond(c))
  }

  /** The same program run by itself, its statics being its own trace. */
  function Solo(fns: seq<seq<Instr>>, cond: nat -> bool): Program<seq<nat>> {
    Program(fns, (e: nat, t: seq<nat>) => t + [e], (c: nat, t: seq<nat>) => cond(c))
  }

  lemma SoloAcyclic(fns: seq<seq<Instr>>, cond: nat -> bool)
    requires Acyclic(Recorder(fns, cond))
    ensures Acyclic(Solo(fns, cond))
    ensures forall stack: seq<Frame> :: Frames(Recorder(fns, cond), stack) <==> Frames(Solo(fns, cond), stack)
  {
  }

  lemma MovedProjects(fns: seq<seq<Instr>>, cond: nat -> bool, stack: seq<Frame>, g: Log)
    requires Acyclic(Recorder(fns, cond)) && Acyclic(Solo(fns, cond))
    requires stack != [] && Frames(Recorder(fns, cond), stack) && Frames(Solo(fns, cond), stack) && g.now < |g.traces|
    ensures Next(Recorder(fns, cond), stack) == Next(Solo(fns, cond), stack)
    ensures match Moved(Solo(fns, cond), stack, g.traces[g.now])
      case Ends(code) => Moved(Recorder(fns, cond), stack, g) == Ends(code)
      case Goes(next, t) => Moved(Recorder(fns, cond), stack, g) == Goes(next, g.(traces := g.traces[g.now := t]))
  {
    assert g.traces[g.now := g.traces[g.now]] == g.traces;
  }

  /** A thread that records runs like one by itself, and changes the trace of its task only. */
  lemma {:induction false} RunProjects(fns: seq<seq<Instr>>, cond: nat -> bool, stack: seq<Frame>, g: Log, fuel: nat)
    requires Acyclic(Recorder(fns, cond)) && Acyclic(Solo(fns, cond))
    requires stack != [] && Frames(Recorder(fns, cond), stack) && Frames(Solo(fns, cond), stack) && g.now < |g.traces|
    ensures var th, own := RunThread(Recorder(fns, cond), stack, g, fuel),
                           RunThread(Solo(fns, cond), stack, g.traces[g.now], fuel);
      th == Thread(own.stack, g.(traces := g.traces[g.now := own.store]), own.out, own.fuel)
    decreases fuel
  {
    hide RunThread, Moved, Next, Frames, Acyclic;
    var p, q, t := Recorder(fns, cond), Solo(fns, cond), g.traces[g.now];
    NoFuel(p, stack, g);
    NoFuel(q, stack, t);
    if fuel == 0 {
      assert g.traces[g.now := t] == g.traces;
    } else {
      RunMoves(p, stack, g, fuel);
      RunMoves(q, stack, t, fuel);
      MovedProjects(fns, cond, stack, g);
      assert g.traces[g.now := t] == g.traces;
      match Moved(q, stack, t) {
        case Ends(_) =>
        case Goes(next, t') =>
          if !Next(q, stack).Suspend? {
            var g' := g.(traces := g.traces[g.now := t']);
            RunProjects(fns, cond, next, g', fuel - 1);
            var own := RunThread(q, next, t', fuel - 1);
            assert g'.traces[g.now := own.store] == g.traces[g.now := own.store];
          }
      }
    }
  }

  /** A schedule: which task is dispatched, and for how many instructions at most. */
  datatype Turn = Turn(t: nat, fuel: nat)

  function Tagged(turns: seq<Turn>): (events: seq<Event<Log>>)
    ensures |events| == 2 * |turns|
  {
    if turns == [] then []
    else [Disturb((g: Log) => g.(now := turns[0].t)), Dispatch(turns[0].t, turns[0].fuel)] + Tagged(turns[1..])
  }

  lemma {:induction false} TaggedFits(fns: seq<seq<Instr>>, cond: nat -> bool, roots: seq<nat>, turns: seq<Turn>)
    requires forall i :: 0 <= i < |turns| ==> turns[i].t < |roots|
    requires forall i :: 0 <= i < |roots| ==> roots[i] < |fns|
    ensures FitsAll(Recorder(fns, cond), roots, Tagged(turns))
    decreases |turns|
  {
    if turns == [] {
    } else {
      TaggedFits(fns, cond, roots, turns[1..]);
    }
  }

  /** Task `u` has done the first `n` instructions of its straight run. */
  ghost predicate OnTrack(fns: seq<seq<Instr>>, cond: nat -> bool, root: nat, stack: seq<Frame>, trace: seq<nat>,
                          n: nat)
    requires Acyclic(Solo(fns, cond)) && root < |fns|
  {
    Straight(Solo(fns, cond), root, [], [], n) == (Begun(root, stack), trace)
  }

  /** A turn of task `t` moves it on along its track, and nobody else. */
  lemma TurnOnTrack(fns: seq<seq<Instr>>, cond: nat -> bool, root: nat, stack: seq<Frame>, g: Log, fuel: nat, n: nat)
    requires Acyclic(Recorder(fns, cond)) && Acyclic(Solo(fns, cond)) && root < |fns|
    requires Frames(Recorder(fns, cond), stack) && Frames(Recorder(fns, cond), Begun(root, stack)) && g.now < |g.traces|
    requires OnTrack(fns, cond, root, stack, g.traces[g.now], n)
    ensures var th := RunThread(Recorder(fns, cond), Begun(root, stack), g, fuel);
      && Frames(Recorder(fns, cond), th.stack)
      && th.store.now == g.now && |th.store.traces| == |g.traces| && th.fuel <= fuel
      && (forall u :: 0 <= u < |g.traces| && u != g.now ==> th.store.traces[u] == g.traces[u])
      && OnTrack(fns, cond, root, th.stack, th.store.traces[g.now], n + fuel - th.fuel)
  {
    hide RunThread, Straight, Frames, Acyclic;
    var q, t := Solo(fns, cond), g.traces[g.now];
    SoloFrames(fns, cond, Begun(root, stack));
    RunProjects(fns, cond, Begun(root, stack), g, fuel);
    DispatchIsStraight(q, root, Begun(root, stack), t, fuel, 0);
    var own := RunThread(q, Begun(root, stack), t, fuel);
    SoloFrames(fns, cond, own.stack);
    SoloFrames(fns, cond, []);
    NoFrames(q);
    StraightConcat(q, root, [], [], n, fuel - own.fuel);
    StraightNone(q, root, own.stack, own.store);
  }

  lemma SoloFrames(fns: seq<seq<Instr>>, cond: nat -> bool, stack: seq<Frame>)
    ensures Frames(Recorder(fns, cond), stack) <==> Frames(Solo(fns, cond), stack)
  {
  }

  lemma NoFrames<S>(p: Program<S>)
    ensures Frames(p, [])
  {
  }

  lemma StraightNone<S>(p: Program<S>, root: nat, stack: seq<Frame>, s: S)
    requires Acyclic(p) && root < |p.fns| && Frames(p, stack)
    ensures Straight(p, root, stack, s, 0) == (Begun(root, stack), s)
  {
  }

  /** All tasks are on their tracks, task `u` after `ns[u]` instructions. */
  ghost predicate AllOnTrack(fns: seq<seq<Instr>>, cond: nat -> bool, roots: seq<nat>, h: Threads<Log>, ns: seq<nat>)
    requires Acyclic(Solo(fns, cond)) && forall u :: 0 <= u < |roots| ==> roots[u] < |fns|
  {
    && StacksFor(Recorder(fns, cond), roots, h) && |h.store.traces| == |ns| == |roots|
    && forall u :: 0 <= u < |roots| ==> OnTrack(fns, cond, roots[u], h.stacks[u], h.store.traces[u], ns[u])
  }

  /** The state after task `t` has had a turn. */
  ghost function AfterTurn(fns: seq<seq<Instr>>, cond: nat -> bool, roots: seq<nat>, h: Threads<Log>, turn: Turn)
    : Threads<Log>
    requires StacksFor(Recorder(fns, cond), roots, h) && turn.t < |roots| && roots[turn.t] < |fns|
  {
    var h1 := h.(store := h.store.(now := turn.t));
    var th := DispatchThread(Recorder(fns, cond), roots, h1, turn.t, turn.fuel);
    Threads(h.stacks[turn.t := th.stack], th.store)
  }

  lemma {:induction false} TurnUnfolds(fns: seq<seq<Instr>>, cond: nat -> bool, roots: seq<nat>, h: Threads<Log>,
                                       turns: seq<Turn>)
    requires StacksFor(Recorder(fns, cond), roots, h) && FitsAll(Recorder(fns, cond), roots, Tagged(turns))
    requires turns != [] && turns[0].t < |roots| && roots[turns[0].t] < |fns|
    requires FitsAll(Recorder(fns, cond), roots, Tagged(turns[1..]))
    ensures var p := Recorder(fns, cond);
      var h' := AfterTurn(fns, cond, roots, h, turns[0]);
      var g := RunThreads(p, roots, h, Tagged(turns)).1;
      g == h'.store || g == RunThreads(p, roots, h', Tagged(turns[1..])).1
  {
    var p, events := Recorder(fns, cond), Tagged(turns);
    assert events[1..][1..] == Tagged(turns[1..]);
    assert events[1..][0] == Dispatch(turns[0].t, turns[0].fuel);
    assert FitsAll(p, roots, events[1..]) && FitsAll(p, roots, events[1..][1..]);
    var h1 := h.(store := h.store.(now := turns[0].t));
    assert RunThreads(p, roots, h, events) == RunThreads(p, roots, h1, events[1..]);
  }

  lemma TurnKeepsTracks(fns: seq<seq<Instr>>, cond: nat -> bool, roots: seq<nat>, h: Threads<Log>, turn: Turn,
                        ns: seq<nat>)
    returns (ns': seq<nat>)
    requires Acyclic(Recorder(fns, cond)) && Acyclic(Solo(fns, cond)) && turn.t < |roots|
    requires (forall u :: 0 <= u < |roots| ==> roots[u] < |fns|) && AllOnTrack(fns, cond, roots, h, ns)
    ensures AllOnTrack(fns, cond, roots, AfterTurn(fns, cond, roots, h, turn), ns')
  {
    hide RunThread, Acyclic, OnTrack;
    var p, t, root := Recorder(fns, cond), turn.t, roots[turn.t];
    var g := h.store.(now := t);
    assert Frames(p, h.stacks[t]);
    BegunFrames(p, root, h.stacks[t]);
    assert OnTrack(fns, cond, root, h.stacks[t], h.store.traces[t], ns[t]);
    TurnOnTrack(fns, cond, root, h.stacks[t], g, turn.fuel, ns[t]);
    var th := RunThread(p, Begun(root, h.stacks[t]), g, turn.fuel);
    ns' := ns[t := ns[t] + turn.fuel - th.fuel];
    var h' := AfterTurn(fns, cond, roots, h, turn);
    assert h'.stacks[t] == th.stack && h'.store == th.store;
    forall u | 0 <= u < |roots| ensures OnTrack(fns, cond, roots[u], h'.stacks[u], h'.store.traces[u], ns'[u]) {
      assert OnTrack(fns, cond, roots[u], h.stacks[u], h.store.traces[u], ns[u]);
    }
  }

  lemma {:induction false} TurnsKeepTracks(fns: seq<seq<Instr>>, cond: nat -> bool, roots: seq<nat>, h: Threads<Log>,
                                           turns: seq<Turn>, ns: seq<nat>)
    requires Acyclic(Recorder(fns, cond)) && Acyclic(Solo(fns, cond))
    requires (forall u :: 0 <= u < |roots| ==> roots[u] < |fns|) && AllOnTrack(fns, cond, roots, h, ns)
    requires forall i :: 0 <= i < |turns| ==> turns[i].t < |roots|
    ensures FitsAll(Recorder(fns, cond), roots, Tagged(turns))
    ensures var g := RunThreads(Recorder(fns, cond), roots, h, Tagged(turns)).1;
      |g.traces| == |roots| && forall u :: 0 <= u < |roots| ==> IsBeginning(fns, cond, roots[u], g.traces[u])
    decreases |turns|
  {
    hide Acyclic, AllOnTrack, AfterTurn, FitsAll, RunThreads, StacksFor, IsBeginning;
    TaggedFits(fns, cond, roots, turns);
    OnTrackBeginnings(fns, cond, roots, h, ns);
    if turns == [] {
      NothingRuns(fns, cond, roots, h);
    } else {
      TaggedFits(fns, cond, roots, turns[1..]);
      TurnUnfolds(fns, cond, roots, h, turns);
      var ns' := TurnKeepsTracks(fns, cond, roots, h, turns[0], ns);
      OnTrackBeginnings(fns, cond, roots, AfterTurn(fns, cond, roots, h, turns[0]), ns');
      TurnsKeepTracks(fns, cond, roots, AfterTurn(fns, cond, roots, h, turns[0]), turns[1..], ns');
    }
  }

  lemma NothingRuns(fns: seq<seq<Instr>>, cond: nat -> bool, roots: seq<nat>, h: Threads<Log>)
    requires FitsAll(Recorder(fns, cond), roots, Tagged([]))
    ensures RunThreads(Recorder(fns, cond), roots, h, Tagged([])).1 == h.store
  {
  }

  /** `trace` is what the first so many instructions of the straight run record. */
  ghost predicate IsBeginning(fns: seq<seq<Instr>>, cond: nat -> bool, root: nat, trace: seq<nat>)
  {
    Acyclic(Solo(fns, cond)) && root < |fns| && exists n: nat :: Straight(Solo(fns, cond), root, [], [], n).1 == trace
  }

  lemma OnTrackBeginnings(fns: seq<seq<Instr>>, cond: nat -> bool, roots: seq<nat>, h: Threads<Log>, ns: seq<nat>)
    requires Acyclic(Solo(fns, cond))
    requires (forall u :: 0 <= u < |roots| ==> roots[u] < |fns|) && AllOnTrack(fns, cond, roots, h, ns)
    ensures StacksFor(Recorder(fns, cond), roots, h) && |h.store.traces| == |roots|
    ensures forall u :: 0 <= u < |roots| ==> IsBeginning(fns, cond, roots[u], h.store.traces[u])
  {
    forall u | 0 <= u < |roots| ensures IsBeginning(fns, cond, roots[u], h.store.traces[u]) {
      assert OnTrack(fns, cond, roots[u], h.stacks[u], h.store.traces[u], ns[u]);
    }
  }

  /** For every program whose conditions do not depend on the statics, and any interleaving of dispatches that run by
      labels: what each task has recorded is the beginning of the straight run of its own function, called over and
      over. */
  lemma TracesAreStraight(fns: seq<seq<Instr>>, cond: nat -> bool, roots: seq<nat>, turns: seq<Turn>)
    requires WellFormed(Recorder(fns, cond))
    requires forall u :: 0 <= u < |roots| ==> roots[u] < |fns|
    requires forall i :: 0 <= i < |turns| ==> turns[i].t < |roots|
    ensures var p := Recorder(fns, cond);
      var m := Macros(seq(|roots|, _ => seq(|fns|, _ => AtStart)), Log(0, seq(|roots|, _ => [])));
      && LabelsFor(p, roots, m) && FitsAll(p, roots, Tagged(turns))
      && var g := RunMacros(p, roots, m, Tagged(turns)).1;
         |g.traces| == |roots| && forall u :: 0 <= u < |roots| ==> IsBeginning(fns, cond, roots[u], g.traces[u])
  {
    var p, g := Recorder(fns, cond), Log(0, seq(|roots|, _ => []));
    var m, h := Macros(seq(|roots|, _ => seq(|fns|, _ => AtStart)), g), Threads(seq(|roots|, _ => []), g);
    SoloAcyclic(fns, cond);
    InitiallyRelated(p, roots, g);
    TaggedFits(fns, cond, roots, turns);
    SuspensionPreservesMeaning(p, roots, m, h, Tagged(turns));
    var ns: seq<nat> := seq(|roots|, _ => 0);
    forall u | 0 <= u < |roots| ensures OnTrack(fns, cond, roots[u], h.stacks[u], h.store.traces[u], ns[u]) {
      NoFrames(Solo(fns, cond));
      StraightNone(Solo(fns, cond), roots[u], [], []);
    }
    TurnsKeepTracks(fns, cond, roots, h, turns, ns);
  }

  /** Beginnings of the same run are prefixes of each other, so that none of the two can skip or repeat an effect. */
  lemma {:induction false} BeginningsAreNested(fns: seq<seq<Instr>>, cond: nat -> bool, root: nat, n: nat, more: nat)
    requires Acyclic(Solo(fns, cond)) && root < |fns|
    ensures Straight(Solo(fns, cond), root, [], [], n).1 <= Straight(Solo(fns, cond), root, [], [], n + more).1
    decreases more
  {
    hide Acyclic, Frames, Straight;
    var q := Solo(fns, cond);
    NoFrames(q);
    if more == 0 {
    } else {
      var (stack, t) := Straight(q, root, [], [], n + more - 1);
      BeginningsAreNested(fns, cond, root, n, more - 1);
      StraightConcat(q, root, [], [], n + more - 1, 1);
      OneInstruction(fns, cond, root, stack, t);
      PrefixOfPrefix(Straight(q, root, [], [], n).1, t, Straight(q, root, stack, t, 1).1);
    }
  }

  lemma PrefixOfPrefix(a: seq<nat>, b: seq<nat>, c: seq<nat>)
    requires a <= b <= c
    ensures a <= c
  {
  }

  lemma OneInstruction(fns: seq<seq<Instr>>, cond: nat -> bool, root: nat, stack: seq<Frame>, t: seq<nat>)
    requires Acyclic(Solo(fns, cond)) && root < |fns| && stack != [] && Frames(Solo(fns, cond), stack)
    ensures t <= Straight(Solo(fns, cond), root, stack, t, 1).1
  {
    var q := Solo(fns, cond);
    StraightMoves(q, root, stack, t, 1);
    match Moved(q, stack, t)
    case Ends(_) => StraightNone(q, root, [], t);
    case Goes(next, t') => StraightNone(q, root, next, t');
  }
}
