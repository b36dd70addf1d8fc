/** The macros of sched/macros as they work at run time: one static label array for each function, indexed by the
    task, initialised by the function's first RESUME. Executing a function this way is proved equal to Enter. */
module Coroutine {
  import opened CoroutineSpec

  const LABELS_PER_FUNCTION: nat := 65  // MAX_NUM_TASKS + 1

  class Functions<S(!new)> {
    const program: Program<S>
    /** current[f, t] is `_current[t]` in function `f`; it means nothing before `init[f]`. */
    const current: array2<Label>
    const init: array<bool>
    var store: S
    var dispatched: nat

    ghost predicate Valid()
      reads this`dispatched
    {
      && current.Length0 == init.Length == |program.fns| && current.Length1 == LABELS_PER_FUNCTION
      && dispatched < LABELS_PER_FUNCTION && Acyclic(program)
    }

    /** The labels of task `t`. */
    ghost function LabelsOf(t: nat): (l: Labels)
      requires Valid() && t < LABELS_PER_FUNCTION
      reads this`dispatched, current, init
      ensures |l| == |program.fns|
      ensures forall f :: 0 <= f < |l| ==> l[f] == if init[f] then current[f, t] else AtStart
    {
      seq(|program.fns|,
        f requires 0 <= f < init.Length == current.Length0 && t < current.Length1 reads current, init =>
        if init[f] then current[f, t] else AtStart)
    }

    constructor (program: Program<S>, store: S)
      requires Acyclic(program)
      ensures Valid() && fresh(current) && fresh(init) && this.program == program && this.store == store
      ensures forall t :: 0 <= t < LABELS_PER_FUNCTION ==> LabelsOf(t) == seq(|program.fns|, _ => AtStart)
    {
      this.program, this.store, dispatched := program, store, 0;
      current := new Label[|program.fns|, LABELS_PER_FUNCTION]((_, _) => AtStart);
      init := new bool[|program.fns|](_ => false);
    }

    /** RESUME() up to its goto. */
    method Resume(f: nat)
      requires Valid() && f < |program.fns|
      modifies current, init
      ensures Valid() && forall g :: 0 <= g < |program.fns| ==> init[g] == (g == f || old(init[g]))
      ensures forall t :: 0 <= t < LABELS_PER_FUNCTION ==> LabelsOf(t) == old(LabelsOf(t))
    {
      if !init[f] {
        for i := 0 to LABELS_PER_FUNCTION
          invariant forall j :: 0 <= j < i ==> current[f, j] == AtStart
          invariant forall h, j :: 0 <= h < |program.fns| && h != f && 0 <= j < LABELS_PER_FUNCTION ==>
                      current[h, j] == old(current[h, j])
          invariant forall h :: 0 <= h < |program.fns| ==> init[h] == old(init[h])
        {
          current[f, i] := AtStart;
        }
        init[f] := true;
      }
    }

    /** `_current[sched_dispatched] = l` in function `f` */
    method SetLabel(f: nat, l: Label)
      requires Valid() && f < |program.fns| && init[f]
      modifies current
      ensures Valid()
      ensures LabelsOf(dispatched) == old(LabelsOf(dispatched))[f := l]
      ensures forall t :: 0 <= t < LABELS_PER_FUNCTION && t != dispatched ==> LabelsOf(t) == old(LabelsOf(t))
    {
      current[f, dispatched] := l;
    }

    /** A call of function `f` by the dispatched task. */
    method Execute(f: nat, fuel: nat) returns (out: Outcome, left: nat)
      requires Valid() && f < |program.fns|
      modifies this`store, current, init
      ensures Valid()
      ensures Result(LabelsOf(dispatched), store, out, left)
        == Enter(program, f, old(LabelsOf(dispatched)), old(store), fuel)
      ensures forall t :: 0 <= t < LABELS_PER_FUNCTION && t != dispatched ==> LabelsOf(t) == old(LabelsOf(t))
      ensures forall g :: 0 <= g < |program.fns| && old(init[g]) ==> init[g]
      decreases fuel, f
    {
      Resume(f);
      left := fuel;
      var pc: nat, inCall := 0, false;
      match current[f, dispatched] {
        case AtStart =>
        case After(z) => pc := z;
        case AtCall(z) => pc, inCall := z, true;
      }
      ghost var goal := Enter(program, f, LabelsOf(dispatched), store, fuel);
      while true
        invariant Valid() && left <= fuel && init[f]
        invariant goal == if inCall then InCall(program, f, pc, LabelsOf(dispatched), store, left)
                          else Go(program, f, pc, LabelsOf(dispatched), store, left)
        invariant forall t :: 0 <= t < LABELS_PER_FUNCTION && t != dispatched ==> LabelsOf(t) == old(LabelsOf(t))
        invariant forall g :: 0 <= g < |program.fns| && old(init[g]) ==> init[g]
        decreases left, inCall
      {
        if inCall {
          if !Fetch(program, f, pc).Call? {
            return OutOfFuel, 0;
          }
          out, left := Execute(Fetch(program, f, pc).g, left);
          if !out.Finished? {
            return;
          }
          pc, inCall := AfterCall(program, f, pc, out.code), false;
        } else {
          if left == 0 {
            return OutOfFuel, 0;
          }
          left := left - 1;
          match Fetch(program, f, pc) {
            case Effect(e) =>
              store := program.eff(e, store);
              pc := pc + 1;
            case Branch(c, target) =>
              pc := if program.cond(c, store) then target else pc + 1;
            case Call(_, _) =>
              SetLabel(f, AtCall(pc));
              inCall := true;
            case Suspend(kind) =>
              SetLabel(f, After(pc + 1));
              return Suspended(kind), left;
            case Return(code, reset) =>
              if reset {
                SetLabel(f, AtStart);
              }
              return Finished(code), left;
          }
        }
      }
    }
  }
}
