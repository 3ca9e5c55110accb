/** The scoped rollback guard of `placement-new/src/guard.rs`. */
module Guards {
  import opened Core

  /** `Guard<F>`: owns one deferred action until it is consumed, either by
      `Cancel` (the action is disposed of without being called) or by `Drop`
      (the action is taken out and called). `runs` counts calls of the action;
      `armed` is false once the guard has been consumed, and a consumed guard
      can no longer be cancelled or dropped. */
  class Guard {
    var armed: bool
    var runs: nat

    /** `Guard::new` stores the action and runs nothing. */
    constructor ()
      ensures armed && runs == 0
    {
      armed := true;
      runs := 0;
    }

    /** `Guard::cancel`: drop the action without calling it, then forget the guard. */
    method Cancel()
      requires armed
      modifies this
      ensures !armed && runs == old(runs)
    {
      armed := false;
    }

    /** `Drop for Guard`: take the action out and call it once. */
    method Drop()
      requires armed
      modifies this
      ensures !armed && runs == old(runs) + 1
    {
      runs := runs + 1;
      armed := false;
    }
  }

  /** What `guard_on_unwind(f, g)` does, given the run `f` of the protected
      closure and the events `g` of the cleanup closure. */
  function OnUnwind<R>(f: Run<R>, g: seq<Event>): (r: Run<R>)
    ensures r.out == f.out
    ensures f.trace <= r.trace
    ensures r.trace[|f.trace|..] == if f.out.Panic? then g else []
  {
    if f.out.Panic? then Run(f.out, f.trace + g) else f
  }

  /** `guard_on_unwind`: arm a guard over `g`, run `f`, cancel the guard if
      `f` returned. `runs` is how many times `g` ran. */
  method GuardOnUnwind<R>(f: Run<R>, g: seq<Event>) returns (r: Run<R>, runs: nat)
    ensures r == OnUnwind(f, g)
    ensures runs == if f.out.Panic? then 1 else 0
  {
    var guard := new Guard();
    // `f()` runs here; its ending and its events are `f`.
    if f.out.Panic? {
      // unwinding out of `f` drops the still-armed guard
      guard.Drop();
      r := Run(f.out, f.trace + g);
    } else if f.out.Ok? {
      guard.Cancel();
      r := f;
    } else {
      // an abort ends the process without unwinding: the guard never runs
      r := f;
    }
    runs := guard.runs;
  }

  /** Guards nest: when one failure unwinds through an inner and an outer
      guard, the inner cleanup runs first and each runs once. */
  lemma NestedGuardsUnwindInnerFirst<R>(f: Run<R>, inner: seq<Event>, outer: seq<Event>)
    requires f.out.Panic?
    ensures OnUnwind(OnUnwind(f, inner), outer) == Run(f.out, f.trace + inner + outer)
  {
  }
}
