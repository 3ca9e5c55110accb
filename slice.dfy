/** The incremental slice initializer of `placement-new/src/slice.rs`.

    The closure `f(idx, slot)` is modelled by `f: nat -> Outcome<T>`, the
    ending of its call with index `idx` (`Ok(v)`: it wrote `v` into the slot).
    Because the loop calls it exactly once per index, in ascending order, a
    function of the index captures any closure, including one with internal
    state such as a countdown. */
module Slice {
  import opened Core
  import opened Guards

  /** The first index in `lo..n` whose call does not return, or `n`. */
  function FirstFailureFrom<T>(f: nat -> Outcome<T>, lo: nat, n: nat): (k: nat)
    requires lo <= n
    ensures lo <= k <= n
    ensures forall i :: lo <= i < k ==> f(i).Ok?
    ensures k < n ==> !f(k).Ok?
    decreases n - lo
  {
    if lo == n then n
    else if !f(lo).Ok? then lo
    else FirstFailureFrom(f, lo + 1, n)
  }

  /** The index of the first call that does not return when `n` slots are filled, or `n`. */
  function FirstFailure<T>(f: nat -> Outcome<T>, n: nat): (k: nat)
    ensures k <= n
    ensures forall i :: 0 <= i < k ==> f(i).Ok?
    ensures k < n ==> !f(k).Ok?
  {
    FirstFailureFrom(f, 0, n)
  }

  /** The end state of `init_slice_with`: its ending, the slots and its events. */
  datatype SliceRun<T> = SliceRun(out: Outcome<()>, slots: seq<Slot<T>>, trace: seq<Event>)

  /** What `init_slice_with(slice, f)` does to a slice `s`, with `needsDrop`
      standing for `mem::needs_drop::<T>()`. Slots before the failing index
      hold the values written (then dropped, on unwind, if `T` needs drop);
      the failing slot and all later slots are left as they were. */
  function InitSlice<T>(s: seq<Slot<T>>, f: nat -> Outcome<T>, needsDrop: bool): SliceRun<T>
  {
    var n := |s|;
    var k := FirstFailure(f, n);
    if k == n then
      SliceRun(Ok(()), seq(n, i requires 0 <= i < n => Valid(f(i).value)), Calls(0, n))
    else if f(k).Panic? then
      SliceRun(Panic(f(k).msg),
               seq(n, i requires 0 <= i < n =>
                 if i < k then (if needsDrop then Dropped else Valid(f(i).value)) else s[i]),
               Calls(0, k + 1) + (if needsDrop then Drops(0, k) else []))
    else
      SliceRun(Abort,
               seq(n, i requires 0 <= i < n => if i < k then Valid(f(i).value) else s[i]),
               Calls(0, k + 1))
  }

  /** `init_slice_with`: fill `a` slot by slot under a guard that, on unwind,
      drops the `count` slots already filled. */
  method InitSliceWith<T>(a: array<Slot<T>>, f: nat -> Outcome<T>, needsDrop: bool)
    returns (r: Outcome<()>, trace: seq<Event>)
    modifies a
    ensures var run := InitSlice(old(a[..]), f, needsDrop);
      r == run.out && a[..] == run.slots && trace == run.trace
  {
    ghost var s := a[..];
    var n := a.Length;
    var count := 0;
    trace := [];
    var guard := new Guard();
    var failure: Outcome<T> := Abort;
    var failed := false;
    while !failed && count < n
      invariant 0 <= count <= n
      invariant !failed ==> forall i :: 0 <= i < count ==> f(i).Ok?
      invariant failed ==> (forall i :: 0 <= i < count ==> f(i).Ok?) && count < n && failure == f(count) && !failure.Ok?
      invariant forall i :: 0 <= i < count ==> a[i] == Valid(f(i).value)
      invariant forall i :: count <= i < n ==> a[i] == s[i]
      invariant trace == Calls(0, if failed then count + 1 else count)
      invariant guard.armed && guard.runs == 0
      decreases n - count, if failed then 0 else 1
    {
      var idx := count;
      trace := trace + [Call(idx)];
      var o := f(idx);
      if !o.Ok? {
        failure := o;
        failed := true;
      } else {
        a[idx] := Valid(o.value);
        count := count + 1;
      }
    }
    assert FirstFailure(f, n) == if failed then count else n;
    if !failed {
      guard.Cancel();
      r := Ok(());
      assert a[..] == InitSlice(s, f, needsDrop).slots;
    } else if failure.Panic? {
      // unwinding drops the guard, whose action drops the filled prefix
      guard.Drop();
      if needsDrop {
        var i := 0;
        while i < count
          invariant 0 <= i <= count
          invariant forall j :: 0 <= j < i ==> a[j] == Dropped
          invariant forall j :: i <= j < count ==> a[j] == Valid(f(j).value)
          invariant forall j :: count <= j < n ==> a[j] == s[j]
          invariant trace == Calls(0, count + 1) + Drops(0, i)
        {
          a[i] := Dropped;
          trace := trace + [DropAt(i)];
          i := i + 1;
        }
      }
      r := Panic(failure.msg);
      assert a[..] == InitSlice(s, f, needsDrop).slots;
    } else {
      // an abort does not unwind: the guard never runs
      r := Abort;
      assert a[..] == InitSlice(s, f, needsDrop).slots;
    }
  }

  /** How `init_slice_with` ends is decided by the first call that does not
      return: none means success with every slot valid, a panic propagates
      unchanged, and an abort ends it. */
  lemma InitSliceOutcome<T>(s: seq<Slot<T>>, f: nat -> Outcome<T>, needsDrop: bool)
    ensures var run := InitSlice(s, f, needsDrop);
      var k := FirstFailure(f, |s|);
      && |run.slots| == |s|
      && (run.out.Ok? <==> k == |s|)
      && (run.out.Ok? ==> forall i :: 0 <= i < |s| ==> run.slots[i] == Valid(f(i).value))
      && (k < |s| && f(k).Panic? ==> run.out == Panic(f(k).msg))
      && (k < |s| && f(k).Abort? ==> run.out == Abort)
  {
  }

  /** When every call returns, the whole slice is valid with the written
      values and nothing is dropped. */
  lemma InitSliceSucceeds<T>(s: seq<Slot<T>>, f: nat -> Outcome<T>, needsDrop: bool)
    requires forall i :: 0 <= i < |s| ==> f(i).Ok?
    ensures var run := InitSlice(s, f, needsDrop);
      && run.out == Ok(())
      && |run.slots| == |s|
      && (forall i :: 0 <= i < |s| ==> run.slots[i] == Valid(f(i).value))
      && DroppedIndices(run.trace) == []
      && CalledIndices(run.trace) == Range(0, |s|)
  {
    CallsIndices(0, |s|);
  }

  /** When the call at index `k` panics, the panic propagates unchanged, `f`
      was called with indices `0..k` in ascending order, exactly the slots
      `0..k-1` are dropped, in ascending order (none when `T` needs no drop),
      and slot `k` and later slots are untouched. */
  lemma InitSliceUnwind<T>(s: seq<Slot<T>>, f: nat -> Outcome<T>, needsDrop: bool, k: nat)
    requires k < |s|
    requires forall i :: 0 <= i < k ==> f(i).Ok?
    requires f(k).Panic?
    ensures var run := InitSlice(s, f, needsDrop);
      && run.out == Panic(f(k).msg)
      && CalledIndices(run.trace) == Range(0, k + 1)
      && DroppedIndices(run.trace) == (if needsDrop then Range(0, k) else [])
      && |run.slots| == |s|
      && (forall j :: k <= j < |s| ==> run.slots[j] == s[j])
      && (forall j :: 0 <= j < k ==> run.slots[j] == if needsDrop then Dropped else Valid(f(j).value))
  {
    assert FirstFailure(f, |s|) == k;
    var tail: seq<Event> := if needsDrop then Drops(0, k) else [];
    CallsIndices(0, k + 1);
    DropsIndices(0, k);
    CalledIndicesAppend(Calls(0, k + 1), tail);
    DroppedIndicesAppend(Calls(0, k + 1), tail);
  }

  /** Exactly `k` drops when the call at index `k` panics on a type that needs drop. */
  lemma InitSliceUnwindDropCount<T>(s: seq<Slot<T>>, f: nat -> Outcome<T>, k: nat)
    requires k < |s|
    requires forall i :: 0 <= i < k ==> f(i).Ok?
    requires f(k).Panic?
    ensures |DroppedIndices(InitSlice(s, f, true).trace)| == k
  {
    InitSliceUnwind(s, f, true, k);
  }
}
