/** The slice constructors of `examples/src/boxed_slice.rs`, built on the
    `Box<[T]>` placement: a box of zeroed bytes, and a box filled with
    clones of one value through `init_slice_with`. `clone(i)` is the ending
    of the `i`-th call of `T::clone` (see module `Slice`); the element type's
    size and alignment are parameters. */
module BoxedSlice {
  import opened Core
  import opened Slice
  import opened Alloc
  import opened Uninit

  /** The closure `|_| {}`: leaves the region as it was handed over. */
  function KeepRegion<C>(ptr: nat, s: seq<Slot<C>>): Run<seq<Slot<C>>>
  {
    Run(Ok(s), [])
  }

  /** What `zeroed_bytes(len)` does: a zeroed `Box<[u8]>` placement. */
  function ZeroedBytesRun(len: nat, got: nat): Run<BoxSlice<bv8>>
  {
    BoxSliceRun(1, 1, len, true, got, KeepRegion)
  }

  /** `zeroed_bytes`. */
  method ZeroedBytes(heap: Allocator, len: nat, got: nat) returns (r: Outcome<BoxSlice<bv8>>)
    modifies heap
    ensures r == ZeroedBytesRun(len, got).out
    ensures heap.trace == old(heap.trace) + ZeroedBytesRun(len, got).trace
  {
    r := heap.BoxSliceEmplace(1, 1, len, true, got, KeepRegion);
  }

  /** Every byte reads as zero when left zero-filled. */
  function ZeroReads(len: nat): (zs: seq<Option<bv8>>)
    ensures |zs| == len && forall i :: 0 <= i < len ==> zs[i] == Some(0)
  {
    seq(len, _ => Some(0))
  }

  /** `b.iter().fold(0, |acc, x| acc | x)`. */
  function FoldOr(bs: seq<bv8>): bv8
  {
    if bs == [] then 0 else FoldOr(bs[..|bs| - 1]) | bs[|bs| - 1]
  }

  lemma {:induction false} FoldOrOfZeros(bs: seq<bv8>)
    requires forall i :: 0 <= i < |bs| ==> bs[i] == 0
    ensures FoldOr(bs) == 0
  {
    if bs != [] {
      FoldOrOfZeros(bs[..|bs| - 1]);
    }
  }

  /** `zeroed_bytes(len)` gives `len` bytes, all zero (so their `|`-fold is
      0), unless the host allocator returns null for a non-empty request.
      For a `usize` length the layout of `[u8; len]` never overflows. */
  lemma ZeroedBytesAreZero(len: nat, got: nat)
    requires len <= USIZE_MAX
    ensures var run := ZeroedBytesRun(len, got);
      && (run.out.Ok? <==> (len == 0 || got != 0))
      && (run.out.Ok? ==>
            var bytes := AssumeInit(run.out.value.cells, ZeroReads(len));
            && run.out.value.len == len
            && bytes.Some? && |bytes.value| == len
            && (forall i :: 0 <= i < len ==> bytes.value[i] == 0)
            && FoldOr(bytes.value) == 0)
  {
    var run := ZeroedBytesRun(len, got);
    assert IsPowerOfTwo(1);
    if run.out.Ok? {
      var cells := run.out.value.cells;
      assert cells == Fresh(true, len);
      var bytes := AssumeInit(cells, ZeroReads(len));
      assert AllFieldsValid(cells, ZeroReads(len));
      forall i | 0 <= i < len
        ensures bytes.value[i] == 0
      {
        assert Some(bytes.value[i]) == ReadField(cells[i], Some(0));
      }
      FoldOrOfZeros(bytes.value);
    }
  }

  /** The closure `repeat` hands to the box: `init_slice_with` over the
      fresh slice, writing the `i`-th clone into slot `i`. */
  function FillWithClones<T>(clone: nat -> Outcome<T>, needsDrop: bool): Init<T>
  {
    (ptr: nat, s: seq<Slot<T>>) =>
      var sr := InitSlice(s, clone, needsDrop);
      Run(Carry(sr.out, sr.slots), sr.trace)
  }

  /** What `repeat(value, n)` does for an element type of the given size
      and alignment. */
  function RepeatRun<T>(size: nat, align: nat, n: nat, clone: nat -> Outcome<T>, needsDrop: bool, got: nat): Run<BoxSlice<T>>
    requires IsPowerOfTwo(align)
  {
    BoxSliceRun(size, align, n, true, got, FillWithClones(clone, needsDrop))
  }

  /** `repeat`. */
  method Repeat<T>(heap: Allocator, size: nat, align: nat, n: nat, clone: nat -> Outcome<T>, needsDrop: bool, got: nat)
    returns (r: Outcome<BoxSlice<T>>)
    requires IsPowerOfTwo(align)
    modifies heap
    ensures r == RepeatRun(size, align, n, clone, needsDrop, got).out
    ensures heap.trace == old(heap.trace) + RepeatRun(size, align, n, clone, needsDrop, got).trace
  {
    r := heap.BoxSliceEmplace(size, align, n, true, got, FillWithClones(clone, needsDrop));
  }

  /** When every clone returns `value`, `repeat` gives `n` elements, each
      `value`, and frees and drops nothing. */
  lemma RepeatFills<T>(size: nat, align: nat, n: nat, value: T, clone: nat -> Outcome<T>, needsDrop: bool, got: nat)
    requires IsPowerOfTwo(align)
    requires size * n + align - 1 <= USIZE_MAX
    requires size * n == 0 || got != 0
    requires forall i :: 0 <= i < n ==> clone(i) == Ok(value)
    ensures var run := RepeatRun(size, align, n, clone, needsDrop, got);
      && run.out.Ok?
      && run.out.value.len == n && |run.out.value.cells| == n
      && (forall i :: 0 <= i < n ==> run.out.value.cells[i] == Valid(value))
      && DroppedIndices(run.trace) == []
      && (forall e :: e in run.trace ==> !e.Dealloc?)
  {
    var f := FillWithClones(clone, needsDrop);
    var layout := Layout(size * n, align);
    var ptr := if size * n == 0 then align else got;
    FillWithClonesSucceeds(clone, needsDrop, ptr, n, value);
    BoxSliceRunIsEmplace(size, align, n, true, got, f);
    var e := EmplaceRun(layout, true, got, n, f);
    CallsIndices(0, n);
    if size * n != 0 {
      assert e.trace == [Alloc(got, layout, true)] + Calls(0, n);
      DroppedIndicesAppend([Alloc(got, layout, true)], Calls(0, n));
    }
  }

  /** The clone-filling closure returns the filled slice when every clone
      returns `value`, having called clone with `0..n` in order. */
  lemma FillWithClonesSucceeds<T>(clone: nat -> Outcome<T>, needsDrop: bool, ptr: nat, n: nat, value: T)
    requires forall i :: 0 <= i < n ==> clone(i) == Ok(value)
    ensures var fr := FillWithClones(clone, needsDrop)(ptr, Fresh(true, n));
      && fr.out.Ok? && |fr.out.value| == n
      && (forall i :: 0 <= i < n ==> fr.out.value[i] == Valid(value))
      && fr.trace == Calls(0, n)
  {
    InitSliceSucceeds(Fresh<T>(true, n), clone, needsDrop);
  }

  /** The events of a `repeat` that unwinds at clone call `k`. */
  function UnwindTrace(got: nat, layout: Layout, k: nat, needsDrop: bool): seq<Event>
  {
    [Alloc(got, layout, true)] + (Calls(0, k + 1) + (if needsDrop then Drops(0, k) else [])) + [Dealloc(got, layout)]
  }

  /** In that trace, exactly the slots `0..k-1` are dropped, in ascending order. */
  lemma UnwindTraceDrops(got: nat, layout: Layout, k: nat, needsDrop: bool)
    ensures DroppedIndices(UnwindTrace(got, layout, k, needsDrop)) == (if needsDrop then Range(0, k) else [])
  {
    var a, d := [Alloc(got, layout, true)], [Dealloc(got, layout)];
    var calls := Calls(0, k + 1);
    var drops := if needsDrop then Drops(0, k) else [];
    assert UnwindTrace(got, layout, k, needsDrop) == a + (calls + drops + d);
    DroppedIndicesAppend(a, calls + drops + d);
    DroppedIndicesAppend(calls + drops, d);
    DroppedIndicesAppend(calls, drops);
    CallsIndices(0, k + 1);
    DropsIndices(0, k);
    assert DroppedIndices(a) == [] && DroppedIndices(d) == [];
  }

  /** In that trace, the block is freed once, as the last step, and no
      whole value is dropped. */
  lemma UnwindTraceFreesOnce(got: nat, layout: Layout, k: nat, needsDrop: bool)
    ensures var t := UnwindTrace(got, layout, k, needsDrop);
      && Occurrences(t, Dealloc(got, layout)) == 1
      && t[|t| - 1] == Dealloc(got, layout)
      && (forall i :: 0 <= i < |t| ==> !t[i].DropInPlace?)
  {
    var a, d := [Alloc(got, layout, true)], [Dealloc(got, layout)];
    var mid := Calls(0, k + 1) + (if needsDrop then Drops(0, k) else []);
    var t := UnwindTrace(got, layout, k, needsDrop);
    assert t == a + mid + d;
    assert forall i :: 0 <= i < |mid| ==> mid[i].Call? || mid[i].DropAt?;
    OccurrencesAppend(a + mid, d, d[0]);
    OccurrencesAppend(a, mid, d[0]);
    OccurrencesAbsent(mid, d[0]);
    assert Occurrences(d, d[0]) == 1;
    assert Occurrences(a, d[0]) == 0;
  }

  /** How `repeat` unwinds when clone call `k` panics (the first `k` returned). */
  lemma RepeatUnwindRun<T>(size: nat, align: nat, n: nat, clone: nat -> Outcome<T>, needsDrop: bool, got: nat, k: nat)
    requires IsPowerOfTwo(align)
    requires size * n + align - 1 <= USIZE_MAX
    requires size > 0 && got != 0
    requires k < n
    requires forall i :: 0 <= i < k ==> clone(i).Ok?
    requires clone(k).Panic?
    ensures var run := RepeatRun(size, align, n, clone, needsDrop, got);
      && run.out == Panic(clone(k).msg)
      && run.trace == UnwindTrace(got, Layout(size * n, align), k, needsDrop)
  {
    var f := FillWithClones(clone, needsDrop);
    FillEmplaceUnwinds(size * n, align, n, clone, needsDrop, got, k);
    BoxSliceRunIsEmplace(size, align, n, true, got, f);
  }

  /** The placement under `repeat` unwinds with the clone's panic. */
  lemma FillEmplaceUnwinds<T>(size: nat, align: nat, n: nat, clone: nat -> Outcome<T>, needsDrop: bool, got: nat, k: nat)
    requires size > 0 && got != 0
    requires k < n
    requires forall i :: 0 <= i < k ==> clone(i).Ok?
    requires clone(k).Panic?
    ensures EmplaceRun(Layout(size, align), true, got, n, FillWithClones(clone, needsDrop))
      == Run(Panic(clone(k).msg), UnwindTrace(got, Layout(size, align), k, needsDrop))
  {
    var f := FillWithClones(clone, needsDrop);
    FillWithClonesUnwind(clone, needsDrop, got, n, k);
    EmplaceUnwinds(Layout(size, align), true, got, n, f, clone(k).msg,
                   Calls(0, k + 1) + (if needsDrop then Drops(0, k) else []));
  }

  /** The clone-filling closure unwinds with the panic of call `k`, after the
      calls `0..k` and the drops of the `k` slots written. */
  lemma FillWithClonesUnwind<T>(clone: nat -> Outcome<T>, needsDrop: bool, ptr: nat, n: nat, k: nat)
    requires k < n
    requires forall i :: 0 <= i < k ==> clone(i).Ok?
    requires clone(k).Panic?
    ensures FillWithClones(clone, needsDrop)(ptr, Fresh(true, n))
      == Run(Panic(clone(k).msg), Calls(0, k + 1) + (if needsDrop then Drops(0, k) else []))
  {
    var s := Fresh<T>(true, n);
    InitSliceUnwind(s, clone, needsDrop, k);
    assert FirstFailure(clone, n) == k;
  }


  /** When clone call `k` panics (the first `k` returned), `repeat` calls
      clone `k + 1` times, drops exactly the `k` clones already written,
      in ascending order (none when `T` needs no drop), then frees the block
      exactly once, with the layout it allocated, as the very last step;
      the panic propagates, and no other value (in particular not the
      source) is dropped. */
  lemma RepeatUnwind<T>(size: nat, align: nat, n: nat, clone: nat -> Outcome<T>, needsDrop: bool, got: nat, k: nat)
    requires IsPowerOfTwo(align)
    requires size * n + align - 1 <= USIZE_MAX
    requires size > 0 && got != 0
    requires k < n
    requires forall i :: 0 <= i < k ==> clone(i).Ok?
    requires clone(k).Panic?
    ensures var run := RepeatRun(size, align, n, clone, needsDrop, got);
      var layout := Layout(size * n, align);
      && run.out == Panic(clone(k).msg)
      && |run.trace| >= 2
      && run.trace[0] == Alloc(got, layout, true)
      && CalledIndices(run.trace) == Range(0, k + 1)
      && DroppedIndices(run.trace) == (if needsDrop then Range(0, k) else [])
      && Occurrences(run.trace, Dealloc(got, layout)) == 1
      && run.trace[|run.trace| - 1] == Dealloc(got, layout)
      && (forall i :: 0 <= i < |run.trace| ==> !run.trace[i].DropInPlace?)
  {
    RepeatUnwindRun(size, align, n, clone, needsDrop, got, k);
    var run := RepeatRun(size, align, n, clone, needsDrop, got);
    UnwindTraceProperties(run.trace, got, Layout(size * n, align), k, needsDrop);
  }

  /** The facts about an unwinding trace, gathered. */
  lemma UnwindTraceProperties(t: seq<Event>, got: nat, layout: Layout, k: nat, needsDrop: bool)
    requires t == UnwindTrace(got, layout, k, needsDrop)
    ensures && |t| >= 2
      && t[0] == Alloc(got, layout, true)
      && CalledIndices(t) == Range(0, k + 1)
      && DroppedIndices(t) == (if needsDrop then Range(0, k) else [])
      && Occurrences(t, Dealloc(got, layout)) == 1
      && t[|t| - 1] == Dealloc(got, layout)
      && (forall i :: 0 <= i < |t| ==> !t[i].DropInPlace?)
  {
    UnwindTraceDrops(got, layout, k, needsDrop);
    UnwindTraceFreesOnce(got, layout, k, needsDrop);
    UnwindTraceCalls(got, layout, k, needsDrop);
  }

  /** In that trace, clone is called with `0..k` in ascending order. */
  lemma UnwindTraceCalls(got: nat, layout: Layout, k: nat, needsDrop: bool)
    ensures CalledIndices(UnwindTrace(got, layout, k, needsDrop)) == Range(0, k + 1)
  {
    var a, d := [Alloc(got, layout, true)], [Dealloc(got, layout)];
    var calls := Calls(0, k + 1);
    var drops := if needsDrop then Drops(0, k) else [];
    assert UnwindTrace(got, layout, k, needsDrop) == a + (calls + drops + d);
    CalledIndicesAppend(a, calls + drops + d);
    CalledIndicesAppend(calls + drops, d);
    CalledIndicesAppend(calls, drops);
    CallsIndices(0, k + 1);
    DropsIndices(0, k);
    assert CalledIndices(a) == [] && CalledIndices(d) == [];
  }

  /** `T::clone` of the unwind test: it returns a clone while the shared
      time-to-live `ttl` has not run out, and panics once it has. */
  function TtlClone<T>(ttl: nat, value: T): nat -> Outcome<T>
  {
    i => if i < ttl then Ok(value) else Panic("explicit panic")
  }

  /** The unwind test: with `ttl` 64, `repeat(&origin, 128)` on a type that
      needs drop panics on the 65th clone, drops exactly 64 values, and
      frees its block once. */
  lemma RepeatUnwindDropsSixtyFour<T>(size: nat, align: nat, value: T, got: nat)
    requires IsPowerOfTwo(align)
    requires size * 128 + align - 1 <= USIZE_MAX
    requires size > 0 && got != 0
    ensures var run := RepeatRun(size, align, 128, TtlClone(64, value), true, got);
      && run.out == Panic("explicit panic")
      && |DroppedIndices(run.trace)| == 64
      && Occurrences(run.trace, Dealloc(got, Layout(size * 128, align))) == 1
  {
    RepeatUnwind(size, align, 128, TtlClone(64, value), true, got, 64);
  }
}
