/** The raw placement allocator of `placement-new/src/alloc.rs`.

    The host allocator is foreign: what it returns for a request is the
    parameter `got` (0 is a null pointer), and its calls are recorded in the
    allocator's event trace. The initializer `f` is a function of the address
    and the fresh region it is handed; its result says how it ended, what the
    region holds afterwards and which events it caused. */
module Alloc {
  import opened Core
  import opened Guards

  /** An initializer for a region of `Slot<C>` cells. */
  type Init<!C> = (nat, seq<Slot<C>>) -> Run<seq<Slot<C>>>

  /** A region now owned by the caller: its address and its cells. */
  datatype Placed<C> = Placed(ptr: nat, cells: seq<Slot<C>>)

  /** An initializer's ending, with the region placed at `ptr` on success. */
  function PlaceAt<C>(o: Outcome<seq<Slot<C>>>, ptr: nat): (r: Outcome<Placed<C>>)
    ensures r.Ok? <==> o.Ok?
    ensures o.Ok? ==> r.value == Placed(ptr, o.value)
    ensures o.Panic? ==> r == Panic(o.msg)
    ensures o.Abort? ==> r == Abort
  {
    match o
    case Ok(cells) => Ok(Placed(ptr, cells))
    case Panic(m) => Panic(m)
    case Abort => Abort
  }

  /** What `emplace(layout, a, f)` does, where `zeroed` tells whether `a` is
      `alloc_zeroed` rather than `alloc`, and the region is viewed as `n` cells. */
  function EmplaceRun<C>(layout: Layout, zeroed: bool, got: nat, n: nat, f: Init<C>): Run<Placed<C>>
  {
    if layout.size == 0 then
      // no allocator call: the alignment itself is the (dangling) address
      var fr := f(layout.align, Fresh(zeroed, n));
      Run(PlaceAt(fr.out, layout.align), fr.trace)
    else if got == 0 then
      // `handle_alloc_error` never returns
      Run(Abort, [Alloc(got, layout, zeroed)])
    else
      var guarded := OnUnwind(f(got, Fresh(zeroed, n)), [Dealloc(got, layout)]);
      Run(PlaceAt(guarded.out, got), [Alloc(got, layout, zeroed)] + guarded.trace)
  }

  /** The host allocator as the engine uses it, with the log of its calls and
      of everything initializers do between them. */
  class Allocator {
    var trace: seq<Event>

    constructor ()
      ensures trace == []
    {
      trace := [];
    }

    /** `emplace`. */
    method Emplace<C>(layout: Layout, zeroed: bool, got: nat, n: nat, f: Init<C>)
      returns (r: Outcome<Placed<C>>)
      modifies this
      ensures var run := EmplaceRun(layout, zeroed, got, n, f);
        r == run.out && trace == old(trace) + run.trace
    {
      if layout.size == 0 {
        var ptr := layout.align;
        var fr := f(ptr, Fresh(zeroed, n));
        trace := trace + fr.trace;
        r := PlaceAt(fr.out, ptr);
        return;
      }
      var ptr := got;
      trace := trace + [Alloc(ptr, layout, zeroed)];
      if ptr == 0 {
        r := Abort;
        return;
      }
      var guarded, _ := GuardOnUnwind(f(ptr, Fresh(zeroed, n)), [Dealloc(ptr, layout)]);
      trace := trace + guarded.trace;
      r := PlaceAt(guarded.out, ptr);
    }

    /** `emplace_with`: `emplace` over `alloc`; the region starts indeterminate. */
    method EmplaceWith<C>(layout: Layout, got: nat, n: nat, f: Init<C>) returns (r: Outcome<Placed<C>>)
      modifies this
      ensures var run := EmplaceRun(layout, false, got, n, f);
        r == run.out && trace == old(trace) + run.trace
    {
      r := Emplace(layout, false, got, n, f);
    }

    /** `emplace_zeroed_with`: `emplace` over `alloc_zeroed`; the region starts all zero. */
    method EmplaceZeroedWith<C>(layout: Layout, got: nat, n: nat, f: Init<C>) returns (r: Outcome<Placed<C>>)
      modifies this
      ensures var run := EmplaceRun(layout, true, got, n, f);
        r == run.out && trace == old(trace) + run.trace
    {
      r := Emplace(layout, true, got, n, f);
    }

    /** `<Box<T> as SinglePlace<T>>::emplace_with` (`zeroed` false) and
        `emplace_zeroed_with` (`zeroed` true), for a `T` of the given size and
        alignment whose storage is viewed as `cells` slots (one per field, or
        a single slot for a `T` taken whole): one `T` at `Layout::new::<T>()`. */
    method BoxEmplace<C>(size: nat, align: nat, cells: nat, zeroed: bool, got: nat, f: Init<C>)
      returns (r: Outcome<Placed<C>>)
      modifies this
      ensures var run := BoxRun(size, align, cells, zeroed, got, f);
        r == run.out && trace == old(trace) + run.trace
    {
      r := Emplace(Layout(size, align), zeroed, got, cells, f);
    }

    /** `<Box<[T]> as SlicePlace<T>>::emplace_with` (`zeroed` false) and
        `emplace_zeroed_with` (`zeroed` true). */
    method BoxSliceEmplace<T>(size: nat, align: nat, len: nat, zeroed: bool, got: nat, f: Init<T>)
      returns (r: Outcome<BoxSlice<T>>)
      requires IsPowerOfTwo(align)
      modifies this
      ensures var run := BoxSliceRun(size, align, len, zeroed, got, f);
        r == run.out && trace == old(trace) + run.trace
    {
      var layout := ArrayLayout(size, align, len);
      if layout.None? {
        r := Panic(INVALID_LAYOUT);
        return;
      }
      var placed := Emplace(layout.value, zeroed, got, len, f);
      r := match placed
        case Ok(p) => Ok(BoxSlice(p.ptr, len, p.cells))
        case Panic(m) => Panic(m)
        case Abort => Abort;
    }
  }

  /** A `Box<T>` placement: `Layout::new::<T>()` over the slots of one `T`. */
  function BoxRun<C>(size: nat, align: nat, cells: nat, zeroed: bool, got: nat, f: Init<C>): Run<Placed<C>>
  {
    EmplaceRun(Layout(size, align), zeroed, got, cells, f)
  }

  /** `Layout::array::<T>(len)` for a `T` of the given size and alignment.
      `Layout::array` first pads `size` to a multiple of `align`; a Rust
      type's size is always such a multiple, so the padding is a no-op and
      the array's size is `size * len`. */
  function ArrayLayout(size: nat, align: nat, len: nat): (r: Option<Layout>)
    requires IsPowerOfTwo(align)
    ensures r.Some? <==> size * len + align - 1 <= USIZE_MAX
    ensures r.Some? ==> r.value.size == size * len && r.value.align == align
  {
    FromSizeAlign(size * len, align)
  }

  /** A `Box<[T]>`: its address, its length and its slots. */
  datatype BoxSlice<T> = BoxSlice(ptr: nat, len: nat, cells: seq<Slot<T>>)

  /** What the `Box<[T]>` placement does: an array layout that overflows
      panics before any allocation; otherwise `len` slots are placed. */
  function BoxSliceRun<T>(size: nat, align: nat, len: nat, zeroed: bool, got: nat, f: Init<T>): Run<BoxSlice<T>>
    requires IsPowerOfTwo(align)
  {
    match ArrayLayout(size, align, len)
    case None => Run(Panic(INVALID_LAYOUT), [])
    case Some(layout) =>
      var run := EmplaceRun(layout, zeroed, got, len, f);
      Run(match run.out
          case Ok(p) => Ok(BoxSlice(p.ptr, len, p.cells))
          case Panic(m) => Panic(m)
          case Abort => Abort,
          run.trace)
  }

  /** A zero-size request makes no allocator call: `f` runs once on the
      address `layout.align`, which is returned, and nothing is freed. */
  lemma EmplaceZeroSize<C>(layout: Layout, zeroed: bool, got: nat, n: nat, f: Init<C>)
    requires layout.size == 0
    ensures var fr := f(layout.align, Fresh(zeroed, n));
      var run := EmplaceRun(layout, zeroed, got, n, f);
      && run.trace == fr.trace
      && (fr.out.Ok? ==> run.out == Ok(Placed(layout.align, fr.out.value)))
      && (!fr.out.Ok? ==> run.out == PlaceAt(fr.out, layout.align))
  {
  }

  /** A null result from the host allocator is fatal: `f` never runs. */
  lemma EmplaceNullIsFatal<C>(layout: Layout, zeroed: bool, n: nat, f: Init<C>)
    requires layout.size > 0
    ensures EmplaceRun(layout, zeroed, 0, n, f) == Run(Abort, [Alloc(0, layout, zeroed)])
  {
  }

  /** For a real allocation, the block is freed exactly once, with the same
      address and layout, if `f` unwinds, and never if `f` returns (ownership
      passes to the caller); the failure propagates unchanged, and the
      deallocation is the last thing that happens. `f` is assumed not to free
      the block itself. */
  lemma EmplaceDeallocatesOnce<C>(layout: Layout, zeroed: bool, got: nat, n: nat, f: Init<C>)
    requires layout.size > 0 && got != 0
    requires Occurrences(f(got, Fresh(zeroed, n)).trace, Dealloc(got, layout)) == 0
    ensures var fr := f(got, Fresh(zeroed, n));
      var run := EmplaceRun(layout, zeroed, got, n, f);
      && run.trace[..1] == [Alloc(got, layout, zeroed)]
      && Occurrences(run.trace, Dealloc(got, layout)) == (if fr.out.Panic? then 1 else 0)
      && (fr.out.Ok? ==> run.out == Ok(Placed(got, fr.out.value)))
      && (fr.out.Panic? ==> run.out == Panic(fr.out.msg) && run.trace[|run.trace| - 1] == Dealloc(got, layout))
  {
    var fr := f(got, Fresh(zeroed, n));
    var d := Dealloc(got, layout);
    var tail: seq<Event> := if fr.out.Panic? then [d] else [];
    var run := EmplaceRun(layout, zeroed, got, n, f);
    assert run.trace == [Alloc(got, layout, zeroed)] + (fr.trace + tail);
    OccurrencesAppend([Alloc(got, layout, zeroed)], fr.trace + tail, d);
    OccurrencesAppend(fr.trace, tail, d);
    assert Occurrences([Alloc(got, layout, zeroed)], d) == 0;
    if fr.out.Panic? {
      assert Occurrences([d], d) == 1;
    }
  }

  /** When the initializer unwinds in a real allocation, `emplace` unwinds
      with the same panic after the allocation, the initializer's events and
      then the block's deallocation. */
  lemma EmplaceUnwinds<C>(layout: Layout, zeroed: bool, got: nat, n: nat, f: Init<C>, msg: string, t: seq<Event>)
    requires layout.size > 0 && got != 0
    requires f(got, Fresh(zeroed, n)) == Run(Panic(msg), t)
    ensures EmplaceRun(layout, zeroed, got, n, f)
      == Run(Panic(msg), [Alloc(got, layout, zeroed)] + t + [Dealloc(got, layout)])
  {
    assert [Alloc(got, layout, zeroed)] + (t + [Dealloc(got, layout)])
      == [Alloc(got, layout, zeroed)] + t + [Dealloc(got, layout)];
  }

  /** A slice placement with a valid layout does what `emplace` does with it. */
  lemma BoxSliceRunIsEmplace<T>(size: nat, align: nat, len: nat, zeroed: bool, got: nat, f: Init<T>)
    requires IsPowerOfTwo(align) && size * len + align - 1 <= USIZE_MAX
    ensures var run := BoxSliceRun(size, align, len, zeroed, got, f);
      var e := EmplaceRun(Layout(size * len, align), zeroed, got, len, f);
      && run.trace == e.trace
      && (e.out.Ok? <==> run.out.Ok?)
      && (e.out.Panic? ==> run.out == Panic(e.out.msg))
      && (e.out.Ok? ==> run.out.value == BoxSlice(e.out.value.ptr, len, e.out.value.cells))
  {
  }

  /** An overflowing array layout panics with "invalid layout" before any
      allocation; otherwise the slice box has exactly `len` slots' length and
      sits at the address the placement returned. */
  lemma BoxSliceLayout<T>(size: nat, align: nat, len: nat, zeroed: bool, got: nat, f: Init<T>)
    requires IsPowerOfTwo(align)
    ensures var run := BoxSliceRun(size, align, len, zeroed, got, f);
      && (size * len + align - 1 > USIZE_MAX ==> run == Run(Panic(INVALID_LAYOUT), []))
      && (run.out.Ok? ==>
            && run.out.value.len == len
            && run.out.value.ptr == (if size * len == 0 then align else got))
  {
  }
}
