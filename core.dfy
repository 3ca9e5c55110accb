/** Shared vocabulary of the placement-construction model: how a call ends,
    what a slot of not-yet-valid memory holds, layouts, and the event trace
    through which ordering and exactly-once obligations are stated. */
module Core {

  /** `usize::MAX` on a 64-bit target. */
  const USIZE_MAX: nat := 0xFFFF_FFFF_FFFF_FFFF

  datatype Option<+T> = None | Some(value: T)

  /** The panic message of `Layout::..(..).expect("invalid layout")`:
      `Result::expect` appends `": "` and the `Debug` form of the error,
      which for the layout error of the Rust version the code was written
      for is `LayoutErr { private: () }`. */
  const INVALID_LAYOUT: string := "invalid layout: LayoutErr { private: () }"

  /** How a call ends: it returns, it unwinds with a panic message, or the
      process aborts (allocation failure). Only `Panic` unwinds, so only a
      `Panic` runs rollback guards. */
  datatype Outcome<+R> = Ok(value: R) | Panic(msg: string) | Abort

  /** The same ending with the value replaced: a failure passes through unchanged. */
  function Carry<R, S>(o: Outcome<R>, s: S): (r: Outcome<S>)
    ensures r.Ok? <==> o.Ok?
    ensures o.Panic? ==> r == Panic(o.msg)
    ensures o.Abort? ==> r == Abort
    ensures o.Ok? ==> r == Ok(s)
  {
    match o
    case Ok(_) => Ok(s)
    case Panic(m) => Panic(m)
    case Abort => Abort
  }

  /** One slot of memory viewed as a `MaybeUninit<T>`: indeterminate bytes,
      all-zero bytes, a valid owned value, or a value already dropped in place. */
  datatype Slot<+T> = Uninit | Zeroed | Valid(v: T) | Dropped

  /** A fresh region of `n` slots as the host allocator hands it out. */
  function Fresh<T>(zeroed: bool, n: nat): (s: seq<Slot<T>>)
    ensures |s| == n
    ensures forall i :: 0 <= i < n ==> s[i] == if zeroed then Zeroed else Uninit
  {
    seq(n, _ => if zeroed then Zeroed else Uninit)
  }

  /** `core::alloc::Layout`. */
  datatype Layout = Layout(size: nat, align: nat)

  predicate IsPowerOfTwo(n: nat)
  {
    if n == 1 then true
    else if n == 0 || n % 2 == 1 then false
    else IsPowerOfTwo(n / 2)
  }

  /** `Layout::from_size_align`: the alignment must be a power of two and the
      size, rounded up to the alignment, must not overflow `usize`. */
  function FromSizeAlign(size: nat, align: nat): (r: Option<Layout>)
    ensures r.Some? <==> IsPowerOfTwo(align) && size + align - 1 <= USIZE_MAX
    ensures r.Some? ==> r.value.size == size && r.value.align == align
  {
    if !IsPowerOfTwo(align) || size > USIZE_MAX - (align - 1) then None
    else Some(Layout(size, align))
  }

  /** Observable steps of a construction, in the order they happen. */
  datatype Event =
    | Alloc(ptr: nat, layout: Layout, zeroed: bool)   // host allocator call; ptr 0 is null
    | Dealloc(ptr: nat, layout: Layout)               // host deallocator call
    | Call(idx: nat)                                  // per-slot initializer called with this index
    | DropAt(idx: nat)                                // element `idx` of a slice dropped in place
    | DropInPlace(ptr: nat)                           // a whole value at `ptr` dropped in place

  /** A finished call of caller-supplied code: how it ended and what it did. */
  datatype Run<+R> = Run(out: Outcome<R>, trace: seq<Event>)

  /** `[Call(lo), ..., Call(hi - 1)]`. */
  function Calls(lo: nat, hi: nat): (t: seq<Event>)
    requires lo <= hi
    ensures |t| == hi - lo
    ensures forall i :: 0 <= i < hi - lo ==> t[i] == Call(lo + i)
  {
    seq(hi - lo, i requires 0 <= i => Call(lo + i))
  }

  /** `[DropAt(lo), ..., DropAt(hi - 1)]`. */
  function Drops(lo: nat, hi: nat): (t: seq<Event>)
    requires lo <= hi
    ensures |t| == hi - lo
    ensures forall i :: 0 <= i < hi - lo ==> t[i] == DropAt(lo + i)
  {
    seq(hi - lo, i requires 0 <= i => DropAt(lo + i))
  }

  /** `[lo, ..., hi - 1]`. */
  function Range(lo: nat, hi: nat): (s: seq<nat>)
    requires lo <= hi
    ensures |s| == hi - lo
    ensures forall i :: 0 <= i < hi - lo ==> s[i] == lo + i
  {
    seq(hi - lo, i => lo + i)
  }

  /** The indices of the element drops in a trace, in order. */
  function DroppedIndices(t: seq<Event>): seq<nat>
  {
    if t == [] then []
    else (if t[0].DropAt? then [t[0].idx] else []) + DroppedIndices(t[1..])
  }

  /** The indices passed to the per-slot initializer in a trace, in order. */
  function CalledIndices(t: seq<Event>): seq<nat>
  {
    if t == [] then []
    else (if t[0].Call? then [t[0].idx] else []) + CalledIndices(t[1..])
  }

  /** How many times `e` occurs in `t`. */
  function Occurrences(t: seq<Event>, e: Event): nat
  {
    if t == [] then 0
    else (if t[0] == e then 1 else 0) + Occurrences(t[1..], e)
  }

  lemma {:induction false} DroppedIndicesAppend(a: seq<Event>, b: seq<Event>)
    ensures DroppedIndices(a + b) == DroppedIndices(a) + DroppedIndices(b)
  {
    if a == [] {
      assert a + b == b;
    } else {
      assert (a + b)[0] == a[0];
      assert (a + b)[1..] == a[1..] + b;
      DroppedIndicesAppend(a[1..], b);
    }
  }

  lemma {:induction false} CalledIndicesAppend(a: seq<Event>, b: seq<Event>)
    ensures CalledIndices(a + b) == CalledIndices(a) + CalledIndices(b)
  {
    if a == [] {
      assert a + b == b;
    } else {
      assert (a + b)[0] == a[0];
      assert (a + b)[1..] == a[1..] + b;
      CalledIndicesAppend(a[1..], b);
    }
  }

  lemma {:induction false} OccurrencesAppend(a: seq<Event>, b: seq<Event>, e: Event)
    ensures Occurrences(a + b, e) == Occurrences(a, e) + Occurrences(b, e)
  {
    if a == [] {
      assert a + b == b;
    } else {
      assert (a + b)[0] == a[0];
      assert (a + b)[1..] == a[1..] + b;
      OccurrencesAppend(a[1..], b, e);
    }
  }

  /** A run of initializer calls contains no drop and exactly the indices lo..hi. */
  lemma {:induction false} CallsIndices(lo: nat, hi: nat)
    requires lo <= hi
    ensures DroppedIndices(Calls(lo, hi)) == []
    ensures CalledIndices(Calls(lo, hi)) == Range(lo, hi)
    decreases hi - lo
  {
    if lo < hi {
      assert Calls(lo, hi) == [Call(lo)] + Calls(lo + 1, hi);
      CallsIndices(lo + 1, hi);
      assert Range(lo, hi) == [lo] + Range(lo + 1, hi);
    }
  }

  /** A run of element drops contains no initializer call and drops exactly lo..hi. */
  lemma {:induction false} DropsIndices(lo: nat, hi: nat)
    requires lo <= hi
    ensures DroppedIndices(Drops(lo, hi)) == Range(lo, hi)
    ensures CalledIndices(Drops(lo, hi)) == []
    decreases hi - lo
  {
    if lo < hi {
      assert Drops(lo, hi) == [DropAt(lo)] + Drops(lo + 1, hi);
      DropsIndices(lo + 1, hi);
      assert Range(lo, hi) == [lo] + Range(lo + 1, hi);
    }
  }

  /** An event that appears nowhere in a trace occurs zero times in it. */
  lemma {:induction false} OccurrencesAbsent(t: seq<Event>, e: Event)
    requires forall i :: 0 <= i < |t| ==> t[i] != e
    ensures Occurrences(t, e) == 0
  {
    if t != [] {
      OccurrencesAbsent(t[1..], e);
    }
  }
}
