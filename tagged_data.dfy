/** The header-plus-body buffer of `examples/src/tagged_data.rs`: one heap
    block holding a `Header { name, len }` at offset 0 followed by `len`
    body bytes, allocated zeroed through `emplace_zeroed_with`. The block is
    viewed as `1 + len` cells: the header, then one cell per body byte.
    Sizes are those of a 64-bit target (`&'static str` is 16 bytes). */
module TaggedData {
  import opened Core
  import opened Alloc
  import BoxedSlice

  const HEADER_SIZE: nat := 24
  const HEADER_ALIGN: nat := 8
  const USIZE_MODULUS: nat := 0x1_0000_0000_0000_0000

  datatype Header = Header(name: string, len: nat)

  datatype Cell = HeaderCell(header: Header) | ByteCell(b: bv8)

  /** `Data`: the pointer to the block, and the block's cells. */
  datatype Data = Data(ptr: nat, cells: seq<Slot<Cell>>)

  /** The closure of `new_zeroed`: write the header at offset 0. */
  function WriteHeader(name: string, len: nat): Init<Cell>
  {
    (ptr: nat, cells: seq<Slot<Cell>>) =>
      Run(Ok(if |cells| > 0 then cells[0 := Valid(HeaderCell(Header(name, len)))] else cells), [])
  }

  /** What `Data::new_zeroed(name, len)` does. The size is checked
      (`checked_add`, "size overflow"), then the layout ("invalid layout"),
      both before any allocation. */
  function NewZeroedRun(name: string, len: nat, got: nat): Run<Data>
  {
    var size := HEADER_SIZE + len;
    if size > USIZE_MAX then Run(Panic("size overflow"), [])
    else match FromSizeAlign(size, HEADER_ALIGN)
      case None => Run(Panic(INVALID_LAYOUT), [])
      case Some(layout) =>
        var run := EmplaceRun(layout, true, got, 1 + len, WriteHeader(name, len));
        Run(match run.out
            case Ok(p) => Ok(Data(p.ptr, p.cells))
            case Panic(m) => Panic(m)
            case Abort => Abort,
            run.trace)
  }

  /** `Data::new_zeroed`. */
  method NewZeroed(heap: Allocator, name: string, len: nat, got: nat) returns (r: Outcome<Data>)
    modifies heap
    ensures r == NewZeroedRun(name, len, got).out
    ensures heap.trace == old(heap.trace) + NewZeroedRun(name, len, got).trace
  {
    var size := HEADER_SIZE + len;
    if size > USIZE_MAX {
      r := Panic("size overflow");
      return;
    }
    var layout := FromSizeAlign(size, HEADER_ALIGN);
    if layout.None? {
      r := Panic(INVALID_LAYOUT);
      return;
    }
    var placed := heap.EmplaceZeroedWith(layout.value, got, 1 + len, WriteHeader(name, len));
    r := match placed
      case Ok(p) => Ok(Data(p.ptr, p.cells))
      case Panic(m) => Panic(m)
      case Abort => Abort;
  }

  /** A block holding a header whose `len` is the body length, and `len`
      body bytes, each zero or written. */
  predicate WellFormed(d: Data)
  {
    && |d.cells| >= 1
    && d.cells[0].Valid? && d.cells[0].v.HeaderCell?
    && d.cells[0].v.header.len == |d.cells| - 1
    && forall i :: 1 <= i < |d.cells| ==> d.cells[i].Zeroed? || (d.cells[i].Valid? && d.cells[i].v.ByteCell?)
  }

  /** `header`: the header at offset 0, whose `len` counts the body bytes. */
  function HeaderOf(d: Data): (h: Header)
    requires WellFormed(d)
    ensures d.cells[0] == Valid(HeaderCell(h))
    ensures h.len == |d.cells| - 1
  {
    d.cells[0].v.header
  }

  /** `raw_mut_body`: the address just past the header. */
  function BodyAddress(d: Data): (a: nat)
    ensures a - d.ptr == HEADER_SIZE
  {
    d.ptr + HEADER_SIZE
  }

  /** `name`: the name stored in the header at offset 0. */
  function Name(d: Data): (n: string)
    requires WellFormed(d)
    ensures d.cells[0] == Valid(HeaderCell(Header(n, |d.cells| - 1)))
  {
    HeaderOf(d).name
  }

  /** `len`: the length stored in the header, which is the number of body
      bytes after it. */
  function Len(d: Data): (l: nat)
    requires WellFormed(d)
    ensures l == |d.cells| - 1
  {
    HeaderOf(d).len
  }

  function IsEmpty(d: Data): (b: bool)
    requires WellFormed(d)
    ensures b <==> |d.cells| == 1
  {
    Len(d) == 0
  }

  function ByteAt(s: Slot<Cell>): bv8
  {
    if s.Valid? && s.v.ByteCell? then s.v.b else 0
  }

  /** The body byte at address `addr`, an address inside the body: body
      byte `j` is the cell after the header and `j` body cells. */
  function BodyByteAt(d: Data, addr: nat): bv8
    requires WellFormed(d) && BodyAddress(d) <= addr < BodyAddress(d) + Len(d)
  {
    ByteAt(d.cells[1 + (addr - BodyAddress(d))])
  }

  /** `as_bytes` (and `as_bytes_mut`): the `len` bytes starting at
      `raw_mut_body()`. */
  function AsBytes(d: Data): (bs: seq<bv8>)
    requires WellFormed(d)
    ensures |bs| == Len(d)
    ensures forall i :: 0 <= i < |bs| ==> bs[i] == BodyByteAt(d, BodyAddress(d) + i)
    ensures forall i :: 0 <= i < |bs| ==> bs[i] == ByteAt(d.cells[1 + i])
  {
    seq(Len(d), i requires 0 <= i < Len(d) => ByteAt(d.cells[1 + i]))
  }

  /** The layout `Drop` frees: size `size_of::<Header>()` wrapping-add `len`. */
  function DropLayout(d: Data): Layout
    requires WellFormed(d)
  {
    Layout((HEADER_SIZE + Len(d)) % USIZE_MODULUS, HEADER_ALIGN)
  }

  /** `Drop for Data`: drop the header in place, then free the block. */
  method Drop(heap: Allocator, d: Data)
    requires WellFormed(d)
    modifies heap
    ensures heap.trace == old(heap.trace) + [DropInPlace(d.ptr), Dealloc(d.ptr, DropLayout(d))]
  {
    var len := Len(d);
    heap.trace := heap.trace + [DropInPlace(d.ptr)];
    var size := (HEADER_SIZE + len) % USIZE_MODULUS;
    heap.trace := heap.trace + [Dealloc(d.ptr, Layout(size, HEADER_ALIGN))];
  }

  /** Both checks fail before anything is allocated: a size past `usize::MAX`
      is a "size overflow" panic, and a size that overflows when rounded up
      to the header's alignment an "invalid layout" panic. */
  lemma NewZeroedChecksSize(name: string, len: nat, got: nat)
    ensures var run := NewZeroedRun(name, len, got);
      && (HEADER_SIZE + len > USIZE_MAX ==> run == Run(Panic("size overflow"), []))
      && (HEADER_SIZE + len <= USIZE_MAX < HEADER_SIZE + len + HEADER_ALIGN - 1 ==>
            run == Run(Panic(INVALID_LAYOUT), []))
      && (HEADER_SIZE + len + HEADER_ALIGN - 1 <= USIZE_MAX ==>
            run.trace[0] == Alloc(got, Layout(HEADER_SIZE + len, HEADER_ALIGN), true))
  {
    assert IsPowerOfTwo(HEADER_ALIGN) by {
      assert IsPowerOfTwo(4) by { assert IsPowerOfTwo(2); }
    }
  }

  /** A new buffer holds the header at offset 0 with the given name and
      length, its body starts `size_of::<Header>()` bytes in and has `len`
      bytes, all zero, and it is empty exactly when `len` is 0. */
  lemma NewZeroedReadsBack(name: string, len: nat, got: nat)
    ensures var run := NewZeroedRun(name, len, got);
      run.out.Ok? ==>
        var d := run.out.value;
        && WellFormed(d)
        && Name(d) == name && Len(d) == len
        && (IsEmpty(d) <==> len == 0)
        && BodyAddress(d) == d.ptr + HEADER_SIZE
        && |AsBytes(d)| == len
        && (forall i :: 0 <= i < len ==> AsBytes(d)[i] == 0)
        && BoxedSlice.FoldOr(AsBytes(d)) == 0
  {
    var run := NewZeroedRun(name, len, got);
    if run.out.Ok? {
      var d := run.out.value;
      assert d.cells == Fresh(true, 1 + len)[0 := Valid(HeaderCell(Header(name, len)))];
      assert WellFormed(d);
      BoxedSlice.FoldOrOfZeros(AsBytes(d));
    }
  }

  /** The body of a new buffer lies inside its block: it starts
      `size_of::<Header>()` bytes after the block's start and its `len`
      bytes end exactly where the allocated block ends, so `as_bytes`
      reads allocated memory only. */
  lemma BodyFillsBlock(name: string, len: nat, got: nat)
    ensures var run := NewZeroedRun(name, len, got);
      run.out.Ok? ==>
        var d := run.out.value;
        && WellFormed(d)
        && run.trace[0].Alloc? && run.trace[0].ptr == d.ptr
        && d.ptr + HEADER_SIZE <= BodyAddress(d)
        && BodyAddress(d) + Len(d) == d.ptr + run.trace[0].layout.size
  {
    NewZeroedReadsBack(name, len, got);
    NewZeroedChecksSize(name, len, got);
  }

  /** `Drop` frees the block with the layout `new_zeroed` allocated: since
      construction checked that `size_of::<Header>() + len` does not
      overflow, the wrapping addition gives the same size. */
  lemma DropFreesWhatNewAllocated(name: string, len: nat, got: nat)
    ensures var run := NewZeroedRun(name, len, got);
      run.out.Ok? ==>
        && WellFormed(run.out.value)
        && run.trace[0] == Alloc(run.out.value.ptr, DropLayout(run.out.value), true)
        && Occurrences(run.trace, Dealloc(run.out.value.ptr, DropLayout(run.out.value))) == 0
  {
    var run := NewZeroedRun(name, len, got);
    NewZeroedReadsBack(name, len, got);
    if run.out.Ok? {
      var d := run.out.value;
      assert (HEADER_SIZE + len) % USIZE_MODULUS == HEADER_SIZE + len;
      assert run.trace == [Alloc(d.ptr, DropLayout(d), true)];
      assert Occurrences([Alloc(d.ptr, DropLayout(d), true)], Dealloc(d.ptr, DropLayout(d))) == 0;
    }
  }

  /** The test `check`: `new_zeroed("hello", 4096)` reads back its name and
      length and 4096 zero bytes, unless the host allocator returns null. */
  lemma CheckHello(got: nat)
    requires got != 0
    ensures var run := NewZeroedRun("hello", 4096, got);
      && run.out.Ok?
      && Name(run.out.value) == "hello" && Len(run.out.value) == 4096
      && BoxedSlice.FoldOr(AsBytes(run.out.value)) == 0
  {
    NewZeroedChecksSize("hello", 4096, got);
    NewZeroedReadsBack("hello", 4096, got);
  }
}
