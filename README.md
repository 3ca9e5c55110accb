# placement-new, modelled in Dafny

`placement-new` builds values directly in their final memory (a heap block,
a `MaybeUninit` local) instead of building them on the stack and moving
them. This project models its construction engine and proves what it
promises:

- the rollback guard (`Guard`, `guard_on_unwind`), which runs its cleanup
  exactly when the protected code unwinds;
- the placement allocator (`emplace`, `emplace_with`, `emplace_zeroed_with`,
  and the `Box<T>` / `Box<[T]>` placements), which frees its block exactly
  once when the initializer unwinds and hands it over otherwise;
- the incremental slice initializer `init_slice_with` and the array builder
  `create_array_with`, which on a failure at slot `k` drop exactly the slots
  `0..k-1`, in ascending order, before the failure propagates;
- the uninitialized-mirror helpers (`uninit_project`, the array projections,
  `memset_zeroed`, `overwrite`) and the enum tag/payload split `split_enum`;
- the `UninitProject` derive, as a pure map from a declaration to its
  mirror items;
- the three example consumers: `zeroed_bytes` and `repeat`, the derived
  `State` enum with its in-place constructors, and the header-plus-body
  buffer `Data`.

The `State` constructors are modelled twice over, through a `Split`
parameter: `AsWritten` is the code, whose projection places the payload
with `split_enum` right after the tag, and `Corrected` is the split of the
findings table, which places it where the `#[repr(C)]` enum keeps it. A
payload field remembers the offset it was written at, and a `match` reads
it only at the `#[repr(C)]` offset. So the model shows both what the code
does (`init_d` leaves storage that is not `D(name, value)`) and what the
corrected program promises.

Vocabulary shared by all modules (`core.dfy`):

- An `Outcome` says how a call ends: `Ok(value)`, `Panic(msg)` (it unwinds),
  or `Abort` (`handle_alloc_error`, which never unwinds, so no guard runs).
- A `Slot` is one field or element of not-yet-valid memory: `Uninit`,
  `Zeroed`, `Valid(v)` or `Dropped`.
- An `Event` trace records allocator calls, initializer calls and drops in
  the order they happen. Exactly-once and ordering obligations are stated
  over it.
- Caller code is a function value. A per-slot closure is `nat -> Outcome<T>`,
  the ending of the call with that index. This is faithful because the
  closure is called once per index, in ascending order. An `emplace`
  initializer maps the address and the fresh region to its ending, the
  region afterwards and its events.
- The host allocator's answer is the parameter `got` (0 is null).

Stateful code is imperative: `Guard` is a class with an `armed` flag and a
run counter, `Allocator` a class holding the event log, and slices, arrays
and enum storage are `array<Slot<_>>` written in place. Each method is
proved against a function of its inputs (`InitSlice`, `EmplaceRun`,
`RepeatRun`, `NewZeroedRun`, ...), and the lemmas state the promised
properties of those functions.

The `UninitProject` derive rejects only unit structs among the
field-less declarations. An empty enum, or a struct written `struct S {}`,
is accepted and expands to empty mirrors. `Derive.ImplUninitProject` states
exactly this, following the code of
`placement-new-derive/src/lib.rs:79-81`.

## Model

| member | source | states |
|---|---|---|
| Guards.Guard.constructor | placement-new/src/guard.rs:14-16 | a new guard is armed and its action has run zero times |
| Guards.Guard.Cancel | placement-new/src/guard.rs:19-22 | cancelling consumes the guard without running the action |
| Guards.Guard.Drop | placement-new/src/guard.rs:5-10 | dropping an armed guard consumes it and runs the action exactly once |
| Guards.OnUnwind | placement-new/src/guard.rs:26-31 | the result of `f` is returned unchanged; `f`'s events come first; `g`'s events follow exactly when `f` panicked |
| Guards.GuardOnUnwind | placement-new/src/guard.rs:26-31 | the guarded run is `OnUnwind(f, g)`, and `g` runs once on a panic and never otherwise (not on return, not on abort) |
| Guards.NestedGuardsUnwindInnerFirst | placement-new/src/guard.rs:26-31 | with nested guards, an unwind runs the inner cleanup before the outer one, each once |
| Core.FromSizeAlign | examples/src/tagged_data.rs:22 | `Layout::from_size_align` succeeds exactly for a power-of-two alignment and a size that does not overflow when rounded up, and keeps size and alignment |
| Alloc.Allocator.Emplace | placement-new/src/alloc.rs:11-28 | the returned value and the appended events are those of `EmplaceRun`: no allocation for size 0, abort on null, else the initializer under a deallocating guard |
| Alloc.Allocator.EmplaceWith | placement-new/src/alloc.rs:32-34 | `emplace` over a non-zeroed allocation |
| Alloc.Allocator.EmplaceZeroedWith | placement-new/src/alloc.rs:38-40 | `emplace` over a zeroed allocation: the initializer receives all-`Zeroed` slots |
| Alloc.Allocator.BoxEmplace | placement-new/src/alloc.rs:42-52 | the `Box<T>` placement is `emplace` with `Layout::new::<T>()` over the slots of one `T` |
| Alloc.Allocator.BoxSliceEmplace | placement-new/src/alloc.rs:54-66 | the `Box<[T]>` placement is `emplace` with `Layout::array::<T>(len)`, or, when the layout overflows, the `expect("invalid layout")` panic with no allocation |
| Alloc.ArrayLayout | placement-new/src/alloc.rs:56 | `Layout::array` succeeds exactly when `size * len` rounded to the alignment fits in `usize`, and then has size `size * len` (the element size being a multiple of the alignment, as every Rust type's is) |
| Alloc.EmplaceZeroSize | placement-new/src/alloc.rs:16-20 | for size 0 there is no allocator call, the initializer runs once at address `align`, and that address is returned |
| Alloc.EmplaceNullIsFatal | placement-new/src/alloc.rs:22-25 | a null allocation aborts after the one allocator call, and the initializer never runs |
| Alloc.EmplaceDeallocatesOnce | placement-new/src/alloc.rs:26-27 | after a real allocation the block is freed exactly once, with the same address and layout, if the initializer panics (as the last event), and never if it returns; the address is returned on success |
| Alloc.EmplaceUnwinds | placement-new/src/alloc.rs:26 | an unwinding initializer gives allocation, its events, then the deallocation, and the same panic |
| Alloc.BoxSliceRunIsEmplace | placement-new/src/alloc.rs:54-66 | with a valid layout the slice placement has the events and ending of `emplace`, and its box has length `len` over the same address |
| Alloc.BoxSliceLayout | placement-new/src/alloc.rs:56-58 | an overflowing array layout panics with `"invalid layout: "` and the layout error, with no event; a box has length `len` at the returned address |
| Slice.FirstFailure | placement-new/src/slice.rs:26-30 | the index of the first call that does not return (or `n`): all earlier calls returned |
| Slice.InitSliceWith | placement-new/src/slice.rs:15-46 | the slice loop with its `count` cursor and prefix cleanup ends in the state and events of `InitSlice` |
| Slice.InitSliceOutcome | placement-new/src/slice.rs:24-45 | success exactly when no call fails, with every slot valid; a panic propagates unchanged; an abort ends it |
| Slice.InitSliceSucceeds | placement-new/src/slice.rs:42-45 | on success every slot holds the value written, no drop happens, and the calls are `0..n` in order |
| Slice.InitSliceUnwind | placement-new/src/slice.rs:32-38 | a panic at `k` propagates unchanged after calls `0..k`; exactly slots `0..k-1` are dropped, ascending (none if `T` needs no drop); slot `k` and later are untouched |
| Slice.InitSliceUnwindDropCount | placement-new/src/slice.rs:32-38 | a panic at `k` causes exactly `k` drops |
| ArrayInit.CreateArrayWith | placement-new/src/array.rs:10-19 | the array holds `f(i)` at every `i` exactly when all calls return; the first failure propagates; its events are those of `init_slice_with`, so a panic at `k` drops exactly the `k` values made |
| Uninit.UninitProject | placement-new/src/uninit.rs:11-13 | the projection reinterprets the storage: every field sees what the whole held (uninit, zero, or its value) |
| Uninit.ProjectRoundTrip | placement-new/src/uninit.rs:17-19 | projecting a valid aggregate and reading it back gives the same value |
| Uninit.AssumeInit | placement-new/src/array.rs:17 | reading the aggregate succeeds exactly when every field reads as valid, and yields the fields' values |
| ArrayInit.AssumeInitWritten | placement-new/src/array.rs:14-17 | once every element slot `i` has been overwritten with `f(i)`, `assume_init` yields exactly those values, in order |
| Uninit.ProjectArray | placement-new/src/uninit.rs:25-37 | `[T; N]` projects to `N` element slots, each seeing what the array held (uninit, zero, or its element); defined only for `N` in 0..=32 and the powers of two from 64 to 4096 |
| Uninit.MemsetZeroed | placement-new/src/uninit.rs:40-42 | exactly the one slot becomes zero; nothing else changes |
| Uninit.Overwrite | placement-new/src/uninit.rs:45-47 | exactly the one slot holds the value, whatever it held before; nothing else changes |
| Uninit.ZeroFilledPartialInit | placement-new/tests/large_struct.rs:30-39 | in a zeroed aggregate, fields not overwritten stay zero, and it is valid exactly when those fields are valid at zero |
| EnumSplit.SplitEnum | placement-new/src/__private.rs:7-12 | the tag is at `base` and the payload exactly `size_of::<T>()` bytes after it, whatever the payload type |
| EnumSplit.SplitEnumAdjacent | placement-new/src/__private.rs:9-11 | the tag region ends where the payload starts |
| EnumSplit.SplitEnumMatchesReprCIff | placement-new/src/__private.rs:10 | the computed payload address is the `#[repr(C)]` one exactly when the tag size is a multiple of the payload alignment |
| EnumSplit.SplitEnumMisplacesStringPayload | placement-new/src/__private.rs:10 | for `State::D` on a 64-bit target the split gives offset 4 where the enum keeps the payload at 8 |
| EnumSplit.SplitEnumAligned | placement-new/src/__private.rs:7-12 | the corrected split: tag at `base`, payload after the tag within one alignment step, at a multiple of the alignment |
| EnumSplit.SplitEnumAlignedIsReprC | placement-new/src/__private.rs:7-12 | the corrected split is the `#[repr(C)]` layout for every tag size, keeps the payload aligned, and agrees with `split_enum` when the tag size is a multiple of the alignment |
| Derive.HasReprC | placement-new-derive/src/lib.rs:33-36 | the attribute scan finds `repr(C)` exactly when some attribute is a one-segment, non-global `repr` path with tokens exactly `(C)` |
| Derive.ProjectEach | placement-new-derive/src/lib.rs:56-64 | same count and order; each field keeps attributes, visibility and name, with type wrapped in `MaybeUninit` |
| Derive.ProjectFields | placement-new-derive/src/lib.rs:55-67 | the shape (named, unnamed, unit) is kept, and every field is projected in place |
| Derive.ProjectFieldsInjective | placement-new-derive/src/lib.rs:55-67 | projection loses no information: equal mirrors come from equal fields |
| Derive.ShadowVariants | placement-new-derive/src/lib.rs:116-126 | the shadow enum has the same variants in order, each made fieldless |
| Derive.VariantStructs | placement-new-derive/src/lib.rs:128-143 | one mirror struct per variant, in order |
| Derive.VariantImpls | placement-new-derive/src/lib.rs:145-164 | one impl per variant: it projects `Name` to that variant's struct by writing that variant's tag |
| Derive.VariantFns | placement-new-derive/src/lib.rs:166-174 | one projector fn per variant, named after it, with the enum's visibility |
| Derive.ImplUninitProject | placement-new-derive/src/lib.rs:32-47 | the derive fails exactly without `repr(C)`, for a union, or for a unit struct; the `repr(C)` message in the first two cases, "unexpected unit struct" in the third; any other struct or enum gets the expansion of its kind |
| Derive.ForStruct | placement-new-derive/src/lib.rs:70-104 | a unit struct is the "unexpected unit struct" error; any other struct expands to `__UninitStruct__Name`, the original with only the name and projected fields changed and a hidden attribute added, plus a reinterpreting impl |
| Derive.ForEnum | placement-new-derive/src/lib.rs:106-196 | an enum expands to the shadow `__UninitEnumDiscriminant__Name`, which keeps the enum's attributes (its `repr(C)` among them) behind `doc(hidden)`, its visibility, its generics, and each variant with its fields removed, and per variant `V` in order a hidden `repr(C)` struct `__UninitEnumVariant__Name__V` with the enum's visibility and generics, of the projected fields (`;` unless named), an impl writing tag `V`, and a projector fn with the enum's visibility |
| Derive.ShadowKeepsReprC | placement-new-derive/src/lib.rs:116-179 | the shadow enum of an accepted enum is itself `repr(C)`, so its tag has the original's layout |
| Derive.UninitProjectVariant | placement-new-derive/src/lib.rs:215-218 | `path => V` becomes `path` followed by the one segment `__uninit_project_variant__V` |
| Derive.VariantPathNamesGeneratedFn | placement-new-derive/src/lib.rs:167 | the path the helper macro builds names the projector the enum derive generated for that variant |
| Derive.ProjectKeepsReprCOffsets | placement-new-derive/src/lib.rs:97-99 | the mirror has the `repr(C)` field offsets of the original |
| Derive.ProjectKeepsReprCSizeAlign | placement-new-derive/src/lib.rs:97-99 | the mirror has the `repr(C)` size and alignment of the original; with equal offsets, this makes reinterpreting the storage sound |
| BoxedSlice.ZeroedBytes | examples/src/boxed_slice.rs:4-6 | `zeroed_bytes` is the zeroed `Box<[u8]>` placement with a closure that writes nothing |
| BoxedSlice.ZeroedBytesAreZero | examples/src/boxed_slice.rs:22-27 | for a `usize` length: success exactly when the request is empty or the allocator returns a block; the result has `len` bytes, all zero, so their `|`-fold is 0 |
| BoxedSlice.FoldOrOfZeros | examples/src/boxed_slice.rs:25 | the `|`-fold of zero bytes is 0 |
| BoxedSlice.Repeat | examples/src/boxed_slice.rs:8-14 | `repeat` is the zeroed slice placement filled by `init_slice_with` with clones |
| BoxedSlice.RepeatFills | examples/src/boxed_slice.rs:30-34 | when every clone returns `value`, there are `n` elements, each `value`, and nothing is dropped or freed |
| BoxedSlice.RepeatUnwind | examples/src/boxed_slice.rs:8-14 | a panic in clone `k` drops exactly the `k` clones, ascending, before freeing the block once as the last event; the panic propagates |
| BoxedSlice.RepeatUnwindDropsSixtyFour | examples/src/boxed_slice.rs:36-73 | with 128 elements and a clone that panics on its 65th call, exactly 64 values are dropped and the block is freed once |
| LargeEnum.ProjectVariant | placement-new-derive/src/lib.rs:152-162 | projecting to a variant writes its tag and nothing else; as written it returns the `split_enum` offset, the tag size 4; the corrected split returns the offset a `match` reads (8), aligned for every variant |
| LargeEnum.UnionAlign | examples/src/large_enum.rs:8-15 | the payload union's alignment is the largest variant alignment (that of the `String` fields), and a multiple of each |
| LargeEnum.InitA | examples/src/large_enum.rs:18-20 | `init_a` writes tag `A` only |
| LargeEnum.InitD | examples/src/large_enum.rs:22-26 | `init_d` writes tag `D`, then `name`, then `value`, at the projected payload offset |
| LargeEnum.InitE | examples/src/large_enum.rs:28-31 | `init_e` writes tag `E` and zeroes `data` at the projected payload offset |
| LargeEnum.ResetToA | examples/src/large_enum.rs:33-39 | `reset_to_a` drops the current value once, releases its strings, then writes tag `A` |
| LargeEnum.InitReadsBack | examples/src/large_enum.rs:18-31 | in the corrected program, after each constructor the storage reads as that variant with the given fields (`E` with all-zero data), whatever it held; `init_a` (either split) reads as `A` and leaves the payload alone |
| LargeEnum.InitDAsWrittenMisreads | examples/src/large_enum.rs:22-26 | as written, after `init_d` the storage does not read as `D(name, value)`: the strings lie at offset 4, the `match` reads offset 8 |
| LargeEnum.InitEAsWrittenNeedsZeroedStorage | examples/src/large_enum.rs:28-31 | as written, after `init_e` the storage reads as `E` with zero data exactly when its payload was zero already |
| LargeEnum.ResetReadsA | examples/src/large_enum.rs:54-58 | after `reset_to_a` the storage reads as `A`, and the old value's strings are dropped |
| LargeEnum.NewBoxedE | examples/src/large_enum.rs:41-43 | `new_boxed_e` is the zeroed `Box<State>` placement over the value's three slots, with `init_e` as initializer |
| LargeEnum.NewBoxedEThenReset | examples/src/large_enum.rs:46-61 | with either split, the new box reads as `E` with a zero `|`-fold (the allocation is zeroed), and after `reset_to_a` as `A` |
| TaggedData.NewZeroed | examples/src/tagged_data.rs:16-29 | `new_zeroed` checks the size ("size overflow"), then the layout (an `expect("invalid layout")` panic carrying the layout error), then places the header in a zeroed block |
| TaggedData.HeaderOf | examples/src/tagged_data.rs:31-33 | the header is the value at offset 0, and its `len` counts the body bytes |
| TaggedData.Name | examples/src/tagged_data.rs:39-41 | the name is the one stored in the header at offset 0 |
| TaggedData.Len | examples/src/tagged_data.rs:43-45 | the length is the number of body bytes after the header |
| TaggedData.BodyFillsBlock | examples/src/tagged_data.rs:16-37 | in a new buffer the body starts `size_of::<Header>()` bytes after the block's start and its `len` bytes end exactly where the allocated block ends, so `as_bytes` reads only allocated memory |
| TaggedData.IsEmpty | examples/src/tagged_data.rs:47-49 | empty exactly when the body has no bytes |
| TaggedData.AsBytes | examples/src/tagged_data.rs:51-55 | `len` bytes, byte `i` being the body byte at address `raw_mut_body() + i`, which is the cell `i` after the header |
| TaggedData.Drop | examples/src/tagged_data.rs:64-76 | the header is dropped in place, then the block is freed with size `size_of::<Header>()` wrapping-add `len` |
| TaggedData.NewZeroedChecksSize | examples/src/tagged_data.rs:17-22 | both size checks fail before any allocation; otherwise the first event allocates size `24 + len` with the header's alignment |
| TaggedData.NewZeroedReadsBack | examples/src/tagged_data.rs:39-55 | a new buffer reads back its name and length, is empty exactly when `len` is 0, and has `len` zero body bytes |
| TaggedData.DropFreesWhatNewAllocated | examples/src/tagged_data.rs:70-73 | the layout `Drop` frees is the one `new_zeroed` allocated, because construction checked the size |
| TaggedData.CheckHello | examples/src/tagged_data.rs:88-99 | `new_zeroed("hello", 4096)` reads back its name, length and 4096 zero bytes |

## Left out

- `placement-new/src/place.rs` and the `UninitProject` trait's shape: the trait declares `emplace_by` and an associated `Output`, while the code implements `emplace_with` and the derive a generic parameter. The model follows what the implementations do.
- The `uninit_project!` macro used by the `State` constructors is not part of this model. `LargeEnum.ProjectVariant` stands for the generated `uninit_project` its expansion calls.
- Proc-macro plumbing is not modelled: token streams, `quote!`, `syn` parsing and its failures, spans, and compile-error rendering. Generics are an opaque string. The `#[doc(hidden)]` on generated impls and the `#[allow(non_snake_case)]` on projector fns are not modelled.
- Pointer validity, aliasing, `Send`/`Sync`, `ManuallyDrop`, `mem::forget` and `transmute` are not modelled: ownership is stated through slot states and the event log.
- Rust's unwinding machinery is replaced by the `Outcome` value.
- The host allocator's internals are not modelled; what `alloc` returns is the parameter `got`, and `alloc_zeroed` hands out `Zeroed` slots.
- Memory is modelled slot by slot (one slot per field or element), not byte by byte. Byte offsets and addresses appear where the code computes them: the enum split (`EnumSplit`, `LargeEnum.ProjectVariant`, and the offset each `LargeEnum` payload cell records), the `repr(C)` field offsets, end, size and alignment of `Derive.ReprCOffsets`, `ReprCEnd`, `ReprCSize`, `ReprCAlign` and the `Derive.ProjectKeepsReprC*` lemmas, and the body address of `TaggedData` (`BodyAddress`, `BodyByteAt`). Elsewhere a slot stands for a whole field or element.
- A per-slot closure that panics after writing part of its slot is not modelled: a failing call leaves its slot as it was.
- Alloc.EmplaceDeallocatesOnce: assumes that the initializer does not itself free the block.
- LargeEnum.ReadState: the payload slots are shared between variants by position, so reading one variant's fields as another's gives no value instead of a reinterpretation of bytes. In the same way, a field written at an offset other than the one the `match` reads gives no value. The model does not compute what the shifted bytes would decode as.
- LargeEnum.InitReadsBack: its `D` and `E` clauses are proved of the corrected split; the code as written breaks them, as `LargeEnum.InitDAsWrittenMisreads` and `LargeEnum.InitEAsWrittenNeedsZeroedStorage` show.
- The `Debug` impl of `Data` and the test-only atomics and `Cell` counters are not modelled. Drop counts are read off the event trace.
- Sizes are those of a 64-bit target: `usize::MAX` is 2^64 - 1, `Header` is 24 bytes aligned to 8, and the `State` tag is 4 bytes. Other element sizes and alignments are parameters.
- A `Result::expect` panic carries its message argument, `": "` and the error's `Debug` form; for the layout error this is the constant `Core.INVALID_LAYOUT`, with the `Debug` text of the Rust version the code was written for.
- Core.FromSizeAlign: uses the rule of the Rust version the code was written for (size rounded up to the alignment fits in `usize`); the later `isize::MAX` bound is not modelled.
- BoxedSlice.RepeatUnwind: states that the source value is not dropped only as the absence of whole-value drops from the trace, since `repeat` only borrows it.
- ArrayInit.CreateArrayWith: that no heap memory is used shows in the absence of an allocator argument, not in a stated property.
- `examples/src/array_init.rs` and `placement-new/tests/large_struct.rs` serve as sources of properties only.

## Findings

| source | as written | input that shows it | evidently intended | confidence | as-written member | corrected member |
|---|---|---|---|---|---|---|
| placement-new/src/__private.rs:10 | the payload pointer is `base + size_of::<T>()`, with no rounding up to the payload's alignment | the derived `State` of `examples/src/large_enum.rs` on a 64-bit target: the tag is a 4-byte C `int` and variant `D` holds two 8-aligned `String`s, so the payload is written at offset 4 while the `#[repr(C)]` enum keeps its payload union at offset 8; after `init_d` a `match` does not see `D(name, value)` | the payload at the tag size rounded up to the alignment of the enum's payload union, as in the `#[repr(C)]` layout | high; not executed | EnumSplit.SplitEnumMisplacesStringPayload | EnumSplit.SplitEnumAlignedIsReprC |
