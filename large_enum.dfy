/** The derived enum of `examples/src/large_enum.rs` and its in-place
    constructors. The storage of a `MaybeUninit<State>` is three slots:
    the tag, then two payload field slots shared by all variants (field `j`
    of the current variant lives in slot `1 + j`). Sizes and alignments are
    those of a 64-bit target: the `#[repr(C)]` tag is a C `int`. */
module LargeEnum {
  import opened Core
  import opened Uninit
  import opened Alloc
  import EnumSplit
  import BoxedSlice

  /** The shadow enum `__UninitEnumDiscriminant__State`; `A` is discriminant 0. */
  datatype Tag = TagA | TagB | TagC | TagD | TagE

  const DATA_LEN: nat := 4096

  datatype State =
    | A
    | B(s: string)
    | C(x: nat, y: nat)
    | D(name: string, value: string)
    | E(data: seq<bv8>)

  /** What a slot of the storage can hold. A payload field remembers the
      payload offset it was written through (`at`), so that a read can tell
      whether it lies where a `match` looks for it. `ZeroBytes(at)` is the
      4096-byte `data` array zeroed through a payload pointer at `at`. */
  datatype Cell =
    | TagCell(tag: Tag)
    | StrCell(s: string, at: nat)
    | U32Cell(n: nat, at: nat)
    | BytesCell(bytes: seq<bv8>, at: nat)
    | ZeroBytes(at: nat)

  const CELLS: nat := 3
  const TAG_SIZE: nat := 4

  /** The alignment of each variant's mirror struct (`String` is 8-aligned,
      `u32` 4-aligned, `[u8; 4096]` 1-aligned). */
  function VariantAlign(t: Tag): (a: nat)
    ensures a > 0
  {
    match t
    case TagA => 1
    case TagB => 8
    case TagC => 4
    case TagD => 8
    case TagE => 1
  }

  /** The alignment of the `#[repr(C)]` enum's payload union: the largest
      alignment of any variant. */
  function UnionAlign(): (a: nat)
    ensures forall t: Tag :: VariantAlign(t) <= a && a % VariantAlign(t) == 0
    ensures a == VariantAlign(TagD)
  {
    8
  }

  /** Where a `match` on a `State` reads every variant's fields: the payload
      union of the `#[repr(C)]` layout, after the tag rounded up to the
      union's alignment. */
  function MatchOffset(): (off: nat)
    ensures off == 8
  {
    EnumSplit.RoundUpIsLeastMultiple(TAG_SIZE, UnionAlign());
    EnumSplit.ReprCPayloadOffset(TAG_SIZE, UnionAlign())
  }

  /** Which split the generated projection uses: `split_enum` as written, or
      the corrected split `EnumSplit.SplitEnumAligned`. */
  datatype Split = AsWritten | Corrected

  /** The payload offset the projection hands to the constructors. */
  function PayloadOffset(split: Split): (off: nat)
    ensures split.AsWritten? ==> off == TAG_SIZE
    ensures split.Corrected? ==> off == MatchOffset()
  {
    match split
    case AsWritten => EnumSplit.SplitEnum(0, TAG_SIZE).1
    case Corrected =>
      EnumSplit.SplitEnumAlignedIsReprC(0, TAG_SIZE, UnionAlign());
      EnumSplit.SplitEnumAligned(0, TAG_SIZE, UnionAlign()).1
  }

  /** The tag a tag slot reads as: all-zero bytes are discriminant 0, `A`. */
  function ReadTag(s: Slot<Cell>): Option<Tag>
  {
    match s
    case Valid(TagCell(t)) => Some(t)
    case Zeroed => Some(TagA)
    case _ => None
  }

  /** A payload field reads as a value only when it was written where the
      `match` reads it; one written at another offset reads as no value. */
  function ReadStr(s: Slot<Cell>): Option<string>
  {
    if s.Valid? && s.v.StrCell? && s.v.at == MatchOffset() then Some(s.v.s) else None
  }

  /** A `u32` reads as 0 from zero bytes. */
  function ReadU32(s: Slot<Cell>): Option<nat>
  {
    if s.Zeroed? then Some(0)
    else if s.Valid? && s.v.U32Cell? && s.v.at == MatchOffset() then Some(s.v.n)
    else None
  }

  /** A `[u8; 4096]` reads as all zeros from zero bytes. */
  function ReadBytes(s: Slot<Cell>): Option<seq<bv8>>
  {
    if s.Zeroed? then Some(Zeros(DATA_LEN))
    else if s.Valid? && s.v.ZeroBytes? && s.v.at == MatchOffset() then Some(Zeros(DATA_LEN))
    else if s.Valid? && s.v.BytesCell? && s.v.at == MatchOffset() && |s.v.bytes| == DATA_LEN then Some(s.v.bytes)
    else None
  }

  function Zeros(n: nat): (z: seq<bv8>)
    ensures |z| == n && forall i :: 0 <= i < n ==> z[i] == 0
  {
    seq(n, _ => 0)
  }

  /** The `State` the storage holds, if it holds a valid one (what a `match`
      on it sees). */
  function ReadState(cells: seq<Slot<Cell>>): Option<State>
    requires |cells| == CELLS
  {
    match ReadTag(cells[0])
    case None => None
    case Some(TagA) => Some(A)
    case Some(TagB) =>
      if ReadStr(cells[1]).Some? then Some(B(ReadStr(cells[1]).value)) else None
    case Some(TagC) =>
      if ReadU32(cells[1]).Some? && ReadU32(cells[2]).Some?
      then Some(C(ReadU32(cells[1]).value, ReadU32(cells[2]).value)) else None
    case Some(TagD) =>
      if ReadStr(cells[1]).Some? && ReadStr(cells[2]).Some?
      then Some(D(ReadStr(cells[1]).value, ReadStr(cells[2]).value)) else None
    case Some(TagE) =>
      if ReadBytes(cells[1]).Some? then Some(E(ReadBytes(cells[1]).value)) else None
  }

  /** The storage after projecting to variant `t`: only the tag is written. */
  function Tagged(cells: seq<Slot<Cell>>, t: Tag): seq<Slot<Cell>>
    requires |cells| == CELLS
  {
    cells[0 := Valid(TagCell(t))]
  }

  function InitDCells(cells: seq<Slot<Cell>>, split: Split, name: string, value: string): seq<Slot<Cell>>
    requires |cells| == CELLS
  {
    var at := PayloadOffset(split);
    Tagged(cells, TagD)[1 := Valid(StrCell(name, at))][2 := Valid(StrCell(value, at))]
  }

  /** `memset_zeroed(&mut this.data)` through a payload pointer at `at`.
      Zeroing bytes that are already zero changes nothing, so a `Zeroed`
      slot stays `Zeroed` wherever the zeroing lands. */
  function ZeroDataAt(s: Slot<Cell>, at: nat): Slot<Cell>
  {
    if at == MatchOffset() || s.Zeroed? then Zeroed else Valid(ZeroBytes(at))
  }

  function InitECells(cells: seq<Slot<Cell>>, split: Split): seq<Slot<Cell>>
    requires |cells| == CELLS
  {
    Tagged(cells, TagE)[1 := ZeroDataAt(cells[1], PayloadOffset(split))]
  }

  /** The payload slots `drop_in_place` releases for a value with tag `t`:
      the `String`s of `B` and `D`. */
  function DropPayload(cells: seq<Slot<Cell>>, t: Tag): seq<Slot<Cell>>
    requires |cells| == CELLS
  {
    match t
    case TagB => cells[1 := Dropped]
    case TagD => cells[1 := Dropped][2 := Dropped]
    case _ => cells
  }

  function ResetCells(cells: seq<Slot<Cell>>): seq<Slot<Cell>>
    requires |cells| == CELLS && ReadTag(cells[0]).Some?
  {
    Tagged(DropPayload(cells, ReadTag(cells[0]).value), TagA)
  }

  /** The generated projection `uninit_project` for variant `t`: split the
      storage, write tag `t`, and return the payload's byte offset. As
      written the offset is the tag size; the corrected split returns the
      offset a `match` reads, which is aligned for every variant. */
  method ProjectVariant(place: array<Slot<Cell>>, split: Split, t: Tag) returns (payload: nat)
    requires place.Length == CELLS
    modifies place
    ensures payload == PayloadOffset(split)
    ensures split.AsWritten? ==> payload == EnumSplit.SplitEnum(0, TAG_SIZE).1
    ensures split.Corrected? ==> payload == MatchOffset() && payload % VariantAlign(t) == 0
    ensures place[..] == Tagged(old(place[..]), t)
  {
    match split {
      case AsWritten =>
        var (_, p) := EnumSplit.SplitEnum(0, TAG_SIZE);
        payload := p;
      case Corrected =>
        var (_, p) := EnumSplit.SplitEnumAligned(0, TAG_SIZE, UnionAlign());
        EnumSplit.SplitEnumAlignedIsReprC(0, TAG_SIZE, UnionAlign());
        payload := p;
    }
    place[0] := Valid(TagCell(t));
  }

  /** `State::init_a`: the tag only. */
  method InitA(place: array<Slot<Cell>>, split: Split)
    requires place.Length == CELLS
    modifies place
    ensures place[..] == Tagged(old(place[..]), TagA)
  {
    var _ := ProjectVariant(place, split, TagA);
  }

  /** `State::init_d`: the tag, then `name`, then `value`, through the
      projected payload pointer. */
  method InitD(place: array<Slot<Cell>>, split: Split, name: string, value: string)
    requires place.Length == CELLS
    modifies place
    ensures place[..] == InitDCells(old(place[..]), split, name, value)
  {
    var at := ProjectVariant(place, split, TagD);
    Overwrite(place, 1, StrCell(name, at));
    Overwrite(place, 2, StrCell(value, at));
  }

  /** `State::init_e`: the tag, then zero the whole `data` array through the
      projected payload pointer. */
  method InitE(place: array<Slot<Cell>>, split: Split)
    requires place.Length == CELLS
    modifies place
    ensures place[..] == InitECells(old(place[..]), split)
  {
    var at := ProjectVariant(place, split, TagE);
    if at == MatchOffset() || place[1].Zeroed? {
      MemsetZeroed(place, 1);
    } else {
      place[1] := Valid(ZeroBytes(at));
    }
  }

  /** `State::reset_to_a`: drop the current value in place (`dropped` lists
      the values dropped), then write tag `A` over the same storage. */
  method ResetToA(place: array<Slot<Cell>>, split: Split) returns (dropped: seq<State>)
    requires place.Length == CELLS && ReadState(place[..]).Some?
    modifies place
    ensures dropped == [ReadState(old(place[..])).value]
    ensures place[..] == ResetCells(old(place[..]))
  {
    var current := ReadState(place[..]).value;
    var t := ReadTag(place[0]).value;
    if t == TagB {
      place[1] := Dropped;
    } else if t == TagD {
      place[1] := Dropped;
      place[2] := Dropped;
    }
    dropped := [current];
    InitA(place, split);
  }

  /** The constructors with the corrected split leave a valid value of their
      variant, whatever the storage held before; `init_a` writes no payload
      slot, whichever split it uses. */
  lemma InitReadsBack(cells: seq<Slot<Cell>>, name: string, value: string)
    requires |cells| == CELLS
    ensures ReadState(Tagged(cells, TagA)) == Some(A)
    ensures Tagged(cells, TagA)[1..] == cells[1..]
    ensures ReadState(InitDCells(cells, Corrected, name, value)) == Some(D(name, value))
    ensures ReadState(InitECells(cells, Corrected)) == Some(E(Zeros(DATA_LEN)))
  {
  }

  /** As written, `init_d` writes its strings at offset 4 while a `match`
      reads them at offset 8: the storage does not hold `D(name, value)`. */
  lemma InitDAsWrittenMisreads(cells: seq<Slot<Cell>>, name: string, value: string)
    requires |cells| == CELLS
    ensures ReadState(InitDCells(cells, AsWritten, name, value)) == None
    ensures ReadState(InitDCells(cells, AsWritten, name, value)) != Some(D(name, value))
  {
  }

  /** As written, `init_e` zeroes bytes 4..4100 while a `match` reads
      8..4104: the storage reads as `E` with zero data exactly when the
      payload was zero already (a zeroed allocation). */
  lemma InitEAsWrittenNeedsZeroedStorage(cells: seq<Slot<Cell>>)
    requires |cells| == CELLS
    ensures ReadState(InitECells(cells, AsWritten)) == Some(E(Zeros(DATA_LEN))) <==> cells[1].Zeroed?
    ensures !cells[1].Zeroed? ==> ReadState(InitECells(cells, AsWritten)) == None
  {
  }

  /** `reset_to_a` drops exactly the value that was there, releases its
      strings, and leaves `A` behind. */
  lemma ResetReadsA(cells: seq<Slot<Cell>>)
    requires |cells| == CELLS && ReadState(cells).Some?
    ensures ReadState(ResetCells(cells)) == Some(A)
    ensures ReadState(cells).value.D? ==> ResetCells(cells)[1] == Dropped && ResetCells(cells)[2] == Dropped
    ensures ReadState(cells).value.B? ==> ResetCells(cells)[1] == Dropped
  {
  }

  /** `init_e` as the initializer of `Box::emplace_zeroed_by`. */
  function InitEInit(split: Split): Init<Cell>
  {
    (ptr: nat, cells: seq<Slot<Cell>>) =>
      if |cells| == CELLS then Run(Ok(InitECells(cells, split)), []) else Run(Ok(cells), [])
  }

  /** What `State::new_boxed_e` does, for a `State` of the given size and
      alignment: a zeroed box of one `State`, initialized by `init_e`. */
  function NewBoxedERun(size: nat, align: nat, got: nat, split: Split): Run<Placed<Cell>>
  {
    BoxRun(size, align, CELLS, true, got, InitEInit(split))
  }

  /** `State::new_boxed_e`. */
  method NewBoxedE(heap: Allocator, size: nat, align: nat, got: nat, split: Split) returns (r: Outcome<Placed<Cell>>)
    modifies heap
    ensures r == NewBoxedERun(size, align, got, split).out
    ensures heap.trace == old(heap.trace) + NewBoxedERun(size, align, got, split).trace
  {
    r := heap.BoxEmplace(size, align, CELLS, true, got, InitEInit(split));
  }

  /** The test `check_boxed`: the new box holds `E` with every data byte zero
      (the `|`-fold of the data is 0); after `reset_to_a`, which drops that
      value once, it holds `A`. This holds with either split, because the
      allocation is zeroed. */
  lemma NewBoxedEThenReset(size: nat, align: nat, got: nat, split: Split)
    requires size == 0 || got != 0
    ensures var run := NewBoxedERun(size, align, got, split);
      && run.out.Ok?
      && |run.out.value.cells| == CELLS
      && ReadState(run.out.value.cells) == Some(E(Zeros(DATA_LEN)))
      && BoxedSlice.FoldOr(ReadState(run.out.value.cells).value.data) == 0
      && ReadState(ResetCells(run.out.value.cells)) == Some(A)
  {
    var cells := InitECells(Fresh(true, CELLS), split);
    InitEAsWrittenNeedsZeroedStorage(Fresh(true, CELLS));
    InitReadsBack(Fresh(true, CELLS), "", "");
    BoxedSlice.FoldOrOfZeros(Zeros(DATA_LEN));
    ResetReadsA(cells);
  }
}
