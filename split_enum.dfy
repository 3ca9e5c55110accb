/** The enum tag/payload split of `placement-new/src/__private.rs`, and how it
    relates to the layout Rust gives a `#[repr(C)]` enum with fields: a
    `#[repr(C)]` struct of the tag followed by a `#[repr(C)]` union of the
    variants' payload structs, so that the payload starts at the tag size
    rounded up to the payload's alignment. Addresses are byte offsets. */
module EnumSplit {

  /** `Layout::padding_needed_for`: bytes to add after `n` to reach a multiple of `align`. */
  function Padding(n: nat, align: nat): nat
    requires align > 0
  {
    if n % align == 0 then 0 else align - n % align
  }

  /** `n` rounded up to a multiple of `align`. */
  function RoundUp(n: nat, align: nat): nat
    requires align > 0
  {
    n + Padding(n, align)
  }

  /** Rounding up gives the least multiple of `align` that is at least `n`. */
  lemma RoundUpIsLeastMultiple(n: nat, align: nat)
    requires align > 0
    ensures RoundUp(n, align) % align == 0
    ensures n <= RoundUp(n, align) < n + align
    ensures RoundUp(n, align) == n <==> n % align == 0
  {
    var q, rem := n / align, n % align;
    assert n == q * align + rem;
    if rem != 0 {
      assert RoundUp(n, align) == (q + 1) * align;
      MultipleModZero(q + 1, align);
    } else {
      MultipleModZero(q, align);
    }
  }

  lemma {:induction false} MultipleModZero(k: nat, align: nat)
    requires align > 0
    ensures (k * align) % align == 0
  {
    if k > 0 {
      MultipleModZero(k - 1, align);
      assert k * align == (k - 1) * align + align;
      ModAddAlign((k - 1) * align, align);
    }
  }

  lemma ModAddAlign(x: nat, align: nat)
    requires align > 0
    ensures (x + align) % align == x % align
  {
    var q, rem := x / align, x % align;
    assert x + align == (q + 1) * align + rem;
    ModUnique(x + align, align, q + 1, rem);
  }

  /** Euclidean division is unique: `y == q * align + rem` with `rem < align` fixes `y % align`. */
  lemma ModUnique(y: nat, align: nat, q: nat, rem: nat)
    requires align > 0 && rem < align && y == q * align + rem
    ensures y % align == rem
  {
    var q2, r2 := y / align, y % align;
    assert (q2 - q) * align == rem - r2;
    ZeroMultiple(q2 - q, align);
  }

  lemma ZeroMultiple(d: int, align: nat)
    requires align > 0 && -(align as int) < d * align < align
    ensures d == 0
  {
  }

  /** `split_enum::<T, P>(base)` as written: the tag at `base`, the payload at
      `base + size_of::<T>()`, whatever the size or alignment of `P`. It only
      computes addresses; no memory is read or written. */
  function SplitEnum(base: nat, tagSize: nat): (r: (nat, nat))
    ensures r.0 == base
    ensures r.1 - r.0 == tagSize
  {
    (base, base + tagSize)
  }

  /** The tag region `[tag, tag + tagSize)` ends exactly where the payload starts. */
  lemma SplitEnumAdjacent(base: nat, tagSize: nat, a: nat)
    ensures var (tag, payload) := SplitEnum(base, tagSize);
      (tag <= a < tag + tagSize ==> a < payload) && tag + tagSize == payload
  {
  }

  /** Offset of the payload inside a `#[repr(C)]` enum whose tag has size
      `tagSize` and whose variant payloads have largest alignment `payloadAlign`. */
  function ReprCPayloadOffset(tagSize: nat, payloadAlign: nat): nat
    requires payloadAlign > 0
  {
    RoundUp(tagSize, payloadAlign)
  }

  /** The payload address `split_enum` computes is where a `#[repr(C)]` enum
      keeps its payload exactly when the tag size is a multiple of the
      payload's alignment. */
  lemma SplitEnumMatchesReprCIff(base: nat, tagSize: nat, payloadAlign: nat)
    requires payloadAlign > 0
    ensures SplitEnum(base, tagSize).1 == base + ReprCPayloadOffset(tagSize, payloadAlign)
        <==> tagSize % payloadAlign == 0
  {
    RoundUpIsLeastMultiple(tagSize, payloadAlign);
  }

  /** The derived `State` of `examples/src/large_enum.rs` on a 64-bit target:
      its `#[repr(C)]` discriminant is a C `int` (4 bytes) and its payload
      union is 8-aligned because variants `B` and `D` hold `String`s.
      `split_enum` places every variant's payload (`D`'s, say) at offset 4,
      while the enum keeps it at offset 8. */
  lemma SplitEnumMisplacesStringPayload()
    ensures SplitEnum(0, 4).1 == 4
    ensures ReprCPayloadOffset(4, 8) == 8
  {
  }

  /** The split the projection evidently intends: the payload starts at the
      tag size rounded up to the payload's alignment. */
  function SplitEnumAligned(base: nat, tagSize: nat, payloadAlign: nat): (r: (nat, nat))
    requires payloadAlign > 0
    ensures r.0 == base
    ensures r.0 + tagSize <= r.1 < r.0 + tagSize + payloadAlign
    ensures (r.1 - r.0) % payloadAlign == 0
  {
    RoundUpIsLeastMultiple(tagSize, payloadAlign);
    (base, base + RoundUp(tagSize, payloadAlign))
  }

  /** The corrected split agrees with the `#[repr(C)]` layout for every tag
      size and alignment, keeps the payload aligned when `base` is, leaves the
      tag region disjoint from the payload, and coincides with `split_enum`
      whenever the tag size is already a multiple of the alignment. */
  lemma SplitEnumAlignedIsReprC(base: nat, tagSize: nat, payloadAlign: nat)
    requires payloadAlign > 0
    ensures var (tag, payload) := SplitEnumAligned(base, tagSize, payloadAlign);
      && tag == base
      && payload == base + ReprCPayloadOffset(tagSize, payloadAlign)
      && tag + tagSize <= payload
      && (base % payloadAlign == 0 ==> payload % payloadAlign == 0)
      && (tagSize % payloadAlign == 0 ==> (tag, payload) == SplitEnum(base, tagSize))
  {
    RoundUpIsLeastMultiple(tagSize, payloadAlign);
    var r := RoundUp(tagSize, payloadAlign);
    if base % payloadAlign == 0 {
      SumOfMultiples(base, r, payloadAlign);
    }
  }

  lemma SumOfMultiples(a: nat, b: nat, align: nat)
    requires align > 0 && a % align == 0 && b % align == 0
    ensures (a + b) % align == 0
  {
    var qa, qb := a / align, b / align;
    assert a == qa * align && b == qb * align;
    assert a + b == (qa + qb) * align;
    MultipleModZero(qa + qb, align);
  }
}
