/** The uninitialized-mirror projection helpers of `placement-new/src/uninit.rs`.

    An aggregate with `width` fields (a struct's fields, or an array's
    elements) is a value `seq<F>`; the storage of a `MaybeUninit` aggregate is
    one `Slot<seq<F>>`, and its mirror is one `Slot<F>` per field. */
module Uninit {
  import opened Core

  /** The slot of field `i` when the whole aggregate's storage is `whole`. */
  function FieldSlot<F>(whole: Slot<seq<F>>, i: nat): Slot<F>
    requires whole.Valid? ==> i < |whole.v|
  {
    match whole
    case Uninit => Uninit
    case Zeroed => Zeroed
    case Valid(vs) => Valid(vs[i])
    case Dropped => Dropped
  }

  /** `UninitProject::uninit_project` (and the free `uninit_project`, which
      only forwards to it): view the aggregate's storage as its field-wise
      mirror. The view reinterprets the same storage: every field sees exactly
      the bytes it already had. */
  function UninitProject<F>(whole: Slot<seq<F>>, width: nat): (fields: seq<Slot<F>>)
    requires whole.Valid? ==> |whole.v| == width
    ensures |fields| == width
    ensures whole.Uninit? ==> forall i :: 0 <= i < width ==> fields[i].Uninit?
    ensures whole.Zeroed? ==> forall i :: 0 <= i < width ==> fields[i].Zeroed?
    ensures whole.Valid? ==> forall i :: 0 <= i < width ==> fields[i] == Valid(whole.v[i])
  {
    seq(width, i requires 0 <= i < width => FieldSlot(whole, i))
  }

  /** The value a field slot holds when read as a valid `F`: its written
      value, or the all-zero value when all-zero bytes are a valid `F`
      (`zero` is `None` when they are not, as for `String`). */
  function ReadField<F>(s: Slot<F>, zero: Option<F>): Option<F>
  {
    match s
    case Valid(v) => Some(v)
    case Zeroed => zero
    case _ => None
  }

  /** Whether every field of the mirror reads as a valid value. */
  predicate AllFieldsValid<F>(fields: seq<Slot<F>>, zeros: seq<Option<F>>)
    requires |zeros| == |fields|
  {
    forall i :: 0 <= i < |fields| ==> ReadField(fields[i], zeros[i]).Some?
  }

  /** `assume_init` on the aggregate once its fields are written: the whole
      value, when every field reads as valid. */
  function AssumeInit<F>(fields: seq<Slot<F>>, zeros: seq<Option<F>>): (whole: Option<seq<F>>)
    requires |zeros| == |fields|
    ensures whole.Some? <==> AllFieldsValid(fields, zeros)
    ensures whole.Some? ==>
      (|whole.value| == |fields| &&
       forall i :: 0 <= i < |fields| ==> Some(whole.value[i]) == ReadField(fields[i], zeros[i]))
  {
    if AllFieldsValid(fields, zeros) then
      Some(seq(|fields|, i requires 0 <= i < |fields| => ReadField(fields[i], zeros[i]).value))
    else None
  }

  /** Projection writes nothing: projecting a valid aggregate and reading it
      back gives the same value. */
  lemma ProjectRoundTrip<F>(vs: seq<F>, zeros: seq<Option<F>>)
    requires |zeros| == |vs|
    ensures AssumeInit(UninitProject(Valid(vs), |vs|), zeros) == Some(vs)
  {
    var fields := UninitProject(Valid(vs), |vs|);
    assert AllFieldsValid(fields, zeros);
    var back := AssumeInit(fields, zeros);
    assert back.value == vs;
  }

  /** The lengths `N` for which `[T; N]` has the mirror `[MaybeUninit<T>; N]`. */
  predicate ArrayProjectable(n: nat)
  {
    n <= 32 || n in {64, 128, 256, 512, 1024, 2048, 4096}
  }

  /** The array projection: `[T; N]` storage viewed as `N` element slots. */
  function ProjectArray<T>(whole: Slot<seq<T>>, n: nat): (elems: seq<Slot<T>>)
    requires ArrayProjectable(n)
    requires whole.Valid? ==> |whole.v| == n
    ensures |elems| == n
    ensures whole.Uninit? ==> forall i :: 0 <= i < n ==> elems[i].Uninit?
    ensures whole.Zeroed? ==> forall i :: 0 <= i < n ==> elems[i].Zeroed?
    ensures whole.Valid? ==> forall i :: 0 <= i < n ==> elems[i] == Valid(whole.v[i])
  {
    UninitProject(whole, n)
  }

  /** `memset_zeroed`: set every byte of field `i` to zero; nothing else changes. */
  method MemsetZeroed<F>(place: array<Slot<F>>, i: nat)
    requires i < place.Length
    modifies place
    ensures place[..] == old(place[..])[i := Zeroed]
  {
    place[i] := Zeroed;
  }

  /** `overwrite`: store `value` in field `i` without reading or dropping what
      was there; nothing else changes. */
  method Overwrite<F>(place: array<Slot<F>>, i: nat, value: F)
    requires i < place.Length
    modifies place
    ensures place[..] == old(place[..])[i := Valid(value)]
  {
    place[i] := Valid(value);
  }

  /** The fields of a zero-filled aggregate after overwriting the fields in
      `written` with `values`. */
  function OverwriteFields<F>(width: nat, written: set<nat>, values: seq<F>): (fields: seq<Slot<F>>)
    requires |values| == width
    ensures |fields| == width
  {
    seq(width, i requires 0 <= i < width => if i in written then Valid(values[i]) else UninitProject(Zeroed, width)[i])
  }

  /** In a zero-filled region, overwriting only some projected fields leaves
      every other field zero, and the aggregate is valid exactly when each
      field left unwritten has a valid all-zero value. */
  lemma ZeroFilledPartialInit<F>(width: nat, written: set<nat>, values: seq<F>, zeros: seq<Option<F>>)
    requires |values| == width && |zeros| == width
    ensures var fields := OverwriteFields(width, written, values);
      && (forall i :: 0 <= i < width && i !in written ==> fields[i] == Zeroed)
      && (AssumeInit(fields, zeros).Some? <==>
            forall i :: 0 <= i < width && i !in written ==> zeros[i].Some?)
  {
    var fields := OverwriteFields(width, written, values);
    if forall i :: 0 <= i < width && i !in written ==> zeros[i].Some? {
      assert AllFieldsValid(fields, zeros);
    }
    if AssumeInit(fields, zeros).Some? {
      forall i | 0 <= i < width && i !in written
        ensures zeros[i].Some?
      {
        assert ReadField(fields[i], zeros[i]).Some?;
      }
    }
  }
}
