/** The array builder of `placement-new/src/array.rs`. */
module ArrayInit {
  import opened Core
  import opened Slice
  import opened Uninit

  /** `assume_init` on an array whose every slot `i` was written with the
      value of `f(i)` yields those values. No element of an uninitialized
      array is valid at zero. */
  lemma AssumeInitWritten<T>(s: seq<Slot<T>>, f: nat -> Outcome<T>)
    requires forall i :: 0 <= i < |s| ==> f(i).Ok? && s[i] == Valid(f(i).value)
    ensures var whole := AssumeInit(s, seq(|s|, _ => None));
      && whole.Some? && |whole.value| == |s|
      && forall i :: 0 <= i < |s| ==> whole.value[i] == f(i).value
  {
    var zeros: seq<Option<T>> := seq(|s|, _ => None);
    assert AllFieldsValid(s, zeros);
  }

  /** A local `MaybeUninit<[T; N]>` projected to its `N` element slots. */
  method UninitArray<T>(n: nat) returns (a: array<Slot<T>>)
    requires ArrayProjectable(n)
    ensures fresh(a) && a[..] == Fresh(false, n)
  {
    var slots := ProjectArray(Uninit, n);
    a := new Slot<T>[n](i requires 0 <= i < n => slots[i]);
    assert a[..] == Fresh(false, n);
  }

  /** `create_array_with::<T, N>(f)`: project a local uninitialized `[T; N]`
      to its element slots, fill them through `init_slice_with` (each slot
      overwritten with `f(idx)`), then read the array back. `f(idx)` is the
      ending of the call with index `idx`; `needsDrop` is
      `mem::needs_drop::<T>()`. The array is local: nothing is allocated. */
  method CreateArrayWith<T>(n: nat, f: nat -> Outcome<T>, needsDrop: bool)
    returns (r: Outcome<seq<T>>, trace: seq<Event>)
    requires ArrayProjectable(n)
    ensures r.Ok? <==> forall i :: 0 <= i < n ==> f(i).Ok?
    ensures r.Ok? ==> |r.value| == n && forall i :: 0 <= i < n ==> r.value[i] == f(i).value
    ensures var k := FirstFailure(f, n);
      && (k < n && f(k).Panic? ==> r == Panic(f(k).msg))
      && (k < n && f(k).Abort? ==> r == Abort)
    ensures trace == InitSlice(Fresh(false, n), f, needsDrop).trace
  {
    var a := UninitArray(n);
    var done;
    done, trace := InitSliceWith(a, f, needsDrop);
    InitSliceOutcome(Fresh(false, n), f, needsDrop);
    if done.Ok? {
      // `assume_init`: every element slot now holds `Valid(f(i).value)`
      AssumeInitWritten(a[..], f);
      r := Ok(AssumeInit(a[..], seq(n, _ => None)).value);
    } else if done.Panic? {
      r := Panic(done.msg);
    } else {
      r := Abort;
    }
  }
}
