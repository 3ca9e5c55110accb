/** The `UninitProject` derive of `placement-new-derive/src/lib.rs`, as a pure
    map from a parsed declaration to the items it expands to. Token streams,
    spans and parsing are not modelled: a declaration and its expansion are
    datatypes, identifiers and attribute tokens are strings, generics are
    carried along unchanged. */
module Derive {
  import opened Core
  import EnumSplit

  /** An outer attribute `#[path tokens]`; `global` is a leading `::`. */
  datatype Attr = Attr(global: bool, path: seq<string>, tokens: string)

  /** A field type: a type path, or `MaybeUninit<inner>`. */
  datatype Ty = TyPath(name: string) | MaybeUninitOf(inner: Ty)

  /** A field; `ident` is `None` in a tuple struct or tuple variant. */
  datatype Field = Field(attrs: seq<Attr>, vis: string, ident: Option<string>, ty: Ty)

  datatype Fields = NamedFields(named: seq<Field>) | UnnamedFields(unnamed: seq<Field>) | UnitFields

  /** An enum variant, with its optional explicit discriminant expression. */
  datatype Variant = Variant(attrs: seq<Attr>, ident: string, fields: Fields, discriminant: Option<string>)

  /** The body of a declaration; `semi` is a struct's trailing `;`. */
  datatype Data =
    | StructData(fields: Fields, semi: bool)
    | EnumData(variants: seq<Variant>)
    | UnionData(unionFields: seq<Field>)

  /** `syn::DeriveInput`. */
  datatype DeriveInput = DeriveInput(attrs: seq<Attr>, vis: string, ident: string, generics: string, data: Data)

  /** `syn::ItemStruct`, as built for each enum variant. */
  datatype ItemStruct = ItemStruct(attrs: seq<Attr>, vis: string, generics: string, ident: string, fields: Fields, semi: bool)

  /** What a generated `uninit_project` does: reinterpret the whole storage
      (structs), or split it into tag and payload, write the tag `variant` of
      the shadow enum `tagType`, and return the payload (enum variants). */
  datatype Projection = Reinterpret | SplitAndTag(tagType: string, variant: string)

  /** `unsafe impl UninitProject<mirror> for target`. */
  datatype ProjectImpl = ProjectImpl(target: string, mirror: string, body: Projection)

  /** `vis fn name(this) -> &mut mirror { Self::uninit_project(this) }` inside `impl Name`. */
  datatype VariantFn = VariantFn(vis: string, name: string, mirror: string)

  /** The items a derive expands to, or the compile error it emits. */
  datatype Expansion =
    | StructExpansion(mirror: DeriveInput, structImpl: ProjectImpl)
    | EnumExpansion(shadow: DeriveInput, variantStructs: seq<ItemStruct>, impls: seq<ProjectImpl>, fns: seq<VariantFn>)
    | CompileError(msg: string)

  const REPR_ERROR: string := "Only repr(C) structs and enums can derive UninitProject"
  const UNIT_STRUCT_ERROR: string := "unexpected unit struct"
  const DOC_HIDDEN: Attr := Attr(false, ["doc"], "(hidden)")
  const REPR_C: Attr := Attr(false, ["repr"], "(C)")

  function MirrorStructName(name: string): string { "__UninitStruct__" + name }
  function DiscriminantName(name: string): string { "__UninitEnumDiscriminant__" + name }
  function VariantStructName(name: string, variant: string): string { "__UninitEnumVariant__" + name + "__" + variant }
  function VariantFnName(variant: string): string { "__uninit_project_variant__" + variant }

  /** An attribute is `repr` (a one-segment path, no leading `::`) with
      tokens exactly `(C)`; `repr(C, u8)` or `repr( C )` spellings differ. */
  predicate IsReprC(a: Attr)
  {
    !a.global && |a.path| == 1 && a.path[0] == "repr" && a.tokens == "(C)"
  }

  /** `ast.attrs.iter().any(..)`, scanning the attributes front to back: it
      finds `repr(C)` exactly when some attribute is one. */
  function HasReprC(attrs: seq<Attr>): (b: bool)
    ensures b <==> exists i :: 0 <= i < |attrs| && IsReprC(attrs[i])
  {
    if attrs == [] then false
    else
      assert forall i :: 1 <= i < |attrs| ==> attrs[1..][i - 1] == attrs[i];
      IsReprC(attrs[0]) || HasReprC(attrs[1..])
  }

  /** The fields of any shape, in order. */
  function FieldList(f: Fields): seq<Field>
  {
    match f
    case NamedFields(fs) => fs
    case UnnamedFields(fs) => fs
    case UnitFields => []
  }

  /** Whether `b` is field `a` with its type wrapped in `MaybeUninit`. */
  predicate IsProjectionOf(b: Field, a: Field)
  {
    b.attrs == a.attrs && b.vis == a.vis && b.ident == a.ident && b.ty == MaybeUninitOf(a.ty)
  }

  /** `fields.iter_mut().for_each(project_ty)`. */
  function ProjectEach(fs: seq<Field>): (ps: seq<Field>)
    ensures |ps| == |fs|
    ensures forall i :: 0 <= i < |fs| ==> IsProjectionOf(ps[i], fs[i])
  {
    if fs == [] then []
    else [fs[0].(ty := MaybeUninitOf(fs[0].ty))] + ProjectEach(fs[1..])
  }

  /** `project_fields`: the same shape, count, order, names, attributes and
      visibilities, with every field type `T` made `MaybeUninit<T>`. */
  function ProjectFields(f: Fields): (r: Fields)
    ensures r.NamedFields? == f.NamedFields? && r.UnnamedFields? == f.UnnamedFields? && r.UnitFields? == f.UnitFields?
    ensures |FieldList(r)| == |FieldList(f)|
    ensures forall i :: 0 <= i < |FieldList(f)| ==> IsProjectionOf(FieldList(r)[i], FieldList(f)[i])
  {
    match f
    case NamedFields(fs) => NamedFields(ProjectEach(fs))
    case UnnamedFields(fs) => UnnamedFields(ProjectEach(fs))
    case UnitFields => UnitFields
  }

  /** Projection loses nothing: different field lists have different mirrors. */
  lemma ProjectFieldsInjective(f: Fields, g: Fields)
    requires ProjectFields(f) == ProjectFields(g)
    ensures f == g
  {
    var a, b := FieldList(f), FieldList(g);
    forall i | 0 <= i < |a|
      ensures a[i] == b[i]
    {
      assert IsProjectionOf(FieldList(ProjectFields(f))[i], a[i]);
      assert IsProjectionOf(FieldList(ProjectFields(g))[i], b[i]);
    }
    assert a == b;
  }

  /** `impl_UninitProject_for_struct`: a unit struct is an error; any other
      struct expands to its mirror `__UninitStruct__Name`, the original
      declaration emitted hidden with only its name and fields changed, the
      fields projected, and an impl that reinterprets `Name` as the mirror. */
  function ForStruct(ast: DeriveInput): (e: Expansion)
    requires ast.data.StructData?
    ensures e.CompileError? <==> ast.data.fields.UnitFields?
    ensures e.CompileError? ==> e.msg == UNIT_STRUCT_ERROR
    ensures e.StructExpansion? ==>
      && e.mirror.ident == "__UninitStruct__" + ast.ident
      && e.mirror.attrs == [DOC_HIDDEN] + ast.attrs
      && e.mirror.vis == ast.vis && e.mirror.generics == ast.generics
      && e.mirror.data.StructData? && e.mirror.data.semi == ast.data.semi
      && e.mirror.data.fields == ProjectFields(ast.data.fields)
      && e.structImpl == ProjectImpl(ast.ident, e.mirror.ident, Reinterpret)
  {
    if ast.data.fields.UnitFields? then CompileError(UNIT_STRUCT_ERROR)
    else
      var mirrorName := MirrorStructName(ast.ident);
      StructExpansion(
        ast.(attrs := [DOC_HIDDEN] + ast.attrs,
             ident := mirrorName,
             data := ast.data.(fields := ProjectFields(ast.data.fields))),
        ProjectImpl(ast.ident, mirrorName, Reinterpret))
  }

  /** The variants of the shadow enum: the same variants with no fields. */
  function ShadowVariants(vs: seq<Variant>): (ws: seq<Variant>)
    ensures |ws| == |vs|
    ensures forall i :: 0 <= i < |vs| ==> ws[i] == vs[i].(fields := UnitFields)
  {
    if vs == [] then []
    else [vs[0].(fields := UnitFields)] + ShadowVariants(vs[1..])
  }

  /** The mirror struct of one variant. */
  function VariantStruct(ast: DeriveInput, v: Variant): ItemStruct
  {
    ItemStruct([REPR_C, DOC_HIDDEN] + v.attrs, ast.vis, ast.generics,
               VariantStructName(ast.ident, v.ident), ProjectFields(v.fields),
               !v.fields.NamedFields?)
  }

  /** The `for v in &data.variants { variant_structs.push(..) }` loop. */
  function VariantStructs(ast: DeriveInput, vs: seq<Variant>): (ss: seq<ItemStruct>)
    ensures |ss| == |vs|
    ensures forall i :: 0 <= i < |vs| ==> ss[i] == VariantStruct(ast, vs[i])
  {
    if vs == [] then []
    else [VariantStruct(ast, vs[0])] + VariantStructs(ast, vs[1..])
  }

  /** The `impls` half of the zipped loop: one tag-writing projection per variant. */
  function VariantImpls(ast: DeriveInput, vs: seq<Variant>): (ps: seq<ProjectImpl>)
    ensures |ps| == |vs|
    ensures forall i :: 0 <= i < |vs| ==>
      ps[i] == ProjectImpl(ast.ident, VariantStructName(ast.ident, vs[i].ident),
                           SplitAndTag(DiscriminantName(ast.ident), vs[i].ident))
  {
    if vs == [] then []
    else [ProjectImpl(ast.ident, VariantStructName(ast.ident, vs[0].ident),
                      SplitAndTag(DiscriminantName(ast.ident), vs[0].ident))]
         + VariantImpls(ast, vs[1..])
  }

  /** The `fns` half of the zipped loop: one named projector per variant. */
  function VariantFns(ast: DeriveInput, vs: seq<Variant>): (fs: seq<VariantFn>)
    ensures |fs| == |vs|
    ensures forall i :: 0 <= i < |vs| ==>
      fs[i] == VariantFn(ast.vis, VariantFnName(vs[i].ident), VariantStructName(ast.ident, vs[i].ident))
  {
    if vs == [] then []
    else [VariantFn(ast.vis, VariantFnName(vs[0].ident), VariantStructName(ast.ident, vs[0].ident))]
         + VariantFns(ast, vs[1..])
  }

  /** `impl_UninitProject_for_enum`: a shadow enum
      `__UninitEnumDiscriminant__Name` with the same variants in the same
      order, each without fields and keeping its discriminant, and per
      variant `V` in order: a hidden `repr(C)` struct `__UninitEnumVariant__Name__V`
      of `V`'s projected fields, with a `;` unless they are named; an impl
      that writes tag `V` of the shadow enum and returns that struct; and a
      projector `__uninit_project_variant__V`. */
  function ForEnum(ast: DeriveInput): (e: Expansion)
    requires ast.data.EnumData?
    ensures var vs := ast.data.variants;
      && e.EnumExpansion?
      && e.shadow.ident == "__UninitEnumDiscriminant__" + ast.ident
      && e.shadow.attrs == [DOC_HIDDEN] + ast.attrs
      && e.shadow.vis == ast.vis && e.shadow.generics == ast.generics
      && e.shadow.data.EnumData?
      && |e.shadow.data.variants| == |vs|
      && |e.variantStructs| == |vs| && |e.impls| == |vs| && |e.fns| == |vs|
      && forall i :: 0 <= i < |vs| ==>
        && e.shadow.data.variants[i] == vs[i].(fields := UnitFields)
        && e.variantStructs[i].ident == "__UninitEnumVariant__" + ast.ident + "__" + vs[i].ident
        && e.variantStructs[i].attrs == [REPR_C, DOC_HIDDEN] + vs[i].attrs
        && e.variantStructs[i].vis == ast.vis && e.variantStructs[i].generics == ast.generics
        && e.variantStructs[i].fields == ProjectFields(vs[i].fields)
        && (e.variantStructs[i].semi <==> !vs[i].fields.NamedFields?)
        && e.impls[i].target == ast.ident
        && e.impls[i].mirror == e.variantStructs[i].ident
        && e.impls[i].body == SplitAndTag(e.shadow.ident, vs[i].ident)
        && e.fns[i].vis == ast.vis
        && e.fns[i].name == "__uninit_project_variant__" + vs[i].ident
        && e.fns[i].mirror == e.variantStructs[i].ident
  {
    var vs := ast.data.variants;
    EnumExpansion(
      ast.(attrs := [DOC_HIDDEN] + ast.attrs,
           ident := DiscriminantName(ast.ident),
           data := EnumData(ShadowVariants(vs))),
      VariantStructs(ast, vs),
      VariantImpls(ast, vs),
      VariantFns(ast, vs))
  }

  /** `impl_UninitProject`, the derive's entry point. It fails exactly for a
      declaration without `repr(C)`, a union or a unit struct: with the
      `repr(C)` message in the first two cases and "unexpected unit struct"
      in the third. Empty enums and structs with an empty field list are
      accepted. Any other struct or enum gets the expansion of its kind. */
  function ImplUninitProject(ast: DeriveInput): (e: Expansion)
    ensures e.CompileError? <==>
      (!HasReprC(ast.attrs) || ast.data.UnionData? || (ast.data.StructData? && ast.data.fields.UnitFields?))
    ensures e == CompileError(REPR_ERROR) <==> (!HasReprC(ast.attrs) || ast.data.UnionData?)
    ensures HasReprC(ast.attrs) && ast.data.StructData? && ast.data.fields.UnitFields? ==>
      e == CompileError(UNIT_STRUCT_ERROR)
    ensures HasReprC(ast.attrs) && ast.data.StructData? && !ast.data.fields.UnitFields? ==> e.StructExpansion?
    ensures HasReprC(ast.attrs) && ast.data.EnumData? ==> e.EnumExpansion?
  {
    assert |REPR_ERROR| != |UNIT_STRUCT_ERROR|;
    if !HasReprC(ast.attrs) then CompileError(REPR_ERROR)
    else match ast.data
      case StructData(_, _) => ForStruct(ast)
      case EnumData(_) => ForEnum(ast)
      case UnionData(_) => CompileError(REPR_ERROR)
  }

  /** The shadow enum of an accepted enum keeps its `repr(C)`, hence the
      original's discriminant type and tag layout. */
  lemma ShadowKeepsReprC(ast: DeriveInput)
    requires HasReprC(ast.attrs) && ast.data.EnumData?
    ensures var e := ImplUninitProject(ast);
      e.EnumExpansion? && HasReprC(e.shadow.attrs)
  {
    var i :| 0 <= i < |ast.attrs| && IsReprC(ast.attrs[i]);
    var e := ImplUninitProject(ast);
    assert e.shadow.attrs[i + 1] == ast.attrs[i];
  }

  /** `__uninit_project_variant!(path => V)`: the path of `V`'s projector. */
  function UninitProjectVariant(tyPath: seq<string>, variant: string): (p: seq<string>)
    ensures |p| == |tyPath| + 1 && p[..|tyPath|] == tyPath
    ensures p[|tyPath|] == "__uninit_project_variant__" + variant
  {
    tyPath + [VariantFnName(variant)]
  }

  /** The path the helper macro builds names a projector that the enum
      derive generated for that variant, which projects to the variant's
      mirror struct. */
  lemma VariantPathNamesGeneratedFn(ast: DeriveInput, tyPath: seq<string>, i: nat)
    requires HasReprC(ast.attrs) && ast.data.EnumData? && i < |ast.data.variants|
    ensures var e := ImplUninitProject(ast);
      var p := UninitProjectVariant(tyPath, ast.data.variants[i].ident);
      && e.EnumExpansion?
      && p[|p| - 1] == e.fns[i].name
      && e.fns[i].mirror == e.variantStructs[i].ident
  {
  }

  /** Size and alignment of a field type, given those of type paths; a
      `MaybeUninit<T>` has the size and alignment of `T`. */
  function TySize(t: Ty, size: string -> nat): nat
  {
    match t
    case TyPath(n) => size(n)
    case MaybeUninitOf(inner) => TySize(inner, size)
  }

  function TyAlign(t: Ty, align: string -> nat): nat
  {
    match t
    case TyPath(n) => align(n)
    case MaybeUninitOf(inner) => TyAlign(inner, align)
  }

  /** The `repr(C)` offsets of fields laid out from offset `at`: each field
      starts at the previous end rounded up to its alignment. */
  function ReprCOffsets(fs: seq<Field>, at: nat, size: string -> nat, align: string -> nat): seq<nat>
    requires forall n :: align(n) > 0
  {
    if fs == [] then []
    else
      TyAlignPositive(fs[0].ty, align);
      var start := EnumSplit.RoundUp(at, TyAlign(fs[0].ty, align));
      [start] + ReprCOffsets(fs[1..], start + TySize(fs[0].ty, size), size, align)
  }

  lemma {:induction false} TyAlignPositive(t: Ty, align: string -> nat)
    requires forall n :: align(n) > 0
    ensures TyAlign(t, align) > 0
  {
    match t
    case TyPath(n) =>
    case MaybeUninitOf(inner) => TyAlignPositive(inner, align);
  }

  /** The mirror has the layout of the original: every projected field sits
      at the offset of the field it mirrors, which is what makes the
      reinterpreting cast of a generated `uninit_project` sound. */
  lemma {:induction false} ProjectKeepsReprCOffsets(fs: seq<Field>, at: nat, size: string -> nat, align: string -> nat)
    requires forall n :: align(n) > 0
    ensures ReprCOffsets(ProjectEach(fs), at, size, align) == ReprCOffsets(fs, at, size, align)
  {
    if fs != [] {
      var ps := ProjectEach(fs);
      assert ps[1..] == ProjectEach(fs[1..]);
      assert ps[0].ty == MaybeUninitOf(fs[0].ty);
      TyAlignPositive(fs[0].ty, align);
      var start := EnumSplit.RoundUp(at, TyAlign(fs[0].ty, align));
      ProjectKeepsReprCOffsets(fs[1..], start + TySize(fs[0].ty, size), size, align);
    }
  }

  /** Where the last field ends when the fields are laid out from `at`. */
  function ReprCEnd(fs: seq<Field>, at: nat, size: string -> nat, align: string -> nat): nat
    requires forall n :: align(n) > 0
  {
    if fs == [] then at
    else
      TyAlignPositive(fs[0].ty, align);
      var start := EnumSplit.RoundUp(at, TyAlign(fs[0].ty, align));
      ReprCEnd(fs[1..], start + TySize(fs[0].ty, size), size, align)
  }

  /** The alignment of a `repr(C)` struct: the largest field alignment, 1
      without fields. */
  function ReprCAlign(fs: seq<Field>, align: string -> nat): (a: nat)
    ensures a > 0
  {
    if fs == [] then 1
    else
      var first := TyAlign(fs[0].ty, align);
      var rest := ReprCAlign(fs[1..], align);
      if first > rest then first else rest
  }

  /** The size of a `repr(C)` struct: the end of its last field rounded up to
      its alignment. */
  function ReprCSize(fs: seq<Field>, size: string -> nat, align: string -> nat): nat
    requires forall n :: align(n) > 0
  {
    EnumSplit.RoundUp(ReprCEnd(fs, 0, size, align), ReprCAlign(fs, align))
  }

  lemma {:induction false} ProjectKeepsReprCEnd(fs: seq<Field>, at: nat, size: string -> nat, align: string -> nat)
    requires forall n :: align(n) > 0
    ensures ReprCEnd(ProjectEach(fs), at, size, align) == ReprCEnd(fs, at, size, align)
    ensures ReprCAlign(ProjectEach(fs), align) == ReprCAlign(fs, align)
  {
    if fs != [] {
      var ps := ProjectEach(fs);
      assert ps[1..] == ProjectEach(fs[1..]);
      assert ps[0].ty == MaybeUninitOf(fs[0].ty);
      TyAlignPositive(fs[0].ty, align);
      var start := EnumSplit.RoundUp(at, TyAlign(fs[0].ty, align));
      ProjectKeepsReprCEnd(fs[1..], start + TySize(fs[0].ty, size), size, align);
    }
  }

  /** The mirror also has the size and alignment of the original, so the
      storage of one is exactly the storage of the other. */
  lemma ProjectKeepsReprCSizeAlign(fs: seq<Field>, size: string -> nat, align: string -> nat)
    requires forall n :: align(n) > 0
    ensures ReprCSize(ProjectEach(fs), size, align) == ReprCSize(fs, size, align)
    ensures ReprCAlign(ProjectEach(fs), align) == ReprCAlign(fs, align)
  {
    ProjectKeepsReprCEnd(fs, 0, size, align);
  }
}
