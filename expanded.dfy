/**
 * The flat arena the selection code builds (types, fields and variants that
 * point back to their owning type by id) and the declarations each of them
 * renders to.  Token construction is not modelled: a rendered struct, enum,
 * field or variant is a record of what the generated Rust item contains.
 */
module Expanded {
  import opened Wrappers
  import opened Schema

  type u32 = x: nat | x < 0x1_0000_0000

  /** The id of a generated type: a `u32`. */
  datatype ResponseTypeId = ResponseTypeId(value: u32)

  /**
   * The id of the type stored at `index` in the arena.  The index is cast
   * to `u32` (`idx as u32`), which wraps past 2^32 types.
   */
  function IdOf(index: nat): (r: ResponseTypeId)
    ensures r.value <= index
    ensures index < 0x1_0000_0000 ==> r.value == index
  {
    ResponseTypeId(index % 0x1_0000_0000)
  }

  /** A generated struct: its name and the schema type it was selected on. */
  datatype ExpandedType = ExpandedType(name: string, schemaType: TypeId)

  /** One member of a generated struct, owned by the type `structId`. */
  datatype ExpandedField = ExpandedField(
    graphqlName: string,
    rustName: string,
    fieldType: string,
    fieldTypeQualifiers: seq<GraphqlTypeQualifier>,
    structId: ResponseTypeId,
    flatten: bool)
  {
    /** The struct member this field renders to. */
    function Render(): (d: FieldDecl)
      ensures d.ident == rustName
      ensures FieldOfDecl(d, structId) == this
    {
      FieldDecl(flatten, FieldRenameAnnotation(graphqlName, rustName), rustName,
                DecorateType(fieldType, fieldTypeQualifiers))
    }
  }

  /** One arm of the `{Name}On` enum of the type `on`. */
  datatype ExpandedVariant = ExpandedVariant(name: string, variantType: Option<string>, on: ResponseTypeId)
  {
    /** The enum arm this variant renders to: its name, with a payload when it has a type. */
    function Render(): (d: VariantDecl)
      ensures VariantOfDecl(d, on) == this
    {
      VariantDecl(name, variantType)
    }
  }

  /** The derive list put on every generated item; this code does not interpret it. */
  type Derives = seq<string>

  /** The Rust type of a member: the base type wrapped by its qualifiers. */
  datatype QualifiedType = DecorateType(base: string, qualifiers: seq<GraphqlTypeQualifier>)

  /** The serde rename attribute computed from the GraphQL name and the Rust name. */
  datatype RenameAnnotation = FieldRenameAnnotation(graphqlName: string, rustName: string)

  /** `#[serde(flatten)]` (when `serdeFlatten`), the rename attribute, `pub ident: qualifiedType`. */
  datatype FieldDecl = FieldDecl(serdeFlatten: bool, rename: RenameAnnotation, ident: string, qualifiedType: QualifiedType)

  datatype VariantDecl = VariantDecl(ident: string, payload: Option<string>)

  /** `pub struct name { fields, pub on: onField }`, the `on` member only when `onField` is present. */
  datatype StructDecl = StructDecl(derives: Derives, name: string, fields: seq<FieldDecl>, onField: Option<string>)

  datatype EnumDecl = EnumDecl(derives: Derives, name: string, variants: seq<VariantDecl>)

  /** What one type renders to: its struct, followed by its `{Name}On` enum when it has variants. */
  datatype Item = Item(structDecl: StructDecl, onEnum: Option<EnumDecl>)

  /** Recovers a field from its declaration and the struct it was declared in. */
  function FieldOfDecl(d: FieldDecl, owner: ResponseTypeId): ExpandedField
  {
    ExpandedField(d.rename.graphqlName, d.ident, d.qualifiedType.base, d.qualifiedType.qualifiers, owner, d.serdeFlatten)
  }

  /** Recovers a variant from its declaration and the type whose enum holds it. */
  function VariantOfDecl(d: VariantDecl, owner: ResponseTypeId): ExpandedVariant
  {
    ExpandedVariant(d.ident, d.payload, owner)
  }

  /** The fields owned by `id`, in insertion order. */
  function FieldsOf(fields: seq<ExpandedField>, id: ResponseTypeId): (r: seq<ExpandedField>)
    ensures |r| <= |fields|
  {
    if fields == [] then []
    else
      var last := fields[|fields| - 1];
      FieldsOf(fields[..|fields| - 1], id) + (if last.structId == id then [last] else [])
  }

  /** The variants owned by `id`, in insertion order. */
  function VariantsOf(variants: seq<ExpandedVariant>, id: ResponseTypeId): (r: seq<ExpandedVariant>)
    ensures forall v :: v in r <==> v in variants && v.on == id
  {
    if variants == [] then []
    else
      var last := variants[|variants| - 1];
      VariantsOf(variants[..|variants| - 1], id) + (if last.on == id then [last] else [])
  }

  function RenderFields(fields: seq<ExpandedField>): seq<FieldDecl>
  {
    seq(|fields|, k requires 0 <= k < |fields| => fields[k].Render())
  }

  function RenderVariants(variants: seq<ExpandedVariant>): seq<VariantDecl>
  {
    seq(|variants|, k requires 0 <= k < |variants| => variants[k].Render())
  }

  /**
   * What the type `ty` with id `id` renders to: a struct with the rendered
   * fields it owns, and an `{Name}On` enum (with the matching `on` member)
   * exactly when some variant belongs to it.
   */
  function RenderItem(ty: ExpandedType, id: ResponseTypeId, fields: seq<ExpandedField>,
                      variants: seq<ExpandedVariant>, derives: Derives): (item: Item)
    ensures item.structDecl.name == ty.name
    ensures item.onEnum.Some? <==> exists v :: v in variants && v.on == id
    ensures item.structDecl.onField.Some? <==> item.onEnum.Some?
    ensures item.onEnum.Some? ==>
      item.onEnum.value.name == ty.name + "On" == item.structDecl.onField.value
  {
    var own := VariantsOf(variants, id);
    var onVariants := RenderVariants(own);
    if |onVariants| > 0 then
      assert own[0] in own;
      var enumName := ty.name + "On";
      Item(StructDecl(derives, ty.name, RenderFields(FieldsOf(fields, id)), Some(enumName)),
           Some(EnumDecl(derives, enumName, onVariants)))
    else
      Item(StructDecl(derives, ty.name, RenderFields(FieldsOf(fields, id)), None), None)
  }

  /** The fields owned by `id` are the fields of the arena whose `structId` is `id`, and only those. */
  lemma {:induction false} FieldsOfMembers(fields: seq<ExpandedField>, id: ResponseTypeId)
    ensures forall f :: f in FieldsOf(fields, id) <==> f in fields && f.structId == id
  {
    if fields != [] {
      var prefix := fields[..|fields| - 1];
      FieldsOfMembers(prefix, id);
      assert fields == prefix + [fields[|fields| - 1]];
    }
  }

  /** Rendering a sequence of fields renders each in place. */
  lemma RenderFieldsAppend(a: seq<ExpandedField>, b: seq<ExpandedField>)
    ensures RenderFields(a + b) == RenderFields(a) + RenderFields(b)
  {
  }

  /** Filtering by owner distributes over concatenation: appended fields keep their order. */
  lemma {:induction false} FieldsOfAppend(a: seq<ExpandedField>, b: seq<ExpandedField>, id: ResponseTypeId)
    ensures FieldsOf(a + b, id) == FieldsOf(a, id) + FieldsOf(b, id)
  {
    if b == [] {
      assert a + b == a;
    } else {
      var b' := b[..|b| - 1];
      assert (a + b)[..|a + b| - 1] == a + b';
      assert (a + b)[|a + b| - 1] == b[|b| - 1];
      FieldsOfAppend(a, b', id);
    }
  }

  /** Filtering variants by owner distributes over concatenation: the arms of an enum keep insertion order. */
  lemma {:induction false} VariantsOfAppend(a: seq<ExpandedVariant>, b: seq<ExpandedVariant>, id: ResponseTypeId)
    ensures VariantsOf(a + b, id) == VariantsOf(a, id) + VariantsOf(b, id)
  {
    if b == [] {
      assert a + b == a;
    } else {
      var b' := b[..|b| - 1];
      assert (a + b)[..|a + b| - 1] == a + b';
      assert (a + b)[|a + b| - 1] == b[|b| - 1];
      VariantsOfAppend(a, b', id);
    }
  }

  /**
   * Appending a field to the arena adds its declaration at the end of its
   * owner's struct and changes no other struct.
   */
  lemma PushFieldRendering(ty: ExpandedType, id: ResponseTypeId, fields: seq<ExpandedField>, f: ExpandedField,
                           variants: seq<ExpandedVariant>, derives: Derives)
    ensures RenderItem(ty, id, fields + [f], variants, derives).structDecl.fields ==
            RenderItem(ty, id, fields, variants, derives).structDecl.fields + (if f.structId == id then [f.Render()] else [])
    ensures RenderItem(ty, id, fields + [f], variants, derives).onEnum == RenderItem(ty, id, fields, variants, derives).onEnum
  {
    var before := FieldsOf(fields, id);
    var added := if f.structId == id then [f] else [];
    FieldsOfAppend(fields, [f], id);
    assert FieldsOf([f], id) == added by {
      assert [f][..0] == [];
    }
    RenderFieldsAppend(before, added);
    assert RenderFields(added) == if f.structId == id then [f.Render()] else [];
  }

  /** In an arena with fewer than 2^32 types, the type at index `i` is the only one with id `IdOf(i)`. */
  lemma IdsAreIndices(count: nat, i: nat, j: nat)
    requires count <= 0x1_0000_0000 && i < count && j < count
    ensures IdOf(i) == IdOf(j) <==> i == j
  {
  }

  /** Every field and every variant points at a type of the arena. */
  ghost predicate Integrity(types: seq<ExpandedType>, fields: seq<ExpandedField>, variants: seq<ExpandedVariant>)
  {
    && (forall k :: 0 <= k < |fields| ==> fields[k].structId.value < |types|)
    && (forall k :: 0 <= k < |variants| ==> variants[k].on.value < |types|)
  }

  /**
   * In an arena that keeps referential integrity and has fewer than 2^32
   * types, every field is rendered in exactly one struct: the one at the
   * index its `structId` names.
   */
  lemma FieldRenderedOnce(types: seq<ExpandedType>, fields: seq<ExpandedField>, variants: seq<ExpandedVariant>, k: nat)
    requires Integrity(types, fields, variants) && |types| <= 0x1_0000_0000 && k < |fields|
    ensures forall i :: 0 <= i < |types| ==> (fields[k] in FieldsOf(fields, IdOf(i)) <==> i == fields[k].structId.value)
  {
    var f := fields[k];
    assert f in fields;
    FieldsOfMembers(fields, f.structId);
    forall i | 0 <= i < |types|
      ensures f in FieldsOf(fields, IdOf(i)) <==> i == f.structId.value
    {
      assert IdOf(f.structId.value) == f.structId;
      IdsAreIndices(|types|, i, f.structId.value);
      FieldsOfMembers(fields, IdOf(i));
    }
  }
}
