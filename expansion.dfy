/**
 * What `calculate_selection` computes, as functions.  `Expand` gives, for a
 * selection set walked against one schema type on behalf of the struct
 * `structId`, the types and fields appended to the arena (the first
 * appended type receiving index `next`), or the panic the walk reaches.
 * The walk over a selection set is a left fold, in selection order.
 */
module Expansion {
  import opened Wrappers
  import opened Schema
  import opened Resolution
  import opened Shared
  import opened Expanded

  /** The collaborators the walk consults. */
  datatype Env = Env(schema: Schema, query: ResolvedQuery, naming: Naming)

  /** Where the walk stops with a panic instead of producing types. */
  datatype Panic =
    | VariantStructTodo      // an inline fragment selects one of the variants
    | PushFragmentsDownTodo  // every other selection on an interface or a union
    | FieldOnInputType       // a field selection whose type is an input type

  /** The types and fields appended to the arena by one walk. */
  datatype Walk = Walk(types: seq<ExpandedType>, fields: seq<ExpandedField>)

  const NoWalk := Walk([], [])

  /** The GraphQL name (alias, else the schema field name) and the Rust name of a selected field. */
  function FieldName(env: Env, field: SelectedField): (r: (string, string))
    ensures field.alias.Some? ==> r.0 == field.alias.value
    ensures field.alias.None? ==> r.0 == env.schema.field(field.schemaField).name
    ensures r.1 == env.naming.RustName(r.0)
  {
    var name := if field.alias.Some? then field.alias.value else env.schema.field(field.schemaField).name;
    (name, env.naming.RustName(name))
  }

  /**
   * The index of the first inline fragment of `selectionSet` on `variant`, if any.
   */
  function FindInlineFragment(selectionSet: seq<Selection>, variant: TypeId): (r: Option<nat>)
    ensures r.Some? ==> r.value < |selectionSet| && selectionSet[r.value] == InlineFragment(variant)
    ensures r.Some? ==> forall k :: 0 <= k < r.value ==> selectionSet[k] != InlineFragment(variant)
    ensures r.None? <==> forall k :: 0 <= k < |selectionSet| ==> selectionSet[k] != InlineFragment(variant)
  {
    if selectionSet == [] then None
    else if selectionSet[0] == InlineFragment(variant) then Some(0)
    else
      match FindInlineFragment(selectionSet[1..], variant)
      case None => None
      case Some(k) => Some(k + 1)
  }

  /** True when an inline fragment of the set selects one of the members `variants`. */
  predicate SelectsVariant(selectionSet: seq<Selection>, variants: seq<TypeId>)
  {
    exists k :: 0 <= k < |variants| && FindInlineFragment(selectionSet, variants[k]).Some?
  }

  /**
   * The position of the first member type an inline fragment of the set
   * selects, or the number of members when none is selected.
   */
  function FirstSelected(selectionSet: seq<Selection>, variants: seq<TypeId>): (m: nat)
    ensures m <= |variants|
    ensures forall j :: 0 <= j < m ==> FindInlineFragment(selectionSet, variants[j]).None?
    ensures m < |variants| ==> FindInlineFragment(selectionSet, variants[m]).Some?
  {
    if variants == [] then 0
    else if FindInlineFragment(selectionSet, variants[0]).Some? then 0
    else 1 + FirstSelected(selectionSet, variants[1..])
  }

  /** The empty variants, one per member type in order, that the type `structId` receives. */
  function EmptyVariants(env: Env, members: seq<TypeId>, structId: ResponseTypeId): (r: seq<ExpandedVariant>)
    ensures |r| == |members|
    ensures forall j :: 0 <= j < |r| ==>
      r[j].name == env.schema.typeName(members[j]) && r[j].variantType.None? && r[j].on == structId
  {
    seq(|members|, j requires 0 <= j < |members| => ExpandedVariant(env.schema.typeName(members[j]), None, structId))
  }

  /** The field a field selection adds to the struct `structId`. */
  function FieldOf(env: Env, field: SelectedField, fullPathPrefix: string, structId: ResponseTypeId): (f: ExpandedField)
    ensures f.structId == structId && !f.flatten
    ensures (f.graphqlName, f.rustName) == FieldName(env, field)
    ensures f.fieldTypeQualifiers == env.schema.field(field.schemaField).typeQualifiers
    ensures var target := env.schema.field(field.schemaField).fieldType;
      f.fieldType == if target.IsLeaf() then env.schema.typeName(target) else fullPathPrefix
  {
    var (graphqlName, rustName) := FieldName(env, field);
    var schemaField := env.schema.field(field.schemaField);
    var fieldType := if schemaField.fieldType.IsLeaf() then env.schema.typeName(schemaField.fieldType) else fullPathPrefix;
    ExpandedField(graphqlName, rustName, fieldType, schemaField.typeQualifiers, structId, false)
  }

  /** The flattened field a spread of `fragment` adds to the struct `structId`. */
  function SpreadField(env: Env, fragment: Fragment, structId: ResponseTypeId): (f: ExpandedField)
    ensures f.structId == structId && f.flatten
    ensures f.fieldTypeQualifiers == [Required]
    ensures f.graphqlName == f.fieldType == fragment.name
    ensures f.rustName == env.naming.RustName(fragment.name)
  {
    ExpandedField(fragment.name, env.naming.RustName(fragment.name), fragment.name, [Required], structId, true)
  }

  function TargetOf(env: Env, field: SelectedField): TypeId
  {
    env.schema.field(field.schemaField).fieldType
  }

  function Expand(env: Env, selectionSet: seq<Selection>, structId: ResponseTypeId, typeRef: TypeId, next: nat): Result<Walk, Panic>
    decreases selectionSet, 2
  {
    if typeRef.HasVariants() then
      Err(if SelectsVariant(selectionSet, env.schema.variants(typeRef)) then VariantStructTodo else PushFragmentsDownTodo)
    else
      ExpandSeq(env, selectionSet, structId, typeRef, next)
  }

  function ExpandSeq(env: Env, selectionSet: seq<Selection>, structId: ResponseTypeId, typeRef: TypeId, next: nat): Result<Walk, Panic>
    decreases selectionSet, 1
  {
    if selectionSet == [] then Ok(NoWalk)
    else
      match ExpandSeq(env, selectionSet[..|selectionSet| - 1], structId, typeRef, next)
      case Err(e) => Err(e)
      case Ok(w) =>
        match ExpandOne(env, selectionSet[|selectionSet| - 1], structId, typeRef, next + |w.types|)
        case Err(e) => Err(e)
        case Ok(w') => Ok(Walk(w.types + w'.types, w.fields + w'.fields))
  }

  function ExpandOne(env: Env, selection: Selection, structId: ResponseTypeId, typeRef: TypeId, next: nat): Result<Walk, Panic>
    decreases selection, 0
  {
    match selection
    case Field(field, fullPathPrefix, subselection) =>
      var target := TargetOf(env, field);
      if target.Input? then Err(FieldOnInputType)
      else if target.IsLeaf() then Ok(Walk([], [FieldOf(env, field, fullPathPrefix, structId)]))
      else
        (match Expand(env, subselection, IdOf(next), target, next + 1)
         case Err(e) => Err(e)
         case Ok(w) =>
           Ok(Walk([ExpandedType(fullPathPrefix, target)] + w.types, [FieldOf(env, field, fullPathPrefix, structId)] + w.fields)))
    case Typename => Ok(NoWalk)
    case InlineFragment(_) => Ok(NoWalk)
    case FragmentSpread(fragmentId) =>
      var fragment := env.query.fragment(fragmentId);
      if fragment.on != typeRef then Ok(NoWalk)
      else Ok(Walk([], [SpreadField(env, fragment, structId)]))
  }

  // ---------------------------------------------------------------------
  // Reference definitions

  /** The number of object, interface and union field selections in the tree. */
  function CompositeCount(env: Env, selectionSet: seq<Selection>): nat
    decreases selectionSet, 1
  {
    if selectionSet == [] then 0
    else CompositeCount(env, selectionSet[..|selectionSet| - 1]) + CompositeCountOne(env, selectionSet[|selectionSet| - 1])
  }

  function CompositeCountOne(env: Env, selection: Selection): nat
    decreases selection, 0
  {
    match selection
    case Field(field, _, subselection) =>
      if TargetOf(env, field).IsComposite() then 1 + CompositeCount(env, subselection) else 0
    case _ => 0
  }

  /**
   * The selections the walk completes: no selection on an interface or a
   * union, and no field of an input type, anywhere in the tree.
   */
  predicate Supported(env: Env, selectionSet: seq<Selection>, typeRef: TypeId)
    decreases selectionSet, 2
  {
    !typeRef.HasVariants() && SupportedSeq(env, selectionSet)
  }

  predicate SupportedSeq(env: Env, selectionSet: seq<Selection>)
    decreases selectionSet, 1
  {
    selectionSet == [] ||
    (SupportedSeq(env, selectionSet[..|selectionSet| - 1]) && SupportedOne(env, selectionSet[|selectionSet| - 1]))
  }

  predicate SupportedOne(env: Env, selection: Selection)
    decreases selection, 0
  {
    match selection
    case Field(field, _, subselection) =>
      var target := TargetOf(env, field);
      !target.Input? && (target.IsComposite() ==> Supported(env, subselection, target))
    case _ => true
  }

  /** The field a selection adds directly to the struct it is walked for, if any. */
  function DirectField(env: Env, selection: Selection, structId: ResponseTypeId, typeRef: TypeId): seq<ExpandedField>
  {
    match selection
    case Field(field, fullPathPrefix, _) =>
      if TargetOf(env, field).Input? then [] else [FieldOf(env, field, fullPathPrefix, structId)]
    case FragmentSpread(fragmentId) =>
      var fragment := env.query.fragment(fragmentId);
      if fragment.on == typeRef then [SpreadField(env, fragment, structId)] else []
    case _ => []
  }

  /** The fields a selection set adds directly to its own struct, in selection order. */
  function DirectFields(env: Env, selectionSet: seq<Selection>, structId: ResponseTypeId, typeRef: TypeId): seq<ExpandedField>
  {
    if selectionSet == [] then []
    else DirectFields(env, selectionSet[..|selectionSet| - 1], structId, typeRef)
         + DirectField(env, selectionSet[|selectionSet| - 1], structId, typeRef)
  }

  /** The owner of a nested field: below `hi`, and at least `lo` when ids do not wrap. */
  predicate NestedOwner(id: ResponseTypeId, lo: nat, hi: nat)
  {
    id.value < hi && (hi <= 0x1_0000_0000 ==> lo <= id.value)
  }

  /** All types are object types. */
  predicate AllObjects(types: seq<ExpandedType>)
  {
    forall k :: 0 <= k < |types| ==> types[k].schemaType.Object?
  }

  /** Every field belongs to `structId` or to one of the types appended from index `lo` on. */
  predicate OwnedWithin(fields: seq<ExpandedField>, structId: ResponseTypeId, lo: nat, hi: nat)
  {
    forall k :: 0 <= k < |fields| ==> fields[k].structId == structId || NestedOwner(fields[k].structId, lo, hi)
  }
}
