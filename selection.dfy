/**
 * Code generation for the selection on an operation or a fragment: the
 * arena of generated types, the recursive walk that fills it, its
 * rendering, and the two entry points.
 */
module Selection {
  import opened Wrappers
  import opened Schema
  import opened Resolution
  import opened Expanded
  import opened Expansion
  import opened ExpansionLemmas

  /**
   * The arena of one compilation: types, fields and variants, each vector
   * append-only.  A type's id is its index in `types`.
   */
  class ExpandedSelection {
    const env: Env
    var types: seq<ExpandedType>
    var fields: seq<ExpandedField>
    var variants: seq<ExpandedVariant>

    constructor (env: Env)
      ensures this.env == env
      ensures types == [] && fields == [] && variants == []
    {
      this.env := env;
      types, fields, variants := [], [], [];
    }

    /** Appends a type; its id is the previous number of types. */
    method PushType(tpe: ExpandedType) returns (id: ResponseTypeId)
      modifies this
      ensures id == IdOf(|old(types)|)
      ensures types == old(types) + [tpe]
      ensures fields == old(fields) && variants == old(variants)
    {
      id := IdOf(|types|);
      types := types + [tpe];
    }

    method PushField(field: ExpandedField)
      modifies this
      ensures fields == old(fields) + [field]
      ensures types == old(types) && variants == old(variants)
    {
      fields := fields + [field];
    }

    method PushVariant(variant: ExpandedVariant)
      modifies this
      ensures variants == old(variants) + [variant]
      ensures types == old(types) && fields == old(fields)
    {
      variants := variants + [variant];
    }

    /** The types paired with their ids, in allocation order. */
    function Types(): (r: seq<(ResponseTypeId, ExpandedType)>)
      reads this
      ensures |r| == |types|
      ensures forall i :: 0 <= i < |r| ==> r[i].1 == types[i] && r[i].0 == IdOf(i)
      ensures |types| <= 0x1_0000_0000 ==> forall i :: 0 <= i < |r| ==> r[i].0.value == i
    {
      seq(|types|, i requires 0 <= i < |types| reads this => (IdOf(i), types[i]))
    }

    /**
     * One item per type, in allocation order: its struct with exactly the
     * fields it owns, in insertion order, and its `{Name}On` enum when it
     * owns a variant.
     */
    method Render(derives: Derives) returns (items: seq<Item>)
      ensures |items| == |types|
      ensures forall i :: 0 <= i < |types| ==> items[i] == RenderItem(types[i], IdOf(i), fields, variants, derives)
    {
      items := [];
      var enumerated := Types();
      for i := 0 to |enumerated|
        invariant |items| == i
        invariant forall j :: 0 <= j < i ==> items[j] == RenderItem(types[j], IdOf(j), fields, variants, derives)
      {
        var (typeId, ty) := enumerated[i];
        items := items + [RenderItem(ty, typeId, fields, variants, derives)];
      }
    }
  }

  /**
   * The variants of a selection on an interface or a union: an empty
   * variant is appended for each member type in turn until one is selected
   * by an inline fragment, where the walk panics (the struct for that
   * variant is unfinished); past the last member it panics too (pushing
   * fragments down to the variants and the fallback variant are
   * unfinished).
   */
  method ExpandVariants(context: ExpandedSelection, selectionSet: seq<Selection>, structId: ResponseTypeId, typeRef: TypeId)
    returns (panic: Panic)
    requires typeRef.HasVariants()
    modifies context
    ensures context.types == old(context.types) && context.fields == old(context.fields)
    ensures var variants := context.env.schema.variants(typeRef);
      context.variants == old(context.variants) +
        EmptyVariants(context.env, variants[..FirstSelected(selectionSet, variants)], structId)
    ensures Expand(context.env, selectionSet, structId, typeRef, |context.types|) == Err(panic)
  {
    var env := context.env;
    var variants := env.schema.variants(typeRef);
    FirstSelectedIff(selectionSet, variants);
    for k := 0 to |variants|
      invariant context.types == old(context.types) && context.fields == old(context.fields)
      invariant context.variants == old(context.variants) + EmptyVariants(env, variants[..k], structId)
      invariant forall j :: 0 <= j < k ==> FindInlineFragment(selectionSet, variants[j]).None?
    {
      var variant := variants[k];
      var variantNameStr := env.schema.typeName(variant);
      var selection := FindInlineFragment(selectionSet, variant);
      if selection.Some? {
        return VariantStructTodo;
      }
      context.PushVariant(ExpandedVariant(variantNameStr, None, structId));
      assert EmptyVariants(env, variants[..k + 1], structId)
        == EmptyVariants(env, variants[..k], structId) + [ExpandedVariant(variantNameStr, None, structId)];
    }
    assert variants[..|variants|] == variants;
    return PushFragmentsDownTodo;
  }

  /**
   * Walks `selectionSet` against `typeRef` on behalf of the struct
   * `structId`, appending to the arena exactly what `Expand` describes, or
   * stopping where `Expand` panics.  The arena only grows at its end.
   */
  method CalculateSelection(context: ExpandedSelection, selectionSet: seq<Selection>, structId: ResponseTypeId, typeRef: TypeId)
    returns (outcome: Outcome<Panic>)
    modifies context
    decreases selectionSet, 3
    ensures old(context.types) <= context.types
    ensures old(context.fields) <= context.fields
    ensures old(context.variants) <= context.variants
    ensures var r := Expand(context.env, selectionSet, structId, typeRef, |old(context.types)|);
      && (outcome.Pass? <==> r.Ok?)
      && (outcome.Fail? ==> outcome.error == r.error)
      && (r.Ok? ==>
            && context.types == old(context.types) + r.value.types
            && context.fields == old(context.fields) + r.value.fields
            && context.variants == old(context.variants))
  {
    if typeRef.HasVariants() {
      var panic := ExpandVariants(context, selectionSet, structId, typeRef);
      return Fail(panic);
    }

    outcome := CalculateSelectionSet(context, selectionSet, structId, typeRef);
  }

  /** Appending a step after a prefix of the walk extends the prefix. */
  lemma AppendAfter<T>(base: seq<T>, done: seq<T>, step: seq<T>)
    ensures base + done + step == base + (done + step)
  {
  }

  /**
   * The walk's loop over a selection set on an object type: each selection
   * in turn, stopping at the first panic.
   */
  method CalculateSelectionSet(context: ExpandedSelection, selectionSet: seq<Selection>, structId: ResponseTypeId, typeRef: TypeId)
    returns (outcome: Outcome<Panic>)
    requires !typeRef.HasVariants()
    modifies context
    decreases selectionSet, 2
    ensures old(context.types) <= context.types
    ensures old(context.fields) <= context.fields
    ensures old(context.variants) <= context.variants
    ensures var r := ExpandSeq(context.env, selectionSet, structId, typeRef, |old(context.types)|);
      && (outcome.Pass? <==> r.Ok?)
      && (outcome.Fail? ==> r == Err(outcome.error))
      && (r.Ok? ==>
            && context.types == old(context.types) + r.value.types
            && context.fields == old(context.fields) + r.value.fields
            && context.variants == old(context.variants))
  {
    var env := context.env;
    ghost var types0, fields0, variants0 := context.types, context.fields, context.variants;
    ghost var next := |types0|;
    ghost var done := NoWalk;
    for i := 0 to |selectionSet|
      invariant ExpandSeq(env, selectionSet[..i], structId, typeRef, next) == Ok(done)
      invariant context.types == types0 + done.types
      invariant context.fields == fields0 + done.fields
      invariant context.variants == variants0
    {
      ghost var expected := ExpandOne(env, selectionSet[i], structId, typeRef, next + |done.types|);
      ExpandSeqSnoc(env, selectionSet, i, structId, typeRef, next);
      var step := CalculateSelectionItem(context, selectionSet[i], structId, typeRef);
      if step.Fail? {
        ExpandSeqErrPrefix(env, selectionSet, i + 1, structId, typeRef, next);
        return step;
      }
      AppendAfter(types0, done.types, expected.value.types);
      AppendAfter(fields0, done.fields, expected.value.fields);
      done := Walk(done.types + expected.value.types, done.fields + expected.value.fields);
    }
    assert selectionSet[..|selectionSet|] == selectionSet;
    return Pass;
  }

  /**
   * One turn of the walk's loop: what one selection of the set adds to the
   * struct `structId`, exactly as `ExpandOne` describes it.
   */
  method CalculateSelectionItem(context: ExpandedSelection, selection: Selection, structId: ResponseTypeId, typeRef: TypeId)
    returns (outcome: Outcome<Panic>)
    modifies context
    decreases selection, 1
    ensures old(context.types) <= context.types
    ensures old(context.fields) <= context.fields
    ensures old(context.variants) <= context.variants
    ensures var r := ExpandOne(context.env, selection, structId, typeRef, |old(context.types)|);
      && (outcome.Pass? <==> r.Ok?)
      && (outcome.Fail? ==> r == Err(outcome.error))
      && (r.Ok? ==>
            && context.types == old(context.types) + r.value.types
            && context.fields == old(context.fields) + r.value.fields
            && context.variants == old(context.variants))
  {
    var env := context.env;
    SelectionStep(env, selection, structId, typeRef, |context.types|);
    match selection {
      case Field(_, _, _) =>
        outcome := CalculateFieldSelection(context, selection, structId, typeRef);
        return;
      case Typename =>
      case InlineFragment(_) =>
      case FragmentSpread(fragmentId) =>
        var fragment := env.query.fragment(fragmentId);
        if fragment.on != typeRef {
          return Pass;
        }
        var originalFieldName := env.naming.snakeCase(fragment.name);
        var finalFieldName := env.naming.keywordReplace(originalFieldName);
        context.PushField(ExpandedField(fragment.name, finalFieldName, fragment.name, [Required], structId, true));
    }
    return Pass;
  }

  /**
   * The field arm of the loop's turn: a field of an enum or scalar type, a
   * field with a struct of its own and the walk of its subselection, or the
   * panic on a field of an input type.
   */
  method CalculateFieldSelection(context: ExpandedSelection, selection: Selection, structId: ResponseTypeId, typeRef: TypeId)
    returns (outcome: Outcome<Panic>)
    requires selection.Field?
    modifies context
    decreases selection, 0
    ensures old(context.types) <= context.types
    ensures old(context.fields) <= context.fields
    ensures old(context.variants) <= context.variants
    ensures var r := ExpandOne(context.env, selection, structId, typeRef, |old(context.types)|);
      && (outcome.Pass? <==> r.Ok?)
      && (outcome.Fail? ==> r == Err(outcome.error))
      && (r.Ok? ==>
            && context.types == old(context.types) + r.value.types
            && context.fields == old(context.fields) + r.value.fields
            && context.variants == old(context.variants))
  {
    var env := context.env;
    SelectionStep(env, selection, structId, typeRef, |context.types|);
    var field, fullPathPrefix, subselection := selection.field, selection.fullPathPrefix, selection.subselection;
    var (graphqlName, rustName) := FieldName(env, field);
    var schemaField := env.schema.field(field.schemaField);
    var fieldType := schemaField.fieldType;
    match fieldType {
      case Enum(_) =>
        context.PushField(ExpandedField(graphqlName, rustName, env.schema.typeName(fieldType),
                                        schemaField.typeQualifiers, structId, false));
      case Scalar(_) =>
        context.PushField(ExpandedField(graphqlName, rustName, env.schema.typeName(fieldType),
                                        schemaField.typeQualifiers, structId, false));
      case Object(_) | Interface(_) | Union(_) =>
        var structNameString := fullPathPrefix;
        context.PushField(ExpandedField(graphqlName, rustName, structNameString,
                                        schemaField.typeQualifiers, structId, false));
        var typeId := context.PushType(ExpandedType(structNameString, fieldType));
        var nested := CalculateSelection(context, subselection, typeId, fieldType);
        if nested.Fail? {
          return nested;
        }
      case Input(_) =>
        return Fail(FieldOnInputType);
    }
    return Pass;
  }

  /**
   * Generates the response types of an operation: a root type named
   * `ResponseData` on the operation's type, then the walk, then the
   * rendering.  A panic of the walk is returned as an error.
   */
  method RenderResponseDataFields(env: Env, operation: Operation, derives: Derives) returns (r: Result<seq<Item>, Panic>)
    ensures r.Ok? <==> Supported(env, operation.selection, operation.on)
    ensures r.Err? ==> Expand(env, operation.selection, IdOf(0), operation.on, 1) == Err(r.error)
    ensures r.Ok? ==> |r.value| == 1 + CompositeCount(env, operation.selection)
    ensures r.Ok? ==> r.value[0].structDecl.name == "ResponseData"
    ensures r.Ok? ==> forall i :: 0 <= i < |r.value| ==> r.value[i].onEnum.None?
    ensures r.Ok? && CompositeCount(env, operation.selection) < 0x1_0000_0000 ==>
      r.value[0].structDecl.fields == RenderFields(DirectFields(env, operation.selection, IdOf(0), operation.on))
    ensures r.Ok? ==>
      && Expand(env, operation.selection, IdOf(0), operation.on, 1).Ok?
      && (var w := Expand(env, operation.selection, IdOf(0), operation.on, 1).value;
          var ts := [ExpandedType("ResponseData", operation.on)] + w.types;
          |r.value| == |ts| && forall i :: 0 <= i < |ts| ==> r.value[i] == RenderItem(ts[i], IdOf(i), w.fields, [], derives))
  {
    var expandedSelection := new ExpandedSelection(env);
    var responseDataTypeId := expandedSelection.PushType(ExpandedType("ResponseData", operation.on));
    r := ExpandRoot(expandedSelection, operation.selection, responseDataTypeId, operation.on, derives);
  }

  /**
   * Generates the types of a fragment: a root type named after the
   * fragment on the fragment's type, then the walk, then the rendering.
   */
  method RenderFragment(env: Env, fragment: Fragment, derives: Derives) returns (r: Result<seq<Item>, Panic>)
    ensures r.Ok? <==> Supported(env, fragment.selection, fragment.on)
    ensures r.Err? ==> Expand(env, fragment.selection, IdOf(0), fragment.on, 1) == Err(r.error)
    ensures r.Ok? ==> |r.value| == 1 + CompositeCount(env, fragment.selection)
    ensures r.Ok? ==> r.value[0].structDecl.name == fragment.name
    ensures r.Ok? ==> forall i :: 0 <= i < |r.value| ==> r.value[i].onEnum.None?
    ensures r.Ok? && CompositeCount(env, fragment.selection) < 0x1_0000_0000 ==>
      r.value[0].structDecl.fields == RenderFields(DirectFields(env, fragment.selection, IdOf(0), fragment.on))
    ensures r.Ok? ==>
      && Expand(env, fragment.selection, IdOf(0), fragment.on, 1).Ok?
      && (var w := Expand(env, fragment.selection, IdOf(0), fragment.on, 1).value;
          var ts := [ExpandedType(fragment.name, fragment.on)] + w.types;
          |r.value| == |ts| && forall i :: 0 <= i < |ts| ==> r.value[i] == RenderItem(ts[i], IdOf(i), w.fields, [], derives))
  {
    var expandedSelection := new ExpandedSelection(env);
    var responseTypeId := expandedSelection.PushType(ExpandedType(fragment.name, fragment.on));
    r := ExpandRoot(expandedSelection, fragment.selection, responseTypeId, fragment.on, derives);
  }

  /** The part both entry points share once the root type is seeded: walk, then render. */
  method ExpandRoot(context: ExpandedSelection, selectionSet: seq<Selection>, rootId: ResponseTypeId, on: TypeId,
                    derives: Derives) returns (r: Result<seq<Item>, Panic>)
    requires |context.types| == 1 && context.types[0].schemaType == on && context.fields == [] && context.variants == []
    requires rootId == IdOf(0)
    modifies context
    ensures r.Ok? <==> Supported(context.env, selectionSet, on)
    ensures r.Err? ==> Expand(context.env, selectionSet, rootId, on, 1) == Err(r.error)
    ensures r.Ok? ==> |r.value| == 1 + CompositeCount(context.env, selectionSet)
    ensures r.Ok? ==> r.value[0].structDecl.name == old(context.types[0].name)
    ensures r.Ok? ==> forall i :: 0 <= i < |r.value| ==> r.value[i].onEnum.None?
    ensures r.Ok? && CompositeCount(context.env, selectionSet) < 0x1_0000_0000 ==>
      r.value[0].structDecl.fields == RenderFields(DirectFields(context.env, selectionSet, rootId, on))
    ensures r.Ok? ==>
      && Expand(context.env, selectionSet, rootId, on, 1).Ok?
      && (var w := Expand(context.env, selectionSet, rootId, on, 1).value;
          var ts := [old(context.types[0])] + w.types;
          |r.value| == |ts| && forall i :: 0 <= i < |ts| ==> r.value[i] == RenderItem(ts[i], IdOf(i), w.fields, [], derives))
  {
    ghost var env, rootName := context.env, context.types[0].name;
    ghost var expected := Expand(env, selectionSet, rootId, on, 1);
    var outcome := CalculateSelection(context, selectionSet, rootId, on);
    ExpandOkIff(env, selectionSet, rootId, on, 1);
    if outcome.Fail? {
      return Err(outcome.error);
    }
    ExpandCount(env, selectionSet, rootId, on, 1);
    ghost var w := expected.value;
    assert context.types == [ExpandedType(rootName, on)] + w.types;
    assert context.fields == w.fields && context.variants == [];
    var items := context.Render(derives);
    assert items[0] == RenderItem(context.types[0], IdOf(0), w.fields, [], derives);
    if CompositeCount(env, selectionSet) < 0x1_0000_0000 {
      ExpandSeqOwnFields(env, selectionSet, rootId, on, 1);
    }
    return Ok(items);
  }
}
