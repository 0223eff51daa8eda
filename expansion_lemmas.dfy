/**
 * Properties of the walk: when it completes, how many types it allocates
 * and of which kind, which struct every field lands in, and what each kind
 * of selection contributes.
 */
module ExpansionLemmas {
  import opened Wrappers
  import opened Schema
  import opened Resolution
  import opened Expanded
  import opened Expansion

  // ---------------------------------------------------------------------
  // The walk completes exactly on supported selections

  /**
   * The walk panics exactly when the tree selects on an interface or a
   * union, or selects a field of an input type.
   */
  lemma {:induction false} ExpandOkIff(env: Env, selectionSet: seq<Selection>, structId: ResponseTypeId, typeRef: TypeId, next: nat)
    ensures Expand(env, selectionSet, structId, typeRef, next).Ok? <==> Supported(env, selectionSet, typeRef)
    decreases selectionSet, 2
  {
    if !typeRef.HasVariants() {
      ExpandSeqOkIff(env, selectionSet, structId, typeRef, next);
    }
  }

  lemma {:induction false} ExpandSeqOkIff(env: Env, selectionSet: seq<Selection>, structId: ResponseTypeId, typeRef: TypeId, next: nat)
    ensures ExpandSeq(env, selectionSet, structId, typeRef, next).Ok? <==> SupportedSeq(env, selectionSet)
    decreases selectionSet, 1
  {
    if selectionSet != [] {
      var prefix, last := selectionSet[..|selectionSet| - 1], selectionSet[|selectionSet| - 1];
      ExpandSeqOkIff(env, prefix, structId, typeRef, next);
      var r := ExpandSeq(env, prefix, structId, typeRef, next);
      if r.Ok? {
        ExpandOneOkIff(env, last, structId, typeRef, next + |r.value.types|);
      }
    }
  }

  lemma {:induction false} ExpandOneOkIff(env: Env, selection: Selection, structId: ResponseTypeId, typeRef: TypeId, next: nat)
    ensures ExpandOne(env, selection, structId, typeRef, next).Ok? <==> SupportedOne(env, selection)
    decreases selection, 0
  {
    match selection
    case Field(field, _, subselection) =>
      var target := TargetOf(env, field);
      if target.IsComposite() {
        ExpandOkIff(env, subselection, IdOf(next), target, next + 1);
      }
    case _ =>
  }

  /** Some member is selected by an inline fragment exactly when the first selected one lies within the members. */
  lemma FirstSelectedIff(selectionSet: seq<Selection>, variants: seq<TypeId>)
    ensures FirstSelected(selectionSet, variants) < |variants| <==> SelectsVariant(selectionSet, variants)
  {
    var m := FirstSelected(selectionSet, variants);
    if m < |variants| {
      assert FindInlineFragment(selectionSet, variants[m]).Some?;
    }
  }

  // ---------------------------------------------------------------------
  // Types a completed walk allocates

  /**
   * A completed walk appends one type per object, interface or union field
   * selection in the tree, every one of them on an object type.
   */
  lemma {:induction false} ExpandCount(env: Env, selectionSet: seq<Selection>, structId: ResponseTypeId, typeRef: TypeId, next: nat)
    ensures Expand(env, selectionSet, structId, typeRef, next).Ok? ==>
      var w := Expand(env, selectionSet, structId, typeRef, next).value;
      && !typeRef.HasVariants()
      && |w.types| == CompositeCount(env, selectionSet)
      && AllObjects(w.types)
    decreases selectionSet, 2
  {
    if !typeRef.HasVariants() {
      ExpandSeqCount(env, selectionSet, structId, typeRef, next);
    }
  }

  lemma {:induction false} ExpandSeqCount(env: Env, selectionSet: seq<Selection>, structId: ResponseTypeId, typeRef: TypeId, next: nat)
    ensures ExpandSeq(env, selectionSet, structId, typeRef, next).Ok? ==>
      var w := ExpandSeq(env, selectionSet, structId, typeRef, next).value;
      |w.types| == CompositeCount(env, selectionSet) && AllObjects(w.types)
    decreases selectionSet, 1
  {
    if selectionSet != [] {
      var prefix, last := selectionSet[..|selectionSet| - 1], selectionSet[|selectionSet| - 1];
      ExpandSeqCount(env, prefix, structId, typeRef, next);
      var r := ExpandSeq(env, prefix, structId, typeRef, next);
      if r.Ok? {
        var w1 := r.value;
        var mid := next + |w1.types|;
        ExpandOneCount(env, last, structId, typeRef, mid);
        var r2 := ExpandOne(env, last, structId, typeRef, mid);
        if r2.Ok? {
          var w2 := r2.value;
          var types := w1.types + w2.types;
          forall k | 0 <= k < |types|
            ensures types[k].schemaType.Object?
          {
            if k < |w1.types| {
              assert types[k] == w1.types[k];
            } else {
              assert types[k] == w2.types[k - |w1.types|];
            }
          }
        }
      }
    }
  }

  /** The number of types a completed loop appends, on its own. */
  lemma ExpandSeqTypeCount(env: Env, selectionSet: seq<Selection>, structId: ResponseTypeId, typeRef: TypeId, next: nat)
    ensures ExpandSeq(env, selectionSet, structId, typeRef, next).Ok? ==>
      |ExpandSeq(env, selectionSet, structId, typeRef, next).value.types| == CompositeCount(env, selectionSet)
  {
    ExpandSeqCount(env, selectionSet, structId, typeRef, next);
  }

  lemma {:induction false} ExpandOneCount(env: Env, selection: Selection, structId: ResponseTypeId, typeRef: TypeId, next: nat)
    ensures ExpandOne(env, selection, structId, typeRef, next).Ok? ==>
      var w := ExpandOne(env, selection, structId, typeRef, next).value;
      |w.types| == CompositeCountOne(env, selection) && AllObjects(w.types)
    decreases selection, 0
  {
    match selection
    case Field(field, fullPathPrefix, subselection) =>
      var target := TargetOf(env, field);
      if target.IsComposite() {
        ExpandCount(env, subselection, IdOf(next), target, next + 1);
        var r := Expand(env, subselection, IdOf(next), target, next + 1);
        if r.Ok? {
          var types := [ExpandedType(fullPathPrefix, target)] + r.value.types;
          forall k | 1 <= k < |types|
            ensures types[k].schemaType.Object?
          {
            assert types[k] == r.value.types[k - 1];
          }
        }
      }
    case _ =>
  }

  // ---------------------------------------------------------------------
  // Owners of the fields a completed walk appends

  /**
   * Each field a completed walk appends belongs to `structId` or to one of
   * the types the walk appends.
   */
  lemma {:induction false} ExpandOwners(env: Env, selectionSet: seq<Selection>, structId: ResponseTypeId, typeRef: TypeId, next: nat)
    ensures Expand(env, selectionSet, structId, typeRef, next).Ok? ==>
      var w := Expand(env, selectionSet, structId, typeRef, next).value;
      OwnedWithin(w.fields, structId, next, next + |w.types|)
    decreases selectionSet, 2
  {
    if !typeRef.HasVariants() {
      ExpandSeqOwners(env, selectionSet, structId, typeRef, next);
    }
  }

  lemma {:induction false} ExpandSeqOwners(env: Env, selectionSet: seq<Selection>, structId: ResponseTypeId, typeRef: TypeId, next: nat)
    ensures ExpandSeq(env, selectionSet, structId, typeRef, next).Ok? ==>
      var w := ExpandSeq(env, selectionSet, structId, typeRef, next).value;
      OwnedWithin(w.fields, structId, next, next + |w.types|)
    decreases selectionSet, 1
  {
    if selectionSet != [] {
      var prefix, last := selectionSet[..|selectionSet| - 1], selectionSet[|selectionSet| - 1];
      ExpandSeqOwners(env, prefix, structId, typeRef, next);
      var r := ExpandSeq(env, prefix, structId, typeRef, next);
      if r.Ok? {
        var w1 := r.value;
        var mid := next + |w1.types|;
        ExpandOneOwners(env, last, structId, typeRef, mid);
        var r2 := ExpandOne(env, last, structId, typeRef, mid);
        if r2.Ok? {
          var w2 := r2.value;
          var hi := mid + |w2.types|;
          var fields := w1.fields + w2.fields;
          forall k | 0 <= k < |fields|
            ensures fields[k].structId == structId || NestedOwner(fields[k].structId, next, hi)
          {
            if k < |w1.fields| {
              assert fields[k] == w1.fields[k];
            } else {
              assert fields[k] == w2.fields[k - |w1.fields|];
            }
          }
        }
      }
    }
  }

  lemma {:induction false} ExpandOneOwners(env: Env, selection: Selection, structId: ResponseTypeId, typeRef: TypeId, next: nat)
    ensures ExpandOne(env, selection, structId, typeRef, next).Ok? ==>
      var w := ExpandOne(env, selection, structId, typeRef, next).value;
      OwnedWithin(w.fields, structId, next, next + |w.types|)
    decreases selection, 0
  {
    match selection
    case Field(field, fullPathPrefix, subselection) =>
      var target := TargetOf(env, field);
      if target.IsComposite() {
        var id := IdOf(next);
        ExpandOwners(env, subselection, id, target, next + 1);
        var r := Expand(env, subselection, id, target, next + 1);
        if r.Ok? {
          var fields := [FieldOf(env, field, fullPathPrefix, structId)] + r.value.fields;
          var hi := next + 1 + |r.value.types|;
          forall k | 1 <= k < |fields|
            ensures NestedOwner(fields[k].structId, next, hi)
          {
            assert fields[k] == r.value.fields[k - 1];
          }
        }
      }
    case _ =>
  }

  // ---------------------------------------------------------------------
  // Every struct receives exactly its own fields

  lemma {:induction false} FieldsOfNone(fields: seq<ExpandedField>, id: ResponseTypeId)
    requires forall k :: 0 <= k < |fields| ==> fields[k].structId != id
    ensures FieldsOf(fields, id) == []
  {
    if fields != [] {
      FieldsOfNone(fields[..|fields| - 1], id);
    }
  }

  /**
   * Among the fields a completed selection step appends, those owned by
   * `structId` are exactly the step's direct field: the fields of a nested
   * selection go to the nested struct.
   */
  lemma ExpandOneOwnFields(env: Env, selection: Selection, structId: ResponseTypeId, typeRef: TypeId, next: nat)
    requires structId.value < next && next + CompositeCountOne(env, selection) <= 0x1_0000_0000
    ensures ExpandOne(env, selection, structId, typeRef, next).Ok? ==>
      FieldsOf(ExpandOne(env, selection, structId, typeRef, next).value.fields, structId) == DirectField(env, selection, structId, typeRef)
  {
    var r := ExpandOne(env, selection, structId, typeRef, next);
    if r.Ok? {
      var fields := r.value.fields;
      match selection
      case Field(field, fullPathPrefix, subselection) =>
        var target := TargetOf(env, field);
        var f := FieldOf(env, field, fullPathPrefix, structId);
        assert [f][..0] == [];
        if target.IsComposite() {
          var id := IdOf(next);
          ExpandOwners(env, subselection, id, target, next + 1);
          ExpandCount(env, subselection, id, target, next + 1);
          var nested := Expand(env, subselection, id, target, next + 1).value;
          assert fields == [f] + nested.fields;
          FieldsOfNone(nested.fields, structId);
          FieldsOfAppend([f], nested.fields, structId);
        }
      case FragmentSpread(_) =>
        if fields != [] {
          assert fields[..0] == [];
        }
      case _ =>
    }
  }

  /**
   * The struct a selection set is walked for receives exactly the direct
   * fields of the set, in selection order, while the arena stays below 2^32
   * types.
   */
  lemma {:induction false} ExpandSeqOwnFields(env: Env, selectionSet: seq<Selection>, structId: ResponseTypeId, typeRef: TypeId, next: nat)
    requires structId.value < next && next + CompositeCount(env, selectionSet) <= 0x1_0000_0000
    ensures ExpandSeq(env, selectionSet, structId, typeRef, next).Ok? ==>
      FieldsOf(ExpandSeq(env, selectionSet, structId, typeRef, next).value.fields, structId) == DirectFields(env, selectionSet, structId, typeRef)
  {
    if selectionSet != [] {
      var n := |selectionSet| - 1;
      var prefix, last := selectionSet[..n], selectionSet[n];
      var r := ExpandSeq(env, prefix, structId, typeRef, next);
      if r.Err? {
        ExpandSeqErrPrefix(env, selectionSet, n, structId, typeRef, next);
      } else {
        var w1 := r.value;
        ExpandSeqLast(env, selectionSet, structId, typeRef, next);
        var mid := next + |w1.types|;
        var r2 := ExpandOne(env, last, structId, typeRef, mid);
        if r2.Ok? {
          assert CompositeCount(env, selectionSet) == CompositeCount(env, prefix) + CompositeCountOne(env, last);
          ExpandSeqOwnFields(env, prefix, structId, typeRef, next);
          ExpandSeqTypeCount(env, prefix, structId, typeRef, next);
          ExpandOneOwnFields(env, last, structId, typeRef, mid);
          OwnFieldsJoin(env, selectionSet, structId, typeRef, w1.fields, r2.value.fields);
        }
      }
    }
  }

  /** The own fields of a prefix followed by those of the last selection are the direct fields of the set. */
  lemma OwnFieldsJoin(env: Env, selectionSet: seq<Selection>, structId: ResponseTypeId, typeRef: TypeId,
                      fields1: seq<ExpandedField>, fields2: seq<ExpandedField>)
    requires selectionSet != []
    requires FieldsOf(fields1, structId) == DirectFields(env, selectionSet[..|selectionSet| - 1], structId, typeRef)
    requires FieldsOf(fields2, structId) == DirectField(env, selectionSet[|selectionSet| - 1], structId, typeRef)
    ensures FieldsOf(fields1 + fields2, structId) == DirectFields(env, selectionSet, structId, typeRef)
  {
    FieldsOfAppend(fields1, fields2, structId);
  }

  /**
   * A completed walk keeps the arena's referential integrity: every field it
   * appends points at the type it was walked for or at a type it appended.
   */
  lemma ExpandIntegrity(env: Env, types: seq<ExpandedType>, fields: seq<ExpandedField>, variants: seq<ExpandedVariant>,
                        selectionSet: seq<Selection>, structId: ResponseTypeId, typeRef: TypeId)
    requires Integrity(types, fields, variants) && structId.value < |types|
    requires Expand(env, selectionSet, structId, typeRef, |types|).Ok?
    ensures var w := Expand(env, selectionSet, structId, typeRef, |types|).value;
      Integrity(types + w.types, fields + w.fields, variants)
  {
    ExpandOwners(env, selectionSet, structId, typeRef, |types|);
    var w := Expand(env, selectionSet, structId, typeRef, |types|).value;
    var all := fields + w.fields;
    forall k | 0 <= k < |all|
      ensures all[k].structId.value < |types| + |w.types|
    {
      if k >= |fields| {
        assert all[k] == w.fields[k - |fields|];
      }
    }
  }

  // ---------------------------------------------------------------------
  // What each kind of selection contributes

  /**
   * One selection step: typename markers and inline fragments add nothing;
   * a spread of a fragment on another type adds nothing; a spread of a
   * fragment on the current type adds one flattened, required field named
   * after the fragment; an enum or scalar field adds one field typed by the
   * schema type's name; an object, interface or union field adds a field
   * typed by its path, then a type of that name on the next index, then
   * whatever the nested walk adds; an input field panics.
   */
  lemma SelectionStep(env: Env, selection: Selection, structId: ResponseTypeId, typeRef: TypeId, next: nat)
    ensures selection.Typename? || selection.InlineFragment? ==>
      ExpandOne(env, selection, structId, typeRef, next) == Ok(NoWalk)
    ensures selection.FragmentSpread? ==>
      var fragment := env.query.fragment(selection.fragmentId);
      ExpandOne(env, selection, structId, typeRef, next) ==
        if fragment.on != typeRef then Ok(NoWalk)
        else Ok(Walk([], [ExpandedField(fragment.name, env.naming.RustName(fragment.name), fragment.name, [Required], structId, true)]))
    ensures selection.Field? && TargetOf(env, selection.field).IsLeaf() ==>
      var target := TargetOf(env, selection.field);
      var (graphqlName, rustName) := FieldName(env, selection.field);
      ExpandOne(env, selection, structId, typeRef, next) ==
        Ok(Walk([], [ExpandedField(graphqlName, rustName, env.schema.typeName(target),
                                   env.schema.field(selection.field.schemaField).typeQualifiers, structId, false)]))
    ensures selection.Field? && TargetOf(env, selection.field).IsComposite() ==>
      var target := TargetOf(env, selection.field);
      var (graphqlName, rustName) := FieldName(env, selection.field);
      var field := ExpandedField(graphqlName, rustName, selection.fullPathPrefix,
                                 env.schema.field(selection.field.schemaField).typeQualifiers, structId, false);
      var nested := Expand(env, selection.subselection, IdOf(next), target, next + 1);
      ExpandOne(env, selection, structId, typeRef, next) ==
        if nested.Err? then Err(nested.error)
        else Ok(Walk([ExpandedType(selection.fullPathPrefix, target)] + nested.value.types, [field] + nested.value.fields))
    ensures selection.Field? && TargetOf(env, selection.field).Input? ==>
      ExpandOne(env, selection, structId, typeRef, next) == Err(FieldOnInputType)
  {
  }

  /** Walking one more selection of the set extends the walk of the prefix by the walk of that selection. */
  lemma ExpandSeqSnoc(env: Env, selectionSet: seq<Selection>, i: nat, structId: ResponseTypeId, typeRef: TypeId, next: nat)
    requires i < |selectionSet| && ExpandSeq(env, selectionSet[..i], structId, typeRef, next).Ok?
    ensures var w := ExpandSeq(env, selectionSet[..i], structId, typeRef, next).value;
      var step := ExpandOne(env, selectionSet[i], structId, typeRef, next + |w.types|);
      ExpandSeq(env, selectionSet[..i + 1], structId, typeRef, next) ==
        if step.Err? then Err(step.error) else Ok(Walk(w.types + step.value.types, w.fields + step.value.fields))
  {
    assert selectionSet[..i + 1][..i] == selectionSet[..i];
  }

  /** The walk of a non-empty set is the walk of its prefix followed by the walk of its last selection. */
  lemma ExpandSeqLast(env: Env, selectionSet: seq<Selection>, structId: ResponseTypeId, typeRef: TypeId, next: nat)
    requires selectionSet != [] && ExpandSeq(env, selectionSet[..|selectionSet| - 1], structId, typeRef, next).Ok?
    ensures var w := ExpandSeq(env, selectionSet[..|selectionSet| - 1], structId, typeRef, next).value;
      var step := ExpandOne(env, selectionSet[|selectionSet| - 1], structId, typeRef, next + |w.types|);
      ExpandSeq(env, selectionSet, structId, typeRef, next) ==
        if step.Err? then Err(step.error) else Ok(Walk(w.types + step.value.types, w.fields + step.value.fields))
  {
    ExpandSeqSnoc(env, selectionSet, |selectionSet| - 1, structId, typeRef, next);
    assert selectionSet[..|selectionSet|] == selectionSet;
  }

  /** Once a prefix of the selection set panics, the whole set panics the same way. */
  lemma {:induction false} ExpandSeqErrPrefix(env: Env, selectionSet: seq<Selection>, i: nat, structId: ResponseTypeId, typeRef: TypeId, next: nat)
    requires i <= |selectionSet| && ExpandSeq(env, selectionSet[..i], structId, typeRef, next).Err?
    ensures ExpandSeq(env, selectionSet, structId, typeRef, next) == ExpandSeq(env, selectionSet[..i], structId, typeRef, next)
    decreases |selectionSet|
  {
    if i == |selectionSet| {
      assert selectionSet[..i] == selectionSet;
    } else {
      var prefix := selectionSet[..|selectionSet| - 1];
      assert prefix[..i] == selectionSet[..i];
      ExpandSeqErrPrefix(env, prefix, i, structId, typeRef, next);
    }
  }
}
