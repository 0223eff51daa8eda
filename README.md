# Selection code generation of graphql-client, in Dafny

This project models the part of graphql-client's code generator that turns the
selection of a GraphQL operation or fragment into the Rust response types
(`graphql_client_codegen/src/codegen/selection.rs`).

The generator walks the resolved selection tree recursively. It fills a flat
arena, `ExpandedSelection`, with three append-only vectors:

- types: one generated struct per object, interface or union field selection, plus the root;
- fields: each points at the struct that owns it through a `ResponseTypeId`, the `u32` index of that type;
- variants: the arms of the `{Name}On` enum of a type selected on an interface or a union.

It then renders the arena. Each type becomes a struct holding the fields it owns,
in insertion order, followed by its `{Name}On` enum when it owns variants.

The model keeps this shape.

- `Selection.ExpandedSelection` is a class whose `types`, `fields` and `variants` sequences are
  reassigned by `PushType`, `PushField` and `PushVariant`.
- `CalculateSelection` is the recursive walk over that object, with its loop.
- `Render` is the rendering loop.
- The two entry points are `RenderResponseDataFields` and `RenderFragment`.

Each of these methods is proved against pure reference functions:

- `Expansion.Expand`, `ExpandSeq` and `ExpandOne` are the reference definitions of `calculate_selection` (selection.rs:81-253): the walk of a set, the loop over it, and one turn of that loop. They say what the walk appends, or where it panics. They carry no contract of their own; the lemmas in `ExpansionLemmas` listed below state their properties.
- `Expansion.FirstSelected` and `EmptyVariants` describe the variants the walk appends on an interface or a union before it panics.
- `Expanded.RenderItem` describes what one type renders to.

The lemmas in `ExpansionLemmas` prove what the walk promises:

- it completes exactly on supported selections;
- it allocates one object type per composite field selection;
- the struct a selection set is walked for receives exactly the set's direct fields, in selection order, and every other field the walk appends belongs to a type the walk appended;
- the arena keeps its referential integrity.

Files:

- `wrappers.dfy`: `Option`, `Result`, `Outcome`.
- `schema.dfy`: the schema facts the walk reads: type kinds, type names, field types and qualifiers, interface and union members.
- `resolution.dfy`: the resolved selection tree, fragments and operations.
- `shared.dfy`: Rust naming (snake case, then keyword replacement).
- `expanded.dfy`: the arena records, the declarations they render to, and rendering lemmas.
- `expansion.dfy`: the reference functions of the walk.
- `expansion_lemmas.dfy`: the properties of the walk.
- `selection.dfy`: the arena class, the walk, rendering and the entry points.

A `todo!` or `unreachable!` panic of the source is an error value in the model:

- `Fail(panic)` from the walk methods;
- `Err(panic)` from the reference functions and the entry points.

The panics are:

- `VariantStructTodo`: an inline fragment selects a member type, at selection.rs:125.
- `PushFragmentsDownTodo`: an interface or union selection with no such inline fragment, at selection.rs:158. The code cannot reach line 161 past this panic.
- `FieldOnInputType`: a field whose type is an input type, at selection.rs:221.

## Model

| member | source | states |
|---|---|---|
| Expanded.IdOf | graphql_client_codegen/src/codegen/selection.rs:345-350 | The id of arena index `i` is `i` cast to `u32`. It equals `i` below 2^32 and never exceeds `i`. |
| Expanded.IdsAreIndices | graphql_client_codegen/src/codegen/selection.rs:345-350 | With fewer than 2^32 types, two arena indices get the same id exactly when they are equal. |
| Expanded.ExpandedField.Render | graphql_client_codegen/src/codegen/selection.rs:268-305 | A field renders to a member named by its Rust name. The member carries the flatten flag, the rename annotation and the decorated type. The field is recoverable from the member and its owner, so rendering loses nothing. |
| Expanded.ExpandedVariant.Render | graphql_client_codegen/src/codegen/selection.rs:314-324 | A variant renders to an arm named by the variant, with its type as payload when it has one. The variant is recoverable from the arm and its owner. |
| Expanded.VariantsOf | graphql_client_codegen/src/codegen/selection.rs:395-400 | The variants a type owns are exactly the arena's variants whose `on` is that type. |
| Expanded.VariantsOfAppend | graphql_client_codegen/src/codegen/selection.rs:395-400 | The variant filter keeps insertion order and repeats: filtering a concatenation concatenates the filtered parts, so the arms of an `{Name}On` enum follow the order the variants were pushed. |
| Expanded.FieldsOfMembers | graphql_client_codegen/src/codegen/selection.rs:389-393 | The fields a struct owns are exactly the arena's fields whose `struct_id` is that struct. |
| Expanded.FieldsOfAppend | graphql_client_codegen/src/codegen/selection.rs:389-393 | The owner filter keeps insertion order: filtering a concatenation concatenates the filtered parts. |
| Expanded.PushFieldRendering | graphql_client_codegen/src/codegen/selection.rs:352-354 | Pushing a field adds its declaration at the end of its owner's struct. It changes no other struct and no enum. |
| Expanded.RenderItem | graphql_client_codegen/src/codegen/selection.rs:388-431 | A type renders to a struct with the type's name. It has an `{Name}On` enum and a matching `on` member exactly when some variant belongs to the type. |
| Expanded.FieldRenderedOnce | graphql_client_codegen/src/codegen/selection.rs:386-435 | In an arena with integrity and fewer than 2^32 types, each field is rendered in exactly one struct: the one at the index its `struct_id` names. |
| Expansion.FieldName | graphql_client_codegen/src/codegen/selection.rs:369-377 | The GraphQL name is the alias, else the schema field's name. The Rust name is that name snake-cased and then keyword-replaced. |
| Expansion.FirstSelected | graphql_client_codegen/src/codegen/selection.rs:106-120 | The position of the first member type that an inline fragment of the set selects: every earlier member is unselected, and the one at that position is selected, when it lies within the members. |
| Expansion.EmptyVariants | graphql_client_codegen/src/codegen/selection.rs:146-152 | One empty variant per member, in order: named after the member type, without payload, on the given type. |
| ExpansionLemmas.FirstSelectedIff | graphql_client_codegen/src/codegen/selection.rs:106-120 | The first selected position lies within the members exactly when some member is selected by an inline fragment. |
| Expansion.FindInlineFragment | graphql_client_codegen/src/codegen/selection.rs:111-120 | Finds the first inline fragment of the set on the given member type. It returns none exactly when the set has no such fragment. |
| Expansion.FieldOf | graphql_client_codegen/src/codegen/selection.rs:170-208 | A field selection adds an unflattened field owned by the current struct, with the names from `field_name` and the schema qualifiers. It is typed by the schema type's name for enums and scalars, and by the path prefix for object, interface and union fields. |
| Expansion.SpreadField | graphql_client_codegen/src/codegen/selection.rs:237-247 | A fragment spread adds a flattened, required field owned by the current struct. It is named and typed after the fragment, with the fragment name's Rust form as the member name. |
| ExpansionLemmas.ExpandOkIff | graphql_client_codegen/src/codegen/selection.rs:81-253 | The walk of a selection set completes exactly when the tree has no selection on an interface or union and no field of an input type. Otherwise it panics. |
| ExpansionLemmas.ExpandSeqOkIff | graphql_client_codegen/src/codegen/selection.rs:165-253 | The loop over a selection set completes exactly when every selection in it is supported. |
| ExpansionLemmas.ExpandOneOkIff | graphql_client_codegen/src/codegen/selection.rs:168-251 | One selection completes exactly when it is not an input field and any composite field's subselection is supported. |
| ExpansionLemmas.ExpandCount | graphql_client_codegen/src/codegen/selection.rs:197-220 | A completed walk is on a non-variant type. It appends one type per object, interface or union field selection in the tree, and all of them are object types. |
| ExpansionLemmas.ExpandSeqCount | graphql_client_codegen/src/codegen/selection.rs:165-253 | The loop appends one type per composite field selection below it, all on object types. |
| ExpansionLemmas.ExpandOneCount | graphql_client_codegen/src/codegen/selection.rs:197-220 | A composite field appends its own type plus those of its subselection. Other selections append none. |
| ExpansionLemmas.ExpandOwners | graphql_client_codegen/src/codegen/selection.rs:197-220 | Every field a completed walk appends belongs to the current struct or to a type the walk appended. |
| ExpansionLemmas.ExpandSeqOwners | graphql_client_codegen/src/codegen/selection.rs:165-253 | The same ownership bound for the loop over a selection set. |
| ExpansionLemmas.ExpandOneOwners | graphql_client_codegen/src/codegen/selection.rs:197-220 | The same ownership bound for one selection: fields other than the selection's own field belong to a type the selection appends. |
| ExpansionLemmas.FieldsOfNone | graphql_client_codegen/src/codegen/selection.rs:389-393 | A struct that owns no field of the arena renders with no fields. |
| ExpansionLemmas.ExpandOneOwnFields | graphql_client_codegen/src/codegen/selection.rs:168-251 | Of what one completed selection appends, the current struct receives exactly that selection's direct field, and no other. |
| ExpansionLemmas.ExpandSeqOwnFields | graphql_client_codegen/src/codegen/selection.rs:165-253 | With fewer than 2^32 types, the struct a set is walked for receives exactly the direct fields of the set, in selection order. |
| ExpansionLemmas.ExpandIntegrity | graphql_client_codegen/src/codegen/selection.rs:197-220 | A completed walk keeps every field pointing at a type in the arena. |
| ExpansionLemmas.SelectionStep | graphql_client_codegen/src/codegen/selection.rs:168-251 | What each kind of selection appends: the leaf field, the composite field followed by its type and the nested walk, the panic on an input field, nothing for typename and inline fragments, and the flattened field for a spread on the current type. |
| ExpansionLemmas.ExpandSeqSnoc | graphql_client_codegen/src/codegen/selection.rs:165-253 | One more turn of the loop extends the walk of the prefix by the walk of the next selection, or panics with its panic. |
| ExpansionLemmas.ExpandSeqLast | graphql_client_codegen/src/codegen/selection.rs:165-253 | The walk of a non-empty set is the walk of its prefix followed by the walk of its last selection, or that selection's panic. |
| ExpansionLemmas.ExpandSeqErrPrefix | graphql_client_codegen/src/codegen/selection.rs:165-253 | Once a selection panics, the walk of the whole set panics the same way. |
| Selection.ExpandedSelection.constructor | graphql_client_codegen/src/codegen/selection.rs:28-35 | A new arena is empty. |
| Selection.ExpandedSelection.PushType | graphql_client_codegen/src/codegen/selection.rs:345-350 | Appends the type and returns the previous number of types cast to `u32`. Fields and variants are unchanged. |
| Selection.ExpandedSelection.PushField | graphql_client_codegen/src/codegen/selection.rs:352-354 | Appends the field. Types and variants are unchanged. |
| Selection.ExpandedSelection.PushVariant | graphql_client_codegen/src/codegen/selection.rs:356-358 | Appends the variant. Types and fields are unchanged. |
| Selection.ExpandedSelection.Types | graphql_client_codegen/src/codegen/selection.rs:379-384 | Pairs each type with the `u32` cast of its index, in order. The id equals the index when there are fewer than 2^32 types. |
| Selection.ExpandedSelection.Render | graphql_client_codegen/src/codegen/selection.rs:386-435 | Renders one item per type, in allocation order. Each item is its struct with the fields it owns and its `On` enum when it owns variants. |
| Selection.ExpandVariants | graphql_client_codegen/src/codegen/selection.rs:89-162 | On an interface or union the variants become exactly the old ones followed by one empty variant per member type before the first member selected by an inline fragment (all members when none is). It then panics as the reference walk does. It appends no type and no field. |
| Selection.CalculateSelection | graphql_client_codegen/src/codegen/selection.rs:81-253 | The arena only grows at its end. The walk completes exactly when the reference walk does, and on completion appends exactly the reference types and fields and no variant. Otherwise it reports the reference panic. |
| Selection.CalculateSelectionSet | graphql_client_codegen/src/codegen/selection.rs:165-253 | The loop over a set on an object type appends what the reference fold appends, or stops with its panic. |
| Selection.CalculateSelectionItem | graphql_client_codegen/src/codegen/selection.rs:166-252 | One turn of the loop appends what the reference step appends, or stops with its panic. Typename markers and inline fragments append nothing; a fragment spread on the current type appends its flattened field; a field is handed to `CalculateFieldSelection`. |
| Selection.CalculateFieldSelection | graphql_client_codegen/src/codegen/selection.rs:169-223 | The field arm of the loop's turn appends what the reference step appends for that field: the leaf field; or the composite field, its type and the nested walk; or it stops with the input-type panic or the nested walk's panic. |
| Selection.RenderResponseDataFields | graphql_client_codegen/src/codegen/selection.rs:23-50 | The result is present exactly when the selection is supported. It is then one item per generated type, in allocation order: item `i` renders the root `ResponseData` type (for `i = 0`) or the `i`-th type the walk appends, with id `i` cast to `u32`, the walk's fields and no variants. The root holds exactly the operation's direct fields, in order, and no item has an `On` enum. Otherwise it gives the walk's panic. |
| Selection.RenderFragment | graphql_client_codegen/src/codegen/selection.rs:52-79 | The same for a fragment, with the root struct named after the fragment. |
| Selection.ExpandRoot | graphql_client_codegen/src/codegen/selection.rs:42-49 | The shared tail of both entry points (walk, then render, as at selection.rs:42-49 and 71-78): the same result as stated for the entry points, for the root type already seeded in the arena. |

## Left out

- Token construction with `quote!` and `Ident` is not modelled. Rendered items are records of what the generated struct, enum, member and arm contain.
- The internals of `snake_case`, `keyword_replace`, `decorate_type` and `field_rename_annotation` are not modelled. The first two are given functions of the `Naming` record. The last two are symbolic records in the member declaration. Their code lies outside selection.rs, which is the only file this model covers.
- `GraphqlTypeQualifier` is reduced to `Required | List`. field_type.rs is not part of this model.
- The resolution pass and the schema are not modelled. The resolved query is a tree of selections whose nodes carry their subselections and the path prefix the resolution pass computes. Schema and fragment lookups are total functions, because the resolver hands out only ids that exist.
- Typed variant structs, pushing fragment spreads down to variants and the fallback `Other` variant are unfinished in the source (`todo!` at selection.rs:125, 158 and 161). The model stops there with an error.
- The deprecation handling and the options bag are not modelled. The deprecation handling is commented out in the source, and the options are never read by this code.
- Expanded.FieldsOf: its own contract only bounds the length. Membership and order are stated by `FieldsOfMembers` and `FieldsOfAppend`.
- Selection.RenderResponseDataFields: the root fields are stated only when the tree has fewer than 2^32 composite selections, because beyond that the cast ids wrap and nested fields alias the root. The same holds for Selection.RenderFragment.
- An inline fragment inside an object-typed selection is ignored by the code at selection.rs:225, and the model follows the code (`ExpandOne` returns an empty walk for `InlineFragment`). Its fields are not inlined into the current struct.
- The comment at selection.rs:89-90 intends an exhaustive `{Name}On` enum with an `Other` variant, and the comments at selection.rs:155-161 and 227-229 intend to push fragment spreads down to the variants. The code stops at `todo!` before either, so the model proves only which empty variants are appended and that the walk stops with the same panic there.
- The `todo!` and `unreachable!` panics abort code generation. The model returns them as error values instead of modelling the abort.
