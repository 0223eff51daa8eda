/**
 * The resolved query model the selection code walks.  A selection set is an
 * ordered sequence of resolved selections; a field carries the selections
 * nested under it, and the path prefix the resolution pass computes for it
 * (the name of the struct generated for that position).
 */
module Resolution {
  import opened Wrappers
  import opened Schema

  type FragmentId = nat

  datatype SelectedField = SelectedField(alias: Option<string>, schemaField: FieldId)

  datatype Selection =
    | Field(field: SelectedField, fullPathPrefix: string, subselection: seq<Selection>)
    | Typename
    | InlineFragment(typeId: TypeId)
    | FragmentSpread(fragmentId: FragmentId)

  /** A named fragment, bound to the type it is declared on. */
  datatype Fragment = Fragment(name: string, on: TypeId, selection: seq<Selection>)

  /** An operation: the root type it selects on and its top-level selection set. */
  datatype Operation = Operation(on: TypeId, selection: seq<Selection>)

  datatype ResolvedQuery = ResolvedQuery(fragment: FragmentId -> Fragment)
}
