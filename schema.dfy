/**
 * The parts of the schema model that the selection code consults: the kind
 * of a type id, the name of a type, the fields with their target type and
 * qualifiers, and the member types of an interface or a union.  Lookups
 * are total functions: the resolution pass hands the selection code only
 * ids that exist.
 */
module Schema {

  type FieldId = nat

  /** A schema type id; the constructor is its kind, the payload its index. */
  datatype TypeId =
    | Object(index: nat)
    | Interface(index: nat)
    | Union(index: nat)
    | Enum(index: nat)
    | Scalar(index: nat)
    | Input(index: nat)
  {
    /** Enum and scalar fields become leaf fields of the current struct. */
    predicate IsLeaf() { Enum? || Scalar? }

    /** Object, interface and union fields get a struct of their own. */
    predicate IsComposite() { Object? || Interface? || Union? }

    /** Interfaces and unions are the types whose selections need variants. */
    predicate HasVariants() { Interface? || Union? }
  }

  /** Nullability and list wrapping of a field type; a field without Required is nullable. */
  datatype GraphqlTypeQualifier = Required | List

  datatype SchemaField = SchemaField(name: string, fieldType: TypeId, typeQualifiers: seq<GraphqlTypeQualifier>)

  datatype Schema = Schema(
    field: FieldId -> SchemaField,
    typeName: TypeId -> string,
    /** The implementing types of an interface, the members of a union. */
    variants: TypeId -> seq<TypeId>)
}
