/** The schema as the library consumes it: a name-keyed table of named types
    (so that types referring to each other, or to themselves, need no cyclic
    data), wrapped type references as they appear on fields, and the
    per-type codecs and null functions that the user supplies. */
module Schema {
  import opened Wrappers
  import opened Values

  /** A `serialize`/`parseValue` pair, as a leaf type or an entry of
      `typesMap` provides it (src/types/functions-map.ts). A decoder may throw;
      an encoder is taken to be total. */
  datatype Codec = Codec(serialize: Value -> Value, parseValue: Value -> Result<Value, Thrown>)

  /** The configurable null functions (src/types/null-functions.ts). */
  datatype NullFunctions = NullFunctions(serialize: Value -> Value, parseValue: Value -> Result<Value, Thrown>)

  /** The default null functions: identity in both directions. */
  const DefaultNullFunctions: NullFunctions := NullFunctions(x => x, x => Success(x))

  /** A type as it stands on a field or an argument. The split into
      `NullableType` makes "Non-Null never wraps Non-Null" (section 3.12 of
      the GraphQL specification) hold by construction. */
  datatype GqlType = NonNull(ofType: NullableType) | Nullable(nullable: NullableType)

  /** A List wrapper (section 3.11 of the GraphQL specification) or a
      reference, by name, to a named type of the schema. */
  datatype NullableType = ListOf(ofType: GqlType) | NamedRef(name: string)

  /** The named types of a schema. Leaf types carry their own codec; enum
      types also carry their internal values. */
  datatype NamedType =
    | ScalarType(name: string, codec: Codec)
    | EnumType(name: string, values: seq<Value>, codec: Codec)
    | ObjectType(name: string, fields: map<string, GqlType>)
    | InterfaceType(name: string, fields: map<string, GqlType>)
    | UnionType(name: string)
    | InputObjectType(name: string, fields: map<string, GqlType>)
  {
    /** `isLeafType`: scalar or enum. */
    predicate IsLeaf() {
      ScalarType? || EnumType?
    }

    /** `isInputType` for a named type: scalar, enum or input object. */
    predicate IsInput() {
      ScalarType? || EnumType? || InputObjectType?
    }

    /** The kinds whose field map the parser walks directly. */
    predicate IsObjectLike() {
      ObjectType? || InputObjectType?
    }
  }

  datatype Schema = Schema(
    types: map<string, NamedType>,
    queryType: Option<string>,
    mutationType: Option<string>,
    subscriptionType: Option<string>)

  /** Every entry of a schema built by graphql-js is stored under its own name. */
  ghost predicate WellNamed(schema: Schema) {
    forall n :: n in schema.types ==> schema.types[n].name == n
  }

  /** `functionsMap[type.name] ?? type`: the registered codec of a leaf
      type, or the type's own one when the map has no entry for its name. */
  function LeafCodec(functionsMap: map<string, Codec>, t: NamedType): Codec
    requires t.IsLeaf()
  {
    if t.name in functionsMap then functionsMap[t.name] else t.codec
  }

  /** Wrapper depth, used to show that the mutually recursive walks terminate. */
  function Depth(t: GqlType): nat {
    match t
    case NonNull(nt) => NullableDepth(nt) + 1
    case Nullable(nt) => NullableDepth(nt) + 1
  }

  function NullableDepth(nt: NullableType): nat {
    match nt
    case ListOf(t) => Depth(t) + 1
    case NamedRef(_) => 0
  }

  /** A type with no nullable position at all: Non-Null all the way down to
      a leaf type of the schema, through any number of lists. */
  predicate StrictLeafType(schema: Schema, t: GqlType) {
    match t
    case Nullable(_) => false
    case NonNull(ListOf(e)) => StrictLeafType(schema, e)
    case NonNull(NamedRef(n)) => n in schema.types && schema.types[n].IsLeaf()
  }

  /** The default null functions leave every value as it is. */
  lemma DefaultNullFunctionsAreIdentity(v: Value)
    ensures DefaultNullFunctions.serialize(v) == v
    ensures DefaultNullFunctions.parseValue(v) == Success(v)
  {
  }
}
