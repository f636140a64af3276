/** The result driver (src/lib/treat-result.ts): picks the root type of the
    operation's kind, runs the parser over the root field selections of the
    response `data`, and rebuilds the result envelope around the new data. */
module ResultDriver {
  import opened Wrappers
  import opened Values
  import opened Schema
  import opened Ast
  import opened Parsing

  /** An entry of a result's `errors` list, as far as the link looks at it. */
  datatype FormattedError = FormattedError(message: string)

  /** An execution result: `data` (absent or null alike), `errors` and the
      remaining envelope fields, kept as one opaque value. */
  datatype ExecResult = ExecResult(
    data: Option<map<string, Value>>,
    errors: Option<seq<FormattedError>>,
    extensions: Option<Value>)

  /** The schema's root type name for an operation kind. */
  function RootTypeName(kind: OperationKind, schema: Schema): (r: Option<string>)
    ensures kind == Query ==> r == schema.queryType
    ensures kind == Mutation ==> r == schema.mutationType
    ensures kind == Subscription ==> r == schema.subscriptionType
  {
    match kind
    case Query => schema.queryType
    case Mutation => schema.mutationType
    case Subscription => schema.subscriptionType
  }

  /** `rootTypeFor`: the query, mutation or subscription type according to
      the operation kind, or nothing when the schema defines none. */
  function RootTypeFor(op: OperationDef, schema: Schema): (r: Option<NamedType>)
    ensures r.Some? ==> r.value.ObjectType?
    ensures r.Some? <==> (var name := RootTypeName(op.operation, schema);
                          name.Some? && name.value in schema.types && schema.types[name.value].ObjectType?)
    ensures r.Some? ==> r.value == schema.types[RootTypeName(op.operation, schema).value]
  {
    match RootTypeName(op.operation, schema)
    case None => None
    case Some(name) =>
      if name in schema.types && schema.types[name].ObjectType? then Some(schema.types[name]) else None
  }

  /** `treatResult`: a result without data, without an operation definition
      or without a root type comes back as it is; otherwise the root field
      selections are parsed and only `data` is replaced. A throw of the
      parser is the Failure case. `reduced` is what the fragment reducer
      returns for the operation's query: its first operation definition with
      every fragment expanded into field selections, or nothing. */
  function TreatResult(schema: Schema, functionsMap: map<string, Codec>, validateEnums: bool,
                       nullFunctions: NullFunctions, reduced: Option<OperationDef>, result: ExecResult): (r: Result<ExecResult, Thrown>)
    ensures result.data.None? ==> r == Success(result)
    ensures reduced.None? ==> r == Success(result)
    ensures r.Success? ==> r.value == result.(data := r.value.data)
    ensures r.Success? ==> (r.value.data.Some? <==> result.data.Some?)
  {
    if result.data.None? then Success(result)
    else
      match reduced
      case None => Success(result)
      case Some(op) =>
        match RootTypeFor(op, schema)
        case None => Success(result)
        case Some(rootType) =>
          var parser := Parser(schema, functionsMap, validateEnums, nullFunctions);
          var newData :- ParseObjectWithSelections(parser, result.data.value, rootType.fields, FieldSelections(op.selections));
          Success(result.(data := Some(newData)))
  }

  /** When data, an operation and a root type are all present, the new data
      is the parse of the old one over the operation's field selections
      only, against the root type's fields; the envelope is kept. */
  lemma TreatResultParsesRootFields(schema: Schema, functionsMap: map<string, Codec>, validateEnums: bool,
                                    nullFunctions: NullFunctions, reduced: Option<OperationDef>, result: ExecResult)
    requires result.data.Some?
    requires reduced.Some?
    requires RootTypeFor(reduced.value, schema).Some?
    ensures var op := reduced.value;
      var rootType := RootTypeFor(op, schema).value;
      var parsed := ParseObjectWithSelections(Parser(schema, functionsMap, validateEnums, nullFunctions),
                                              result.data.value, rootType.fields, FieldSelections(op.selections));
      var r := TreatResult(schema, functionsMap, validateEnums, nullFunctions, reduced, result);
      && (parsed.Success? ==> r == Success(result.(data := Some(parsed.value))))
      && (parsed.Failure? ==> r == Failure(parsed.error))
  {
  }

  /** Without a root type for the operation's kind the result is returned
      unchanged, data included. */
  lemma NoRootTypeUnchanged(schema: Schema, functionsMap: map<string, Codec>, validateEnums: bool,
                            nullFunctions: NullFunctions, reduced: Option<OperationDef>, result: ExecResult)
    requires reduced.Some?
    requires RootTypeFor(reduced.value, schema).None?
    ensures TreatResult(schema, functionsMap, validateEnums, nullFunctions, reduced, result) == Success(result)
  {
  }

  /** The parsed data keeps every key of the response that no declared root
      selection names, with its value. */
  lemma TreatResultFrame(schema: Schema, functionsMap: map<string, Codec>, validateEnums: bool,
                         nullFunctions: NullFunctions, reduced: Option<OperationDef>, result: ExecResult)
    requires result.data.Some?
    requires reduced.Some?
    requires RootTypeFor(reduced.value, schema).Some?
    ensures var op := reduced.value;
      var fieldMap := RootTypeFor(op, schema).value.fields;
      var keys := SelectedKeys(fieldMap, FieldSelections(op.selections));
      var r := TreatResult(schema, functionsMap, validateEnums, nullFunctions, reduced, result);
      r.Success? ==>
        && r.value.data.value.Keys == result.data.value.Keys + keys
        && forall k :: k in result.data.value && k !in keys ==> r.value.data.value[k] == result.data.value[k]
  {
    var op := reduced.value;
    var fieldMap := RootTypeFor(op, schema).value.fields;
    ParseObjectFrame(Parser(schema, functionsMap, validateEnums, nullFunctions), result.data.value,
                     fieldMap, FieldSelections(op.selections));
  }
}
