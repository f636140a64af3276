/** The link itself (src/lib/link.ts): its options and their defaults, the
    merged `functionsMap`, the outbound rewrite of an operation's variables
    along the query's variable type references, and the result emitted when
    parsing a response throws. */
module Link {
  import opened Wrappers
  import opened Values
  import opened Schema
  import opened Ast
  import opened Serialization
  import opened Parsing
  import opened ResultDriver

  /** The constructor's options; `None` is an option left out. */
  datatype LinkParams = LinkParams(
    schema: Schema,
    typesMap: Option<map<string, Codec>>,
    validateEnums: Option<bool>,
    removeTypenameFromInputs: Option<bool>,
    nullFunctions: Option<NullFunctions>)

  /** `leafTypesMap`: every leaf type of the schema's type map, under its key,
      as the codec it provides. */
  function LeafCodecs(types: map<string, NamedType>): (r: map<string, Codec>)
    ensures forall k :: k in r <==> k in types && types[k].IsLeaf()
    ensures forall k :: k in r ==> k in types && types[k].IsLeaf() && r[k] == types[k].codec
  {
    map k | k in types && types[k].IsLeaf() :: types[k].codec
  }

  /** `{ ...leafTypesMap, ...typesMap }`: every schema leaf type, overlaid
      by the caller's entries, which win on a name collision. */
  function FunctionsMapOf(types: map<string, NamedType>, typesMap: map<string, Codec>): (r: map<string, Codec>)
    ensures r.Keys == LeafCodecs(types).Keys + typesMap.Keys
    ensures forall k :: k in typesMap ==> r[k] == typesMap[k]
    ensures forall k :: k in r && k !in typesMap ==> types[k].IsLeaf() && r[k] == types[k].codec
  {
    LeafCodecs(types) + typesMap
  }

  /** The constructor's loop over the schema's type map. */
  method CollectLeafTypes(types: map<string, NamedType>) returns (leafTypesMap: map<string, Codec>)
    ensures leafTypesMap == LeafCodecs(types)
  {
    leafTypesMap := map[];
    var pending := types.Keys;
    while pending != {}
      invariant pending <= types.Keys
      invariant leafTypesMap == map k | k in types.Keys - pending && types[k].IsLeaf() :: types[k].codec
      decreases pending
    {
      var key :| key in pending;
      if types[key].IsLeaf() {
        leafTypesMap := leafTypesMap[key := types[key].codec];
      }
      pending := pending - {key};
    }
  }

  /** The variable definitions of the document's first operation, or none. */
  function VariableDefinitionsOf(query: Document): seq<VariableDefinition> {
    match FirstOperation(query.definitions)
    case None => []
    case Some(op) => op.variableDefinitions
  }

  /** The names a list of variable definitions declares. */
  function DeclaredNames(defs: seq<VariableDefinition>): set<string> {
    set d | d in defs :: d.variable
  }

  /** The parts of an Apollo operation the link reads and writes: the query
      document and the variables map, which `cleanVariables` replaces. */
  class Operation {
    const query: Document
    var variables: Option<map<string, Value>>

    constructor (query: Document, variables: Option<map<string, Value>>)
      ensures this.query == query && this.variables == variables
    {
      this.query := query;
      this.variables := variables;
    }
  }

  /** The link, with the read-only configuration its constructor fixes. */
  class ScalarLink {
    const schema: Schema
    const typesMap: map<string, Codec>
    const validateEnums: bool
    const removeTypenameFromInputs: bool
    const nullFunctions: NullFunctions
    const functionsMap: map<string, Codec>
    const serializer: Serializer

    /** Absent options default to an empty `typesMap`, no enum validation,
        no `__typename` removal and the identity null functions. */
    constructor (pars: LinkParams)
      ensures schema == pars.schema
      ensures typesMap == pars.typesMap.GetOr(map[])
      ensures validateEnums == pars.validateEnums.GetOr(false)
      ensures removeTypenameFromInputs == pars.removeTypenameFromInputs.GetOr(false)
      ensures nullFunctions == pars.nullFunctions.GetOr(DefaultNullFunctions)
      ensures functionsMap == FunctionsMapOf(schema.types, typesMap)
      ensures serializer == Serializer(schema, functionsMap, removeTypenameFromInputs, nullFunctions)
    {
      var types := pars.typesMap.GetOr(map[]);
      var removeTypename := pars.removeTypenameFromInputs.GetOr(false);
      var nulls := pars.nullFunctions.GetOr(DefaultNullFunctions);
      var leafTypesMap := CollectLeafTypes(pars.schema.types);
      var merged := leafTypesMap + types;
      schema := pars.schema;
      typesMap := types;
      validateEnums := pars.validateEnums.GetOr(false);
      removeTypenameFromInputs := removeTypename;
      nullFunctions := nulls;
      functionsMap := merged;
      serializer := Serializer(pars.schema, merged, removeTypename, nulls);
    }

    /** `serialize(value, typeNode)`: a Non-Null node is stripped, a List
        node maps an array element-wise, a Named node goes to `serializeNamed`. */
    function SerializeVariable(v: Value, tn: TypeNode): Value
      decreases v, tn
    {
      match tn
      case NonNullType(inner) => SerializeVariable(v, inner)
      case ListType(inner) => MapIfArray(v, (x: Value) requires x < v => SerializeVariable(x, inner))
      case NamedType(n) => SerializeNamed(v, n)
    }

    /** `serializeNamed`: an input type of the schema is serialized as the
        bare (nullable) named type; any other name leaves the value alone. */
    function SerializeNamed(v: Value, n: string): Value {
      if n in schema.types && schema.types[n].IsInput() then Serialize(serializer, v, Nullable(NamedRef(n)))
      else v
    }

    /** The variables after the loop of `cleanVariables` has run over `defs`:
        each declared key is overwritten, in order, with the serialization of
        its current value (`undefined` when absent). */
    function SerializedVariables(vars: map<string, Value>, defs: seq<VariableDefinition>): map<string, Value> {
      if |defs| == 0 then vars
      else
        var d := defs[|defs| - 1];
        var before := SerializedVariables(vars, defs[..|defs| - 1]);
        before[d.variable := SerializeVariable(Get(before, d.variable), d.typeNode)]
    }

    /** `cleanVariables`: with no variable definitions the operation is left
        as it is; otherwise its variables (an empty map when there are none)
        are rewritten key by key and stored back. */
    method CleanVariables(operation: Operation) returns (r: Operation)
      modifies operation
      ensures r == operation
      ensures var defs := VariableDefinitionsOf(operation.query);
        operation.variables ==
          if |defs| == 0 then old(operation.variables)
          else Some(SerializedVariables(old(operation.variables).GetOr(map[]), defs))
    {
      var defs := VariableDefinitionsOf(operation.query);
      if |defs| == 0 {
        return operation;
      }
      var initial := operation.variables.GetOr(map[]);
      var variables := initial;
      for i := 0 to |defs|
        invariant variables == SerializedVariables(initial, defs[..i])
      {
        assert defs[..i + 1][..i] == defs[..i];
        var key := defs[i].variable;
        variables := variables[key := SerializeVariable(Get(variables, key), defs[i].typeNode)];
      }
      assert defs[..|defs|] == defs;
      operation.variables := Some(variables);
      return operation;
    }

    /** `parse`: the result driver with the link's configuration. `reduced`
        is what the fragment reducer returns for the operation's query. */
    function Parse(reduced: Option<OperationDef>, result: ExecResult): Result<ExecResult, Thrown> {
      TreatResult(schema, functionsMap, validateEnums, nullFunctions, reduced, result)
    }

    /** What `next` emits for a response: the parsed result, or the error
        result when parsing throws. */
    function OnNext(reduced: Option<OperationDef>, result: ExecResult): ExecResult {
      match Parse(reduced, result)
      case Success(parsed) => parsed
      case Failure(e) => ErrorResult(result, e)
    }

    // -------------------------------------------------------------------
    // Properties
    // -------------------------------------------------------------------

    /** Non-Null nodes make no difference anywhere in a variable's type:
        the value is serialized as if every `!` were erased. */
    lemma {:induction false} VariableIgnoresNonNull(v: Value, tn: TypeNode)
      ensures SerializeVariable(v, tn) == SerializeVariable(v, EraseNonNull(tn))
      decreases v, tn
    {
      match tn
      case NonNullType(inner) =>
        VariableIgnoresNonNull(v, inner);
      case ListType(inner) =>
        if v.List? {
          var a := SerializeVariable(v, tn);
          var b := SerializeVariable(v, EraseNonNull(tn));
          forall i | 0 <= i < |v.items| ensures a.items[i] == b.items[i] {
            VariableIgnoresNonNull(v.items[i], inner);
          }
        }
      case NamedType(n) =>
    }

    /** A List node maps an array element by element, keeping length and
        order, and returns any other value, null and undefined included, as
        it is: no null function runs at a List node. */
    lemma ListVariableMapsItems(v: Value, inner: TypeNode)
      ensures var r := SerializeVariable(v, ListType(inner));
        && (!v.List? ==> r == v)
        && (v.List? ==>
              && r.List? && |r.items| == |v.items|
              && forall i :: 0 <= i < |v.items| ==> r.items[i] == SerializeVariable(v.items[i], inner))
    {
    }

    /** A named input type is serialized as a nullable position, so the null
        function's `serialize` runs even for a `$x: T!` variable. */
    lemma NamedVariableUsesNullableType(v: Value, n: string)
      requires n in schema.types && schema.types[n].IsInput()
      ensures SerializeVariable(v, NonNullType(NamedType(n)))
           == serializer.nullFunctions.serialize(Serialize(serializer, v, NonNull(NamedRef(n))))
      ensures SerializeVariable(v, NamedType(n))
           == serializer.nullFunctions.serialize(Serialize(serializer, v, NonNull(NamedRef(n))))
    {
      Serialization.NullableWrapsNonNull(serializer, v, NamedRef(n));
      assert SerializeVariable(v, NonNullType(NamedType(n))) == SerializeVariable(v, NamedType(n));
    }

    /** A name that the schema lacks, or that is not an input type, leaves
        the value unchanged. */
    lemma UnknownNamedTypeUnchanged(v: Value, n: string)
      requires n !in schema.types || !schema.types[n].IsInput()
      ensures SerializeVariable(v, NamedType(n)) == v
    {
    }

    /** The loop writes every declared key and no other: undeclared keys keep
        their values. */
    lemma {:induction false} VariablesFrame(vars: map<string, Value>, defs: seq<VariableDefinition>)
      ensures SerializedVariables(vars, defs).Keys == vars.Keys + DeclaredNames(defs)
      ensures forall k :: k in vars && k !in DeclaredNames(defs) ==> SerializedVariables(vars, defs)[k] == vars[k]
      decreases |defs|
    {
      if |defs| > 0 {
        var front := defs[..|defs| - 1];
        VariablesFrame(vars, front);
        assert forall d :: d in defs <==> d == defs[|defs| - 1] || d in front;
        assert DeclaredNames(defs) == DeclaredNames(front) + {defs[|defs| - 1].variable};
      }
    }

    /** A variable declared exactly once ends as the serialization, against
        its declared type, of the value the caller passed (`undefined` when
        absent). */
    lemma {:induction false} DeclaredVariableSerialized(vars: map<string, Value>, defs: seq<VariableDefinition>, i: nat)
      requires i < |defs|
      requires forall j :: 0 <= j < |defs| && j != i ==> defs[j].variable != defs[i].variable
      ensures var k := defs[i].variable;
        k in SerializedVariables(vars, defs)
        && SerializedVariables(vars, defs)[k] == SerializeVariable(Get(vars, k), defs[i].typeNode)
      decreases |defs|
    {
      var k := defs[i].variable;
      var front := defs[..|defs| - 1];
      if i == |defs| - 1 {
        VariablesFrame(vars, front);
        assert k !in DeclaredNames(front);
      } else {
        assert front[i] == defs[i];
        DeclaredVariableSerialized(vars, front, i);
        assert defs[|defs| - 1].variable != k;
      }
    }

    /** A response without data is emitted as it came. */
    lemma NoDataPassesThrough(reduced: Option<OperationDef>, result: ExecResult)
      requires result.data.None?
      ensures OnNext(reduced, result) == result
    {
    }

    /** When parsing throws, the emitted result carries no data and keeps the
        response's errors, followed by the thrown error only when it is a
        `GraphQLError`. */
    lemma ParseFailureEmitsErrors(reduced: Option<OperationDef>, result: ExecResult)
      requires Parse(reduced, result).Failure?
      ensures var thrown := Parse(reduced, result).error;
        var r := OnNext(reduced, result);
        var before := result.errors.GetOr([]);
        && r.data.None? && r.errors.Some?
        && (thrown.GraphQLError? ==> r.errors.value == before + [FormattedError(thrown.message)])
        && (!thrown.GraphQLError? ==> r.errors.value == before)
    {
      var thrown := Parse(reduced, result).error;
      var r := ErrorResult(result, thrown);
      var before := result.errors.GetOr([]);
      if thrown.GraphQLError? {
        assert r.errors.value == r.errors.value[..|before|] + [r.errors.value[|before|]];
      } else {
        assert r.errors.value == r.errors.value[..|before|];
      }
    }

    /** Every leaf type of a schema built by graphql-js uses the caller's
        codec when `typesMap` has one under its name, else its own. */
    lemma OverrideWins(t: NamedType)
      requires WellNamed(schema) && t.name in schema.types && schema.types[t.name] == t && t.IsLeaf()
      requires functionsMap == FunctionsMapOf(schema.types, typesMap)
      ensures LeafCodec(functionsMap, t) == if t.name in typesMap then typesMap[t.name] else t.codec
    {
    }
  }

  /** Erase every Non-Null node of a variable type reference. */
  function EraseNonNull(tn: TypeNode): (r: TypeNode)
    ensures !r.NonNullType?
  {
    match tn
    case NonNullType(inner) => EraseNonNull(inner)
    case ListType(inner) => ListType(EraseNonNull(inner))
    case NamedType(n) => NamedType(n)
  }

  /** The result `next` emits when parsing throws: no data, and the
      response's errors (none counts as an empty list) followed by the
      thrown error when it is a `GraphQLError`; nothing else is appended. */
  function ErrorResult(result: ExecResult, thrown: Thrown): (r: ExecResult)
    ensures r.data.None? && r.extensions.None? && r.errors.Some?
    ensures |r.errors.value| == |result.errors.GetOr([])| + (if thrown.GraphQLError? then 1 else 0)
    ensures r.errors.value[..|result.errors.GetOr([])|] == result.errors.GetOr([])
    ensures thrown.GraphQLError? ==> r.errors.value[|r.errors.value| - 1] == FormattedError(thrown.message)
  {
    var errors := result.errors.GetOr([]);
    if thrown.GraphQLError? then ExecResult(None, Some(errors + [FormattedError(thrown.message)]), None)
    else ExecResult(None, Some(errors), None)
  }

  // ---------------------------------------------------------------------
  // A response with an invalid enum value, after the enum-validation tests
  // (tests/validate-enums-from-query.spec.ts)
  // ---------------------------------------------------------------------

  /** The error message for `MyEnum`. */
  const EnumMessage: string := "enum \"MyEnum\" with invalid value"

  /** A query type whose `first` field is a nullable `MyEnum` with the
      values `"a"`, `"b"` and `"c"`. */
  function EnumSchema(): Schema {
    Schema(
      map["Query" := ObjectType("Query", map["first" := Nullable(NamedRef("MyEnum"))]),
          "MyEnum" := EnumType("MyEnum", [Str("a"), Str("b"), Str("c")], Codec(x => x, x => Success(x)))],
      Some("Query"), None, None)
  }

  /** `query { first otherFirst: first }`: it has no fragment, so the
      fragment reducer returns this operation as it is. */
  function EnumOperation(): OperationDef {
    OperationDef(Query, [],
      [FieldSelection(FieldNode("first", None, [])), FieldSelection(FieldNode("first", Some("otherFirst"), []))])
  }

  /** A response with a valid `first` and an invalid `otherFirst`. */
  function InvalidEnumResponse(): ExecResult {
    ExecResult(Some(map["first" := Str("a"), "otherFirst" := Str("invalid")]), None, None)
  }

  /** The parser of a link built over `EnumSchema` with no `typesMap`. */
  function EnumParser(validateEnums: bool): Parser {
    Parser(EnumSchema(), LeafCodecs(EnumSchema().types), validateEnums, DefaultNullFunctions)
  }

  /** The root field selections of `EnumOperation`. */
  function EnumFields(): seq<FieldNode> {
    [FieldNode("first", None, []), FieldNode("first", Some("otherFirst"), [])]
  }

  /** The operation's field selections are `EnumFields`, and its root type
      is the schema's query type. */
  lemma EnumQueryFields()
    ensures FieldSelections(EnumOperation().selections) == EnumFields()
    ensures RootTypeFor(EnumOperation(), EnumSchema()) == Some(EnumSchema().types["Query"])
  {
    var sels := EnumOperation().selections;
    assert sels[1..][1..] == [];
  }

  /** `"a"` is a value of `MyEnum`; `"invalid"` raises the enum error
      exactly when validation is on. */
  lemma EnumValueChecks(validateEnums: bool)
    ensures ValidateEnum(EnumParser(validateEnums), Str("a"), EnumSchema().types["MyEnum"]) == None
    ensures ValidateEnum(EnumParser(validateEnums), Str("invalid"), EnumSchema().types["MyEnum"])
         == if validateEnums then Some(GraphQLError(EnumMessage)) else None
  {
    var values := EnumSchema().types["MyEnum"].values;
    assert Str("a") == values[0];
    assert Str("invalid") != values[0] && Str("invalid") != values[1] && Str("invalid") != values[2] by {
      assert "invalid"[0] != "a"[0] && "invalid"[0] != "b"[0] && "invalid"[0] != "c"[0];
    }
    assert EnumErrorMessage("MyEnum") == EnumMessage;
  }

  /** The same, for the two values at the field's nullable position. */
  lemma EnumFieldValues(validateEnums: bool)
    ensures TreatValue(EnumParser(validateEnums), Str("a"), Nullable(NamedRef("MyEnum")), EnumFields()[0]) == Success(Str("a"))
    ensures TreatValue(EnumParser(validateEnums), Str("invalid"), Nullable(NamedRef("MyEnum")), EnumFields()[1])
         == if validateEnums then Failure(GraphQLError(EnumMessage)) else Success(Str("invalid"))
  {
    EnumValueChecks(validateEnums);
  }

  /** The walk over the root fields fails with the enum error when
      validation is on, and leaves the data as it is otherwise. */
  lemma EnumObjectWalk(validateEnums: bool)
    ensures ParseObjectWithSelections(EnumParser(validateEnums), InvalidEnumResponse().data.value,
                                      EnumSchema().types["Query"].fields, EnumFields())
         == if validateEnums then Failure(GraphQLError(EnumMessage)) else Success(InvalidEnumResponse().data.value)
  {
    var p := EnumParser(validateEnums);
    var data := InvalidEnumResponse().data.value;
    var fieldMap := EnumSchema().types["Query"].fields;
    var fields := EnumFields();
    EnumFieldValues(validateEnums);
    assert data["first" := Str("a")] == data;
    assert TreatSelection(p, data, fieldMap, fields[0]) == Success(data);
    assert fields[1..][1..] == [];
    if !validateEnums {
      assert data["otherFirst" := Str("invalid")] == data;
    }
  }

  /** With validation on, the aliased field's invalid value makes the link
      emit only the enum error; with validation off the response comes back
      unchanged. */
  lemma InvalidEnumScenario()
    ensures var r := TreatResult(EnumSchema(), LeafCodecs(EnumSchema().types), true, DefaultNullFunctions,
                                 Some(EnumOperation()), InvalidEnumResponse());
      && r == Failure(GraphQLError(EnumMessage))
      && ErrorResult(InvalidEnumResponse(), r.error) == ExecResult(None, Some([FormattedError(EnumMessage)]), None)
    ensures TreatResult(EnumSchema(), LeafCodecs(EnumSchema().types), false, DefaultNullFunctions,
                        Some(EnumOperation()), InvalidEnumResponse()) == Success(InvalidEnumResponse())
  {
    EnumQueryFields();
    EnumObjectWalk(true);
    EnumObjectWalk(false);
  }
}
