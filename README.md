# apollo-link-custom-scalars, modelled in Dafny

`apollo-link-custom-scalars` is an Apollo link that rewrites GraphQL values
in both directions, in step with the schema's types. On the way out, it
encodes an operation's variables: at every scalar or enum position it applies
that type's `serialize` (or a caller override from `typesMap`). On the way
back, it decodes the response `data` along the query's field selections,
applying `parseValue` at scalar positions and checking enum values if asked
to. At every nullable position of the response and of input-object fields, a configurable pair of null functions runs. A variable's own type reference is the exception: no null function runs at its List nodes, and one runs at its named type even under `!`.
If parsing raises an error, the link emits an error result in its place.

This project models that core:

- `values.dfy` (module `Values`): the value tree that flows through the link, `isNone` and `mapIfArray`.
- `schema.dfy`: the schema as a name-keyed table of named types, the wrapped type references on fields, the codecs and the null functions.
- `ast.dfy`: the parts of a query document the link reads.
- `serializer.dfy` (`Serialization`): the outbound serializer.
- `parser.dfy` (`Parsing`): the inbound parser.
- `treat_result.dfy` (`ResultDriver`): root-type selection and the result envelope.
- `roundtrip.dfy` (`RoundTrip`): the two directions together: the round trip through a scalar codec, and where it does not hold.
- `link.dfy` (`Link`): the link's options and defaults, the merged functions map, the variable rewrite of `cleanVariables`, and the error result.
- `wrappers.dfy`: `Option` and `Result`. A JavaScript `throw` is the `Failure` case of a `Result`.

The user's codecs and null functions are arbitrary function values. Every
property below holds for all of them, unless its row states a hypothesis on them or names example functions.

## Model

| member | source | states |
|---|---|---|
| Values.IsNone | src/lib/is-none.ts:5-7 | none means exactly null or undefined; a none value is falsy, and a falsy value that is not none is `false`, `0` or `""` |
| Values.IsNoneCases | src/lib/is-none.ts:5-7 | null and undefined are none; `0`, `""` and `false` are falsy but not none |
| Values.MapIfArray | src/lib/map-if-array.ts:5-10 | an array maps to an array of the same length whose element i is `fn` of element i; any other value, null and undefined included, is returned unchanged |
| Schema.LeafCodec | src/lib/serializer.ts:56 | `functionsMap[type.name] ?? type`; no contract of its own; specified by `Serialization.LeafEncoding`, `Parsing.ScalarDecoding` and `Link.ScalarLink.OverrideWins` |
| Schema.DefaultNullFunctionsAreIdentity | src/lib/link.ts:46 | the default null functions leave every value unchanged in both directions |
| Ast.FirstOperation | src/lib/link.ts:115 | the result is nothing exactly when no definition is an operation; otherwise it is the first operation definition |
| Ast.FieldSelections | src/lib/treat-result.ts:60 | a field is in the result exactly when it is a field selection of the input; the result is never longer than the input, and equals the input's fields position by position when every selection is a field |
| Ast.FieldSelectionsSingle | src/lib/treat-result.ts:60 | one field selection gives that field; a fragment spread or inline fragment gives nothing |
| Ast.FieldSelectionsConcat | src/lib/treat-result.ts:60 | filtering a concatenation is the concatenation of the filtered parts, so field selections keep their relative order and their multiplicity |
| Serialization.Serialize | src/lib/serializer.ts:27-33 | `serialize`; no contract of its own; specified by `NullableWrapsNonNull`, `StrictTypeIgnoresNullFunctions` and `NoneIsAbsorbed` |
| Serialization.SerializeNullable | src/lib/serializer.ts:35-37 | `serializeNullable`; no contract of its own; specified by `Serialization.NullableWrapsNonNull` |
| Serialization.SerializeInternal | src/lib/serializer.ts:39-53 | `serializeInternal`; no contract of its own; specified by `NoneIsAbsorbed`, `LeafEncoding`, `ListEncoding` and `InputObjectEncoding` |
| Serialization.SerializeLeaf | src/lib/serializer.ts:55-58 | `serializeLeaf`; no contract of its own; specified by `Serialization.LeafEncoding` |
| Serialization.SerializeInputObject | src/lib/serializer.ts:60-79 | `serializeInputObject`; no contract of its own; specified by `InputObjectEncoding` and by `SerializeInputObjectLoop`, which is proved equal to it |
| Serialization.SerializeInputObjectLoop | src/lib/serializer.ts:60-79 | the copy, delete and fill loop builds exactly the record that the input-object encoding specifies |
| Serialization.InputEntries | src/lib/serializer.ts:65-70 | the entries walked are the record's own entries, without `__typename` exactly when the flag is set |
| Serialization.NullableWrapsNonNull | src/lib/serializer.ts:27-37 | at a nullable position, `nullFunctions.serialize` is applied once to what the Non-Null position gives; the Non-Null position does not apply it |
| Serialization.StrictTypeIgnoresNullFunctions | src/lib/serializer.ts:27-53 | for a type that is Non-Null at every level, down to a leaf, through any number of lists, the encoding is the same for every choice of null functions |
| Serialization.NoneIsAbsorbed | src/lib/serializer.ts:39-42 | null and undefined pass through every Non-Null position unchanged; a nullable position applies only the null function to them |
| Serialization.LeafEncoding | src/lib/serializer.ts:44-58 | a scalar or enum is encoded by `functionsMap[name]` when that entry exists, and otherwise by the type's own `serialize` |
| Serialization.ListEncoding | src/lib/serializer.ts:48-50 | an array is encoded element by element against the element type, keeping length and order; a non-array passes through |
| Serialization.InputObjectEncoding | src/lib/serializer.ts:60-79 | a non-record passes through. For a record, the output has exactly the input's keys (less `__typename` under the flag); declared fields are encoded against their type; undeclared keys are copied; declared fields the input lacks are not added |
| Parsing.ParseObjectWithSelections | src/lib/parser.ts:43-53 | `parseObjectWithSelections`; no contract of its own; specified by `ParseObjectWithSelectionsLoop`, which is proved equal to it, and by `ParseObjectFrame` |
| Parsing.TreatSelection | src/lib/parser.ts:55-67 | `treatSelection`; no contract of its own; specified by `TreatSelectionRewritesOneKey`, `SkippedNonNullField` and `SkippedNullableField` |
| Parsing.TreatValue | src/lib/parser.ts:69-79 | `treatValue`; no contract of its own; specified by `NullableWrapsNonNull`, `NoneIsReturned` and `StrictTypeIgnoresNullFunctions` |
| Parsing.TreatValueNullable | src/lib/parser.ts:81-88 | `treatValueNullable`; no contract of its own; specified by `Parsing.NullableWrapsNonNull` |
| Parsing.TreatValueInternal | src/lib/parser.ts:90-113 | `treatValueInternal`; no contract of its own; specified by `NoneIsReturned`, `ScalarDecoding`, `EnumDecoding`, `ListDecoding` and `NestedObjectDecoding` |
| Parsing.ParseScalar | src/lib/parser.ts:115-118 | `parseScalar`; no contract of its own; specified by `Parsing.ScalarDecoding` |
| Parsing.ParseArray | src/lib/parser.ts:129-137 | `parseArray`; no contract of its own; specified by `Parsing.ListDecoding` |
| Parsing.TreatItems | src/lib/parser.ts:135 | the `value.map` of `parseArray`; no contract of its own; specified by `Parsing.TreatItemsSpec` |
| Parsing.ParseNestedObject | src/lib/parser.ts:139-152 | `parseNestedObject`; no contract of its own; specified by `Parsing.NestedObjectDecoding` |
| Parsing.EnsureNullable | src/lib/parser.ts:31-33 | the result is the type with its Non-Null wrapper removed, or the type itself if it has none |
| Parsing.ValidateEnum | src/lib/parser.ts:120-127 | raises an error if and only if validation is on, the value is truthy and it is not one of the enum's values; the error is `GraphQLError('enum "<name>" with invalid value')` |
| Parsing.GetObjectTypeFrom | src/lib/parser.ts:154-165 | an object or input-object type is returned as it is. Any other type resolves if and only if `__typename` is a string naming an object or input-object type of the schema, and then to that type. The result is always object-like |
| Parsing.ParseObjectWithSelectionsLoop | src/lib/parser.ts:43-53 | the loop over selections, stopping at the first throw, gives exactly the selection walk |
| Parsing.TreatSelectionRewritesOneKey | src/lib/parser.ts:55-67 | a selection the type does not declare leaves the record unchanged. A declared one rewrites only `data[alias ?? name]`, with the decoded value found there, and fails exactly when decoding fails |
| Parsing.ParseObjectFrame | src/lib/parser.ts:43-67 | after a successful walk, the keys are the old keys plus the response keys of declared selections; every other key keeps its value |
| Parsing.SkippedNonNullField | src/lib/parser.ts:64-97 | a declared Non-Null field that is absent from the response does not fail; its key is written with undefined |
| Parsing.SkippedNullableField | src/lib/parser.ts:64-88 | a declared nullable field that is absent from the response has its key written with `nullFunctions.parseValue(undefined)`, and fails when that throws |
| Parsing.NullableWrapsNonNull | src/lib/parser.ts:69-88 | at a nullable position, `nullFunctions.parseValue` is applied to the result of the Non-Null position, and a failure there propagates; the Non-Null position skips it |
| Parsing.NoneIsReturned | src/lib/parser.ts:97 | null and undefined come back unchanged at a Non-Null position; a nullable position applies only `parseValue` of the null functions to them |
| Parsing.StrictTypeIgnoresNullFunctions | src/lib/parser.ts:69-113 | for a type that is Non-Null at every level down to a leaf, the decoding is the same for every choice of null functions |
| Parsing.StrictItemsIgnoreNullFunctions | src/lib/parser.ts:129-137 | the element-wise decoding of such a type's list is the same for every choice of null functions |
| Parsing.ScalarDecoding | src/lib/parser.ts:99-118 | a scalar decodes with `functionsMap[name].parseValue` when that entry exists (a caller override wins), and otherwise with the type's own |
| Parsing.EnumDecoding | src/lib/parser.ts:103-127 | an enum value is returned unchanged and no codec sees it; the enum error is raised exactly when validation is on, the value is truthy and it is not among the enum's values |
| Parsing.EnumWithoutValidation | src/lib/parser.ts:120-121 | with validation off, every enum value comes back unchanged |
| Parsing.TreatItemsSpec | src/lib/parser.ts:129-137 | element-wise decoding succeeds exactly when every element decodes, and then keeps length and order; otherwise it fails with the error of the first failing element |
| Parsing.ListDecoding | src/lib/parser.ts:129-137 | an array decodes element by element against the element type, with the same field node: success exactly when every element succeeds, same length and order, and a failure is an element's failure. A non-array passes through |
| Parsing.NestedObjectDecoding | src/lib/parser.ts:139-165 | a non-record, or a field without sub-selections, passes through. Object and input-object types walk the record directly. Interfaces and unions walk it only through a string `__typename` that names an object or input-object type, and otherwise pass it through |
| RoundTrip.ScalarRoundTrip | src/lib/serializer.ts:27-58 | a value encoded and then decoded against a scalar type, under any number of lists, comes back as it was, if the scalar's codec is inverse and either the type is Non-Null at every level or both sides use the default null functions |
| RoundTrip.NonNullRoundTrip | src/lib/parser.ts:69-137 | the same with the outer nullability dropped; with `ScalarRoundTrip` this is the mutual induction over list depth |
| RoundTrip.EnumRoundTrip | src/lib/parser.ts:103-106 | an enum value is encoded by its codec and handed back as the wire value (or the enum error), so it returns to the original only when the codec's `serialize` leaves it as it is |
| RoundTrip.MaybeRoundTripFails | tests/nullable-functions.spec.ts:116-136 | with the `Maybe` null functions and an inverse codec (`BoxCodecIsInverse`), `just "a"` at a nullable position is sent as null and comes back as `nothing` |
| ResultDriver.RootTypeName | src/lib/treat-result.ts:14-31 | a query uses the schema's query type name, a mutation its mutation type name and a subscription its subscription type name |
| ResultDriver.RootTypeFor | src/lib/treat-result.ts:14-31 | the root type is present exactly when the schema names an object type for the operation's kind, and then it is that type |
| ResultDriver.TreatResult | src/lib/treat-result.ts:42-63 | a result without data, or for which the fragment reducer finds no operation definition, comes back unchanged; a successful return differs from the input at most in `data`, and has data exactly when the input did |
| ResultDriver.TreatResultParsesRootFields | src/lib/treat-result.ts:56-62 | with data, operation and root type present, the new data is the walk of the old data over the root field selections against the root type's fields; a throw there is the outcome |
| ResultDriver.NoRootTypeUnchanged | src/lib/treat-result.ts:56-57 | without a root type, the result comes back unchanged |
| ResultDriver.TreatResultFrame | src/lib/treat-result.ts:59-62 | the new data has the old keys plus the selected response keys; every key that no declared root selection names keeps its value |
| Link.LeafCodecs | src/lib/link.ts:48-53 | the leaf map holds exactly the schema's scalar and enum types, each under its key, with its own codec |
| Link.FunctionsMapOf | src/lib/link.ts:54 | the functions map holds every schema leaf type and every `typesMap` entry; on a name collision the `typesMap` entry wins |
| Link.CollectLeafTypes | src/lib/link.ts:48-53 | the constructor's loop over the type map builds exactly the leaf map |
| Link.ScalarLink.constructor | src/lib/link.ts:40-61 | absent options default to `typesMap` `{}`, `validateEnums` false, `removeTypenameFromInputs` false and the identity null functions; the functions map is the leaf map overlaid by `typesMap`, and the serializer gets the link's configuration |
| Link.ScalarLink.SerializeVariable | src/lib/link.ts:129-139 | the link's `serialize`; no contract of its own; specified by `VariableIgnoresNonNull`, `ListVariableMapsItems` and `NamedVariableUsesNullableType` |
| Link.ScalarLink.SerializeNamed | src/lib/link.ts:141-148 | `serializeNamed`; no contract of its own; specified by `NamedVariableUsesNullableType` and `UnknownNamedTypeUnchanged` |
| Link.ScalarLink.SerializedVariables | src/lib/link.ts:119-124 | the variables left by the loop of `cleanVariables`; no contract of its own; specified by `CleanVariables`, `VariablesFrame` and `DeclaredVariableSerialized` |
| Link.ScalarLink.Parse | src/lib/link.ts:100-109 | `parse`; no contract of its own; it is `ResultDriver.TreatResult` with the link's configuration |
| Link.ScalarLink.OnNext | src/lib/link.ts:76-86 | what `next` emits; no contract of its own; specified by `NoDataPassesThrough` and `ParseFailureEmitsErrors` |
| Link.ScalarLink.OverrideWins | src/lib/link.ts:48-56 | in a schema whose types sit under their own names, every leaf type uses the caller's codec when `typesMap` has one under its name, and otherwise its own |
| Link.ScalarLink.VariableIgnoresNonNull | src/lib/link.ts:129-132 | a variable is serialized as if every `!` in its type reference were erased |
| Link.ScalarLink.ListVariableMapsItems | src/lib/link.ts:134-136 | a List node maps an array element-wise, keeping length and order, and returns any other value unchanged, null included: no null function runs at a List node |
| Link.ScalarLink.NamedVariableUsesNullableType | src/lib/link.ts:141-148 | a named input type is serialized as a nullable position, so `nullFunctions.serialize` runs even for `$x: T!` |
| Link.ScalarLink.UnknownNamedTypeUnchanged | src/lib/link.ts:141-148 | a name missing from the schema, or naming a type that is not an input type, leaves the value unchanged |
| Link.ScalarLink.CleanVariables | src/lib/link.ts:114-127 | with no variable definitions, the operation is unchanged. Otherwise its variables (an empty map if it had none) are replaced by the key-by-key rewrite, and the same operation object is returned |
| Link.ScalarLink.VariablesFrame | src/lib/link.ts:119-125 | the rewrite writes exactly the declared keys; undeclared keys keep their values |
| Link.ScalarLink.DeclaredVariableSerialized | src/lib/link.ts:120-123 | a variable declared once ends as the serialization, against its declared type, of the caller's value (undefined when absent) |
| Link.ScalarLink.NoDataPassesThrough | src/lib/link.ts:76-78 | a response without data is emitted as it came |
| Link.ScalarLink.ParseFailureEmitsErrors | src/lib/link.ts:79-85 | when parsing throws, the emitted result has no data; its errors are the response's errors followed by the thrown error if it is a `GraphQLError`, and nothing is appended otherwise |
| Link.ErrorResult | src/lib/link.ts:79-85 | the error result has no data and no other field. Its errors start with the response's errors (none counts as empty), followed by exactly one more, carrying the message, when the throw is a `GraphQLError` |
| Link.InvalidEnumScenario | tests/validate-enums-from-query.spec.ts:114-143 | for a query without fragments (so the reducer returns its operation as it is) that selects an enum field twice, once under an alias holding an invalid value: with validation on, the link emits only the enum error; with it off, the response is returned unchanged |

## Left out

- The Observable plumbing of `request` (subscribe, next, error, complete, unsubscribe) and the `forward` call are left out: they are asynchronous stream handling. The model keeps what `next` emits for one response (`ScalarLink.OnNext`).
- `fragmentReducer` (src/lib/fragment-reducer.ts) is not part of this model. Its output for the operation's query is a parameter of `ResultDriver.TreatResult` and of `Link.ScalarLink.Parse`/`OnNext`: the first operation definition with every fragment expanded into field selections, root and nested alike, or nothing. The model does not relate that output to the query document. `cleanVariables` reads the first operation definition of the query itself, as link.ts:115 does.
- `isRecord` is taken to hold exactly of the `Record` case of the value datatype. A user object such as a `Date` is `Opaque`, which is neither a record nor an array.
- JavaScript property order is not modelled, because records are maps. `Object.entries` order in `serializeInputObject`, and the order of keys in the output, play no part.
- The parser updates `data` records in place and returns the same record. The link updates the operation's variables map in place. The model works on values: aliasing with other holders of those records is not captured.
- Numbers are modelled as integers; no floating point.
- Serializers and `nullFunctions.serialize` are taken to be total. A throw from them would escape `request` outside the modelled error handling.
- Enum membership (`includes`) is structural equality on values. For object-valued enum values, JavaScript compares by reference.
- A type name missing from the schema passes through in the serializer and in the parser. So does a non-input named type reached by the serializer. A graphql-js schema cannot produce either case.
- An absent response key whose field is selected is written back, not left absent: `data[key] = ...` runs unconditionally (parser.ts:65). At a Non-Null position the key is written with undefined (`Parsing.SkippedNonNullField`), which vitest's `toEqual`, as the tests use it, does not tell apart from an absent key: tests/ignore-non-nullability.spec.ts:79-89 expects no `item1` key, and passes only because `toEqual` ignores properties whose value is undefined. At a nullable position it is written with `nullFunctions.parseValue(undefined)` (`Parsing.SkippedNullableField`). That is undefined under the default null functions, but under custom ones it is a visible new entry, such as `{ typename: "nothing" }`, and a throw there fails the parse.
- Property reads (`Values.Get`, standing for `data[key]` at parser.ts:65 and `variables[key]` at link.ts:122) see a record's own keys only. In JavaScript, a key that names an `Object.prototype` member (a field aliased `toString`, an omitted `$constructor`) reads that inherited member instead of undefined.
- `RoundTrip.ScalarRoundTrip` is stated for scalars only. Enums are encoded by their codec but never decoded (parser.ts:103-106), so a codec that is not the identity does not round-trip: `RoundTrip.EnumRoundTrip` states what comes back instead.
- `RoundTrip.ScalarRoundTrip` assumes Non-Null types or the default null functions. With custom null functions, the serializer applies the codec to the still-wrapped value and only then `nullFunctions.serialize` (serializer.ts:36), while the parser decodes first and then wraps. So the two directions do not mirror each other: `RoundTrip.MaybeRoundTripFails` shows the `Maybe` pair of the tests losing a value.
- `rootTypeFor`'s final `return null` for an operation kind other than query, mutation or subscription is unreachable: `OperationKind` has only those three cases.
