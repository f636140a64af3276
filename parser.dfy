/** The inbound parser (src/lib/parser.ts): decodes response data against
    the schema's output types and the query's field selections, applying the
    leaf decoders and the null functions, resolving interfaces and unions
    through `__typename`, and optionally checking enum membership. */
module Parsing {
  import opened Wrappers
  import opened Values
  import opened Schema
  import opened Ast

  /** The parser's read-only configuration. */
  datatype Parser = Parser(
    schema: Schema,
    functionsMap: map<string, Codec>,
    validateEnums: bool,
    nullFunctions: NullFunctions)

  /** `ensureNullable`: strip one Non-Null wrapper. */
  function EnsureNullable(t: GqlType): (r: NullableType)
    ensures t == NonNull(r) || t == Nullable(r)
    ensures NullableDepth(r) < Depth(t)
  {
    match t
    case NonNull(nt) => nt
    case Nullable(nt) => nt
  }

  /** The message of the error raised for an enum value outside its type. */
  function EnumErrorMessage(name: string): string {
    "enum \"" + name + "\" with invalid value"
  }

  /** The result of a record walk, as a value. */
  function AsRecord(r: Result<map<string, Value>, Thrown>): Result<Value, Thrown> {
    match r
    case Success(m) => Success(Record(m))
    case Failure(e) => Failure(e)
  }

  /** `parseObjectWithSelections`: treat the selections one after another,
      each on the record the previous one left; the first throw stops it. */
  function ParseObjectWithSelections(p: Parser, data: map<string, Value>, fieldMap: map<string, GqlType>,
                                     selections: seq<FieldNode>): Result<map<string, Value>, Thrown>
    decreases 4 * SelectionsSize(selections) + 2
  {
    if |selections| == 0 then Success(data)
    else
      var data' :- TreatSelection(p, data, fieldMap, selections[0]);
      ParseObjectWithSelections(p, data', fieldMap, selections[1..])
  }

  /** The loop of `parseObjectWithSelections`: each selection is treated on
      the record the previous one returned; a throw ends the walk. */
  method ParseObjectWithSelectionsLoop(p: Parser, data: map<string, Value>, fieldMap: map<string, GqlType>,
                                       selections: seq<FieldNode>) returns (r: Result<map<string, Value>, Thrown>)
    ensures r == ParseObjectWithSelections(p, data, fieldMap, selections)
  {
    var current := data;
    for i := 0 to |selections|
      invariant ParseObjectWithSelections(p, current, fieldMap, selections[i..])
             == ParseObjectWithSelections(p, data, fieldMap, selections)
    {
      assert selections[i..][1..] == selections[i + 1..];
      var next := TreatSelection(p, current, fieldMap, selections[i]);
      if next.Failure? {
        return Failure(next.error);
      }
      current := next.value;
    }
    assert selections[|selections|..] == [];
    return Success(current);
  }

  /** `treatSelection`: a selection whose field the type does not declare
      leaves the record alone; otherwise the value under its response key is
      decoded against the field's type and written back under that key. */
  function TreatSelection(p: Parser, data: map<string, Value>, fieldMap: map<string, GqlType>,
                          fieldNode: FieldNode): Result<map<string, Value>, Thrown>
    decreases 4 * FieldSize(fieldNode) + 1
  {
    if fieldNode.name !in fieldMap then Success(data)
    else
      var key := ResponseKey(fieldNode);
      var v :- TreatValue(p, Get(data, key), fieldMap[fieldNode.name], fieldNode);
      Success(data[key := v])
  }

  /** `treatValue`: a Non-Null type skips the null functions. */
  function TreatValue(p: Parser, v: Value, t: GqlType, fieldNode: FieldNode): Result<Value, Thrown>
    decreases 4 * FieldSize(fieldNode), v, Depth(t), 3
  {
    if t.NonNull? then TreatValueInternal(p, v, t, fieldNode)
    else TreatValueNullable(p, v, t, fieldNode)
  }

  /** `treatValueNullable`: the null function's `parseValue` applied to the
      decoded value. */
  function TreatValueNullable(p: Parser, v: Value, t: GqlType, fieldNode: FieldNode): Result<Value, Thrown>
    decreases 4 * FieldSize(fieldNode), v, Depth(t), 2
  {
    var wrapped :- TreatValueInternal(p, v, t, fieldNode);
    p.nullFunctions.parseValue(wrapped)
  }

  /** `treatValueInternal`: none passes through; then scalar, enum, list and
      composite types are handled in that order. A name missing from the
      schema (impossible in a graphql-js schema) passes through. */
  function TreatValueInternal(p: Parser, v: Value, t: GqlType, fieldNode: FieldNode): Result<Value, Thrown>
    decreases 4 * FieldSize(fieldNode), v, Depth(t), 1
  {
    var nt := EnsureNullable(t);
    if IsNone(v) then Success(v)
    else
      match nt
      case ListOf(e) => ParseArray(p, v, e, fieldNode)
      case NamedRef(n) =>
        if n !in p.schema.types then Success(v)
        else
          var named := p.schema.types[n];
          if named.ScalarType? then ParseScalar(p, v, named)
          else if named.EnumType? then
            match ValidateEnum(p, v, named)
            case Some(e) => Failure(e)
            case None => Success(v)
          else ParseNestedObject(p, v, named, fieldNode)
  }

  /** `parseScalar`: decode with the registered codec, or the type's own. */
  function ParseScalar(p: Parser, v: Value, t: NamedType): Result<Value, Thrown>
    requires t.ScalarType?
  {
    LeafCodec(p.functionsMap, t).parseValue(v)
  }

  /** `validateEnum`: the error it throws, if any. It throws only when
      validation is on, the value is truthy and not among the enum's values. */
  function ValidateEnum(p: Parser, v: Value, t: NamedType): (r: Option<Thrown>)
    requires t.EnumType?
    ensures r.Some? <==> p.validateEnums && Truthy(v) && v !in t.values
    ensures r.Some? ==> r.value == GraphQLError(EnumErrorMessage(t.name))
  {
    if !p.validateEnums || !Truthy(v) then None
    else if v !in t.values then Some(GraphQLError(EnumErrorMessage(t.name)))
    else None
  }

  /** `parseArray`: an array is decoded element by element against the
      element type with the same field node; any other value passes through. */
  function ParseArray(p: Parser, v: Value, elem: GqlType, fieldNode: FieldNode): Result<Value, Thrown>
    decreases 4 * FieldSize(fieldNode), v, Depth(elem), 5
  {
    if v.List? then
      var items :- TreatItems(p, v, 0, elem, fieldNode);
      Success(List(items))
    else Success(v)
  }

  /** `value.map(...)` from index `i` on, left to right. */
  function TreatItems(p: Parser, v: Value, i: nat, elem: GqlType, fieldNode: FieldNode): Result<seq<Value>, Thrown>
    requires v.List? && i <= |v.items|
    decreases 4 * FieldSize(fieldNode), v, Depth(elem), 4, |v.items| - i
  {
    if i == |v.items| then Success([])
    else
      var x :- TreatValue(p, v.items[i], elem, fieldNode);
      var rest :- TreatItems(p, v, i + 1, elem, fieldNode);
      Success([x] + rest)
  }

  /** `parseNestedObject`: a non-record, or a field without nested
      selections, passes through; so does a value whose concrete type cannot
      be resolved. Otherwise the record is walked with the resolved type. */
  function ParseNestedObject(p: Parser, v: Value, t: NamedType, fieldNode: FieldNode): Result<Value, Thrown>
    decreases 4 * FieldSize(fieldNode), v, 0, 0
  {
    if !v.Record? || |fieldNode.selections| == 0 then Success(v)
    else
      match GetObjectTypeFrom(p, v.fields, t)
      case None => Success(v)
      case Some(ot) => AsRecord(ParseObjectWithSelections(p, v.fields, ot.fields, fieldNode.selections))
  }

  /** `getObjectTypeFrom`: an object or input-object type is used as it is;
      an interface or union is resolved through a string `__typename` that
      names an object or input-object type of the schema. */
  function GetObjectTypeFrom(p: Parser, value: map<string, Value>, t: NamedType): (r: Option<NamedType>)
    ensures r.Some? ==> r.value.IsObjectLike()
    ensures t.IsObjectLike() ==> r == Some(t)
    ensures !t.IsObjectLike() ==>
      (r.Some? <==> Get(value, Typename).Str? && Get(value, Typename).s in p.schema.types
                    && p.schema.types[Get(value, Typename).s].IsObjectLike())
    ensures !t.IsObjectLike() && r.Some? ==> r.value == p.schema.types[Get(value, Typename).s]
  {
    if t.IsObjectLike() then Some(t)
    else
      var typename := Get(value, Typename);
      if !typename.Str? then None
      else if typename.s in p.schema.types && p.schema.types[typename.s].IsObjectLike() then Some(p.schema.types[typename.s])
      else None
  }

  // ---------------------------------------------------------------------
  // Properties
  // ---------------------------------------------------------------------

  /** At a nullable position the null function's `parseValue` is applied to
      what the same position would give if it were Non-Null. */
  lemma NullableWrapsNonNull(p: Parser, v: Value, nt: NullableType, fieldNode: FieldNode)
    ensures TreatValue(p, v, Nullable(nt), fieldNode) ==
      match TreatValue(p, v, NonNull(nt), fieldNode)
      case Success(w) => p.nullFunctions.parseValue(w)
      case Failure(e) => Failure(e)
  {
    assert TreatValueInternal(p, v, Nullable(nt), fieldNode) == TreatValueInternal(p, v, NonNull(nt), fieldNode);
  }

  /** Null and undefined are returned before any scalar, enum, list or
      object handling; at a Non-Null position they come back unchanged. */
  lemma NoneIsReturned(p: Parser, v: Value, nt: NullableType, fieldNode: FieldNode)
    requires IsNone(v)
    ensures TreatValue(p, v, NonNull(nt), fieldNode) == Success(v)
    ensures TreatValue(p, v, Nullable(nt), fieldNode) == p.nullFunctions.parseValue(v)
  {
    assert TreatValueInternal(p, v, Nullable(nt), fieldNode) == Success(v);
  }

  /** With no nullable position anywhere in the type, the null functions are
      never consulted. */
  lemma {:induction false} StrictTypeIgnoresNullFunctions(p: Parser, v: Value, t: GqlType, fieldNode: FieldNode, nf: NullFunctions)
    requires StrictLeafType(p.schema, t)
    ensures TreatValue(p, v, t, fieldNode) == TreatValue(p.(nullFunctions := nf), v, t, fieldNode)
    decreases v, Depth(t), 1
  {
    var p' := p.(nullFunctions := nf);
    match t
    case NonNull(ListOf(e)) =>
      if !IsNone(v) {
        assert TreatValue(p, v, t, fieldNode) == ParseArray(p, v, e, fieldNode);
        assert TreatValue(p', v, t, fieldNode) == ParseArray(p', v, e, fieldNode);
        if v.List? {
          assert Depth(e) < Depth(t);
          StrictItemsIgnoreNullFunctions(p, v, 0, e, fieldNode, nf);
        }
      }
    case NonNull(NamedRef(n)) =>
  }

  lemma {:induction false} StrictItemsIgnoreNullFunctions(p: Parser, v: Value, i: nat, e: GqlType, fieldNode: FieldNode, nf: NullFunctions)
    requires StrictLeafType(p.schema, e)
    requires v.List? && i <= |v.items|
    ensures TreatItems(p, v, i, e, fieldNode) == TreatItems(p.(nullFunctions := nf), v, i, e, fieldNode)
    decreases v, Depth(e), 0, |v.items| - i
  {
    if i < |v.items| {
      StrictTypeIgnoresNullFunctions(p, v.items[i], e, fieldNode, nf);
      StrictItemsIgnoreNullFunctions(p, v, i + 1, e, fieldNode, nf);
    }
  }

  /** A scalar decodes with the registered codec when the functions map has
      an entry for its name (a caller override), else with the type's own. */
  lemma ScalarDecoding(p: Parser, v: Value, n: string, fieldNode: FieldNode)
    requires n in p.schema.types && p.schema.types[n].ScalarType?
    requires !IsNone(v)
    ensures var t := p.schema.types[n];
      TreatValue(p, v, NonNull(NamedRef(n)), fieldNode) ==
        if t.name in p.functionsMap then p.functionsMap[t.name].parseValue(v) else t.codec.parseValue(v)
  {
  }

  /** An enum value is returned unchanged and never passed to a codec; it
      raises the enum error exactly when validation is on, the value is
      truthy and it is not among the enum's values. */
  lemma EnumDecoding(p: Parser, v: Value, n: string, fieldNode: FieldNode)
    requires n in p.schema.types && p.schema.types[n].EnumType?
    requires !IsNone(v)
    ensures var t := p.schema.types[n];
      TreatValue(p, v, NonNull(NamedRef(n)), fieldNode) ==
        if p.validateEnums && Truthy(v) && v !in t.values
        then Failure(GraphQLError(EnumErrorMessage(t.name)))
        else Success(v)
  {
  }

  /** With validation off, no enum value raises anything. */
  lemma EnumWithoutValidation(p: Parser, v: Value, n: string, fieldNode: FieldNode)
    requires n in p.schema.types && p.schema.types[n].EnumType?
    requires !p.validateEnums
    ensures TreatValue(p, v, NonNull(NamedRef(n)), fieldNode) == Success(v)
  {
  }

  /** `value.map` from index `i`: it succeeds exactly when every element
      does, and then keeps length and order; otherwise it fails with the
      error of the first failing element. */
  lemma {:induction false} TreatItemsSpec(p: Parser, v: Value, i: nat, e: GqlType, fieldNode: FieldNode)
    requires v.List? && i <= |v.items|
    ensures var r := TreatItems(p, v, i, e, fieldNode);
      && (r.Success? <==> forall j :: i <= j < |v.items| ==> TreatValue(p, v.items[j], e, fieldNode).Success?)
      && (r.Success? ==>
            && |r.value| == |v.items| - i
            && forall j :: 0 <= j < |r.value| ==> TreatValue(p, v.items[i + j], e, fieldNode) == Success(r.value[j]))
      && (r.Failure? ==>
            exists j :: (&& i <= j < |v.items|
                         && TreatValue(p, v.items[j], e, fieldNode) == Failure(r.error)
                         && forall k :: i <= k < j ==> TreatValue(p, v.items[k], e, fieldNode).Success?))
    decreases |v.items| - i
  {
    if i < |v.items| {
      TreatItemsSpec(p, v, i + 1, e, fieldNode);
      var r := TreatItems(p, v, i, e, fieldNode);
      var x := TreatValue(p, v.items[i], e, fieldNode);
      var rest := TreatItems(p, v, i + 1, e, fieldNode);
      if x.Success? && rest.Success? {
        assert r.value == [x.value] + rest.value;
        forall j | 0 <= j < |r.value|
          ensures TreatValue(p, v.items[i + j], e, fieldNode) == Success(r.value[j])
        {
          if j > 0 {
            assert r.value[j] == rest.value[j - 1];
            assert i + j == (i + 1) + (j - 1);
          }
        }
      } else if x.Failure? {
        assert r.Failure? && r.error == x.error;
      } else {
        var j :| i + 1 <= j < |v.items| && TreatValue(p, v.items[j], e, fieldNode) == Failure(rest.error)
              && forall k :: i + 1 <= k < j ==> TreatValue(p, v.items[k], e, fieldNode).Success?;
        assert r.Failure? && r.error == rest.error;
        assert forall k :: i <= k < j ==> TreatValue(p, v.items[k], e, fieldNode).Success?;
      }
    }
  }

  /** A list type decodes an array element by element against the element
      type, reusing the same field node; any other value passes through. */
  lemma ListDecoding(p: Parser, v: Value, e: GqlType, fieldNode: FieldNode)
    requires !IsNone(v)
    ensures var r := TreatValue(p, v, NonNull(ListOf(e)), fieldNode);
      && (!v.List? ==> r == Success(v))
      && (v.List? ==>
          && (r.Success? <==> forall j :: 0 <= j < |v.items| ==> TreatValue(p, v.items[j], e, fieldNode).Success?)
          && (r.Success? ==>
                && r.value.List? && |r.value.items| == |v.items|
                && forall j :: 0 <= j < |v.items| ==> TreatValue(p, v.items[j], e, fieldNode) == Success(r.value.items[j]))
          && (r.Failure? ==> exists j :: 0 <= j < |v.items| && TreatValue(p, v.items[j], e, fieldNode) == Failure(r.error)))
  {
    assert TreatValue(p, v, NonNull(ListOf(e)), fieldNode) == ParseArray(p, v, e, fieldNode);
    if v.List? {
      TreatItemsSpec(p, v, 0, e, fieldNode);
      var items := TreatItems(p, v, 0, e, fieldNode);
      if items.Success? {
        forall j | 0 <= j < |v.items|
          ensures TreatValue(p, v.items[j], e, fieldNode) == Success(items.value[j])
        {
          assert 0 + j == j;
        }
      }
    }
  }

  /** Composite types: a non-record, or a field without nested selections,
      passes through; object and input-object types are walked directly;
      interfaces and unions only through a `__typename` that resolves to an
      object or input-object type, and pass through otherwise. */
  lemma NestedObjectDecoding(p: Parser, v: Value, n: string, fieldNode: FieldNode)
    requires n in p.schema.types && !p.schema.types[n].IsLeaf()
    requires !IsNone(v)
    ensures var t := p.schema.types[n];
      var r := TreatValue(p, v, NonNull(NamedRef(n)), fieldNode);
      && (!v.Record? || |fieldNode.selections| == 0 ==> r == Success(v))
      && (v.Record? && |fieldNode.selections| > 0 && t.IsObjectLike() ==>
            r == AsRecord(ParseObjectWithSelections(p, v.fields, t.fields, fieldNode.selections)))
      && (v.Record? && |fieldNode.selections| > 0 && !t.IsObjectLike() ==>
            var tn := Get(v.fields, Typename);
            if tn.Str? && tn.s in p.schema.types && p.schema.types[tn.s].IsObjectLike()
            then r == AsRecord(ParseObjectWithSelections(p, v.fields, p.schema.types[tn.s].fields, fieldNode.selections))
            else r == Success(v))
  {
    assert TreatValue(p, v, NonNull(NamedRef(n)), fieldNode)
        == ParseNestedObject(p, v, p.schema.types[n], fieldNode);
  }

  /** The response keys a selection list may rewrite: those of the
      selections whose field name the type declares. */
  function SelectedKeys(fieldMap: map<string, GqlType>, selections: seq<FieldNode>): set<string> {
    set f | f in selections && f.name in fieldMap :: ResponseKey(f)
  }

  /** `treatSelection` rewrites only the response key of a declared field,
      with the decoded form of the value found there. */
  lemma TreatSelectionRewritesOneKey(p: Parser, data: map<string, Value>, fieldMap: map<string, GqlType>, f: FieldNode)
    ensures var r := TreatSelection(p, data, fieldMap, f);
      && (f.name !in fieldMap ==> r == Success(data))
      && (f.name in fieldMap ==>
            var d := TreatValue(p, Get(data, ResponseKey(f)), fieldMap[f.name], f);
            && (r.Success? <==> d.Success?)
            && (r.Success? ==> r.value == data[ResponseKey(f) := d.value]))
  {
  }

  /** `parseObjectWithSelections` adds no key other than the response keys
      of declared selections, and leaves every other entry as it was. */
  lemma {:induction false} ParseObjectFrame(p: Parser, data: map<string, Value>, fieldMap: map<string, GqlType>, selections: seq<FieldNode>)
    ensures var r := ParseObjectWithSelections(p, data, fieldMap, selections);
      r.Success? ==>
        && r.value.Keys == data.Keys + SelectedKeys(fieldMap, selections)
        && forall k :: k in data && k !in SelectedKeys(fieldMap, selections) ==> r.value[k] == data[k]
    decreases |selections|
  {
    if |selections| > 0 {
      var f := selections[0];
      var first := TreatSelection(p, data, fieldMap, f);
      if first.Success? {
        TreatSelectionRewritesOneKey(p, data, fieldMap, f);
        ParseObjectFrame(p, first.value, fieldMap, selections[1..]);
        assert forall g :: g in selections <==> g == f || g in selections[1..];
        assert SelectedKeys(fieldMap, selections) ==
          SelectedKeys(fieldMap, selections[1..]) + (if f.name in fieldMap then {ResponseKey(f)} else {});
      }
    }
  }

  /** A selected field that the response skipped (for instance under
      `@skip`) does not fail at a Non-Null position: its key is written with
      `undefined`, which vitest's `toEqual`, as the tests use it, does not
      tell apart from an absent key. */
  lemma SkippedNonNullField(p: Parser, data: map<string, Value>, fieldMap: map<string, GqlType>, f: FieldNode)
    requires f.name in fieldMap && fieldMap[f.name].NonNull?
    requires ResponseKey(f) !in data
    ensures TreatSelection(p, data, fieldMap, f) == Success(data[ResponseKey(f) := Undefined])
  {
    assert TreatValue(p, Undefined, fieldMap[f.name], f) == Success(Undefined);
  }

  /** A selected field that the response skipped, at a nullable position:
      its key is written with `nullFunctions.parseValue(undefined)`, which is
      `undefined` only for null functions that return it as it is, and a
      throw there fails the whole walk. */
  lemma SkippedNullableField(p: Parser, data: map<string, Value>, fieldMap: map<string, GqlType>, f: FieldNode)
    requires f.name in fieldMap && fieldMap[f.name].Nullable?
    requires ResponseKey(f) !in data
    ensures TreatSelection(p, data, fieldMap, f) ==
      match p.nullFunctions.parseValue(Undefined)
      case Success(w) => Success(data[ResponseKey(f) := w])
      case Failure(e) => Failure(e)
  {
    NoneIsReturned(p, Undefined, fieldMap[f.name].nullable, f);
  }
}
