/** The outbound serializer (src/lib/serializer.ts): encodes a variable value
    against a schema input type, applying the leaf codecs at scalar and enum
    positions and the null functions at every nullable position. */
module Serialization {
  import opened Wrappers
  import opened Values
  import opened Schema

  /** The serializer's read-only configuration. */
  datatype Serializer = Serializer(
    schema: Schema,
    functionsMap: map<string, Codec>,
    removeTypenameFromInputs: bool,
    nullFunctions: NullFunctions)

  /** `serialize(value, type)`: a Non-Null type is encoded without the null
      functions, a nullable one through them. */
  function Serialize(s: Serializer, v: Value, t: GqlType): Value
    decreases v, Depth(t), 2
  {
    match t
    case NonNull(nt) => SerializeInternal(s, v, nt)
    case Nullable(nt) => SerializeNullable(s, v, nt)
  }

  /** `serializeNullable`: the null function's `serialize` applied to the
      encoded value. */
  function SerializeNullable(s: Serializer, v: Value, nt: NullableType): Value
    decreases v, NullableDepth(nt) + 1, 1
  {
    s.nullFunctions.serialize(SerializeInternal(s, v, nt))
  }

  /** `serializeInternal`: none passes through; leaves use their codec;
      lists map element-wise; anything else is walked as an input object. */
  function SerializeInternal(s: Serializer, v: Value, nt: NullableType): Value
    decreases v, NullableDepth(nt), 3
  {
    if IsNone(v) then v
    else
      match nt
      case ListOf(e) => MapIfArray(v, (x: Value) requires x < v => Serialize(s, x, e))
      case NamedRef(n) =>
        if n !in s.schema.types then v
        else
          var t := s.schema.types[n];
          if t.IsLeaf() then SerializeLeaf(s, v, t)
          else if t.InputObjectType? then SerializeInputObject(s, v, t.fields)
          else v
  }

  /** `serializeLeaf`: the registered codec, or the type's own. */
  function SerializeLeaf(s: Serializer, v: Value, t: NamedType): Value
    requires t.IsLeaf()
  {
    LeafCodec(s.functionsMap, t).serialize(v)
  }

  /** The entries `serializeInputObject` iterates: the record itself, or a
      copy without `__typename` when the flag asks for it. */
  function InputEntries(s: Serializer, fields: map<string, Value>): (r: map<string, Value>)
    ensures r.Keys == if s.removeTypenameFromInputs then fields.Keys - {Typename} else fields.Keys
    ensures forall k :: k in r ==> r[k] == fields[k]
  {
    if s.removeTypenameFromInputs then fields - {Typename} else fields
  }

  /** `serializeInputObject`: a non-record passes through; otherwise every
      entry is kept under its key, encoded against the declared field type
      when the input type declares it and copied when it does not. */
  function SerializeInputObject(s: Serializer, v: Value, fieldTypes: map<string, GqlType>): Value
    decreases v, 0, 0
  {
    if !v.Record? then v
    else
      var entries := InputEntries(s, v.fields);
      Record(map k | k in entries ::
        if k in fieldTypes then Serialize(s, entries[k], fieldTypes[k]) else entries[k])
  }

  /** The loop of `serializeInputObject` (copy, delete `__typename`, then fill
      a fresh `ret` entry by entry), shown to build the record above. */
  method SerializeInputObjectLoop(s: Serializer, value: map<string, Value>, fieldTypes: map<string, GqlType>)
    returns (ret: map<string, Value>)
    ensures Record(ret) == SerializeInputObject(s, Record(value), fieldTypes)
  {
    var mutableValue := value;
    if s.removeTypenameFromInputs {
      mutableValue := mutableValue - {Typename};
    }
    ret := map[];
    var pending := mutableValue.Keys;
    while pending != {}
      invariant pending <= mutableValue.Keys
      invariant ret.Keys == mutableValue.Keys - pending
      invariant forall k :: k in ret ==>
        ret[k] == if k in fieldTypes then Serialize(s, mutableValue[k], fieldTypes[k]) else mutableValue[k]
      decreases pending
    {
      var key :| key in pending;
      var val := mutableValue[key];
      ret := ret[key := if key in fieldTypes then Serialize(s, val, fieldTypes[key]) else val];
      pending := pending - {key};
    }
  }

  // ---------------------------------------------------------------------
  // Properties
  // ---------------------------------------------------------------------

  /** At a nullable position the null function's `serialize` is applied
      exactly once, to what the same position would give if it were Non-Null. */
  lemma NullableWrapsNonNull(s: Serializer, v: Value, nt: NullableType)
    ensures Serialize(s, v, Nullable(nt)) == s.nullFunctions.serialize(Serialize(s, v, NonNull(nt)))
  {
  }

  /** With no nullable position anywhere in the type, the null functions are
      never consulted: any other pair gives the same encoding. */
  lemma {:induction false} StrictTypeIgnoresNullFunctions(s: Serializer, v: Value, t: GqlType, nf: NullFunctions)
    requires StrictLeafType(s.schema, t)
    ensures Serialize(s, v, t) == Serialize(s.(nullFunctions := nf), v, t)
    decreases v, Depth(t)
  {
    var s' := s.(nullFunctions := nf);
    match t
    case NonNull(ListOf(e)) =>
      if !IsNone(v) && v.List? {
        var a := Serialize(s, v, t);
        var b := Serialize(s', v, t);
        assert a == SerializeInternal(s, v, ListOf(e));
        assert b == SerializeInternal(s', v, ListOf(e));
        forall i | 0 <= i < |v.items| ensures a.items[i] == b.items[i] {
          StrictTypeIgnoresNullFunctions(s, v.items[i], e, nf);
        }
      }
    case NonNull(NamedRef(n)) =>
  }

  /** Null and undefined are returned as they are by every walk below a
      position: no codec, list map or object walk sees them. */
  lemma NoneIsAbsorbed(s: Serializer, v: Value, nt: NullableType)
    requires IsNone(v)
    ensures Serialize(s, v, NonNull(nt)) == v
    ensures Serialize(s, v, Nullable(nt)) == s.nullFunctions.serialize(v)
  {
  }

  /** A scalar or enum leaf is encoded by its registered codec when the
      functions map has an entry for its name, else by the type's own. */
  lemma LeafEncoding(s: Serializer, v: Value, n: string)
    requires n in s.schema.types && s.schema.types[n].IsLeaf()
    requires !IsNone(v)
    ensures var t := s.schema.types[n];
      Serialize(s, v, NonNull(NamedRef(n))) ==
        if t.name in s.functionsMap then s.functionsMap[t.name].serialize(v) else t.codec.serialize(v)
  {
  }

  /** A list type maps an array element by element against the element
      type, keeping length and order; any other value passes through. */
  lemma ListEncoding(s: Serializer, v: Value, e: GqlType)
    requires !IsNone(v)
    ensures var r := Serialize(s, v, NonNull(ListOf(e)));
      && (!v.List? ==> r == v)
      && (v.List? ==> r.List? && |r.items| == |v.items|
                      && forall i :: 0 <= i < |v.items| ==> r.items[i] == Serialize(s, v.items[i], e))
  {
    assert Serialize(s, v, NonNull(ListOf(e))) == SerializeInternal(s, v, ListOf(e));
  }

  /** An input object type: a non-record passes through; a record keeps
      exactly its keys (less `__typename` under the flag), encodes declared
      fields against their types, copies undeclared ones, and never gains a
      declared field that the input lacks. */
  lemma InputObjectEncoding(s: Serializer, v: Value, n: string)
    requires n in s.schema.types && s.schema.types[n].InputObjectType?
    requires !IsNone(v)
    ensures var fieldTypes := s.schema.types[n].fields;
      var r := Serialize(s, v, NonNull(NamedRef(n)));
      && (!v.Record? ==> r == v)
      && (v.Record? ==>
          && r.Record?
          && r.fields.Keys == (if s.removeTypenameFromInputs then v.fields.Keys - {Typename} else v.fields.Keys)
          && (forall k :: k in r.fields && k in fieldTypes ==> r.fields[k] == Serialize(s, v.fields[k], fieldTypes[k]))
          && (forall k :: k in r.fields && k !in fieldTypes ==> r.fields[k] == v.fields[k])
          && (forall k :: k in fieldTypes && k !in v.fields ==> k !in r.fields))
  {
    assert Serialize(s, v, NonNull(NamedRef(n))) == SerializeInternal(s, v, NamedRef(n));
    assert SerializeInternal(s, v, NamedRef(n)) == SerializeInputObject(s, v, s.schema.types[n].fields);
  }
}
