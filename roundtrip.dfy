/** The outbound serializer and the inbound parser side by side: a value
    encoded against a scalar type (through any number of lists) and decoded
    against the same type comes back as it was, when the scalar's codec is
    inverse and the null functions play no part. Also the two places where
    the library's directions do not mirror each other: enums, which the
    parser never decodes, and custom null functions, which the serializer
    applies after the codec. */
module RoundTrip {
  import opened Wrappers
  import opened Values
  import opened Schema
  import opened Ast
  import opened Serialization
  import opened Parsing

  /** `parseValue` undoes `serialize` on every non-none value, and
      `serialize` never turns such a value into null or undefined. */
  ghost predicate Inverse(c: Codec) {
    forall x :: !IsNone(x) ==> !IsNone(c.serialize(x)) && c.parseValue(c.serialize(x)) == Success(x)
  }

  /** A type that is the named type `n` under zero or more lists, each
      level Non-Null or not. */
  predicate ListsOf(t: GqlType, n: string)
    decreases Depth(t)
  {
    match EnsureNullable(t)
    case NamedRef(m) => m == n
    case ListOf(e) => ListsOf(e, n)
  }

  /** A serializer and a parser built from the same link configuration. */
  ghost predicate SameConfiguration(s: Serializer, p: Parser) {
    s.schema == p.schema && s.functionsMap == p.functionsMap
  }

  /** Encoding and then decoding against a scalar type, through any number
      of lists, gives back the value, when the scalar's codec is inverse and
      either the type is Non-Null at every level or both sides use the
      default null functions. */
  lemma {:induction false} ScalarRoundTrip(s: Serializer, p: Parser, v: Value, t: GqlType, n: string, f: FieldNode)
    requires SameConfiguration(s, p)
    requires n in s.schema.types && s.schema.types[n].ScalarType?
    requires Inverse(LeafCodec(s.functionsMap, s.schema.types[n]))
    requires ListsOf(t, n)
    requires StrictLeafType(s.schema, t) || (s.nullFunctions == DefaultNullFunctions && p.nullFunctions == DefaultNullFunctions)
    ensures TreatValue(p, Serialize(s, v, t), t, f) == Success(v)
    decreases v, Depth(t)
  {
    var nt := EnsureNullable(t);
    NonNullRoundTrip(s, p, v, t, n, f);
    if t.Nullable? {
      var w := Serialize(s, v, NonNull(nt));
      Serialization.NullableWrapsNonNull(s, v, nt);
      assert Serialize(s, v, t) == w;
      Parsing.NullableWrapsNonNull(p, w, nt, f);
    }
  }

  /** The Non-Null core of the round trip: the same, with the outer
      nullability of `t` dropped. */
  lemma {:induction false} NonNullRoundTrip(s: Serializer, p: Parser, v: Value, t: GqlType, n: string, f: FieldNode)
    requires SameConfiguration(s, p)
    requires n in s.schema.types && s.schema.types[n].ScalarType?
    requires Inverse(LeafCodec(s.functionsMap, s.schema.types[n]))
    requires ListsOf(t, n)
    requires StrictLeafType(s.schema, t) || (s.nullFunctions == DefaultNullFunctions && p.nullFunctions == DefaultNullFunctions)
    ensures var u := NonNull(EnsureNullable(t));
      TreatValue(p, Serialize(s, v, u), u, f) == Success(v)
    decreases v, Depth(t), 0
  {
    var nt := EnsureNullable(t);
    var u := NonNull(nt);
    if IsNone(v) {
      NoneIsAbsorbed(s, v, nt);
      NoneIsReturned(p, v, nt, f);
    } else {
      match nt
      case NamedRef(m) =>
        var c := LeafCodec(s.functionsMap, s.schema.types[n]);
        LeafEncoding(s, v, n);
        var w := Serialize(s, v, u);
        assert w == c.serialize(v);
        ScalarDecoding(p, w, n, f);
      case ListOf(e) =>
        var w := Serialize(s, v, u);
        ListEncoding(s, v, e);
        if v.List? {
          ListDecoding(p, w, e, f);
          forall j | 0 <= j < |w.items|
            ensures TreatValue(p, w.items[j], e, f) == Success(v.items[j])
          {
            ScalarRoundTrip(s, p, v.items[j], e, n, f);
          }
          var r := TreatValue(p, w, u, f);
          assert r.value.items == v.items;
        } else {
          ListDecoding(p, w, e, f);
        }
    }
  }

  /** An enum is encoded by its codec but never decoded: the parser hands
      back the wire value (or the enum error), so the round trip returns
      the original value only when the codec's `serialize` leaves it as it
      is. */
  lemma EnumRoundTrip(s: Serializer, p: Parser, v: Value, n: string, f: FieldNode)
    requires SameConfiguration(s, p)
    requires n in s.schema.types && s.schema.types[n].EnumType?
    requires !IsNone(v)
    ensures var t := s.schema.types[n];
      var w := LeafCodec(s.functionsMap, t).serialize(v);
      TreatValue(p, Serialize(s, v, NonNull(NamedRef(n))), NonNull(NamedRef(n)), f) ==
        if p.validateEnums && Truthy(w) && w !in t.values
        then Failure(GraphQLError(EnumErrorMessage(t.name)))
        else Success(w)
  {
    LeafEncoding(s, v, n);
    var w := LeafCodec(s.functionsMap, s.schema.types[n]).serialize(v);
    if IsNone(w) {
      NoneIsReturned(p, w, NamedRef(n), f);
    } else {
      EnumDecoding(p, w, n, f);
    }
  }

  // ---------------------------------------------------------------------
  // Custom null functions (after tests/nullable-functions.spec.ts): the
  // `Maybe` pair, with a scalar codec that is inverse
  // ---------------------------------------------------------------------

  /** `{ typename: "just", value }` or `{ typename: "nothing" }`. */
  function Just(x: Value): Value {
    Record(map["typename" := Str("just"), "value" := x])
  }

  const Nothing: Value := Record(map["typename" := Str("nothing")])

  /** The `Maybe` null functions: `parseValue` wraps, `serialize` unwraps a
      `just` and turns anything else into null. */
  function MaybeNullFunctions(): NullFunctions {
    NullFunctions(
      (m: Value) => if m.Record? && Get(m.fields, "typename") == Str("just") then Get(m.fields, "value") else Null,
      (raw: Value) => if IsNone(raw) then Success(Nothing) else Success(Just(raw)))
  }

  /** A scalar codec that boxes a value into a one-element list and unboxes
      it again. */
  function BoxCodec(): Codec {
    Codec((x: Value) => List([x]), (y: Value) => if y.List? && |y.items| == 1 then Success(y.items[0]) else Success(y))
  }

  function BoxSchema(): Schema {
    Schema(map["Box" := ScalarType("Box", BoxCodec())], None, None, None)
  }

  /** The box codec is inverse, so the scalar round trip would hold of it
      without null functions. */
  lemma BoxCodecIsInverse()
    ensures Inverse(LeafCodec(map[], BoxSchema().types["Box"]))
  {
    var c := LeafCodec(map[], BoxSchema().types["Box"]);
    forall x | !IsNone(x) ensures !IsNone(c.serialize(x)) && c.parseValue(c.serialize(x)) == Success(x) {
      assert c.serialize(x) == List([x]);
    }
  }

  /** With the `Maybe` null functions, `just "a"` at a nullable `Box`
      position does not come back: the codec is applied to the wrapped
      value, the result is no `just`, so it goes out as null and returns as
      `nothing`. */
  lemma MaybeRoundTripFails(f: FieldNode)
    ensures var s := Serializer(BoxSchema(), map[], false, MaybeNullFunctions());
      var p := Parser(BoxSchema(), map[], false, MaybeNullFunctions());
      var t := Nullable(NamedRef("Box"));
      && Serialize(s, Just(Str("a")), t) == Null
      && TreatValue(p, Serialize(s, Just(Str("a")), t), t, f) == Success(Nothing)
      && Nothing != Just(Str("a"))
  {
    var s := Serializer(BoxSchema(), map[], false, MaybeNullFunctions());
    var p := Parser(BoxSchema(), map[], false, MaybeNullFunctions());
    var t := Nullable(NamedRef("Box"));
    assert Serialize(s, Just(Str("a")), t) == MaybeNullFunctions().serialize(List([Just(Str("a"))]));
    NoneIsReturned(p, Null, NamedRef("Box"), f);
    assert "value" in Just(Str("a")).fields && "value" !in Nothing.fields;
  }
}
