/** The untyped JavaScript values that flow through the link: operation
    variables on the way out and response `data` on the way back.
    Also holds the two small helpers of the library that work on any value:
    `isNone` (src/lib/is-none.ts) and `mapIfArray` (src/lib/map-if-array.ts). */
module Values {

  /** A JSON-like value tree. `Opaque` stands for a user object that is none
      of the other shapes (a `Date`, a class instance): `isRecord` is taken to
      hold exactly of `Record`. Numbers are modelled as integers. */
  datatype Value =
    | Null
    | Undefined
    | Bool(b: bool)
    | Num(n: int)
    | Str(s: string)
    | List(items: seq<Value>)
    | Record(fields: map<string, Value>)
    | Opaque(id: nat)

  /** The reserved type-discriminator key (the `__typename` meta-field). */
  const Typename: string := "__typename"

  /** What a JavaScript `throw` carries, as far as the library looks at it:
      a `GraphQLError` with its message, or anything else. */
  datatype Thrown = GraphQLError(message: string) | OtherError

  /** Own-property read `obj[key]`: a key the record does not hold reads as
      `undefined`. Names inherited from `Object.prototype` are not modelled. */
  function Get(fields: map<string, Value>, key: string): Value {
    if key in fields then fields[key] else Undefined
  }

  /** JavaScript truthiness, the test behind `!value`. */
  predicate Truthy(v: Value) {
    match v
    case Null => false
    case Undefined => false
    case Bool(b) => b
    case Num(n) => n != 0
    case Str(s) => s != ""
    case _ => true
  }

  /** `isNone(x)`: `x === undefined || x === null`. Unlike the truthiness
      test, the falsy values `false`, `0` and `""` are not "none". */
  predicate IsNone(v: Value)
    ensures IsNone(v) ==> !Truthy(v)
    ensures !IsNone(v) && !Truthy(v) ==> v == Bool(false) || v == Num(0) || v == Str("")
  {
    v == Null || v == Undefined
  }

  /** `mapIfArray(value, fn)`: an array is mapped element by element, any
      other value (null and undefined included, being no array) is returned
      as it is. */
  function MapIfArray(v: Value, f: Value --> Value): (r: Value)
    requires v.List? ==> forall i :: 0 <= i < |v.items| ==> f.requires(v.items[i])
    ensures !v.List? ==> r == v
    ensures v.List? ==> r.List? && |r.items| == |v.items|
    ensures v.List? ==> forall i :: 0 <= i < |v.items| ==> r.items[i] == f(v.items[i])
  {
    if v.List? then List(seq(|v.items|, i requires 0 <= i < |v.items| => f(v.items[i]))) else v
  }

  /** The four cases of `isNone` named in its contract: null and undefined
      are none; the falsy `0`, `""` and `false` are not; so `isNone` and
      falsiness differ exactly on these three. */
  lemma IsNoneCases()
    ensures IsNone(Null) && IsNone(Undefined)
    ensures !IsNone(Num(0)) && !IsNone(Str("")) && !IsNone(Bool(false))
    ensures !Truthy(Num(0)) && !Truthy(Str("")) && !Truthy(Bool(false))
  {
  }
}
