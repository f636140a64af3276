/** The parts of a query document the library reads: the operation
    definition, its variable definitions with their type nodes, and its
    field selections. Fragment spreads are taken to be inlined already into
    nested selections, as the fragment reducer the library calls returns them. */
module Ast {
  import opened Wrappers

  /** A type reference in a variable definition: `T`, `[T]` or `T!`. */
  datatype TypeNode = NamedType(name: string) | ListType(ofType: TypeNode) | NonNullType(ofType: TypeNode)

  /** A field selection with its optional alias and its nested field
      selections (a reduced field node: nested fragments already inlined).
      A field without a selection set has an empty `selections`; the library
      treats a missing selection set and an empty one alike. */
  datatype FieldNode = FieldNode(name: string, alias: Option<string>, selections: seq<FieldNode>)

  /** A selection of the operation's root selection set. */
  datatype Selection = FieldSelection(field: FieldNode) | FragmentSpread(fragmentName: string) | InlineFragment(typeCondition: Option<string>)

  datatype VariableDefinition = VariableDefinition(variable: string, typeNode: TypeNode)

  datatype OperationKind = Query | Mutation | Subscription

  datatype OperationDef = OperationDef(operation: OperationKind, variableDefinitions: seq<VariableDefinition>, selections: seq<Selection>)

  datatype Definition = OperationDefinition(def: OperationDef) | FragmentDefinition(name: string)

  datatype Document = Document(definitions: seq<Definition>)

  /** The key under which a field's value appears in a response: its alias
      if it has one, otherwise its name (section 2.7 of the GraphQL specification). */
  function ResponseKey(f: FieldNode): string {
    match f.alias
    case Some(a) => a
    case None => f.name
  }

  /** Size of a selection tree; every field node counts one. It bounds the
      recursion of the parser, which descends into nested selections. */
  function FieldSize(f: FieldNode): nat
    decreases f
  {
    1 + SelectionsSize(f.selections)
  }

  function SelectionsSize(s: seq<FieldNode>): nat
    decreases s
  {
    if |s| == 0 then 0 else FieldSize(s[0]) + SelectionsSize(s[1..])
  }

  /** `definitions.find(isOperationDefinitionNode)`: the first operation
      definition of the document, if any. */
  function FirstOperation(defs: seq<Definition>): (r: Option<OperationDef>)
    ensures r.None? <==> forall i :: 0 <= i < |defs| ==> !defs[i].OperationDefinition?
    ensures r.Some? ==> exists i :: 0 <= i < |defs| && defs[i] == OperationDefinition(r.value)
                                   && forall j :: 0 <= j < i ==> !defs[j].OperationDefinition?
  {
    if |defs| == 0 then None
    else if defs[0].OperationDefinition? then Some(defs[0].def)
    else
      FirstOperation(defs[1..])
  }

  /** `selections.filter(isFieldNode)`: the field selections, in order. */
  function FieldSelections(sels: seq<Selection>): (r: seq<FieldNode>)
    ensures |r| <= |sels|
    ensures forall f :: f in r <==> FieldSelection(f) in sels
    ensures (forall i :: 0 <= i < |sels| ==> sels[i].FieldSelection?) ==>
              |r| == |sels| && forall i :: 0 <= i < |sels| ==> r[i] == sels[i].field
  {
    if |sels| == 0 then []
    else
      var rest := FieldSelections(sels[1..]);
      assert forall s :: s in sels <==> s == sels[0] || s in sels[1..];
      if sels[0].FieldSelection? then [sels[0].field] + rest else rest
  }

  /** One selection gives its field, or nothing when it is not a field. */
  lemma FieldSelectionsSingle(s: Selection)
    ensures FieldSelections([s]) == if s.FieldSelection? then [s.field] else []
  {
    assert [s][1..] == [];
  }

  /** The filter distributes over concatenation, so it keeps the relative
      order and the multiplicity of the field selections; with the single
      case above this determines the result for every list. */
  lemma {:induction false} FieldSelectionsConcat(a: seq<Selection>, b: seq<Selection>)
    ensures FieldSelections(a + b) == FieldSelections(a) + FieldSelections(b)
    decreases |a|
  {
    if |a| > 0 {
      assert (a + b)[0] == a[0];
      assert (a + b)[1..] == a[1..] + b;
      FieldSelectionsConcat(a[1..], b);
    } else {
      assert a + b == b;
    }
  }
}
