/**
 * JavaScript values as the extension stores, exports and clones them:
 * `undefined`, `null`, booleans, numbers (integers here), strings, arrays
 * and objects with their keys in insertion order.
 */
module Json {

  datatype Value =
    | Undefined
    | Null
    | Bool(b: bool)
    | Number(n: int)
    | Str(s: string)
    | Array(items: seq<Value>)
    | Object(fields: seq<(string, Value)>)
  {
    /** JavaScript truthiness: `undefined`, `null`, `false`, 0 and '' are falsy; arrays and objects never are. */
    predicate Truthy()
    {
      match this
      case Undefined => false
      case Null => false
      case Bool(b) => b
      case Number(n) => n != 0
      case Str(s) => s != []
      case Array(_) => true
      case Object(_) => true
    }
  }

  /** `a || b`. */
  function Or(a: Value, b: Value): (r: Value)
    ensures r == a || r == b
    ensures r.Truthy() <==> a.Truthy() || b.Truthy()
  {
    if a.Truthy() then a else b
  }

  /** The value of the first field named `key`. */
  function Lookup(fields: seq<(string, Value)>, key: string): Value
  {
    if fields == [] then Undefined
    else if fields[0].0 == key then fields[0].1
    else Lookup(fields[1..], key)
  }

  /** The field at index `i` is the one found when no earlier field has the same key. */
  lemma {:induction false} LookupAt(fields: seq<(string, Value)>, i: nat, key: string)
    requires i < |fields| && fields[i].0 == key
    requires forall j :: 0 <= j < i ==> fields[j].0 != key
    ensures Lookup(fields, key) == fields[i].1
  {
    if i > 0 {
      LookupAt(fields[1..], i - 1, key);
    }
  }

  /** `v.key` for a value read back from JSON: `undefined` unless `v` is an object with that key. */
  function Get(v: Value, key: string): Value
  {
    if v.Object? then Lookup(v.fields, key) else Undefined
  }
}
