/**
 * Parsed JSON as JavaScript sees it after `JSON.parse`, with the property
 * reads, truthiness, `||`, `??` and `typeof` tests the standings extractor
 * applies to it.
 *
 * An object is the list of its own properties in the order `Object.values`
 * reports them. `JSON.parse` never leaves two properties with one key (a
 * repeated key keeps its first position and its last value), so the field
 * lists that model parsed documents have distinct keys. The type does not
 * enforce this: on a list with a repeated key, a lookup reads the first entry
 * with that key and `Values` lists every entry.
 */
module Json {
  import opened Wrappers

  datatype Value =
    | Null
    | Bool(b: bool)
    | Number(n: real)
    | Str(s: string)
    | Array(elems: seq<Value>)
    | Object(fields: seq<Field>)

  datatype Field = Field(key: string, val: Value)

  /** The values of a field list, in order. */
  function Values(fields: seq<Field>): (vals: seq<Value>)
    ensures |vals| == |fields|
    ensures forall i :: 0 <= i < |fields| ==> vals[i] == fields[i].val
  {
    seq(|fields|, i requires 0 <= i < |fields| => fields[i].val)
  }

  /** The value stored under `key`, or `None` (undefined) when there is none. */
  function Lookup(fields: seq<Field>, key: string): (r: Option<Value>)
  {
    if fields == [] then None
    else if fields[0].key == key then Some(fields[0].val)
    else Lookup(fields[1..], key)
  }

  /** A lookup finds nothing exactly when no field has the key, and otherwise
      the value of the first field that has it. */
  lemma {:induction false} LookupFirst(fields: seq<Field>, key: string)
    ensures var r := Lookup(fields, key);
            && (r.None? <==> forall i :: 0 <= i < |fields| ==> fields[i].key != key)
            && (r.Some? ==> exists i :: 0 <= i < |fields| && fields[i].key == key && fields[i].val == r.value
                                        && forall j :: 0 <= j < i ==> fields[j].key != key)
  {
    if fields != [] && fields[0].key != key {
      LookupFirst(fields[1..], key);
      var r := Lookup(fields, key);
      if r.Some? {
        var i :| 0 <= i < |fields[1..]| && fields[1..][i].key == key && fields[1..][i].val == r.value
                 && forall j :: 0 <= j < i ==> fields[1..][j].key != key;
        assert fields[i + 1] == fields[1..][i];
        forall j | 0 <= j < i + 1 ensures fields[j].key != key {
          if j > 0 {
            assert fields[j] == fields[1..][j - 1];
          }
        }
      }
      assert forall i :: 0 <= i < |fields[1..]| ==> fields[1..][i] == fields[i + 1];
    }
  }

  /** A value found by a lookup is one of the object's values. */
  lemma {:induction false} LookupInValues(fields: seq<Field>, key: string)
    ensures Lookup(fields, key).Some? ==> Lookup(fields, key).value in Values(fields)
  {
    if fields != [] && fields[0].key != key {
      LookupInValues(fields[1..], key);
      assert Values(fields[1..]) == Values(fields)[1..];
    }
  }

  /** `v[key]` for a value that is neither null nor undefined. Arrays, strings,
      numbers and booleans have none of the property names the extractor reads. */
  function Member(v: Value, key: string): (r: Option<Value>)
    ensures !v.Object? ==> r.None?
  {
    if v.Object? then Lookup(v.fields, key) else None
  }

  /** A property read finds one of the value's children. */
  lemma MemberInChildren(v: Value, key: string)
    ensures Member(v, key).Some? ==> Member(v, key).value in Children(v)
  {
    if v.Object? {
      LookupInValues(v.fields, key);
    }
  }

  /** `o?.[key]`: undefined when `o` is null or undefined. */
  function OptionalMember(o: Option<Value>, key: string): (r: Option<Value>)
    ensures o.None? || o.value.Null? ==> r.None?
    ensures o.Some? && !o.value.Null? ==> r == Member(o.value, key)
  {
    match o
    case None => None
    case Some(Null) => None
    case Some(v) => Member(v, key)
  }

  /** JavaScript truthiness of a value that may be undefined. JSON has no NaN. */
  predicate Truthy(o: Option<Value>) {
    match o
    case None => false
    case Some(Null) => false
    case Some(Bool(b)) => b
    case Some(Number(n)) => n != 0.0
    case Some(Str(s)) => s != ""
    case Some(Array(_)) => true
    case Some(Object(_)) => true
  }

  /** Null or undefined: what `??` falls through on. */
  predicate Nullish(o: Option<Value>) {
    o.None? || o.value.Null?
  }

  /** `a || b` */
  function Or(a: Option<Value>, b: Option<Value>): (r: Option<Value>)
    ensures Truthy(a) ==> r == a
    ensures !Truthy(a) ==> r == b
  {
    if Truthy(a) then a else b
  }

  /** `a ?? b` */
  function Coalesce(a: Option<Value>, b: Option<Value>): (r: Option<Value>)
    ensures !Nullish(a) ==> r == a
    ensures Nullish(a) ==> r == b
  {
    if Nullish(a) then b else a
  }

  /** `typeof v === 'object'`, which holds for null, arrays and objects. */
  predicate IsObjectType(v: Value) {
    v.Null? || v.Array? || v.Object?
  }

  /** `Object.values(v)`: the elements of an array, the property values of an
      object, and nothing for a primitive. */
  function Children(v: Value): seq<Value> {
    match v
    case Array(elems) => elems
    case Object(fields) => Values(fields)
    case _ => []
  }
}
