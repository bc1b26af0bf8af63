/**
 * The JavaScript values that the notes client handles, and the JSON documents
 * that JSON.stringify produces from them and JSON.parse reads back.
 *
 * A stored collection travels as JSON text. The text itself is abstracted: a
 * well-formed text is represented by the document it denotes (a `Json`), and
 * a text that JSON.parse rejects by `Blob.Unparsable`.
 */
module JsValues {

  /** A JavaScript value as far as the notes client can observe it. Numbers are
      whole numbers here; object properties are a map, so their order is not kept. */
  datatype Value =
    | Undefined
    | Null
    | Bool(b: bool)
    | Num(n: int)
    | Str(s: string)
    | Arr(elems: seq<Value>)
    | Obj(fields: map<string, Value>)

  /** A JSON document: what a JSON text denotes. It has no `undefined`. */
  datatype Json =
    | JNull
    | JBool(b: bool)
    | JNum(n: int)
    | JStr(s: string)
    | JArr(elems: seq<Json>)
    | JObj(fields: map<string, Json>)

  /** What the remote store holds under one key: a JSON text, or text that does not parse. */
  datatype Blob = Text(doc: Json) | Unparsable

  /** `null` or `undefined`: the entries `x !== null && x !== undefined` rejects. */
  predicate Nullish(v: Value) {
    v == Null || v == Undefined
  }

  /** JavaScript truthiness (`if (v)`, `v || d`); NaN and -0 do not arise with whole numbers. */
  predicate Truthy(v: Value): (r: bool)
    ensures r <==> v !in {Undefined, Null, Bool(false), Num(0), Str("")}
  {
    match v
    case Undefined => false
    case Null => false
    case Bool(b) => b
    case Num(n) => n != 0
    case Str(s) => s != ""
    case Arr(_) => true
    case Obj(_) => true
  }

  /** Reading property `key` of a value that is not null or undefined. Only plain
      objects carry the properties this client reads (`id`, `type`, `isOccupied`, ...);
      on any other value such a read gives `undefined`. */
  function Get(v: Value, key: string): (r: Value)
    ensures !v.Obj? ==> r == Undefined
    ensures v.Obj? && key !in v.fields ==> r == Undefined
    ensures v.Obj? && key in v.fields ==> r == v.fields[key]
  {
    if v.Obj? && key in v.fields then v.fields[key] else Undefined
  }

  /** `a === b`. Primitives compare by value; arrays and objects compare by identity,
      and a freshly parsed array or object is never identical to a value the caller holds,
      so they are never strictly equal here. */
  predicate StrictEquals(a: Value, b: Value): (r: bool)
    ensures r ==> a == b
    ensures a.Arr? || a.Obj? || b.Arr? || b.Obj? ==> !r
    ensures !a.Arr? && !a.Obj? ==> (r <==> a == b)
  {
    a == b && !a.Arr? && !a.Obj?
  }

  /** The document JSON.stringify writes for `v` when `v` stands in an array slot or is
      the value of a property: an `undefined` slot is written as `null`, and a property
      whose value is `undefined` is left out of its object. */
  function ToJson(v: Value): (j: Json)
    ensures j == JNull <==> v == Undefined || v == Null
    ensures v.Arr? <==> j.JArr?
    ensures v.Arr? ==> |j.elems| == |v.elems|
    ensures v.Obj? <==> j.JObj?
  {
    match v
    case Undefined => JNull
    case Null => JNull
    case Bool(b) => JBool(b)
    case Num(n) => JNum(n)
    case Str(s) => JStr(s)
    case Arr(es) => JArr(seq(|es|, i requires 0 <= i < |es| => ToJson(es[i])))
    case Obj(fs) => JObj(map k | k in fs && fs[k] != Undefined :: ToJson(fs[k]))
  }

  /** The value JSON.parse builds from a document. */
  function FromJson(j: Json): (v: Value)
    ensures v != Undefined
    ensures j == JNull <==> v == Null
    ensures j.JArr? <==> v.Arr?
    ensures j.JArr? ==> |v.elems| == |j.elems|
    ensures j.JObj? <==> v.Obj?
  {
    match j
    case JNull => Null
    case JBool(b) => Bool(b)
    case JNum(n) => Num(n)
    case JStr(s) => Str(s)
    case JArr(es) => Arr(seq(|es|, i requires 0 <= i < |es| => FromJson(es[i])))
    case JObj(fs) => Obj(map k | k in fs :: FromJson(fs[k]))
  }

  /** A value with no `undefined` anywhere in it: exactly the values that survive a
      stringify/parse round trip unchanged. */
  predicate Safe(v: Value) {
    match v
    case Undefined => false
    case Null => true
    case Bool(_) => true
    case Num(_) => true
    case Str(_) => true
    case Arr(es) => forall i :: 0 <= i < |es| ==> Safe(es[i])
    case Obj(fs) => forall k :: k in fs ==> Safe(fs[k])
  }

  /** Parsing what was stringified gives back every value that holds no `undefined`. */
  lemma {:induction false} ParseStringified(v: Value)
    requires Safe(v)
    ensures FromJson(ToJson(v)) == v
  {
    match v
    case Arr(es) =>
      forall i | 0 <= i < |es| ensures FromJson(ToJson(es[i])) == es[i] {
        ParseStringified(es[i]);
      }
      assert FromJson(ToJson(v)).elems == es;
    case Obj(fs) =>
      forall k | k in fs ensures FromJson(ToJson(fs[k])) == fs[k] {
        ParseStringified(fs[k]);
      }
      assert FromJson(ToJson(v)).fields == fs;
    case _ =>
  }

  /** Every value a stringify/parse round trip leaves unchanged holds no `undefined`:
      with `ParseStringified`, the round trip keeps exactly the `Safe` values. */
  lemma {:induction false} SurvivorsAreSafe(v: Value)
    requires FromJson(ToJson(v)) == v
    ensures Safe(v)
  {
    match v
    case Arr(es) =>
      forall i | 0 <= i < |es| ensures Safe(es[i]) {
        assert FromJson(ToJson(v)).elems[i] == FromJson(ToJson(es[i]));
        SurvivorsAreSafe(es[i]);
      }
    case Obj(fs) =>
      forall k | k in fs ensures Safe(fs[k]) {
        assert k in FromJson(ToJson(v)).fields;
        assert k in ToJson(v).fields;
        assert FromJson(ToJson(v)).fields[k] == FromJson(ToJson(fs[k]));
        SurvivorsAreSafe(fs[k]);
      }
    case _ =>
  }

  /** Stringifying what was parsed gives back the same document. */
  lemma {:induction false} StringifyParsed(j: Json)
    ensures ToJson(FromJson(j)) == j
  {
    match j
    case JArr(es) =>
      forall i | 0 <= i < |es| ensures ToJson(FromJson(es[i])) == es[i] {
        StringifyParsed(es[i]);
      }
      assert ToJson(FromJson(j)).elems == es;
    case JObj(fs) =>
      forall k | k in fs ensures ToJson(FromJson(fs[k])) == fs[k] {
        StringifyParsed(fs[k]);
      }
      assert ToJson(FromJson(j)).fields == fs;
    case _ =>
  }

  /** A parsed value never holds `undefined`. */
  lemma {:induction false} ParsedIsSafe(j: Json)
    ensures Safe(FromJson(j))
  {
    match j
    case JArr(es) =>
      forall i | 0 <= i < |es| ensures Safe(FromJson(es[i])) {
        ParsedIsSafe(es[i]);
      }
    case JObj(fs) =>
      forall k | k in fs ensures Safe(FromJson(fs[k])) {
        ParsedIsSafe(fs[k]);
      }
    case _ =>
  }

  /** Through a round trip an `undefined` array slot comes back as `null`, and an
      object comes back without the properties that were `undefined`. */
  lemma UndefinedAfterRoundTrip(v: Value)
    ensures v.Arr? ==> forall i :: 0 <= i < |v.elems| && v.elems[i] == Undefined ==>
      FromJson(ToJson(v)).elems[i] == Null
    ensures v.Obj? ==>
      && FromJson(ToJson(v)).Obj?
      && FromJson(ToJson(v)).fields.Keys == set k | k in v.fields && v.fields[k] != Undefined
  {
  }
}
