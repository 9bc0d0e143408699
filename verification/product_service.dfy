/** `normalizeProducts` of frontend/src/services/productService.js: whatever
    JSON value the product endpoints answer with becomes a plain list. */
module ProductService {
  import opened Wrappers

  /** A decoded JSON value (plus `undefined`). An object's fields are listed
      in the order `Object.keys` enumerates them; a JavaScript object has no
      two fields with the same key. NaN is not part of this model. */
  datatype Json =
    | JNull
    | JUndefined
    | JBool(b: bool)
    | JNum(n: real)
    | JStr(s: string)
    | JArr(elems: seq<Json>)
    | JObj(fields: seq<(string, Json)>)

  /** `!raw`: the falsy values. Arrays and objects, even empty ones, are
      truthy. */
  predicate Falsy(v: Json)
  {
    v == JNull || v == JUndefined || v == JBool(false) || v == JNum(0.0) || v == JStr("")
  }

  /** The property `raw[key]`; only objects have the wrapper keys. */
  function Get(v: Json, key: string): (r: Option<Json>)
    ensures r.Some? ==> v.JObj? && exists i | 0 <= i < |v.fields| :: v.fields[i] == (key, r.value)
    ensures r.None? <==> !v.JObj? || forall i | 0 <= i < |v.fields| :: v.fields[i].0 != key
  {
    if !v.JObj? then None else Lookup(v.fields, key)
  }

  function Lookup(fields: seq<(string, Json)>, key: string): (r: Option<Json>)
    ensures r.Some? ==> exists i | 0 <= i < |fields| :: fields[i] == (key, r.value)
    ensures r.None? <==> forall i | 0 <= i < |fields| :: fields[i].0 != key
  {
    if |fields| == 0 then None
    else if fields[0].0 == key then Some(fields[0].1)
    else
      var r := Lookup(fields[1..], key);
      assert r.Some? ==> exists i | 0 <= i < |fields| :: fields[i] == (key, r.value) by {
        if r.Some? {
          var i :| 0 <= i < |fields[1..]| && fields[1..][i] == (key, r.value);
          assert fields[i + 1] == (key, r.value);
        }
      }
      r
  }

  /** `Array.isArray(raw[key])`. */
  predicate ArrayAt(v: Json, key: string)
  {
    Get(v, key).Some? && Get(v, key).value.JArr?
  }

  /** `Object.keys(raw).find(key => Array.isArray(raw[key]))`. */
  function FirstArrayKey(fields: seq<(string, Json)>): (r: Option<string>)
    ensures r.Some? ==> exists i | 0 <= i < |fields| ::
                          (fields[i].0 == r.value && fields[i].1.JArr? && forall j | 0 <= j < i :: !fields[j].1.JArr?)
    ensures r.None? <==> forall i | 0 <= i < |fields| :: !fields[i].1.JArr?
  {
    if |fields| == 0 then None
    else if fields[0].1.JArr? then Some(fields[0].0)
    else
      var r := FirstArrayKey(fields[1..]);
      assert r.Some? ==> exists i | 0 <= i < |fields| ::
                           (fields[i].0 == r.value && fields[i].1.JArr? && forall j | 0 <= j < i :: !fields[j].1.JArr?) by {
        if r.Some? {
          var i :| 0 <= i < |fields[1..]| && fields[1..][i].0 == r.value && fields[1..][i].1.JArr?
                   && forall j | 0 <= j < i :: !fields[1..][j].1.JArr?;
          assert fields[i + 1] == fields[1..][i];
          forall j | 0 <= j < i + 1 ensures !fields[j].1.JArr? {
            if j > 0 { assert fields[j] == fields[1..][j - 1]; }
          }
        }
      }
      r
  }

  /** Falsy input gives nothing; an array is itself; then the `products`,
      `data` and `items` wrappers in that order; then the first field
      holding an array. A first array field named by the empty string is
      itself falsy, and then the result is empty. */
  function Normalize(raw: Json): (r: seq<Json>)
    ensures Falsy(raw) ==> r == []
    ensures raw.JArr? ==> r == raw.elems
  {
    if Falsy(raw) then []
    else if raw.JArr? then raw.elems
    else if ArrayAt(raw, "products") then Get(raw, "products").value.elems
    else if ArrayAt(raw, "data") then Get(raw, "data").value.elems
    else if ArrayAt(raw, "items") then Get(raw, "items").value.elems
    else if raw.JObj? then
      match FirstArrayKey(raw.fields)
      case Some(k) =>
        if k == "" then []
        else (match Get(raw, k) case Some(JArr(elems)) => elems case _ => [])
      case None => []
    else []
  }

  /** The list returned is always one the input holds: the input itself or
      the array under one of its keys, or else empty. */
  lemma NormalizeFindsAnArray(raw: Json)
    ensures var r := Normalize(raw);
            r == [] || raw == JArr(r) || exists k :: Get(raw, k) == Some(JArr(r))
  {
  }

  /** With distinct keys, the first array-valued field is the one returned,
      unless its key is the empty string. */
  lemma FirstArrayFieldReturned(fields: seq<(string, Json)>, i: nat)
    requires DistinctKeys(fields)
    requires i < |fields| && fields[i].1.JArr? && fields[i].0 != ""
    requires forall j | 0 <= j < i :: !fields[j].1.JArr?
    requires !ArrayAt(JObj(fields), "products") && !ArrayAt(JObj(fields), "data") && !ArrayAt(JObj(fields), "items")
    ensures Normalize(JObj(fields)) == fields[i].1.elems
  {
    var k :| 0 <= k < |fields| && fields[k].0 == FirstArrayKey(fields).value && fields[k].1.JArr?
             && forall j | 0 <= j < k :: !fields[j].1.JArr?;
    assert k == i;
    LookupDistinct(fields, i);
  }

  ghost predicate DistinctKeys(fields: seq<(string, Json)>)
  {
    forall i, j | 0 <= i < j < |fields| :: fields[i].0 != fields[j].0
  }

  lemma {:induction false} LookupDistinct(fields: seq<(string, Json)>, i: nat)
    requires DistinctKeys(fields) && i < |fields|
    ensures Lookup(fields, fields[i].0) == Some(fields[i].1)
  {
    if i > 0 {
      assert fields[0].0 != fields[i].0;
      LookupDistinct(fields[1..], i - 1);
    }
  }

  /** The wrappers are tried in order: an array under `products` wins over
      any under `data` or `items`, and `data` wins over `items`. */
  lemma WrapperPrecedence(fields: seq<(string, Json)>)
    ensures ArrayAt(JObj(fields), "products") ==> Normalize(JObj(fields)) == Get(JObj(fields), "products").value.elems
    ensures !ArrayAt(JObj(fields), "products") && ArrayAt(JObj(fields), "data") ==>
              Normalize(JObj(fields)) == Get(JObj(fields), "data").value.elems
    ensures !ArrayAt(JObj(fields), "products") && !ArrayAt(JObj(fields), "data") && ArrayAt(JObj(fields), "items") ==>
              Normalize(JObj(fields)) == Get(JObj(fields), "items").value.elems
  {
  }

  /** An object without any array-valued field, and any string, number or
      boolean, normalises to the empty list. */
  lemma NoArrayGivesEmpty(raw: Json)
    requires !raw.JArr?
    requires raw.JObj? ==> forall i | 0 <= i < |raw.fields| :: !raw.fields[i].1.JArr?
    ensures Normalize(raw) == []
  {
  }

}
