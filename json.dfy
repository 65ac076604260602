/** Parsed request bodies, and the few ways the route handlers look into
    them. A body that is not valid JSON is `None` where a body is expected:
    `request.json()` then throws and the handler answers INTERNAL_ERROR. */
module Json {
  import opened Basics

  datatype Json =
    | JNull
    | JBool(b: bool)
    | JNumber(n: real)
    | JString(s: string)
    | JArray(items: seq<Json>)
    | JObject(fields: map<string, Json>)

  /** `v.key` for a value that is not `null`: an object's own field, and
      `undefined` (`None`) for anything else. */
  function Field(v: Json, key: string): (r: Option<Json>)
    ensures r.Some? <==> v.JObject? && key in v.fields
    ensures r.Some? ==> r.value == v.fields[key]
  {
    if v.JObject? && key in v.fields then Some(v.fields[key]) else None
  }

  /** `Number.isInteger(x)` for a finite number. */
  predicate IsInteger(x: real)
  {
    x == x.Floor as real
  }

  /** The guard `!ids || !Array.isArray(ids) || ids.length === 0` lets the
      value through exactly when it is a non-empty array. */
  predicate NonEmptyArray(v: Option<Json>)
  {
    v.Some? && v.value.JArray? && |v.value.items| > 0
  }

  /** The id list of an `{ id: { in: ids } }` filter. The database client
      refuses a list holding anything but integral numbers (`None`). */
  function IdList(items: seq<Json>): (r: Option<seq<int>>)
    ensures r.Some? <==> forall i :: 0 <= i < |items| ==> items[i].JNumber? && IsInteger(items[i].n)
    ensures r.Some? ==> |r.value| == |items| && forall i :: 0 <= i < |items| ==> r.value[i] as real == items[i].n
  {
    if items == [] then Some([])
    else
      var rest := IdList(items[1..]);
      assert forall i :: 1 <= i < |items| ==> items[i] == items[1..][i - 1];
      if items[0].JNumber? && IsInteger(items[0].n) && rest.Some? then
        Some([items[0].n.Floor] + rest.value)
      else
        None
  }

  /** The set of ids a valid list names (duplicates collapse). */
  function IdSet(ids: seq<int>): (r: set<int>)
    ensures forall x :: x in r <==> x in ids
  {
    set x | x in ids
  }
}
