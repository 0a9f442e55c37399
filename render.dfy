/**
 * How `generate_image_via_http` turns the JSON body of a successful
 * response into a result: the keys `url`, `result_url`, `image_url`,
 * `output`, `outputs` are tried in that order, and the first one whose value
 * has a usable shape wins.
 */
module Render {
  import opened Wrappers
  import opened Text

  /** A decoded JSON value. Numbers are kept as integers: the model never
      computes with one, though a number found under a URL key is returned
      as the result like any other value. */
  datatype Json =
    | JNull
    | JBool(b: bool)
    | JNumber(n: int)
    | JString(s: string)
    | JArray(items: seq<Json>)
    | JObject(fields: map<string, Json>)

  /** The end of the extraction: a value found under a key; the fallback
      reached after every key (`False` with the serialised body); or the
      `TypeError` that indexing or searching a body that is not an object
      raises (`False` with the exception text). */
  datatype Extraction = Found(value: Json) | NoUrl | Raised

  const ResponseKeys: seq<string> := ["url", "result_url", "image_url", "output", "outputs"]

  /** The keys looked up inside a nested object, in this order. */
  const UrlKeys: seq<string> := ["url", "image_url", "result_url"]

  /** The value of the first of `keys` that `fields` has. */
  function FirstField(fields: map<string, Json>, keys: seq<string>): (r: Option<Json>)
    ensures r.Some? <==> exists k :: k in keys && k in fields
    ensures r.Some? ==> exists i ::
      && 0 <= i < |keys| && keys[i] in fields && r.value == fields[keys[i]]
      && forall j :: 0 <= j < i ==> keys[j] !in fields
  {
    if keys == [] then None
    else if keys[0] in fields then Some(fields[keys[0]])
    else FirstField(fields, keys[1..])
  }

  /** What the value under a response key yields: for a non-empty list its
      first element, if that is a string or an object with a URL key; a
      string itself; for an object its first URL key. */
  function Candidate(val: Json): (r: Option<Json>)
    ensures val.JNull? || val.JBool? || val.JNumber? ==> r == None
    ensures val.JString? ==> r == Some(val)
    ensures val.JObject? ==> (r.Some? <==> exists k :: k in UrlKeys && k in val.fields)
    ensures val.JObject? ==> r == FirstField(val.fields, UrlKeys)
    ensures val.JArray? && |val.items| > 0 && val.items[0].JString? ==> r == Some(val.items[0])
    ensures val.JArray? && |val.items| > 0 && val.items[0].JObject? ==> r == FirstField(val.items[0].fields, UrlKeys)
    ensures val.JArray? && (|val.items| == 0 || !(val.items[0].JString? || val.items[0].JObject?)) ==> r == None
    ensures r.Some? && val.JObject? ==> r.value in val.fields.Values
    ensures r.Some? && val.JArray? ==>
      |val.items| > 0 && (r.value == val.items[0] || (val.items[0].JObject? && r.value in val.items[0].fields.Values))
  {
    match val
    case JArray(items) =>
      if |items| > 0 then
        match items[0]
        case JObject(f) => FirstField(f, UrlKeys)
        case JString(_) => Some(items[0])
        case _ => None
      else None
    case JString(_) => Some(val)
    case JObject(f) => FirstField(f, UrlKeys)
    case _ => None
  }

  /** Python's `k in data`: key membership for an object, element equality
      for a list, substring search for a string; `None` for the
      `TypeError` it raises on a number, a boolean or `null`. */
  function Contains(data: Json, k: string): (r: Option<bool>)
    ensures r.None? <==> data.JNull? || data.JBool? || data.JNumber?
    ensures data.JString? ==> (r == Some(true) <==> exists i :: OccursAt(k, data.s, i))
  {
    match data
    case JObject(f) => Some(k in f)
    case JArray(items) => Some(JString(k) in items)
    case JString(s) =>
      IsInfixAt(k, s);
      Some(IsInfix(k, s))
    case _ => None
  }

  /** The loop over `keys`, as a recursive definition. */
  function Scan(data: Json, keys: seq<string>): (r: Extraction)
    ensures r.Found? ==> data.JObject?
    ensures data.JObject? ==> !r.Raised?
  {
    if keys == [] then NoUrl
    else
      match Contains(data, keys[0])
      case None => Raised
      case Some(false) => Scan(data, keys[1..])
      case Some(true) =>
        if data.JObject? then
          match Candidate(data.fields[keys[0]])
          case Some(v) => Found(v)
          case None => Scan(data, keys[1..])
        else Raised
  }

  /** The search over the response keys: a result comes only from an object,
      and is what one of its keys yields; an object never raises. */
  function Extract(data: Json): (r: Extraction)
    ensures r.Found? ==> data.JObject? && exists i :: WinsAt(data.fields, ResponseKeys, i, r.value)
    ensures data.JObject? ==> !r.Raised?
  {
    var r := Scan(data, ResponseKeys);
    assert r.Found? ==> exists i :: WinsAt(data.fields, ResponseKeys, i, r.value) by {
      if r.Found? {
        ScanFound(data.fields, ResponseKeys, r.value);
      }
    }
    r
  }

  /** The inner `for key in ("url", "image_url", "result_url")` loop. */
  method FindField(fields: map<string, Json>, keys: seq<string>) returns (r: Option<Json>)
    ensures r == FirstField(fields, keys)
  {
    var j := 0;
    while j < |keys|
      invariant 0 <= j <= |keys|
      invariant FirstField(fields, keys[j..]) == FirstField(fields, keys)
    {
      if keys[j] in fields {
        return Some(fields[keys[j]]);
      }
      j := j + 1;
    }
    return None;
  }

  /** The extraction loop of `generate_image_via_http`, with its early returns. */
  method ExtractResult(data: Json) returns (r: Extraction)
    ensures r == Extract(data)
  {
    var i := 0;
    while i < |ResponseKeys|
      invariant 0 <= i <= |ResponseKeys|
      invariant Scan(data, ResponseKeys[i..]) == Extract(data)
    {
      var k := ResponseKeys[i];
      var present := Contains(data, k);
      if present.None? {
        return Raised;
      }
      if present.value {
        if !data.JObject? {
          return Raised;
        }
        var val := data.fields[k];
        if val.JArray? && |val.items| > 0 {
          var first := val.items[0];
          if first.JObject? {
            var found := FindField(first.fields, UrlKeys);
            if found.Some? {
              return Found(found.value);
            }
          }
          if first.JString? {
            return Found(first);
          }
        } else {
          if val.JString? {
            return Found(val);
          }
          if val.JObject? {
            var found := FindField(val.fields, UrlKeys);
            if found.Some? {
              return Found(found.value);
            }
          }
        }
      }
      i := i + 1;
    }
    return NoUrl;
  }

  /** Key `keys[i]` is the first of `keys` whose value is usable, and it yields `v`. */
  ghost predicate WinsAt(fields: map<string, Json>, keys: seq<string>, i: int, v: Json) {
    && 0 <= i < |keys|
    && keys[i] in fields && Candidate(fields[keys[i]]) == Some(v)
    && forall j :: 0 <= j < i ==> keys[j] !in fields || Candidate(fields[keys[j]]) == None
  }

  lemma {:induction false} ScanFound(fields: map<string, Json>, keys: seq<string>, v: Json)
    ensures Scan(JObject(fields), keys) == Found(v) <==> exists i :: WinsAt(fields, keys, i, v)
  {
    if keys != [] {
      ScanFound(fields, keys[1..], v);
      var k := keys[0];
      if k in fields && Candidate(fields[k]).Some? {
        if Candidate(fields[k]) == Some(v) {
          assert WinsAt(fields, keys, 0, v);
        } else {
          forall i ensures !WinsAt(fields, keys, i, v) {
            if i > 0 && 0 <= i < |keys| {
              assert 0 <= 0 < i;
            }
          }
        }
      } else {
        if exists i :: WinsAt(fields, keys[1..], i, v) {
          var i :| WinsAt(fields, keys[1..], i, v);
          assert WinsAt(fields, keys, i + 1, v);
        }
        if exists i :: WinsAt(fields, keys, i, v) {
          var i :| WinsAt(fields, keys, i, v);
          assert i != 0;
          assert WinsAt(fields, keys[1..], i - 1, v);
        }
      }
    }
  }

  /** A result is found exactly when the body is an object with a key, in
      the order `url`, `result_url`, `image_url`, `output`, `outputs`, whose
      value is usable, every earlier key being absent or unusable; the
      result is what that first usable key yields. */
  lemma ExtractFound(data: Json, v: Json)
    ensures Extract(data) == Found(v) <==> data.JObject? && exists i :: WinsAt(data.fields, ResponseKeys, i, v)
  {
    if data.JObject? {
      ScanFound(data.fields, ResponseKeys, v);
    }
  }

  /** A key whose value has an unusable shape is passed over: the result is
      the same as if the key were not there. */
  lemma {:induction false} ScanSkipsUnusable(fields: map<string, Json>, keys: seq<string>, k: string)
    requires k in fields && Candidate(fields[k]) == None
    ensures Scan(JObject(fields), keys) == Scan(JObject(fields - {k}), keys)
  {
    if keys != [] {
      ScanSkipsUnusable(fields, keys[1..], k);
      if keys[0] != k {
        assert (keys[0] in fields) == (keys[0] in fields - {k});
        if keys[0] in fields {
          assert fields[keys[0]] == (fields - {k})[keys[0]];
        }
      }
    }
  }

  lemma ExtractSkipsUnusable(fields: map<string, Json>, k: string)
    requires k in fields && Candidate(fields[k]) == None
    ensures Extract(JObject(fields)) == Extract(JObject(fields - {k}))
  {
    ScanSkipsUnusable(fields, ResponseKeys, k);
  }
}
