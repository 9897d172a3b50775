/** The closed lookup tables of networking.cpp: HTTP status codes with their
    reason phrases, and the four content types with their media-type names.
    A lookup outside a table is an error, never a default. */
module Tables {
  import opened Common

  /** The `content_type` enumeration. Its declaration is not part of this
      model; the four entries of the table get their own constructor, and
      `Unlisted` stands for any other value of the underlying integer (a C++
      enumeration can hold one through a cast). */
  datatype ContentType = TextHtml | ImageJpeg | TextCss | ApplicationJson | Unlisted(code: int)

  /** `s_status_codes`, in the map's (ascending) order. */
  const StatusTable: seq<(int, string)> := [
    (200, "OK"),
    (204, "No Content"),
    (302, "Moved"),
    (400, "Bad Request"),
    (401, "Unauthorized"),
    (404, "Not Found"),
    (413, "Payload Too Large"),
    (415, "Unsupported Media Type"),
    (500, "Internal Server Error")
  ]

  /** `s_content_types`, in the enumeration's order. */
  const ContentTypeTable: seq<(ContentType, string)> := [
    (TextHtml, "text/html"),
    (ImageJpeg, "image/jpeg"),
    (TextCss, "text/css"),
    (ApplicationJson, "application/json")
  ]

  /** `std::map::find`: the value of the first entry whose key is `k`. */
  function FindByKey<K(==), V>(table: seq<(K, V)>, k: K): (r: Option<V>)
    ensures r.None? <==> forall i :: 0 <= i < |table| ==> table[i].0 != k
    ensures r.Some? ==> exists i :: 0 <= i < |table| && table[i] == (k, r.value)
  {
    if table == [] then None
    else if table[0].0 == k then Some(table[0].1)
    else FindByKey(table[1..], k)
  }

  /** The range-for over a table that returns the key of the first entry
      whose value equals `v`. */
  function FindByValue<K, V(==)>(table: seq<(K, V)>, v: V): (r: Option<K>)
    ensures r.None? <==> forall i :: 0 <= i < |table| ==> table[i].1 != v
    ensures r.Some? ==> exists i :: 0 <= i < |table| && table[i] == (r.value, v)
  {
    if table == [] then None
    else if table[0].1 == v then Some(table[0].0)
    else FindByValue(table[1..], v)
  }

  /** `status_code_to_string`: the reason phrase of one of the nine listed
      codes; any other code is an error. */
  function StatusReason(code: int): (r: Result<string>)
    ensures r.Ok? <==> code in {200, 204, 302, 400, 401, 404, 413, 415, 500}
    ensures r.Err? ==> r.error == InvalidStatusCode(code)
    ensures code == 404 ==> r == Ok("Not Found")
  {
    match FindByKey(StatusTable, code)
    case Some(reason) => Ok(reason)
    case None => Err(InvalidStatusCode(code))
  }

  /** `content_type_to_string`: the media-type name of a table entry; any
      other value is an error carrying its integer code. */
  function ContentTypeName(t: ContentType): (r: Result<string>)
    ensures r.Ok? <==> !t.Unlisted?
    ensures t.Unlisted? ==> r == Err(InvalidContentTypeCode(t.code))
    ensures r.Ok? ==> r.value in {"text/html", "image/jpeg", "text/css", "application/json"}
  {
    match FindByKey(ContentTypeTable, t)
    case Some(name) => Ok(name)
    case None => Err(InvalidContentTypeCode(if t.Unlisted? then t.code else 0))
  }

  /** The table scan of `content_type_from_string`: the content type whose
      name equals `name` exactly; anything else is an error. */
  function LookupContentType(name: string): (r: Result<ContentType>)
    ensures r.Ok? <==> name in {"text/html", "image/jpeg", "text/css", "application/json"}
    ensures r.Ok? ==> ContentTypeName(r.value) == Ok(name)
    ensures r.Err? ==> r.error == InvalidContentType(name)
  {
    match FindByValue(ContentTypeTable, name)
    case Some(t) => Ok(t)
    case None => Err(InvalidContentType(name))
  }

  /** The text `content_type_from_string` compares: everything before the
      first `;`, or before the first NUL, where the C string that
      `c_str()` yields ends. */
  function MediaTypeText(s: string): (t: string)
    ensures StartsWith(s, t)
    ensures forall i :: 0 <= i < |t| ==> t[i] != ';' && t[i] != '\0'
    ensures |t| < |s| ==> s[|t|] == ';' || s[|t|] == '\0'
  {
    if s == [] || s[0] == ';' || s[0] == '\0' then [] else [s[0]] + MediaTypeText(s[1..])
  }

  /** What `content_type_from_string` computes. */
  function ContentTypeOfText(s: string): Result<ContentType> {
    LookupContentType(MediaTypeText(s))
  }

  /** `content_type_from_string`: copies characters up to the first `;`
      (or the end of the C string), then scans the table for the first
      entry with that name. */
  method ContentTypeFromString(s: string) returns (r: Result<ContentType>)
    ensures r == LookupContentType(MediaTypeText(s))
  {
    var actual := "";
    var i := 0;
    while i < |s| && s[i] != '\0'
      invariant 0 <= i <= |s|
      invariant actual == s[..i]
      invariant forall j :: 0 <= j < i ==> s[j] != ';' && s[j] != '\0'
    {
      if s[i] == ';' {
        break;
      }
      actual := actual + [s[i]];
      i := i + 1;
    }
    PrefixIsMediaType(s, actual);
    var k := 0;
    while k < |ContentTypeTable|
      invariant 0 <= k <= |ContentTypeTable|
      invariant FindByValue(ContentTypeTable[k..], actual) == FindByValue(ContentTypeTable, actual)
    {
      if ContentTypeTable[k].1 == actual {
        return Ok(ContentTypeTable[k].0);
      }
      assert ContentTypeTable[k..][1..] == ContentTypeTable[k + 1..];
      k := k + 1;
    }
    return Err(InvalidContentType(actual));
  }

  /** A prefix free of `;` and NUL that stops at one of them, or at the end,
      is the media-type text. */
  lemma {:induction false} PrefixIsMediaType(s: string, p: string)
    requires StartsWith(s, p)
    requires forall j :: 0 <= j < |p| ==> p[j] != ';' && p[j] != '\0'
    requires |p| < |s| ==> s[|p|] == ';' || s[|p|] == '\0'
    ensures MediaTypeText(s) == p
    decreases |p|
  {
    if p != [] {
      assert s[0] == p[0];
      assert s[1..][..|p| - 1] == p[1..];
      PrefixIsMediaType(s[1..], p[1..]);
      assert p == [p[0]] + p[1..];
    }
  }

  /** In a table whose values are distinct, looking up the value a key
      maps to finds that key again. */
  lemma {:induction false} KeyValueInverse<K, V>(table: seq<(K, V)>, k: K)
    requires forall i, j :: 0 <= i < j < |table| ==> table[i].1 != table[j].1
    requires FindByKey(table, k).Some?
    ensures FindByValue(table, FindByKey(table, k).value) == Some(k)
    decreases |table|
  {
    if table[0].0 != k {
      var v := FindByKey(table, k).value;
      var tail := table[1..];
      assert FindByKey(tail, k) == Some(v);
      var i :| 0 <= i < |tail| && tail[i] == (k, v);
      assert table[i + 1] == tail[i];
      forall a, b | 0 <= a < b < |tail| ensures tail[a].1 != tail[b].1 {
        assert tail[a] == table[a + 1] && tail[b] == table[b + 1];
      }
      KeyValueInverse(tail, k);
    }
  }

  /** The names of the content-type table are distinct (their lengths
      already differ) and free of `;` and NUL. */
  lemma ContentTypeNamesDistinct()
    ensures forall i, j :: 0 <= i < j < |ContentTypeTable| ==> ContentTypeTable[i].1 != ContentTypeTable[j].1
    ensures forall i, j :: 0 <= i < |ContentTypeTable| && 0 <= j < |ContentTypeTable[i].1| ==>
              ContentTypeTable[i].1[j] != ';' && ContentTypeTable[i].1[j] != '\0'
  {
    assert |ContentTypeTable[0].1| == 9 && |ContentTypeTable[1].1| == 10;
    assert |ContentTypeTable[2].1| == 8 && |ContentTypeTable[3].1| == 16;
  }

  /** Every listed content type survives the trip to its name and back. */
  lemma ContentTypeRoundTrip(t: ContentType)
    requires !t.Unlisted?
    ensures ContentTypeOfText(ContentTypeName(t).value) == Ok(t)
  {
    var name := ContentTypeName(t).value;
    assert FindByKey(ContentTypeTable, t) == Some(name);
    assert FindByValue(ContentTypeTable, name) == Some(t) by {
      ContentTypeNamesDistinct();
      KeyValueInverse(ContentTypeTable, t);
    }
    assert MediaTypeText(name) == name by {
      var i :| 0 <= i < |ContentTypeTable| && ContentTypeTable[i] == (t, name);
      ContentTypeNamesDistinct();
      assert forall j :: 0 <= j < |name| ==> name[j] != ';' && name[j] != '\0' by {
        assert name == ContentTypeTable[i].1;
      }
      PrefixIsMediaType(name, name);
    }
  }

  /** Parameters after the first `;` are ignored when resolving a type. */
  lemma ParametersIgnored(s: string, parameters: string)
    requires forall j :: 0 <= j < |s| ==> s[j] != ';' && s[j] != '\0'
    ensures ContentTypeOfText(s + ";" + parameters) == LookupContentType(s)
  {
    PrefixIsMediaType(s + ";" + parameters, s);
  }

  /** `application/json; charset=utf-8` resolves to the JSON type. */
  lemma JsonWithCharset()
    ensures ContentTypeOfText("application/json" + ";" + " charset=utf-8") == Ok(ApplicationJson)
  {
    var name := "application/json";
    assert ContentTypeName(ApplicationJson) == Ok(name);
    ContentTypeRoundTrip(ApplicationJson);
    ContentTypeNamesDistinct();
    assert name == ContentTypeTable[3].1;
    PrefixIsMediaType(name, name);
    ParametersIgnored(name, " charset=utf-8");
  }
}
