/** The message writers `async_write_http_request` and
    `async_write_http_response`: the header block each builds, and how they
    sequence their writes and callbacks. A `std::map` the writer iterates is
    given as the sequence of its entries in iteration order. Each write's
    result is supplied as an error code. */
module Serializer {
  import opened Common
  import opened Tables
  import opened Query

  /** `uva::networking::version`, sent by clients. */
  const ClientVersion: string := "1.0.0"

  /** `s_server_version`, sent by servers. */
  const ServerVersion: string := "0.0.1"

  // ---------------------------------------------------------------------
  // The request head

  /** One `key=value&` the params loop appends. */
  function ParamPair(p: (string, string)): string {
    p.0 + "=" + p.1 + "&"
  }

  /** What the params loop has appended after the pairs `ps`. */
  function ParamText(ps: seq<(string, string)>): string {
    if ps == [] then [] else ParamText(ps[..|ps| - 1]) + ParamPair(ps[|ps| - 1])
  }

  /** One `name: value` line of the user headers loop. */
  function FieldLine(h: (string, string)): string {
    h.0 + ": " + h.1 + "\r\n"
  }

  /** What the headers loop appends for the fields `hs`. */
  function FieldLines(hs: seq<(string, string)>): string {
    if hs == [] then [] else FieldLines(hs[..|hs| - 1]) + FieldLine(hs[|hs| - 1])
  }

  /** The request target: a `/` in front when the URL lacks one, and the
      query iff there are params. */
  function RequestTarget(url: string, params: seq<(string, string)>): string {
    (if StartsWith(url, "/") then [] else "/") + url + (if params == [] then [] else "?" + QueryString(params))
  }

  /** The fields every request carries, in the order they are written. */
  function FixedFields(host: string, typeName: string): seq<(string, string)> {
    [("Host", host),
     ("User-Agent", "uva::networking/" + ClientVersion),
     ("Accept", "*/*"),
     ("Content-Type", typeName),
     ("Connection", "keep-alive")]
  }

  /** `Content-Length` for a non-empty body, nothing otherwise. */
  function LengthField(bodyLength: nat): seq<(string, string)> {
    if bodyLength > 0 then [("Content-Length", NatToString(bodyLength))] else []
  }

  /** Every field of a request head, in order: the fixed ones, the user's,
      then the length. */
  function RequestFields(host: string, typeName: string, headers: seq<(string, string)>, bodyLength: nat): seq<(string, string)> {
    FixedFields(host, typeName) + headers + LengthField(bodyLength)
  }

  /** The header block `async_write_http_request` sends: the request line,
      one line per field, and the empty line. An unlisted content type
      throws before anything is written. */
  function RequestHead(verb: string, url: string, params: seq<(string, string)>, host: string,
                       t: ContentType, headers: seq<(string, string)>, bodyLength: nat): Result<string> {
    match ContentTypeName(t)
    case Err(e) => Err(e)
    case Ok(typeName) =>
      Ok(verb + " " + RequestTarget(url, params) + " HTTP/1.1\r\n"
         + FieldLines(RequestFields(host, typeName, headers, bodyLength)) + "\r\n")
  }

  /** Rendering a concatenation of field lists concatenates the renderings. */
  lemma {:induction false} FieldLinesAppend(a: seq<(string, string)>, b: seq<(string, string)>)
    ensures FieldLines(a + b) == FieldLines(a) + FieldLines(b)
    decreases |b|
  {
    if b == [] {
      assert a + b == a;
    } else {
      var b' := b[..|b| - 1];
      FieldLinesAppend(a, b');
      assert (a + b)[..|a + b| - 1] == a + b';
    }
  }

  /** The params loop followed by the `pop_back` leaves the query string. */
  lemma {:induction false} ParamTextIsQuery(ps: seq<(string, string)>)
    requires ps != []
    ensures ParamText(ps) == QueryString(ps) + "&"
    decreases |ps|
  {
    if |ps| > 1 {
      var init := ps[..|ps| - 1];
      ParamTextIsQuery(init);
      QueryStringSnoc(init, ps[|ps| - 1]);
      assert init + [ps[|ps| - 1]] == ps;
    }
  }

  /** Appending a pair to a non-empty list appends `&key=value`. */
  lemma {:induction false} QueryStringSnoc(ps: seq<(string, string)>, p: (string, string))
    requires ps != []
    ensures QueryString(ps + [p]) == QueryString(ps) + "&" + p.0 + "=" + p.1
    decreases |ps|
  {
    var qs := ps + [p];
    if |ps| > 1 {
      assert qs[1..] == ps[1..] + [p];
      QueryStringSnoc(ps[1..], p);
    } else {
      assert qs[1..] == [p];
    }
  }

  /** The start of `async_write_http_request`'s buffer: the method, the
      target with its params loop and the `pop_back` of the last `&`. */
  method BuildTarget(verb: string, url: string, params: seq<(string, string)>) returns (buffer: string)
    ensures buffer == verb + " " + RequestTarget(url, params)
  {
    buffer := verb;
    buffer := buffer + " ";
    if !StartsWith(url, "/") {
      buffer := buffer + "/";
    }
    buffer := buffer + url;
    if |params| > 0 {
      buffer := AppendQuery(buffer, params);
    }
  }

  /** The params loop, `name=value&` per entry, and the `pop_back` of the
      last `&`. */
  method AppendQuery(line: string, params: seq<(string, string)>) returns (buffer: string)
    requires params != []
    ensures buffer == line + "?" + QueryString(params)
  {
    buffer := line + "?";
    ghost var start := buffer;
    var i := 0;
    while i < |params|
      invariant 0 <= i <= |params|
      invariant buffer == start + ParamText(params[..i])
    {
      assert params[..i + 1][..i] == params[..i];
      buffer := buffer + params[i].0 + "=" + params[i].1 + "&";
      i := i + 1;
    }
    assert params[..i] == params;
    ParamTextIsQuery(params);
    buffer := buffer[..|buffer| - 1];
  }

  /** The user headers loop. */
  method AppendFields(buffer: string, headers: seq<(string, string)>) returns (b: string)
    ensures b == buffer + FieldLines(headers)
  {
    b := buffer;
    var i := 0;
    while i < |headers|
      invariant 0 <= i <= |headers|
      invariant b == buffer + FieldLines(headers[..i])
    {
      assert headers[..i + 1][..i] == headers[..i];
      b := b + headers[i].0 + ": " + headers[i].1 + "\r\n";
      i := i + 1;
    }
    assert headers[..i] == headers;
  }

  /** One more field rendered extends the rendering by its line. */
  lemma FieldsSnoc(fs: seq<(string, string)>, k: nat)
    requires k < |fs|
    ensures FieldLines(fs[..k + 1]) == FieldLines(fs[..k]) + FieldLine(fs[k])
  {
    assert fs[..k + 1][..k] == fs[..k];
  }

  /** Appending the line of the next field extends the rendered prefix. */
  lemma AppendStep(buffer: string, b: string, fs: seq<(string, string)>, k: nat, f: (string, string))
    requires k < |fs| && fs[k] == f
    requires b == buffer + FieldLines(fs[..k])
    ensures b + FieldLine(f) == buffer + FieldLines(fs[..k + 1])
  {
    FieldsSnoc(fs, k);
  }

  /** The five fields every request carries, appended in order. */
  method AppendFixedFields(buffer: string, host: string, typeName: string) returns (b: string)
    ensures b == buffer + FieldLines(FixedFields(host, typeName))
  {
    ghost var fixed := FixedFields(host, typeName);
    assert fixed[..0] == [];
    b := buffer;
    AppendStep(buffer, b, fixed, 0, ("Host", host));
    b := b + FieldLine(("Host", host));
    AppendStep(buffer, b, fixed, 1, ("User-Agent", "uva::networking/" + ClientVersion));
    b := b + FieldLine(("User-Agent", "uva::networking/" + ClientVersion));
    AppendStep(buffer, b, fixed, 2, ("Accept", "*/*"));
    b := b + FieldLine(("Accept", "*/*"));
    AppendStep(buffer, b, fixed, 3, ("Content-Type", typeName));
    b := b + FieldLine(("Content-Type", typeName));
    AppendStep(buffer, b, fixed, 4, ("Connection", "keep-alive"));
    b := b + FieldLine(("Connection", "keep-alive"));
    assert fixed[..5] == fixed;
  }

  /** `Content-Length` and the empty line for a non-empty body, the empty
      line alone otherwise. */
  method AppendEnd(buffer: string, bodyLength: nat) returns (b: string)
    ensures b == buffer + FieldLines(LengthField(bodyLength)) + "\r\n"
  {
    if bodyLength > 0 {
      b := buffer + "Content-Length: ";
      b := b + NatToString(bodyLength);
      b := b + "\r\n\r\n";
      ghost var f := LengthField(bodyLength);
      assert f[..0] == [];
      assert FieldLines(f) == "Content-Length: " + NatToString(bodyLength) + "\r\n";
    } else {
      b := buffer + "\r\n";
    }
  }

  /** Everything after the request line: the fixed fields, the user
      headers, and the end of the head. */
  method AppendFieldBlock(buffer: string, host: string, typeName: string, headers: seq<(string, string)>, bodyLength: nat)
    returns (b: string)
    ensures b == buffer + FieldLines(RequestFields(host, typeName, headers, bodyLength)) + "\r\n"
  {
    ghost var fixed := FixedFields(host, typeName);
    ghost var x, y, z := FieldLines(fixed), FieldLines(headers), FieldLines(LengthField(bodyLength));
    b := AppendFixedFields(buffer, host, typeName);
    ghost var b1 := b;
    b := AppendFields(b, headers);
    ghost var b2 := b;
    b := AppendEnd(b, bodyLength);
    assert FieldLines(RequestFields(host, typeName, headers, bodyLength)) == x + y + z by {
      FieldLinesAppend(fixed, headers);
      FieldLinesAppend(fixed + headers, LengthField(bodyLength));
    }
    assert b == buffer + (x + y + z) + "\r\n" by {
      assert b1 == buffer + x && b2 == b1 + y && b == b2 + z + "\r\n";
    }
  }

  /** `async_write_http_request`'s buffer building, by appends. */
  method BuildRequestHead(verb: string, url: string, params: seq<(string, string)>, host: string,
                          t: ContentType, headers: seq<(string, string)>, body: string)
    returns (r: Result<string>)
    ensures r == RequestHead(verb, url, params, host, t, headers, |body|)
  {
    var buffer := BuildTarget(verb, url, params);
    buffer := buffer + " HTTP/1.1\r\n";
    var typeName := ContentTypeName(t);
    if typeName.Err? {
      return Err(typeName.error);
    }
    buffer := AppendFieldBlock(buffer, host, typeName.value, headers, |body|);
    r := Ok(buffer);
  }

  // ---------------------------------------------------------------------
  // Write sequencing

  /** Which callback a writer ends with: `on_success`, `on_error` with the
      failed write's code, or none (an error with no `on_error` set). */
  datatype Notified = Succeeded | Errored(code: nat) | Silent

  /** The writes a writer issues, in order, and how it ends. */
  datatype Exchange = Exchange(writes: seq<string>, notified: Notified)

  /** The callback chain of `async_write_http_request`: the head is written;
      a failed head write reports its error; otherwise a non-empty body is
      written and its result reported, and an empty body succeeds at once. */
  function RequestWrites(head: string, body: string, headResult: ErrorCode, bodyResult: ErrorCode, hasOnError: bool): (x: Exchange)
    ensures |x.writes| >= 1 && x.writes[0] == head
    ensures |x.writes| == 2 <==> headResult == NoError && body != []
    ensures |x.writes| == 2 ==> x.writes[1] == body
    ensures x.notified == Succeeded <==> headResult == NoError && (body == [] || bodyResult == NoError)
    ensures x.notified == Silent <==> !hasOnError && x.notified != Succeeded
    ensures x.notified.Errored? ==>
              x.notified.code == (if headResult.Failure? then headResult.code else bodyResult.code)
  {
    if headResult.Failure? then
      Exchange([head], if hasOnError then Errored(headResult.code) else Silent)
    else if body != [] then
      Exchange([head, body], if bodyResult.Failure? then (if hasOnError then Errored(bodyResult.code) else Silent) else Succeeded)
    else
      Exchange([head], Succeeded)
  }

  /** `async_write_http_request`: an error building the head (an unlisted
      content type) is thrown before any write. */
  method WriteHttpRequest(verb: string, url: string, params: seq<(string, string)>, host: string,
                          t: ContentType, headers: seq<(string, string)>, body: string,
                          headResult: ErrorCode, bodyResult: ErrorCode, hasOnError: bool)
    returns (r: Result<Exchange>)
    ensures r.Err? <==> RequestHead(verb, url, params, host, t, headers, |body|).Err?
    ensures r.Ok? ==> r.value == RequestWrites(RequestHead(verb, url, params, host, t, headers, |body|).value,
                                               body, headResult, bodyResult, hasOnError)
  {
    var head := BuildRequestHead(verb, url, params, host, t, headers, body);
    if head.Err? {
      return Err(head.error);
    }
    var writes := [head.value];
    var notified: Notified;
    if headResult.Failure? {
      notified := if hasOnError then Errored(headResult.code) else Silent;
    } else if |body| > 0 {
      writes := writes + [body];
      if bodyResult.Failure? {
        notified := if hasOnError then Errored(bodyResult.code) else Silent;
      } else {
        notified := Succeeded;
      }
    } else {
      notified := Succeeded;
    }
    r := Ok(Exchange(writes, notified));
  }

  /** With `on_error` set, exactly one of the two callbacks fires. */
  lemma ExactlyOneCallback(head: string, body: string, headResult: ErrorCode, bodyResult: ErrorCode)
    ensures var x := RequestWrites(head, body, headResult, bodyResult, true);
            x.notified.Succeeded? != x.notified.Errored?
  {
  }

  // ---------------------------------------------------------------------
  // The response head

  /** The fields of a response head, in the order of the format. */
  function ResponseFields(date: string, typeName: string, bodyLength: nat): seq<(string, string)> {
    [("Server", "uva::networking/" + ServerVersion),
     ("Date", date),
     ("Content-Type", typeName),
     ("Content-Length", NatToString(bodyLength))]
  }

  /** The header block `async_write_http_response` sends for a body of
      `bodyLength` bytes: the status line, one line per field, and the
      empty line. The status code is looked up first, then the content
      type; either lookup failing throws before anything is written. */
  function ResponseHead(status: int, bodyLength: nat, t: ContentType, date: string): (r: Result<string>)
    ensures r.Err? <==> StatusReason(status).Err? || ContentTypeName(t).Err?
    ensures r.Err? ==> r.error == (if StatusReason(status).Err? then StatusReason(status).error else ContentTypeName(t).error)
  {
    match StatusReason(status)
    case Err(e) => Err(e)
    case Ok(reason) =>
      match ContentTypeName(t)
      case Err(e) => Err(e)
      case Ok(typeName) =>
        // A listed status is positive, so the cast to size_t keeps it.
        Ok("HTTP/1.1 " + NatToString(status) + " " + reason + "\r\n"
           + FieldLines(ResponseFields(date, typeName, bodyLength)) + "\r\n")
  }

  /** The four fields of the response format, appended in order. */
  method AppendResponseFields(buffer: string, date: string, typeName: string, bodyLength: nat) returns (b: string)
    ensures b == buffer + FieldLines(ResponseFields(date, typeName, bodyLength))
  {
    ghost var fs := ResponseFields(date, typeName, bodyLength);
    assert fs[..0] == [];
    b := buffer;
    AppendStep(buffer, b, fs, 0, ("Server", "uva::networking/" + ServerVersion));
    b := b + FieldLine(("Server", "uva::networking/" + ServerVersion));
    AppendStep(buffer, b, fs, 1, ("Date", date));
    b := b + FieldLine(("Date", date));
    AppendStep(buffer, b, fs, 2, ("Content-Type", typeName));
    b := b + FieldLine(("Content-Type", typeName));
    AppendStep(buffer, b, fs, 3, ("Content-Length", NatToString(bodyLength)));
    b := b + FieldLine(("Content-Length", NatToString(bodyLength)));
    assert fs[..4] == fs;
  }

  /** `async_write_http_response`: the head, then the body whatever the
      head write's result; the completion gets the body write's code. */
  method WriteHttpResponse(body: string, status: int, t: ContentType, date: string,
                           headResult: ErrorCode, bodyResult: ErrorCode)
    returns (r: Result<(seq<string>, ErrorCode)>)
    ensures r.Err? <==> ResponseHead(status, |body|, t, date).Err?
    ensures r.Ok? ==> r.value == ([ResponseHead(status, |body|, t, date).value, body], bodyResult)
  {
    var reason := StatusReason(status);
    if reason.Err? {
      return Err(reason.error);
    }
    var typeName := ContentTypeName(t);
    if typeName.Err? {
      return Err(typeName.error);
    }
    // The status line, the four fields, then the empty line.
    var header := "HTTP/1.1 " + NatToString(status) + " " + reason.value + "\r\n";
    header := AppendResponseFields(header, date, typeName.value, |body|);
    header := header + "\r\n";
    r := Ok(([header, body], bodyResult));
  }
}
