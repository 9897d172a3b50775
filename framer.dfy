/** The message framers `async_read_http_request` and
    `async_read_http_response`, from the moment the header block has been
    read into the stream buffer: start-line parsing with the stream
    extraction operators (sections 3 and 4 of RFC 9112 give the syntax),
    header parsing, content-type resolution, body framing and the JSON
    rule. The buffer is the text left in the `asio::streambuf`. */
module Framer {
  import opened Common
  import opened Tables
  import opened Headers
  import opened Query
  import opened Body

  // ---------------------------------------------------------------------
  // Stream extraction

  /** `isspace` in the "C" locale. */
  predicate IsSpace(c: char) {
    c == ' ' || c == '\t' || c == '\n' || c == '\U{000B}' || c == '\U{000C}' || c == '\r'
  }

  /** The stream with its leading white space skipped. */
  function SkipSpace(s: string): string {
    if s != [] && IsSpace(s[0]) then SkipSpace(s[1..]) else s
  }

  /** The longest prefix without white space. */
  function Word(s: string): string {
    if s == [] || IsSpace(s[0]) then [] else [s[0]] + Word(s[1..])
  }

  /** `stream >> str`: skip white space, then take a maximal run of
      non-space characters. Fails (the `None` case) when only white space
      is left, which the sentry consumes. */
  function Token(s: string): Option<(string, string)> {
    var t := SkipSpace(s);
    if t == [] then None
    else
      var w := Word(t);
      WordShape(t);
      Some((w, t[|w|..]))
  }

  /** Extraction into a string that keeps its old value when the
      extraction fails; after a failure nothing is left to read. */
  function Extract(current: string, s: string): (string, string) {
    match Token(s)
    case None => (current, [])
    case Some((w, rest)) => (w, rest)
  }

  /** The longest prefix of decimal digits. */
  function DigitRun(s: string): string {
    if s == [] || !IsDigit(s[0]) then [] else [s[0]] + DigitRun(s[1..])
  }

  const IntMin: int := -0x8000_0000
  const IntMax: int := 0x7FFF_FFFF

  /** `stream >> i` for an `int`: white space, an optional sign, then
      digits. No digits, or a value outside the range of a 32-bit `int`,
      puts the stream into the failed state (the `None` case). */
  function ReadInt(s: string): (r: Option<(int, string)>)
    ensures r.Some? ==> IntMin <= r.value.0 <= IntMax
  {
    var t := SkipSpace(s);
    var negative := t != [] && t[0] == '-';
    var u := if t != [] && (t[0] == '-' || t[0] == '+') then t[1..] else t;
    var digits := DigitRun(u);
    DigitRunShape(u);
    var value: int := if negative then -(DecimalValue(digits) as int) else DecimalValue(digits);
    if digits == [] || value < IntMin || value > IntMax then None
    else Some((value, u[|digits|..]))
  }

  /** Skipping drops exactly a run of white space, and stops at a
      non-space character or at the end. */
  lemma {:induction false} SkipSpaceShape(s: string)
    ensures |SkipSpace(s)| <= |s| && SkipSpace(s) == s[|s| - |SkipSpace(s)|..]
    ensures forall i :: 0 <= i < |s| - |SkipSpace(s)| ==> IsSpace(s[i])
    ensures SkipSpace(s) != [] ==> !IsSpace(SkipSpace(s)[0])
    decreases |s|
  {
    if s != [] && IsSpace(s[0]) {
      var u := s[1..];
      SkipSpaceShape(u);
      var r := SkipSpace(u);
      assert u[|u| - |r|..] == s[|s| - |r|..];
      forall i | 0 <= i < |s| - |r| ensures IsSpace(s[i]) {
        if i > 0 {
          assert s[i] == u[i - 1];
        }
      }
    }
  }

  /** A word is a space-free prefix that ends at white space or at the end. */
  lemma {:induction false} WordShape(s: string)
    ensures StartsWith(s, Word(s))
    ensures forall i :: 0 <= i < |Word(s)| ==> !IsSpace(Word(s)[i])
    ensures |Word(s)| < |s| ==> IsSpace(s[|Word(s)|])
    ensures s != [] && !IsSpace(s[0]) ==> Word(s) != []
    decreases |s|
  {
    if s != [] && !IsSpace(s[0]) {
      var u := s[1..];
      WordShape(u);
      var w := Word(u);
      assert Word(s) == [s[0]] + w;
      assert s[..1 + |w|] == [s[0]] + u[..|w|];
      forall i | 0 <= i < 1 + |w| ensures !IsSpace(Word(s)[i]) {
        if i > 0 {
          assert Word(s)[i] == w[i - 1];
        }
      }
      if 1 + |w| < |s| {
        assert s[1 + |w|] == u[|w|];
      }
    }
  }

  /** A token is a non-empty, space-free run: what is left after it is
      empty or starts with white space, and fails only on a stream of
      white space. */
  lemma TokenShape(s: string)
    ensures Token(s).None? <==> SkipSpace(s) == []
    ensures Token(s).Some? ==> var (w, rest) := Token(s).value;
              && w != []
              && (forall i :: 0 <= i < |w| ==> !IsSpace(w[i]))
              && SkipSpace(s) == w + rest
              && (rest != [] ==> IsSpace(rest[0]))
  {
    var t := SkipSpace(s);
    SkipSpaceShape(s);
    WordShape(t);
    if t != [] {
      var w := Word(t);
      assert t == w + t[|w|..];
    }
  }

  /** A digit run is a prefix of digits that ends at a non-digit or at the
      end. */
  lemma {:induction false} DigitRunShape(s: string)
    ensures StartsWith(s, DigitRun(s)) && AllDigits(DigitRun(s))
    ensures |DigitRun(s)| < |s| ==> !IsDigit(s[|DigitRun(s)|])
    decreases |s|
  {
    if s != [] && IsDigit(s[0]) {
      var u := s[1..];
      DigitRunShape(u);
      var d := DigitRun(u);
      assert DigitRun(s) == [s[0]] + d;
      assert s[..1 + |d|] == [s[0]] + u[..|d|];
      forall i | 0 <= i < 1 + |d| ensures IsDigit(DigitRun(s)[i]) {
        if i > 0 {
          assert DigitRun(s)[i] == d[i - 1];
        }
      }
      if 1 + |d| < |s| {
        assert s[1 + |d|] == u[|d|];
      }
    }
  }

  // ---------------------------------------------------------------------
  // The message

  /** What a message's `params` hold: nothing (the null value), a map of
      decoded query parameters, or the result of `json::decode` on the raw
      body. The JSON codec is not part of this model; `JsonOf` records the
      bytes it is applied to. */
  datatype Params = NullParams | ParamMap(entries: map<string, string>) | JsonOf(body: string)

  /** `http_message`. */
  datatype HttpMessage = HttpMessage(
    verb: string,
    url: string,
    version: string,
    params: Params,
    headers: map<string, string>,
    rawBody: string,
    status: int,
    statusMsg: string,
    contentType: ContentType,
    endpoint: string,
    host: string)

  /** How a framer ends: its completion never fires (`Abandoned`), it
      throws (`Rejected`), or it completes with the updated message. */
  datatype Framed = Abandoned | Rejected(error: Error) | Complete(msg: HttpMessage)

  // ---------------------------------------------------------------------
  // The request target

  /** The target up to its first `?`. */
  function PathOf(target: string): (p: string)
    ensures StartsWith(target, p) && '?' !in p
    ensures |p| < |target| ==> target[|p|] == '?'
  {
    if target == [] || target[0] == '?' then [] else [target[0]] + PathOf(target[1..])
  }

  /** What follows the first `?` of the target; empty without one. */
  function QueryOf(target: string): string {
    var p := PathOf(target);
    if |p| < |target| then target[|p| + 1..] else []
  }

  /** A `?`-free prefix that ends at a `?` or at the end is the path. */
  lemma PathIsPrefix(target: string, k: nat)
    requires k <= |target| && '?' !in target[..k]
    requires k < |target| ==> target[k] == '?'
    ensures PathOf(target) == target[..k]
  {
  }

  /** The loop of `async_read_http_request` that moves the target's
      characters into `request.url` up to the first `?`. It appends: the old
      URL is kept in front. */
  method SplitTarget(url: string, target: string) returns (newUrl: string, query: string)
    ensures newUrl == url + PathOf(target)
    ensures query == QueryOf(target)
  {
    newUrl := url;
    var view := target;
    while |view| > 0
      invariant |view| <= |target|
      invariant newUrl == url + target[..|target| - |view|]
      invariant view == target[|target| - |view|..]
      invariant '?' !in target[..|target| - |view|]
    {
      var c := view[0];
      view := view[1..];
      if c == '?' {
        break;
      }
      newUrl := newUrl + [c];
    }
    PathIsPrefix(target, |newUrl| - |url|);
    query := view;
  }

  /** The target is its path, then, when it has a `?`, that `?` and the
      query: the split loses nothing but the first `?`. */
  lemma TargetSplit(target: string)
    ensures target == PathOf(target) + (if |PathOf(target)| < |target| then "?" + QueryOf(target) else [])
  {
    var p := PathOf(target);
    if |p| < |target| {
      assert target == target[..|p|] + [target[|p|]] + target[|p| + 1..];
    }
  }

  // ---------------------------------------------------------------------
  // async_read_http_request

  /** Content-Type exactly `application/json`, as the request completion
      compares it (no parameters allowed). */
  predicate IsJson(headers: map<string, string>) {
    "Content-Type" in headers && headers["Content-Type"] == "application/json"
  }

  /** The request line as the three extractions leave it: method, target
      and version, and what is left of the buffer. */
  datatype RequestLine = RequestLine(verb: string, target: string, version: string, rest: string)

  /** `stream >> method >> target >> version`, where a failed extraction
      leaves the method and the version as they were and the target empty. */
  function ParseRequestLine(verb: string, version: string, buffer: string): RequestLine {
    var (v1, r1) := Extract(verb, buffer);
    var (t, r2) := Extract([], r1);
    var (v3, r3) := Extract(version, r2);
    RequestLine(v1, t, v3, r3)
  }

  /** The stream after the `getline` that discards the rest of the start
      line; on an exhausted stream the `getline` fails and nothing is left. */
  function AfterStartLine(rest: string): (r: string)
    ensures |r| <= |rest|
  {
    if rest == [] then [] else Getline(rest).1
  }

  /** The second half of `async_read_http_request`: header parsing, the body
      read, and the completion's JSON rule for a POST. `m` already carries
      the fields taken from the request line. Only the headers, the body and
      the params change. */
  function RequestCompletion(m: HttpMessage, rest: string, incoming: Incoming): (r: Framed)
    ensures r.Complete? ==> r.msg.(headers := m.headers, rawBody := m.rawBody, params := m.params) == m
    ensures r.Complete? ==> r.msg.headers == HeadersOf(Lines(rest))
    ensures r.Complete? ==>
              r.msg.params == if m.verb == "POST" && IsJson(r.msg.headers) then JsonOf(r.msg.rawBody) else m.params
    ensures r.Abandoned? == false
  {
    var lines := Lines(rest);
    var headers := HeadersOf(lines);
    var f := BodyFraming(headers, SkipLines(rest, LinesConsumed(lines)), m.rawBody, incoming);
    if f.outcome.Failed? then Rejected(f.outcome.error)
    else
      var p := if m.verb == "POST" && IsJson(headers) then JsonOf(f.body) else m.params;
      Complete(m.(headers := headers, rawBody := f.body, params := p))
  }

  /** The params a request's query yields: the empty map without one. */
  function RequestParams(target: string): Result<map<string, string>> {
    var query := QueryOf(target);
    if query != [] then QueryParams(query) else Ok(map[])
  }

  /** What `async_read_http_request` does once the header block is in the
      buffer. The error code of the header read is not an argument: the
      source never looks at it. */
  function RequestFraming(m: HttpMessage, buffer: string, endpoint: string, incoming: Incoming): Framed {
    var l := ParseRequestLine(m.verb, m.version, buffer);
    match RequestParams(l.target)
    case Err(e) => Rejected(e)
    case Ok(params) =>
      if !StartsWith(l.version, "HTTP/") then Rejected(UnrecognizedVersion(l.version))
      else
        RequestCompletion(m.(verb := l.verb, url := m.url + PathOf(l.target), version := l.version,
                             params := ParamMap(params), endpoint := endpoint),
                          AfterStartLine(l.rest), incoming)
  }

  /** A string as a fresh array. */
  method ToArray(s: string) returns (a: array<char>)
    ensures a[..] == s
  {
    a := new char[|s|](i requires 0 <= i < |s| => s[i]);
  }

  /** Header parsing, `async_read_body` and the completion handler of
      `async_read_http_request`. */
  method FinishRequest(m: HttpMessage, rest: string, incoming: Incoming) returns (r: Framed)
    ensures r == RequestCompletion(m, rest, incoming)
  {
    var lines := Lines(rest);
    var headers, consumed := ParseHeaders(lines);
    var body := ToArray(m.rawBody);
    var outcome, result := ReadBody(headers, SkipLines(rest, consumed), body, incoming);
    if outcome.Failed? {
      return Rejected(outcome.error);
    }
    var p := m.params;
    if m.verb == "POST" && IsJson(headers) {
      p := JsonOf(result[..]);
    }
    r := Complete(m.(headers := headers, rawBody := result[..], params := p));
  }

  /** `async_read_http_request`, from the completion of the header read on:
      `readError` is that read's error code. `endpoint` is what
      `remote_endpoint_string` returns and `incoming` what the body read
      receives. */
  method ReadHttpRequest(m: HttpMessage, readError: ErrorCode, buffer: string, endpoint: string, incoming: Incoming)
    returns (r: Framed)
    ensures r == RequestFraming(m, buffer, endpoint, incoming)
  {
    var (verb, r1) := Extract(m.verb, buffer);
    var (target, r2) := Extract([], r1);
    var (version, r3) := Extract(m.version, r2);
    var url, query := SplitTarget(m.url, target);
    var params: map<string, string> := map[];
    if |query| > 0 {
      var parsed := QueryToParams(query);
      if parsed.Err? {
        return Rejected(parsed.error);
      }
      params := parsed.value;
    }
    if !StartsWith(version, "HTTP/") {
      return Rejected(UnrecognizedVersion(version));
    }
    var rest := if r3 == [] then [] else Getline(r3).1;
    r := FinishRequest(m.(verb := verb, url := url, version := version, params := ParamMap(params), endpoint := endpoint),
                       rest, incoming);
  }

  // ---------------------------------------------------------------------
  // async_read_http_response

  /** The content type the response framer resolves; a missing header is
      the null value, whose text is taken not to be a table entry. */
  function ResponseContentType(headers: map<string, string>): (r: Result<ContentType>)
    ensures "Content-Type" !in headers ==> r == Err(MissingContentType)
    ensures "Content-Type" in headers ==> r == ContentTypeOfText(headers["Content-Type"])
  {
    if "Content-Type" in headers then ContentTypeOfText(headers["Content-Type"]) else Err(MissingContentType)
  }

  /** The reason phrase: the rest of the status line after the code, its
      leading space kept, one trailing carriage return removed. */
  function StatusMessage(line: string): (msg: string)
    ensures line == msg || line == msg + "\r"
    ensures EndsWith(line, "\r") <==> |msg| < |line|
  {
    if EndsWith(line, "\r") then line[..|line| - 1] else line
  }

  /** The second half of `async_read_http_response`: header parsing, the
      content type, the body read and the completion's JSON rule. Only the
      headers, the content type, the body and the params change. */
  function ResponseCompletion(m: HttpMessage, rest: string, incoming: Incoming): (r: Framed)
    ensures r.Complete? ==>
              r.msg.(headers := m.headers, contentType := m.contentType, rawBody := m.rawBody, params := m.params) == m
    ensures r.Complete? ==> r.msg.headers == HeadersOf(Lines(rest))
    ensures r.Complete? ==> ResponseContentType(r.msg.headers) == Ok(r.msg.contentType)
    ensures r.Complete? ==> r.msg.params == if IsJson(r.msg.headers) then JsonOf(r.msg.rawBody) else m.params
    ensures ResponseContentType(HeadersOf(Lines(rest))).Err? ==>
              r == Rejected(ResponseContentType(HeadersOf(Lines(rest))).error)
  {
    var lines := Lines(rest);
    var headers := HeadersOf(lines);
    match ResponseContentType(headers)
    case Err(e) => Rejected(e)
    case Ok(t) =>
      var f := BodyFraming(headers, SkipLines(rest, LinesConsumed(lines)), m.rawBody, incoming);
      if f.outcome.Failed? then Rejected(f.outcome.error)
      else
        var p := if IsJson(headers) then JsonOf(f.body) else m.params;
        Complete(m.(headers := headers, contentType := t, rawBody := f.body, params := p))
  }

  /** The rest of the status line: the code and the reason phrase, and what
      is left of the buffer. */
  datatype StatusLine = StatusLine(status: int, statusMsg: string, rest: string)

  /** `stream >> status` followed by `getline` into the status message.
      `None` when the stream ends up in the failed state: no code could be
      read, or the code ended the buffer and the `getline` failed. */
  function ParseStatusLine(s: string): (r: Option<StatusLine>)
    ensures r.Some? <==> ReadInt(s).Some? && ReadInt(s).value.1 != []
    ensures r.Some? ==> r.value.status == ReadInt(s).value.0
  {
    match ReadInt(s)
    case None => None
    case Some((status, rest)) =>
      if rest == [] then None
      else
        var (line, after) := Getline(rest);
        Some(StatusLine(status, StatusMessage(line), after))
  }

  /** What `async_read_http_response` does once the header read completes.
      After a failed status extraction the stream is in the failed state:
      the headers come out empty and the null Content-Type cannot be
      resolved. */
  function ResponseFraming(m: HttpMessage, readError: ErrorCode, buffer: string, incoming: Incoming): Framed {
    if readError.Failure? then Abandoned
    else
      var (v, r1) := Extract(m.version, buffer);
      if !StartsWith(v, "HTTP/") then Rejected(InvalidResponse)
      else match ParseStatusLine(r1)
        case None => Rejected(MissingContentType)
        case Some(l) =>
          ResponseCompletion(m.(version := v[5..], status := l.status, statusMsg := l.statusMsg, params := NullParams),
                             l.rest, incoming)
  }

  /** Header parsing, `content_type_from_string`, `async_read_body` and the
      completion handler of `async_read_http_response`. */
  method FinishResponse(m: HttpMessage, rest: string, incoming: Incoming) returns (r: Framed)
    ensures r == ResponseCompletion(m, rest, incoming)
  {
    var lines := Lines(rest);
    var headers, consumed := ParseHeaders(lines);
    if "Content-Type" !in headers {
      return Rejected(MissingContentType);
    }
    var resolved := ContentTypeFromString(headers["Content-Type"]);
    if resolved.Err? {
      return Rejected(resolved.error);
    }
    var body := ToArray(m.rawBody);
    var outcome, result := ReadBody(headers, SkipLines(rest, consumed), body, incoming);
    if outcome.Failed? {
      return Rejected(outcome.error);
    }
    var p := m.params;
    if IsJson(headers) {
      p := JsonOf(result[..]);
    }
    r := Complete(m.(headers := headers, contentType := resolved.value, rawBody := result[..], params := p));
  }

  /** `async_read_http_response`, from the completion of the header read on. */
  method ReadHttpResponse(m: HttpMessage, readError: ErrorCode, buffer: string, incoming: Incoming)
    returns (r: Framed)
    ensures r == ResponseFraming(m, readError, buffer, incoming)
  {
    if readError.Failure? {
      return Abandoned;
    }
    var (v, r1) := Extract(m.version, buffer);
    if !StartsWith(v, "HTTP/") {
      return Rejected(InvalidResponse);
    }
    var version := v[5..];
    var statusRead := ReadInt(r1);
    if statusRead.None? || statusRead.value.1 == [] {
      return Rejected(MissingContentType);
    }
    var (status, r2) := statusRead.value;
    var (line, r3) := Getline(r2);
    var statusMsg := line;
    if EndsWith(statusMsg, "\r") {
      statusMsg := statusMsg[..|statusMsg| - 1];
    }
    r := FinishResponse(m.(version := version, status := status, statusMsg := statusMsg, params := NullParams),
                        r3, incoming);
  }

  // ---------------------------------------------------------------------
  // Properties of the framers

  /** A completed request's URL is the old URL followed by the target up to
      its first `?`; so when the old URL held no `?`, neither does the new
      one. */
  lemma RequestUrlDropsQuery(m: HttpMessage, buffer: string, endpoint: string, incoming: Incoming)
    ensures var r := RequestFraming(m, buffer, endpoint, incoming);
            r.Complete? ==> StartsWith(r.msg.url, m.url) && '?' !in r.msg.url[|m.url|..]
    ensures var r := RequestFraming(m, buffer, endpoint, incoming);
            r.Complete? && '?' !in m.url ==> '?' !in r.msg.url
  {
    var r := RequestFraming(m, buffer, endpoint, incoming);
    var l := ParseRequestLine(m.verb, m.version, buffer);
    var q := RequestParams(l.target);
    if q.Ok? && StartsWith(l.version, "HTTP/") {
      var m' := m.(verb := l.verb, url := m.url + PathOf(l.target), version := l.version,
                   params := ParamMap(q.value), endpoint := endpoint);
      assert r == RequestCompletion(m', AfterStartLine(l.rest), incoming);
      if r.Complete? {
        assert r.msg.url == m.url + PathOf(l.target);
        assert r.msg.url[|m.url|..] == PathOf(l.target);
      }
    }
  }

  /** A request completes only with an `HTTP/` version; with any other
      version, once the query parsed, it fails with that version. Every
      other field of the request line is taken from the buffer too. */
  lemma RequestLineFields(m: HttpMessage, buffer: string, endpoint: string, incoming: Incoming)
    ensures var r := RequestFraming(m, buffer, endpoint, incoming);
            var l := ParseRequestLine(m.verb, m.version, buffer);
            r.Complete? ==> && StartsWith(r.msg.version, "HTTP/")
                            && r.msg.verb == l.verb && r.msg.version == l.version
                            && r.msg.endpoint == endpoint
    ensures var l := ParseRequestLine(m.verb, m.version, buffer);
            RequestParams(l.target).Ok? && !StartsWith(l.version, "HTTP/") ==>
              RequestFraming(m, buffer, endpoint, incoming) == Rejected(UnrecognizedVersion(l.version))
    ensures var l := ParseRequestLine(m.verb, m.version, buffer);
            RequestParams(l.target).Err? ==>
              RequestFraming(m, buffer, endpoint, incoming) == Rejected(RequestParams(l.target).error)
  {
  }

  /** A completed request's params: the JSON body of a POST whose
      Content-Type is exactly `application/json`, otherwise the decoded
      query. */
  lemma RequestParamsSource(m: HttpMessage, buffer: string, endpoint: string, incoming: Incoming)
    ensures var r := RequestFraming(m, buffer, endpoint, incoming);
            var l := ParseRequestLine(m.verb, m.version, buffer);
            r.Complete? ==>
              && (r.msg.params.JsonOf? <==> l.verb == "POST" && IsJson(r.msg.headers))
              && (r.msg.params.JsonOf? ==> r.msg.params.body == r.msg.rawBody)
              && (!r.msg.params.JsonOf? ==> r.msg.params == ParamMap(RequestParams(l.target).value))
  {
    var l := ParseRequestLine(m.verb, m.version, buffer);
    var q := RequestParams(l.target);
    if q.Ok? && StartsWith(l.version, "HTTP/") {
      var m' := m.(verb := l.verb, url := m.url + PathOf(l.target), version := l.version,
                   params := ParamMap(q.value), endpoint := endpoint);
      assert RequestFraming(m, buffer, endpoint, incoming) == RequestCompletion(m', AfterStartLine(l.rest), incoming);
    }
  }

  /** A response whose header read failed never completes, and one whose
      first token does not start with `HTTP/` is rejected. */
  lemma ResponseStartLineChecked(m: HttpMessage, readError: ErrorCode, buffer: string, incoming: Incoming)
    ensures readError.Failure? ==> ResponseFraming(m, readError, buffer, incoming) == Abandoned
    ensures readError == NoError && !StartsWith(Extract(m.version, buffer).0, "HTTP/") ==>
              ResponseFraming(m, readError, buffer, incoming) == Rejected(InvalidResponse)
  {
  }

  /** A completed response carries the version token with its `HTTP/`
      prefix removed, and the code and reason phrase of the status line. */
  lemma ResponseVersion(m: HttpMessage, readError: ErrorCode, buffer: string, incoming: Incoming)
    ensures var r := ResponseFraming(m, readError, buffer, incoming);
            var (v, r1) := Extract(m.version, buffer);
            r.Complete? ==> && StartsWith(v, "HTTP/") && r.msg.version == v[5..]
                            && ParseStatusLine(r1).Some?
                            && r.msg.status == ReadInt(r1).value.0
                            && r.msg.statusMsg == ParseStatusLine(r1).value.statusMsg
  {
  }

  // ---------------------------------------------------------------------
  // Reading back what a writer renders

  /** A space-free word followed by white space (or nothing) is read whole. */
  lemma {:induction false} WordOf(w: string, t: string)
    requires forall i :: 0 <= i < |w| ==> !IsSpace(w[i])
    requires t == [] || IsSpace(t[0])
    ensures Word(w + t) == w
    decreases |w|
  {
    if w != [] {
      assert (w + t)[1..] == w[1..] + t;
      WordOf(w[1..], t);
      assert w == [w[0]] + w[1..];
    }
  }

  /** A space-free, non-empty word at the front of the stream is the next
      token, and what follows it is left. */
  lemma TokenOf(w: string, t: string)
    requires w != [] && forall i :: 0 <= i < |w| ==> !IsSpace(w[i])
    requires t == [] || IsSpace(t[0])
    ensures Token(w + t) == Some((w, t))
  {
    WordOf(w, t);
    assert SkipSpace(w + t) == w + t;
    assert (w + t)[|w|..] == t;
  }

  /** The same behind one space. */
  lemma TokenAfterSpace(w: string, t: string)
    requires w != [] && forall i :: 0 <= i < |w| ==> !IsSpace(w[i])
    requires t == [] || IsSpace(t[0])
    ensures Token(" " + w + t) == Some((w, t))
  {
    var s := " " + w + t;
    assert SkipSpace(s) == w + t by {
      assert s[0] == ' ' && s[1..] == w + t;
      assert (w + t)[0] == w[0];
    }
    assert Word(w + t) == w by {
      WordOf(w, t);
    }
    assert (w + t)[|w|..] == t;
  }

  /** A run of digits followed by a non-digit (or nothing) is read whole. */
  lemma {:induction false} DigitRunOf(d: string, t: string)
    requires AllDigits(d)
    requires t == [] || !IsDigit(t[0])
    ensures DigitRun(d + t) == d
    decreases |d|
  {
    if d != [] {
      assert (d + t)[1..] == d[1..] + t;
      DigitRunOf(d[1..], t);
      assert d == [d[0]] + d[1..];
    }
  }

  /** No character of a token is white space. */
  predicate IsToken(w: string) {
    w != [] && forall i :: 0 <= i < |w| ==> !IsSpace(w[i])
  }

  /** The request line `method SP target SP version CRLF` a writer produces
      is read back field by field, whatever the message held before, and
      the `getline` after it leaves exactly what follows the line. */
  lemma RequestLineRoundTrip(verb: string, target: string, version: string, rest: string,
                             oldVerb: string, oldVersion: string, buffer: string)
    requires IsToken(verb) && IsToken(target) && IsToken(version)
    requires buffer == verb + " " + target + " " + version + "\r\n" + rest
    ensures var l := ParseRequestLine(oldVerb, oldVersion, buffer);
            l == RequestLine(verb, target, version, "\r\n" + rest) && AfterStartLine(l.rest) == rest
  {
    var t3 := "\r\n" + rest;
    var t2 := " " + version + t3;
    var t1 := " " + target + t2;
    assert buffer == verb + t1;
    assert Extract(oldVerb, verb + t1) == (verb, t1) by {
      TokenOf(verb, t1);
    }
    assert Extract([], t1) == (target, t2) by {
      TokenAfterSpace(target, t2);
    }
    assert Extract(oldVersion, t2) == (version, t3) by {
      TokenAfterSpace(version, t3);
    }
    RequestLineOfTokens(oldVerb, oldVersion, buffer, verb, t1, target, t2, version, t3);
    EndOfStartLine(rest);
  }

  /** The `getline` after the start line consumes the CRLF that ends it. */
  lemma EndOfStartLine(rest: string)
    ensures AfterStartLine("\r\n" + rest) == rest
  {
    GetlineCrlf([], rest);
    assert [] + "\r\n" + rest == "\r\n" + rest;
  }

  /** Three successful extractions make up the request line. */
  lemma RequestLineOfTokens(oldVerb: string, oldVersion: string, buffer: string,
                            verb: string, t1: string, target: string, t2: string, version: string, t3: string)
    requires Extract(oldVerb, buffer) == (verb, t1)
    requires Extract([], t1) == (target, t2)
    requires Extract(oldVersion, t2) == (version, t3)
    ensures ParseRequestLine(oldVerb, oldVersion, buffer) == RequestLine(verb, target, version, t3)
  {
  }

  /** The status line `SP code SP reason CRLF` that follows the version is
      read back as the code and the reason phrase with its leading space,
      and leaves exactly what follows the line. */
  lemma StatusLineRoundTrip(code: nat, reason: string, rest: string, buffer: string)
    requires code <= IntMax
    requires '\n' !in reason
    requires buffer == " " + NatToString(code) + " " + reason + "\r\n" + rest
    ensures ParseStatusLine(buffer) == Some(StatusLine(code, " " + reason, rest))
  {
    var d := NatToString(code);
    var line := " " + reason;
    var tail := line + "\r\n" + rest;
    assert buffer == " " + (d + tail) by {
      Regroup6(" ", d, " ", reason, "\r\n", rest);
    }
    assert ReadInt(buffer) == Some((code, tail)) by {
      ReadCode(code, tail, buffer);
    }
    assert Getline(tail) == (line + "\r", rest) by {
      GetlineCrlf(line, rest);
    }
    assert StatusMessage(line + "\r") == line by {
      assert (line + "\r")[..|line|] == line;
    }
    StatusLineOf(buffer, code, tail, line + "\r", rest);
  }

  /** `a b c d e f`, regrouped behind its first two pieces. A helper that
      hands the solver the regrouping it needs, so proofs stay steady. */
  lemma Regroup6(a: string, b: string, c: string, d: string, e: string, f: string)
    ensures a + b + c + d + e + f == a + (b + (c + d + e + f))
  {
  }

  /** The status line once the code and the `getline` are known. */
  lemma StatusLineOf(s: string, status: int, tail: string, line: string, after: string)
    requires ReadInt(s) == Some((status, tail)) && tail != []
    requires Getline(tail) == (line, after)
    ensures ParseStatusLine(s) == Some(StatusLine(status, StatusMessage(line), after))
  {
  }

  /** A code rendered in decimal behind one space reads back as itself. */
  lemma ReadCode(code: nat, tail: string, buffer: string)
    requires code <= IntMax
    requires tail == [] || !IsDigit(tail[0])
    requires buffer == " " + (NatToString(code) + tail)
    ensures ReadInt(buffer) == Some((code, tail))
  {
    var d := NatToString(code);
    var t := d + tail;
    assert t[0] == d[0];
    assert SkipSpace(buffer) == t by {
      assert buffer[1..] == t;
    }
    assert DigitRun(t) == d by {
      DigitRunOf(d, tail);
    }
    assert DecimalValue(d) == code by {
      DecimalRoundTrip(code);
    }
    assert t[|d|..] == tail;
  }
}
