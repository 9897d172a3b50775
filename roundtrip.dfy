/** Reading back what the writers render: the header block
    `async_write_http_response` produces, fed with its body to
    `async_read_http_response`, yields the status, the fields, the content
    type, the body and the params that were written; the same holds for
    `async_write_http_request` and `async_read_http_request`. */
module RoundTrip {
  import opened Common
  import opened Tables
  import opened Headers
  import opened Query
  import opened Body
  import opened Framer
  import opened Serializer

  // ---------------------------------------------------------------------
  // Header blocks

  /** A value that `parse_headers` leaves untouched: it neither starts with
      a character stripped from the front nor ends with one stripped from
      the back. */
  predicate Clean(v: string) {
    v == [] || (!IsLeadTrim(v[0]) && !IsTailTrim(v[|v| - 1]))
  }

  /** A field whose rendered line reads back as itself: no `:` in the name,
      no newline anywhere, and a clean value. */
  predicate Renderable(f: (string, string)) {
    ':' !in f.0 && '\n' !in f.0 && '\n' !in f.1 && Clean(f.1)
  }

  /** The header map the fields `fs` build when stored in order, a later
      name overwriting an earlier one. */
  function FoldFields(acc: map<string, string>, fs: seq<(string, string)>): map<string, string>
    decreases |fs|
  {
    if fs == [] then acc else FoldFields(acc[fs[0].0 := fs[0].1], fs[1..])
  }

  /** A clean value behind the single space of `": "` and before the
      carriage return of the CRLF is trimmed back to itself. */
  lemma TrimPadded(v: string)
    requires Clean(v)
    ensures TrimValue(" " + v + "\r") == v
  {
    var s := " " + v + "\r";
    var u := v + "\r";
    assert s[1..] == u;
    assert TrimStart(u) == u by {
      if v != [] {
        assert u[0] == v[0];
      }
    }
    assert TrimEnd(u) == TrimEnd(v) by {
      assert u[..|u| - 1] == v;
    }
  }

  /** The line a field is rendered as, without its `'\n'`, carries exactly
      that field. */
  lemma FieldLineCarries(f: (string, string))
    requires Renderable(f)
    ensures HeaderField(f.0 + ": " + f.1 + "\r") == Some(f)
  {
    var raw := " " + f.1 + "\r";
    assert f.0 + ": " + f.1 + "\r" == f.0 + ":" + raw;
    FieldOfLine(f.0, raw);
    TrimPadded(f.1);
  }

  lemma FieldLinesCons(f: (string, string), fs: seq<(string, string)>)
    ensures FieldLines([f] + fs) == FieldLine(f) + FieldLines(fs)
  {
    FieldLinesAppend([f], fs);
    assert [f][..0] == [];
  }

  /** A rendered field block followed by the empty line: `parse_headers`
      reads every field back (a later name overwriting an earlier one), its
      block is exactly the fields' lines, and their `getline`s plus the one
      of the empty line leave exactly what follows the block. */
  lemma {:induction false} FieldBlockReadsBack(acc: map<string, string>, fs: seq<(string, string)>, rest: string)
    requires forall i :: 0 <= i < |fs| ==> Renderable(fs[i])
    ensures var lines := Lines(FieldLines(fs) + "\r\n" + rest);
            && HeadersFrom(acc, lines) == FoldFields(acc, fs)
            && |Block(lines)| == |fs| < |lines|
            && SkipLines(FieldLines(fs) + "\r\n" + rest, |fs| + 1) == rest
    decreases |fs|
  {
    var text := FieldLines(fs) + "\r\n" + rest;
    if fs == [] {
      assert Getline(text) == ("\r", rest) by {
        GetlineCrlf([], rest);
        assert [] + "\r\n" + rest == text && [] + "\r" == "\r";
      }
      assert Lines(text) == ["\r"] + Lines(rest);
    } else {
      var f := fs[0];
      var line := f.0 + ": " + f.1;
      var text' := FieldLines(fs[1..]) + "\r\n" + rest;
      assert text == line + "\r\n" + text' by {
        FieldLinesCons(f, fs[1..]);
        assert [f] + fs[1..] == fs;
        Regroup5(line, "\r\n", FieldLines(fs[1..]), "\r\n", rest);
      }
      assert Getline(text) == (line + "\r", text') by {
        assert Renderable(f);
        GetlineCrlf(line, text');
      }
      var lines := Lines(text);
      assert lines[0] == line + "\r" && lines[1..] == Lines(text');
      assert lines[0] != "\r";
      assert AddField(acc, lines[0]) == acc[f.0 := f.1] by {
        FieldLineCarries(f);
      }
      FieldBlockReadsBack(acc[f.0 := f.1], fs[1..], rest);
      assert Block(lines) == [lines[0]] + Block(lines[1..]);
    }
  }

  /** `a b c d e`, regrouped behind its first two pieces. A helper that
      hands the solver the regrouping it needs, so proofs stay steady. */
  lemma Regroup5(a: string, b: string, c: string, d: string, e: string)
    ensures a + b + c + d + e == a + b + (c + d + e)
  {
  }

  /** After a rendered field block, `parse_headers` takes the fields' lines
      and the empty line from the stream. */
  lemma BlockConsumed(fs: seq<(string, string)>, rest: string)
    requires forall i :: 0 <= i < |fs| ==> Renderable(fs[i])
    ensures var text := FieldLines(fs) + "\r\n" + rest;
            && HeadersOf(Lines(text)) == FoldFields(map[], fs)
            && SkipLines(text, LinesConsumed(Lines(text))) == rest
  {
    FieldBlockReadsBack(map[], fs, rest);
  }

  // ---------------------------------------------------------------------
  // Bodies

  /** A declared length that matches the body: whatever part of the body
      was buffered behind the header block, the exact read supplies the
      rest and the body comes out whole. */
  lemma LengthFramesBody(headers: map<string, string>, body: string, k: nat, more: string,
                         previous: string, incoming: Incoming)
    requires "Transfer-Encoding" !in headers
    requires "Content-Length" in headers && headers["Content-Length"] == NatToString(|body|)
    requires k <= |body| && incoming.data == body[k..] + more
    ensures var f := BodyFraming(headers, body[..k], previous, incoming);
            f.outcome.Completed? && f.outcome.ec == NoError && f.body == body
  {
    DecimalRoundTrip(|body|);
    var need := |body| - k;
    if need > 0 {
      assert incoming.data[..need] == body[k..];
      assert body[..k] + body[k..] == body;
    } else {
      assert body[..k] == body;
    }
  }

  // ---------------------------------------------------------------------
  // Responses

  /** No reason phrase of the status table spans more than one line. */
  lemma ReasonsAreOneLine(i: nat)
    requires i < |StatusTable|
    ensures '\n' !in StatusTable[i].1
  {
  }

  /** Every listed status is a positive code whose reason phrase is one
      line of text. */
  lemma ListedStatus(status: int)
    requires StatusReason(status).Ok?
    ensures 0 <= status <= IntMax
    ensures '\n' !in StatusReason(status).value
  {
    var v := StatusReason(status).value;
    assert FindByKey(StatusTable, status) == Some(v);
    var i :| 0 <= i < |StatusTable| && StatusTable[i] == (status, v);
    ReasonsAreOneLine(i);
  }

  /** Every name in the content-type table is a clean one-line value
      without `:`. */
  lemma TypeNameText(i: nat)
    requires i < |ContentTypeTable|
    ensures var name := ContentTypeTable[i].1;
            '\n' !in name && ':' !in name && Clean(name)
  {
    if i == 0 {
      assert ContentTypeTable[0].1 == "text/html";
    } else if i == 1 {
      assert ContentTypeTable[1].1 == "image/jpeg";
    } else if i == 2 {
      assert ContentTypeTable[2].1 == "text/css";
    } else {
      assert ContentTypeTable[3].1 == "application/json";
    }
  }

  /** The name of a listed content type is a clean one-line value, and
      it is `application/json` exactly for the JSON type. */
  lemma ListedTypeName(t: ContentType)
    requires !t.Unlisted?
    ensures var name := ContentTypeName(t).value;
            '\n' !in name && ':' !in name && Clean(name) &&
            (name == "application/json" <==> t == ApplicationJson)
  {
    var name := ContentTypeName(t).value;
    assert FindByKey(ContentTypeTable, t) == Some(name);
    var i :| 0 <= i < |ContentTypeTable| && ContentTypeTable[i] == (t, name);
    TypeNameText(i);
    ContentTypeNamesDistinct();
    assert ContentTypeTable[3] == (ApplicationJson, "application/json");
    if t == ApplicationJson {
      assert i == 3;
    }
    if name == "application/json" {
      assert i == 3;
    }
  }

  /** A decimal rendering is a clean one-line value. */
  lemma DecimalIsClean(n: nat)
    ensures '\n' !in NatToString(n) && Clean(NatToString(n))
  {
    var s := NatToString(n);
    assert IsDigit(s[0]) && IsDigit(s[|s| - 1]);
  }

  /** Every field of a response head reads back as itself. */
  lemma ResponseFieldsRenderable(date: string, typeName: string, n: nat)
    requires '\n' !in date && Clean(date) && '\n' !in typeName && Clean(typeName)
    ensures forall i :: 0 <= i < |ResponseFields(date, typeName, n)| ==> Renderable(ResponseFields(date, typeName, n)[i])
  {
    var fs := ResponseFields(date, typeName, n);
    assert Renderable(fs[0]) by {
      ServerFieldRenderable();
    }
    assert Renderable(fs[1]) by {
      PlainName("Date");
    }
    assert Renderable(fs[2]) by {
      PlainName("Content-Type");
    }
    assert Renderable(fs[3]) by {
      PlainName("Content-Length");
      DecimalIsClean(n);
    }
  }

  /** A field name made of letters and `-` has neither `:` nor a newline. */
  lemma PlainName(name: string)
    requires forall i :: 0 <= i < |name| ==> ('A' <= name[i] <= 'Z' || 'a' <= name[i] <= 'z' || name[i] == '-')
    ensures ':' !in name && '\n' !in name
  {
  }

  lemma ServerFieldRenderable()
    ensures Renderable(("Server", "uva::networking/" + ServerVersion))
  {
    PlainName("Server");
    var v := "uva::networking/" + ServerVersion;
    assert v[0] == 'u' && v[|v| - 1] == '1';
    assert forall i :: 0 <= i < |v| ==> v[i] != '\n';
  }

  /** The header map a response head's fields build. */
  lemma ResponseFieldMap(date: string, typeName: string, n: nat)
    ensures FoldFields(map[], ResponseFields(date, typeName, n)) ==
              map["Server" := "uva::networking/" + ServerVersion, "Date" := date,
                  "Content-Type" := typeName, "Content-Length" := NatToString(n)]
  {
    var fs := ResponseFields(date, typeName, n);
    var m1 := map["Server" := "uva::networking/" + ServerVersion];
    var m2 := m1["Date" := date];
    var m3 := m2["Content-Type" := typeName];
    var m4 := m3["Content-Length" := NatToString(n)];
    assert FoldFields(map[], fs) == FoldFields(m1, fs[1..]);
    assert FoldFields(m1, fs[1..]) == FoldFields(m2, fs[2..]);
    assert FoldFields(m2, fs[2..]) == FoldFields(m3, fs[3..]);
    assert FoldFields(m3, fs[3..]) == FoldFields(m4, fs[4..]);
  }

  /** The completion of a response read, once its headers, content type
      and body are known. */
  lemma ResponseCompletes(m: HttpMessage, rest: string, incoming: Incoming,
                          headers: map<string, string>, t: ContentType, body: string)
    requires HeadersOf(Lines(rest)) == headers
    requires ResponseContentType(headers) == Ok(t)
    requires var f := BodyFraming(headers, SkipLines(rest, LinesConsumed(Lines(rest))), m.rawBody, incoming);
             f.outcome.Completed? && f.body == body
    ensures ResponseCompletion(m, rest, incoming) ==
              Complete(m.(headers := headers, contentType := t, rawBody := body,
                          params := if IsJson(headers) then JsonOf(body) else m.params))
  {
  }

  /** The header block and body of a response, as the writer renders them,
      complete the response read: the fields are read back, the content
      type resolves to the one written, the body comes out whole and the
      params are the decoded body exactly for `application/json`. */
  lemma ResponseBlockReadsBack(m: HttpMessage, date: string, t: ContentType, body: string, k: nat,
                               more: string, rest: string, incoming: Incoming)
    requires !t.Unlisted? && '\n' !in date && Clean(date)
    requires k <= |body| && incoming.data == body[k..] + more
    requires rest == FieldLines(ResponseFields(date, ContentTypeName(t).value, |body|)) + "\r\n" + body[..k]
    ensures ResponseCompletion(m, rest, incoming) ==
              Complete(m.(headers := FoldFields(map[], ResponseFields(date, ContentTypeName(t).value, |body|)),
                          contentType := t, rawBody := body,
                          params := if t == ApplicationJson then JsonOf(body) else m.params))
  {
    var typeName := ContentTypeName(t).value;
    var fs := ResponseFields(date, typeName, |body|);
    var headers := FoldFields(map[], fs);
    assert HeadersOf(Lines(rest)) == headers && SkipLines(rest, LinesConsumed(Lines(rest))) == body[..k] by {
      ListedTypeName(t);
      ResponseFieldsRenderable(date, typeName, |body|);
      BlockConsumed(fs, body[..k]);
    }
    assert && headers["Content-Type"] == typeName
           && "Transfer-Encoding" !in headers
           && "Content-Length" in headers && headers["Content-Length"] == NatToString(|body|) by {
      ResponseFieldMap(date, typeName, |body|);
    }
    assert ResponseContentType(headers) == Ok(t) by {
      ContentTypeRoundTrip(t);
    }
    assert IsJson(headers) <==> t == ApplicationJson by {
      ListedTypeName(t);
    }
    LengthFramesBody(headers, body, k, more, m.rawBody, incoming);
    ResponseCompletes(m, rest, incoming, headers, t, body);
  }

  /** Concatenation regrouped: the first piece apart, the last three
      together. A helper that hands the solver the regrouping it needs. */
  lemma Regroup(a: string, b: string, c: string, d: string, e: string, f: string, g: string, h: string, i: string)
    ensures a + b + c + d + e + f + g + h + i == a + (b + c + d + e + f + (g + h + i))
  {
  }

  /** Concatenation is associative. A helper that keeps a costly step
      cheap in a large proof context. */
  lemma Associative(a: string, b: string, c: string)
    ensures a + (b + c) == a + b + c
  {
  }

  /** The version token a writer puts first. */
  lemma HttpOneOne()
    ensures "HTTP/1.1 " == "HTTP/1.1" + " "
    ensures IsToken("HTTP/1.1") && StartsWith("HTTP/1.1", "HTTP/") && "HTTP/1.1"[5..] == "1.1"
  {
  }

  /** `async_read_http_response` once the version token and the status
      line have been read. */
  lemma ResponseFramingOf(m: HttpMessage, buffer: string, incoming: Incoming, v: string, r1: string, l: StatusLine)
    requires Extract(m.version, buffer) == (v, r1) && StartsWith(v, "HTTP/")
    requires ParseStatusLine(r1) == Some(l)
    ensures ResponseFraming(m, NoError, buffer, incoming) ==
              ResponseCompletion(m.(version := v[5..], status := l.status, statusMsg := l.statusMsg, params := NullParams),
                                 l.rest, incoming)
  {
  }

  /** What `async_write_http_response` sends, read by
      `async_read_http_response` whatever part of the body arrived with the
      header block: version `1.1`, the status code, the reason phrase
      behind its space, the four fields, the content type and the body
      written, and params that are the decoded body for `application/json`
      and empty otherwise. */
  lemma ResponseReadsBack(m: HttpMessage, status: int, t: ContentType, date: string, body: string,
                          k: nat, more: string, buffer: string, incoming: Incoming)
    requires ResponseHead(status, |body|, t, date).Ok?
    requires '\n' !in date && Clean(date)
    requires k <= |body| && incoming.data == body[k..] + more
    requires buffer == ResponseHead(status, |body|, t, date).value + body[..k]
    ensures ResponseFraming(m, NoError, buffer, incoming) ==
              Complete(m.(version := "1.1", status := status, statusMsg := " " + StatusReason(status).value,
                          headers := FoldFields(map[], ResponseFields(date, ContentTypeName(t).value, |body|)),
                          contentType := t, rawBody := body,
                          params := if t == ApplicationJson then JsonOf(body) else NullParams))
  {
    var reason := StatusReason(status).value;
    var fs := ResponseFields(date, ContentTypeName(t).value, |body|);
    ListedStatus(status);
    var code := NatToString(status);
    var rest := FieldLines(fs) + "\r\n" + body[..k];
    var r1 := " " + code + " " + reason + "\r\n" + rest;
    HttpOneOne();
    assert buffer == "HTTP/1.1" + r1 by {
      Regroup("HTTP/1.1", " ", code, " ", reason, "\r\n", FieldLines(fs), "\r\n", body[..k]);
    }
    assert Extract(m.version, buffer) == ("HTTP/1.1", r1) by {
      TokenOf("HTTP/1.1", r1);
    }
    var l := StatusLine(status, " " + reason, rest);
    assert ParseStatusLine(r1) == Some(l) by {
      StatusLineRoundTrip(status, reason, rest, r1);
    }
    ResponseFramingOf(m, buffer, incoming, "HTTP/1.1", r1, l);
    var m1 := m.(version := "1.1", status := status, statusMsg := " " + reason, params := NullParams);
    ResponseBlockReadsBack(m1, date, t, body, k, more, rest, incoming);
  }

  // ---------------------------------------------------------------------
  // Folding fields into a map

  /** Storing one more field overwrites its name. */
  lemma {:induction false} FoldFieldsSnoc(acc: map<string, string>, fs: seq<(string, string)>, f: (string, string))
    ensures FoldFields(acc, fs + [f]) == FoldFields(acc, fs)[f.0 := f.1]
    decreases |fs|
  {
    if fs == [] {
      assert [] + [f] == [f] && [f][1..] == [];
    } else {
      assert (fs + [f])[1..] == fs[1..] + [f];
      FoldFieldsSnoc(acc[fs[0].0 := fs[0].1], fs[1..], f);
    }
  }

  /** Storing two lists of fields in turn. */
  lemma {:induction false} FoldFieldsAppend(acc: map<string, string>, a: seq<(string, string)>, b: seq<(string, string)>)
    ensures FoldFields(acc, a + b) == FoldFields(FoldFields(acc, a), b)
    decreases |a|
  {
    if a == [] {
      assert [] + b == b;
    } else {
      assert (a + b)[1..] == a[1..] + b;
      FoldFieldsAppend(acc[a[0].0 := a[0].1], a[1..], b);
    }
  }

  /** Fields of other names leave a name as it was. */
  lemma {:induction false} FoldFieldsAbsent(acc: map<string, string>, fs: seq<(string, string)>, name: string)
    requires forall i :: 0 <= i < |fs| ==> fs[i].0 != name
    ensures name in FoldFields(acc, fs) <==> name in acc
    ensures name in acc ==> FoldFields(acc, fs)[name] == acc[name]
    decreases |fs|
  {
    if fs != [] {
      assert fs[0].0 != name;
      FoldFieldsAbsent(acc[fs[0].0 := fs[0].1], fs[1..], name);
    }
  }

  // ---------------------------------------------------------------------
  // Requests

  /** The pairs a query string can carry back: no key holds `=` or `%`, no
      value holds `&` or `%`. */
  predicate QueryPairs(ps: seq<(string, string)>) {
    forall i :: 0 <= i < |ps| ==> '=' !in ps[i].0 && '%' !in ps[i].0 && '&' !in ps[i].1 && '%' !in ps[i].1
  }

  /** User headers that read back as themselves and do not stand in for
      the fields the writer adds itself (Content-Type and Content-Length)
      or for the encoding the reader refuses. */
  predicate UserFields(headers: seq<(string, string)>) {
    forall i :: 0 <= i < |headers| ==>
      && Renderable(headers[i])
      && headers[i].0 != "Content-Type"
      && headers[i].0 != "Content-Length"
      && headers[i].0 != "Transfer-Encoding"
  }

  /** The target `async_write_http_request` renders splits back into a path,
      which is the URL behind its leading `/`, and params, which are the
      ones written. */
  lemma RequestTargetSplits(url: string, params: seq<(string, string)>)
    requires '?' !in url && QueryPairs(params)
    ensures var target := RequestTarget(url, params);
            && PathOf(target) == (if StartsWith(url, "/") then [] else "/") + url
            && RequestParams(target) == Ok(InsertAll(map[], params))
  {
    var p := (if StartsWith(url, "/") then [] else "/") + url;
    var target := RequestTarget(url, params);
    assert '?' !in p;
    if params == [] {
      assert target == p;
      PathIsPrefix(target, |p|);
    } else {
      var q := QueryString(params);
      assert target == p + ("?" + q);
      assert target[..|p|] == p && target[|p|] == '?';
      PathIsPrefix(target, |p|);
      assert QueryOf(target) == q by {
        assert target[|p| + 1..] == q;
      }
      assert q != [] by {
        if |params| == 1 {
          assert q == params[0].0 + "=" + params[0].1;
        } else {
          assert q == params[0].0 + "=" + params[0].1 + "&" + QueryString(params[1..]);
        }
      }
      QueryRoundTrip(params);
    }
  }

  /** The five fields every request carries read back as themselves. */
  lemma FixedFieldsRenderable(host: string, typeName: string)
    requires '\n' !in host && Clean(host) && '\n' !in typeName && Clean(typeName)
    ensures var fixed := FixedFields(host, typeName);
            forall i :: 0 <= i < |fixed| ==> Renderable(fixed[i])
  {
    var fixed := FixedFields(host, typeName);
    assert Renderable(fixed[0]) by {
      PlainName("Host");
    }
    assert Renderable(fixed[1]) by {
      AgentFieldRenderable();
    }
    assert Renderable(fixed[2]) by {
      PlainName("Accept");
      assert "*/*"[0] == '*' && "*/*"[2] == '*';
    }
    assert Renderable(fixed[3]) by {
      PlainName("Content-Type");
    }
    assert Renderable(fixed[4]) by {
      PlainName("Connection");
      assert "keep-alive"[0] == 'k' && "keep-alive"[9] == 'e';
    }
  }

  lemma AgentFieldRenderable()
    ensures Renderable(("User-Agent", "uva::networking/" + ClientVersion))
  {
    PlainName("User-Agent");
    var v := "uva::networking/" + ClientVersion;
    assert v[0] == 'u' && v[|v| - 1] == '0';
    assert forall i :: 0 <= i < |v| ==> v[i] != '\n';
  }

  /** The length field reads back as itself. */
  lemma LengthFieldRenderable(n: nat)
    ensures var length := LengthField(n);
            forall i :: 0 <= i < |length| ==> Renderable(length[i])
  {
    if n > 0 {
      PlainName("Content-Length");
      DecimalIsClean(n);
    }
  }

  /** Every field of a request head reads back as itself. */
  lemma RequestFieldsRenderable(host: string, typeName: string, headers: seq<(string, string)>, n: nat)
    requires '\n' !in host && Clean(host) && '\n' !in typeName && Clean(typeName)
    requires UserFields(headers)
    ensures var fs := RequestFields(host, typeName, headers, n);
            forall i :: 0 <= i < |fs| ==> Renderable(fs[i])
  {
    var fixed := FixedFields(host, typeName);
    var length := LengthField(n);
    var fs := RequestFields(host, typeName, headers, n);
    FixedFieldsRenderable(host, typeName);
    LengthFieldRenderable(n);
    forall i | 0 <= i < |fs|
      ensures Renderable(fs[i])
    {
      if i < |fixed| {
        assert fs[i] == fixed[i];
      } else if i < |fixed| + |headers| {
        assert fs[i] == headers[i - |fixed|];
      } else {
        assert fs[i] == length[i - |fixed| - |headers|];
      }
    }
  }

  /** The header map a request head's fields build: it names the content
      type written, never a transfer encoding, and a length exactly when
      the body is not empty. */
  lemma RequestFieldMap(host: string, typeName: string, headers: seq<(string, string)>, n: nat)
    requires UserFields(headers)
    ensures var h := FoldFields(map[], RequestFields(host, typeName, headers, n));
            && "Transfer-Encoding" !in h
            && "Content-Type" in h && h["Content-Type"] == typeName
            && (n > 0 ==> "Content-Length" in h && h["Content-Length"] == NatToString(n))
            && (n == 0 ==> "Content-Length" !in h)
  {
    var fixed := FixedFields(host, typeName);
    var h0 := FoldFields(map[], fixed);
    assert h0 == map["Host" := host, "User-Agent" := "uva::networking/" + ClientVersion, "Accept" := "*/*",
                     "Content-Type" := typeName, "Connection" := "keep-alive"] by {
      var m1 := map["Host" := host];
      var m2 := m1["User-Agent" := "uva::networking/" + ClientVersion];
      var m3 := m2["Accept" := "*/*"];
      var m4 := m3["Content-Type" := typeName];
      var m5 := m4["Connection" := "keep-alive"];
      assert FoldFields(map[], fixed) == FoldFields(m1, fixed[1..]);
      assert FoldFields(m1, fixed[1..]) == FoldFields(m2, fixed[2..]);
      assert FoldFields(m2, fixed[2..]) == FoldFields(m3, fixed[3..]);
      assert FoldFields(m3, fixed[3..]) == FoldFields(m4, fixed[4..]);
      assert FoldFields(m4, fixed[4..]) == FoldFields(m5, fixed[5..]);
    }
    var h1 := FoldFields(h0, headers);
    FoldFieldsAbsent(h0, headers, "Transfer-Encoding");
    FoldFieldsAbsent(h0, headers, "Content-Type");
    FoldFieldsAbsent(h0, headers, "Content-Length");
    FoldFieldsAppend(map[], fixed, headers);
    FoldFieldsAppend(map[], fixed + headers, LengthField(n));
    if n > 0 {
      FoldFieldsSnoc(h1, [], ("Content-Length", NatToString(n)));
      assert [] + [("Content-Length", NatToString(n))] == LengthField(n);
    }
  }

  /** The completion of a request read, once its headers and body are
      known. */
  lemma RequestCompletes(m: HttpMessage, rest: string, incoming: Incoming,
                         headers: map<string, string>, body: string)
    requires HeadersOf(Lines(rest)) == headers
    requires var f := BodyFraming(headers, SkipLines(rest, LinesConsumed(Lines(rest))), m.rawBody, incoming);
             f.outcome.Completed? && f.body == body
    ensures RequestCompletion(m, rest, incoming) ==
              Complete(m.(headers := headers, rawBody := body,
                          params := if m.verb == "POST" && IsJson(headers) then JsonOf(body) else m.params))
  {
  }

  /** The header block of a request reads back as its fields, and what
      follows it is left for the body. */
  lemma RequestHeaderBlock(host: string, t: ContentType, headers: seq<(string, string)>, n: nat, tail: string)
    requires !t.Unlisted? && '\n' !in host && Clean(host) && UserFields(headers)
    ensures var fs := RequestFields(host, ContentTypeName(t).value, headers, n);
            var text := FieldLines(fs) + "\r\n" + tail;
            && HeadersOf(Lines(text)) == FoldFields(map[], fs)
            && SkipLines(text, LinesConsumed(Lines(text))) == tail
  {
    var typeName := ContentTypeName(t).value;
    ListedTypeName(t);
    RequestFieldsRenderable(host, typeName, headers, n);
    BlockConsumed(RequestFields(host, typeName, headers, n), tail);
  }

  /** The body a request head frames: the declared length when there is a
      body, and none, leaving the old body, when there is not. */
  lemma RequestBodyFramed(headers: map<string, string>, body: string, k: nat, more: string,
                          previous: string, incoming: Incoming)
    requires "Transfer-Encoding" !in headers
    requires body != [] ==> "Content-Length" in headers && headers["Content-Length"] == NatToString(|body|)
    requires body == [] ==> "Content-Length" !in headers
    requires k <= |body| && incoming.data == body[k..] + more
    ensures var f := BodyFraming(headers, body[..k], previous, incoming);
            f.outcome.Completed? && f.body == if body == [] then previous else body
  {
    if body != [] {
      LengthFramesBody(headers, body, k, more, previous, incoming);
    }
  }

  /** The header block and body of a request, as the writer renders them,
      complete the request read: the fields are read back and the body
      comes out whole. An empty body sends no `Content-Length`, so the
      reader's old body is left as it was. */
  lemma RequestBlockReadsBack(m: HttpMessage, host: string, t: ContentType, headers: seq<(string, string)>,
                              body: string, k: nat, more: string, rest: string, incoming: Incoming)
    requires !t.Unlisted? && '\n' !in host && Clean(host) && UserFields(headers)
    requires k <= |body| && incoming.data == body[k..] + more
    requires rest == FieldLines(RequestFields(host, ContentTypeName(t).value, headers, |body|)) + "\r\n" + body[..k]
    ensures var b := if body == [] then m.rawBody else body;
            RequestCompletion(m, rest, incoming) ==
              Complete(m.(headers := FoldFields(map[], RequestFields(host, ContentTypeName(t).value, headers, |body|)),
                          rawBody := b,
                          params := if m.verb == "POST" && t == ApplicationJson then JsonOf(b) else m.params))
  {
    var typeName := ContentTypeName(t).value;
    var h := FoldFields(map[], RequestFields(host, typeName, headers, |body|));
    var b := if body == [] then m.rawBody else body;
    assert HeadersOf(Lines(rest)) == h && SkipLines(rest, LinesConsumed(Lines(rest))) == body[..k] by {
      RequestHeaderBlock(host, t, headers, |body|, body[..k]);
    }
    assert BodyFraming(h, body[..k], m.rawBody, incoming).outcome.Completed?
        && BodyFraming(h, body[..k], m.rawBody, incoming).body == b by {
      RequestFieldMap(host, typeName, headers, |body|);
      RequestBodyFramed(h, body, k, more, m.rawBody, incoming);
    }
    assert IsJson(h) <==> t == ApplicationJson by {
      RequestFieldMap(host, typeName, headers, |body|);
      ListedTypeName(t);
    }
    RequestCompletes(m, rest, incoming, h, b);
  }

  /** `async_read_http_request` once the request line has been read. */
  lemma RequestFramingOf(m: HttpMessage, buffer: string, endpoint: string, incoming: Incoming,
                         l: RequestLine, params: map<string, string>)
    requires ParseRequestLine(m.verb, m.version, buffer) == l
    requires RequestParams(l.target) == Ok(params) && StartsWith(l.version, "HTTP/")
    ensures RequestFraming(m, buffer, endpoint, incoming) ==
              RequestCompletion(m.(verb := l.verb, url := m.url + PathOf(l.target), version := l.version,
                                   params := ParamMap(params), endpoint := endpoint),
                                AfterStartLine(l.rest), incoming)
  {
  }

  /** The request line `async_write_http_request` writes is read back
      whole, leaving the field lines and the buffered part of the body. */
  lemma RequestLineReadsBack(oldVerb: string, oldVersion: string, verb: string, target: string,
                             fields: string, tail: string, buffer: string)
    requires IsToken(verb) && IsToken(target)
    requires buffer == verb + " " + target + " HTTP/1.1\r\n" + fields + "\r\n" + tail
    ensures var l := ParseRequestLine(oldVerb, oldVersion, buffer);
            && l == RequestLine(verb, target, "HTTP/1.1", "\r\n" + (fields + "\r\n" + tail))
            && AfterStartLine(l.rest) == fields + "\r\n" + tail
  {
    var rest := fields + "\r\n" + tail;
    HttpOneOne();
    assert buffer == verb + " " + target + " " + "HTTP/1.1" + "\r\n" + rest by {
      assert " HTTP/1.1\r\n" == " " + "HTTP/1.1" + "\r\n";
      Regroup(verb, " ", target, " ", "HTTP/1.1", "\r\n", fields, "\r\n", tail);
      Regroup(verb, " ", target, " HTTP/1.1\r\n", [], [], fields, "\r\n", tail);
    }
    RequestLineRoundTrip(verb, target, "HTTP/1.1", rest, oldVerb, oldVersion, buffer);
  }

  /** What `async_write_http_request` sends, read by
      `async_read_http_request` whatever part of the body arrived with the
      header block: the method, the URL behind its leading `/` (appended to
      the URL the message held), version `HTTP/1.1`, every field written,
      the body (or, for an empty one, the old body), and params that are the
      decoded body for a JSON POST and the written params otherwise. */
  lemma RequestReadsBack(m: HttpMessage, verb: string, url: string, params: seq<(string, string)>, host: string,
                         t: ContentType, headers: seq<(string, string)>, body: string,
                         k: nat, more: string, buffer: string, endpoint: string, incoming: Incoming)
    requires RequestHead(verb, url, params, host, t, headers, |body|).Ok?
    requires IsToken(verb) && IsToken(RequestTarget(url, params)) && '?' !in url && QueryPairs(params)
    requires '\n' !in host && Clean(host) && UserFields(headers)
    requires k <= |body| && incoming.data == body[k..] + more
    requires buffer == RequestHead(verb, url, params, host, t, headers, |body|).value + body[..k]
    ensures var b := if body == [] then m.rawBody else body;
            RequestFraming(m, buffer, endpoint, incoming) ==
              Complete(m.(verb := verb, url := m.url + (if StartsWith(url, "/") then [] else "/") + url,
                          version := "HTTP/1.1", endpoint := endpoint,
                          headers := FoldFields(map[], RequestFields(host, ContentTypeName(t).value, headers, |body|)),
                          rawBody := b,
                          params := if verb == "POST" && t == ApplicationJson then JsonOf(b)
                                    else ParamMap(InsertAll(map[], params))))
  {
    var target := RequestTarget(url, params);
    var fs := RequestFields(host, ContentTypeName(t).value, headers, |body|);
    var rest := FieldLines(fs) + "\r\n" + body[..k];
    var l := RequestLine(verb, target, "HTTP/1.1", "\r\n" + rest);
    assert buffer == verb + " " + target + " HTTP/1.1\r\n" + FieldLines(fs) + "\r\n" + body[..k];
    assert ParseRequestLine(m.verb, m.version, buffer) == l && AfterStartLine(l.rest) == rest by {
      RequestLineReadsBack(m.verb, m.version, verb, target, FieldLines(fs), body[..k], buffer);
    }
    var ps := InsertAll(map[], params);
    assert PathOf(target) == (if StartsWith(url, "/") then [] else "/") + url
        && RequestParams(target) == Ok(ps) by {
      RequestTargetSplits(url, params);
    }
    assert StartsWith(l.version, "HTTP/") by {
      HttpOneOne();
    }
    RequestFramingOf(m, buffer, endpoint, incoming, l, ps);
    var m1 := m.(verb := verb, url := m.url + PathOf(target), version := "HTTP/1.1",
                 params := ParamMap(ps), endpoint := endpoint);
    Associative(m.url, if StartsWith(url, "/") then [] else "/", url);
    var b := if body == [] then m.rawBody else body;
    var done := m1.(headers := FoldFields(map[], fs), rawBody := b,
                    params := if verb == "POST" && t == ApplicationJson then JsonOf(b) else ParamMap(ps));
    assert RequestCompletion(m1, rest, incoming) == Complete(done) by {
      assert !t.Unlisted?;
      RequestBlockReadsBack(m1, host, t, headers, body, k, more, rest, incoming);
    }
  }
}
