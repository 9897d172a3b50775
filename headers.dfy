/** Line reading (`std::getline` on `'\n'`) and the header-block parser
    `parse_headers`. The parser takes the block as the sequence of lines
    `getline` yields; `Lines` and `SkipLines` connect it to the buffered text. */
module Headers {
  import opened Common

  // ---------------------------------------------------------------------
  // std::getline

  /** One `std::getline`: the text before the first `'\n'` and what follows
      that `'\n'`; without a `'\n'`, the whole text and nothing. */
  function Getline(s: string): (r: (string, string))
    requires s != []
    ensures '\n' !in r.0
    ensures s == r.0 + ['\n'] + r.1 || (s == r.0 && r.1 == [])
    ensures |r.1| < |s|
  {
    if s[0] == '\n' then ([], s[1..])
    else if |s| == 1 then (s, [])
    else
      var (line, rest) := Getline(s[1..]);
      ([s[0]] + line, rest)
  }

  /** A line free of newlines followed by a newline is what `getline`
      returns, and the rest is what it leaves. */
  lemma {:induction false} GetlineSplits(line: string, rest: string)
    requires '\n' !in line
    ensures Getline(line + ['\n'] + rest) == (line, rest)
    decreases |line|
  {
    var s := line + ['\n'] + rest;
    if line != [] {
      assert s[1..] == line[1..] + ['\n'] + rest;
      GetlineSplits(line[1..], rest);
      assert line == [line[0]] + line[1..];
    }
  }

  /** A newline-free line ended by CRLF: `getline` returns it with its
      carriage return. */
  lemma GetlineCrlf(line: string, rest: string)
    requires '\n' !in line
    ensures Getline(line + "\r\n" + rest) == (line + "\r", rest)
  {
    assert line + "\r\n" + rest == (line + "\r") + ['\n'] + rest;
    GetlineSplits(line + "\r", rest);
  }

  /** Every line that repeated `getline` calls yield, until end of input. */
  function Lines(s: string): seq<string>
    decreases |s|
  {
    if s == [] then [] else [Getline(s).0] + Lines(Getline(s).1)
  }

  /** The text left after `k` calls of `getline`. */
  function SkipLines(s: string, k: nat): string
    decreases k
  {
    if k == 0 || s == [] then s else SkipLines(Getline(s).1, k - 1)
  }

  // ---------------------------------------------------------------------
  // Trimming of a header value

  /** The characters stripped from the front of a value. */
  predicate IsLeadTrim(c: char) {
    c == ' ' || c == '\t' || c == '\'' || c == '"'
  }

  /** The characters stripped from the back of a value. */
  predicate IsTailTrim(c: char) {
    IsLeadTrim(c) || c == '\r' || c == '\n'
  }

  function TrimStart(s: string): string {
    if s != [] && IsLeadTrim(s[0]) then TrimStart(s[1..]) else s
  }

  function TrimEnd(s: string): string {
    if s != [] && IsTailTrim(s[|s| - 1]) then TrimEnd(s[..|s| - 1]) else s
  }

  function TrimValue(s: string): string {
    TrimEnd(TrimStart(s))
  }

  /** `TrimStart` drops exactly the longest prefix of leading-trim characters. */
  lemma {:induction false} TrimStartShape(s: string)
    ensures |TrimStart(s)| <= |s|
    ensures TrimStart(s) == s[|s| - |TrimStart(s)|..]
    ensures forall i :: 0 <= i < |s| - |TrimStart(s)| ==> IsLeadTrim(s[i])
    ensures TrimStart(s) != [] ==> !IsLeadTrim(TrimStart(s)[0])
  {
    if s != [] && IsLeadTrim(s[0]) {
      var u := s[1..];
      TrimStartShape(u);
      var t := TrimStart(u);
      assert TrimStart(s) == t;
      assert u[|u| - |t|..] == s[|s| - |t|..];
      forall i | 0 <= i < |s| - |t| ensures IsLeadTrim(s[i]) {
        if i > 0 {
          assert s[i] == u[i - 1];
        }
      }
    }
  }

  /** `TrimEnd` drops exactly the longest suffix of trailing-trim characters. */
  lemma {:induction false} TrimEndShape(s: string)
    ensures |TrimEnd(s)| <= |s|
    ensures TrimEnd(s) == s[..|TrimEnd(s)|]
    ensures forall i :: |TrimEnd(s)| <= i < |s| ==> IsTailTrim(s[i])
    ensures TrimEnd(s) != [] ==> !IsTailTrim(TrimEnd(s)[|TrimEnd(s)| - 1])
  {
    if s != [] && IsTailTrim(s[|s| - 1]) {
      var u := s[..|s| - 1];
      TrimEndShape(u);
      var t := TrimEnd(u);
      assert TrimEnd(s) == t;
      assert u[..|t|] == s[..|t|];
      forall i | |t| <= i < |s| ensures IsTailTrim(s[i]) {
        if i < |s| - 1 {
          assert s[i] == u[i];
        }
      }
    }
  }

  /** A trimmed value is the slice `s[p..q]` of the raw value where `s[..p]`
      is the longest run of leading space, tab, `'` and `"`, and `s[q..]`
      consists of trailing space, tab, quotes, CR and LF; the value neither
      starts with a leading-trim character nor ends with a trailing-trim
      one. */
  lemma TrimValueShape(s: string)
    ensures var p := |s| - |TrimStart(s)|;
            var q := p + |TrimValue(s)|;
            && 0 <= p <= q <= |s|
            && TrimValue(s) == s[p..q]
            && (forall i :: 0 <= i < p ==> IsLeadTrim(s[i]))
            && (p < |s| ==> !IsLeadTrim(s[p]))
            && (forall i :: q <= i < |s| ==> IsTailTrim(s[i]))
            && (TrimValue(s) != [] ==> !IsLeadTrim(TrimValue(s)[0]))
            && (TrimValue(s) != [] ==> !IsTailTrim(TrimValue(s)[|TrimValue(s)| - 1]))
  {
    var t := TrimStart(s);
    TrimStartShape(s);
    TrimEndShape(t);
    var p := |s| - |t|;
    var v := TrimEnd(t);
    assert v == s[p..p + |v|];
    forall i | p + |v| <= i < |s| ensures IsTailTrim(s[i]) {
      assert s[i] == t[i - p];
    }
    if v != [] {
      assert v[0] == t[0];
    }
  }

  // ---------------------------------------------------------------------
  // parse_headers

  /** The index of the first occurrence of `c` in `s`, as `std::string::find`. */
  function Find(s: string, c: char): (r: Option<nat>)
    ensures r.None? <==> c !in s
    ensures r.Some? ==> r.value < |s| && s[r.value] == c && c !in s[..r.value]
  {
    if s == [] then None
    else if s[0] == c then Some(0)
    else match Find(s[1..], c)
      case None => None
      case Some(i) => assert s[1..][..i] == s[1..i + 1]; Some(i + 1)
  }

  /** The field one line contributes: none for an empty line or a line
      without `:`; otherwise the text before the first `:` (untrimmed) and
      the trimmed text after it. */
  function HeaderField(line: string): Option<(string, string)> {
    if line == [] then None
    else match Find(line, ':')
      case None => None
      case Some(i) => Some((line[..i], TrimValue(line[i + 1..])))
  }

  /** The lines `parse_headers` processes: those before the first line that
      is exactly `"\r"`. */
  function Block(lines: seq<string>): (b: seq<string>)
    ensures |b| <= |lines| && b == lines[..|b|]
    ensures "\r" !in b
    ensures |b| < |lines| ==> lines[|b|] == "\r"
  {
    if lines == [] || lines[0] == "\r" then [] else [lines[0]] + Block(lines[1..])
  }

  /** How many lines `parse_headers` takes from the stream: the block, and
      the terminating `"\r"` line when there is one. */
  function LinesConsumed(lines: seq<string>): nat {
    if |Block(lines)| < |lines| then |Block(lines)| + 1 else |lines|
  }

  function AddField(headers: map<string, string>, line: string): map<string, string> {
    match HeaderField(line)
    case None => headers
    case Some((name, value)) => headers[name := value]
  }

  /** The headers obtained by adding the fields of `lines`, in order, to
      `acc`, up to the first `"\r"` line. */
  function HeadersFrom(acc: map<string, string>, lines: seq<string>): map<string, string>
    decreases |lines|
  {
    if lines == [] || lines[0] == "\r" then acc
    else HeadersFrom(AddField(acc, lines[0]), lines[1..])
  }

  function HeadersOf(lines: seq<string>): map<string, string> {
    HeadersFrom(map[], lines)
  }

  /** `parse_headers`: reads lines until a `"\r"` line or the end of input,
      skips empty lines and lines without `:`, splits at the first `:`,
      strips the value in place and stores it, a later name overwriting an
      earlier one. Also reports how many lines it took from the stream. */
  method ParseHeaders(lines: seq<string>) returns (headers: map<string, string>, consumed: nat)
    ensures headers == HeadersOf(lines)
    ensures consumed == LinesConsumed(lines)
  {
    headers := map[];
    var i := 0;
    while i < |lines| && lines[i] != "\r"
      invariant 0 <= i <= |lines|
      invariant "\r" !in lines[..i]
      invariant HeadersFrom(headers, lines[i..]) == HeadersOf(lines)
    {
      var header := lines[i];
      assert HeadersFrom(headers, lines[i..]) == HeadersFrom(AddField(headers, header), lines[i + 1..]);
      if |header| > 0 {
        var separator := Find(header, ':');
        if separator.Some? {
          var h := header[..separator.value];
          header := header[|h| + 1..];
          ghost var raw := header;
          while |header| > 0 && IsLeadTrim(header[0])
            invariant TrimStart(header) == TrimStart(raw)
          {
            header := header[1..];
          }
          ghost var started := header;
          while |header| > 0 && IsTailTrim(header[|header| - 1])
            invariant TrimEnd(header) == TrimEnd(started)
          {
            header := header[..|header| - 1];
          }
          assert header == TrimValue(raw);
          headers := headers[h := header];
        }
      }
      assert lines[..i + 1] == lines[..i] + [lines[i]];
      i := i + 1;
    }
    BlockIs(lines, i);
    consumed := if i < |lines| then i + 1 else i;
  }

  lemma BlockIs(lines: seq<string>, i: nat)
    requires i <= |lines| && (i < |lines| ==> lines[i] == "\r")
    requires "\r" !in lines[..i]
    ensures Block(lines) == lines[..i]
  {
  }

  // ---------------------------------------------------------------------
  // Properties of the parsed block

  /** The lines at or after a `"\r"` line are never read. */
  lemma {:induction false} StopsAtCarriageReturnLine(acc: map<string, string>, lines: seq<string>, more: seq<string>)
    requires "\r" !in lines
    ensures HeadersFrom(acc, lines + ["\r"] + more) == HeadersFrom(acc, lines)
    decreases |lines|
  {
    if lines != [] {
      assert (lines + ["\r"] + more)[1..] == lines[1..] + ["\r"] + more;
      StopsAtCarriageReturnLine(AddField(acc, lines[0]), lines[1..], more);
    }
  }

  /** An empty line or a line without `:` is skipped without ending the
      block. */
  lemma SkippedLine(acc: map<string, string>, line: string, lines: seq<string>)
    requires line == [] || (':' !in line && line != "\r")
    ensures HeadersFrom(acc, [line] + lines) == HeadersFrom(acc, lines)
  {
    var all := [line] + lines;
    assert all[0] == line && all[1..] == lines;
  }

  /** A name is present after parsing exactly when it was present before or
      some line of the block carries a field with that name. */
  lemma {:induction false} HeaderNames(acc: map<string, string>, lines: seq<string>, name: string)
    ensures name in HeadersFrom(acc, lines) <==>
      name in acc || exists i :: 0 <= i < |Block(lines)| && HeaderField(lines[i]).Some? && HeaderField(lines[i]).value.0 == name
    decreases |lines|
  {
    if lines == [] || lines[0] == "\r" {
    } else {
      var acc' := AddField(acc, lines[0]);
      HeaderNames(acc', lines[1..], name);
      var b := Block(lines);
      assert b == [lines[0]] + Block(lines[1..]);
      if name in HeadersFrom(acc, lines) && name !in acc {
        if name in acc' {
          assert HeaderField(lines[0]).Some? && HeaderField(lines[0]).value.0 == name;
        } else {
          var i :| 0 <= i < |Block(lines[1..])| && HeaderField(lines[1..][i]).Some? && HeaderField(lines[1..][i]).value.0 == name;
          assert lines[i + 1] == lines[1..][i];
        }
      }
      if exists i :: 0 <= i < |b| && HeaderField(lines[i]).Some? && HeaderField(lines[i]).value.0 == name {
        var i :| 0 <= i < |b| && HeaderField(lines[i]).Some? && HeaderField(lines[i]).value.0 == name;
        if i > 0 {
          assert lines[1..][i - 1] == lines[i];
        }
      }
    }
  }

  /** The value stored under a name is the trimmed value of the LAST line in
      the block that carries that name. */
  lemma {:induction false} LastFieldWins(acc: map<string, string>, lines: seq<string>, i: nat)
    requires i < |Block(lines)| && HeaderField(lines[i]).Some?
    requires forall j :: i < j < |Block(lines)| && HeaderField(lines[j]).Some? ==> HeaderField(lines[j]).value.0 != HeaderField(lines[i]).value.0
    ensures var (name, value) := HeaderField(lines[i]).value;
            name in HeadersFrom(acc, lines) && HeadersFrom(acc, lines)[name] == value
    decreases |lines|
  {
    var b := Block(lines);
    assert b == [lines[0]] + Block(lines[1..]);
    var acc' := AddField(acc, lines[0]);
    var (name, value) := HeaderField(lines[i]).value;
    if i == 0 {
      LaterFieldsKeep(acc', lines[1..], name);
    } else {
      forall j | i - 1 < j < |Block(lines[1..])| && HeaderField(lines[1..][j]).Some?
        ensures HeaderField(lines[1..][j]).value.0 != name
      {
        assert lines[1..][j] == lines[j + 1];
      }
      LastFieldWins(acc', lines[1..], i - 1);
    }
  }

  /** A name no line of the block carries keeps its earlier value. */
  lemma {:induction false} LaterFieldsKeep(acc: map<string, string>, lines: seq<string>, name: string)
    requires name in acc
    requires forall j :: 0 <= j < |Block(lines)| && HeaderField(lines[j]).Some? ==> HeaderField(lines[j]).value.0 != name
    ensures name in HeadersFrom(acc, lines) && HeadersFrom(acc, lines)[name] == acc[name]
    decreases |lines|
  {
    if lines != [] && lines[0] != "\r" {
      var b := Block(lines);
      assert b == [lines[0]] + Block(lines[1..]);
      assert b[0] == lines[0];
      forall j | 0 <= j < |Block(lines[1..])| && HeaderField(lines[1..][j]).Some?
        ensures HeaderField(lines[1..][j]).value.0 != name
      {
        assert lines[1..][j] == b[j + 1];
      }
      LaterFieldsKeep(AddField(acc, lines[0]), lines[1..], name);
    }
  }

  /** The field of a line: the name is the text before the first `:`,
      untrimmed, and the value is the trimmed text after it. */
  lemma FieldOfLine(name: string, raw: string)
    requires ':' !in name && name + ":" + raw != []
    ensures HeaderField(name + ":" + raw) == Some((name, TrimValue(raw)))
  {
    var line := name + ":" + raw;
    assert line[..|name|] == name && line[|name|] == ':';
    assert line[|name| + 1..] == raw;
    var f := Find(line, ':');
    assert f.Some?;
  }

  /** Leading-trim characters in front of a value that does not start with
      one are all dropped. */
  lemma {:induction false} TrimStartDrops(lead: string, v: string)
    requires forall i :: 0 <= i < |lead| ==> IsLeadTrim(lead[i])
    requires v == [] || !IsLeadTrim(v[0])
    ensures TrimStart(lead + v) == v
    decreases |lead|
  {
    if lead == [] {
      assert lead + v == v;
    } else {
      assert (lead + v)[1..] == lead[1..] + v;
      TrimStartDrops(lead[1..], v);
    }
  }

  /** Trailing-trim characters behind a value that does not end with one
      are all dropped. */
  lemma {:induction false} TrimEndDrops(v: string, tail: string)
    requires forall i :: 0 <= i < |tail| ==> IsTailTrim(tail[i])
    requires v == [] || !IsTailTrim(v[|v| - 1])
    ensures TrimEnd(v + tail) == v
    decreases |tail|
  {
    if tail == [] {
      assert v + tail == v;
    } else {
      var s := v + tail;
      assert s[..|s| - 1] == v + tail[..|tail| - 1];
      TrimEndDrops(v, tail[..|tail| - 1]);
    }
  }

  /** The line `X-Test:  "value" \r` carries the field `X-Test` with the
      value `value`: spaces, quotes and the carriage return are stripped. */
  lemma TrimExample()
    ensures HeaderField("X-Test" + ":" + "  \"" + "value" + "\" \r") == Some(("X-Test", "value"))
  {
    var lead, v, tail := "  \"", "value", "\" \r";
    assert TrimValue(lead + v + tail) == v by {
      TrimStartDrops(lead, v + tail);
      assert lead + v + tail == lead + (v + tail);
      TrimEndDrops(v, tail);
    }
    FieldOfLine("X-Test", lead + v + tail);
    assert "X-Test" + ":" + lead + v + tail == "X-Test" + ":" + (lead + v + tail);
  }
}
