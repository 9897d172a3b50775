/** Percent-decoding (`decode_char_from_web`) and the query-string parser
    (`query_to_params`), with the `key=value&...` rendering the request
    writer produces as their partner. */
module Query {
  import opened Common

  // ---------------------------------------------------------------------
  // Escape digits. `nibble_from_hex_string` and `byte_from_hex_string`
  // belong to binary.hpp, which is not part of this model; they are taken
  // to give the hexadecimal value of their digit(s). Only decimal digits
  // ever reach them here.

  function Nibble(c: char): (b: char)
    requires IsDigit(c)
    ensures b as int == DigitValue(c)
  {
    DigitValue(c) as char
  }

  function HexByte(hi: char, lo: char): (b: char)
    requires IsDigit(hi) && IsDigit(lo)
    ensures b as int == 16 * DigitValue(hi) + DigitValue(lo)
  {
    (16 * DigitValue(hi) + DigitValue(lo)) as char
  }

  // ---------------------------------------------------------------------
  // decode_char_from_web

  /** One decoding step: the character pushed into the buffer and how many
      characters were removed from the front of the view. */
  datatype Decoded = Decoded(ch: char, consumed: nat)

  /** `decode_char_from_web` on a non-empty view (its callers never pass an
      empty one). A `%` directly at the end makes the source call `front()`
      on an empty view, which is undefined; that is the `DanglingPercent`
      error here. */
  function DecodeChar(sv: string): (r: Result<Decoded>)
    requires sv != []
    ensures r.Ok? ==> 1 <= r.value.consumed <= 3 && r.value.consumed <= |sv|
    ensures sv[0] != '%' ==> r == Ok(Decoded(sv[0], 1))
    ensures r.Err? <==> sv[0] == '%' && (|sv| == 1 || !IsDigit(sv[1]))
    ensures r.Err? ==> r.error == (if |sv| == 1 then DanglingPercent else InvalidEscape)
    ensures sv[0] == '%' && |sv| >= 3 && IsDigit(sv[1]) && IsDigit(sv[2]) ==>
              r == Ok(Decoded(HexByte(sv[1], sv[2]), 3))
    ensures sv[0] == '%' && |sv| >= 2 && IsDigit(sv[1]) && (|sv| == 2 || !IsDigit(sv[2])) ==>
              r == Ok(Decoded(Nibble(sv[1]), 2))
  {
    if sv[0] == '%' then
      var rest := sv[1..];
      if |rest| <= 1 then
        if rest == [] then Err(DanglingPercent)
        else if !IsDigit(rest[0]) then Err(InvalidEscape)
        else Ok(Decoded(Nibble(rest[0]), 2))
      else if IsDigit(rest[0]) then
        if IsDigit(rest[1]) then Ok(Decoded(HexByte(rest[0], rest[1]), 3))
        else Ok(Decoded(Nibble(rest[0]), 2))
      else Err(InvalidEscape)
    else Ok(Decoded(sv[0], 1))
  }

  // ---------------------------------------------------------------------
  // query_to_params, as functions

  /** One inner loop of `query_to_params`: decodes into `acc` until `stop`
      (which is removed) or the end of the view; yields the decoded text and
      the rest of the view. */
  function ScanUntil(q: string, stop: char, acc: string): (r: Result<(string, string)>)
    ensures r.Ok? ==> |r.value.1| <= |q| && (q != [] ==> |r.value.1| < |q|)
    decreases |q|
  {
    if q == [] then Ok((acc, q))
    else if q[0] == stop then Ok((acc, q[1..]))
    else match DecodeChar(q)
      case Err(e) => Err(e)
      case Ok(d) => ScanUntil(q[d.consumed..], stop, acc + [d.ch])
  }

  /** `std::map::insert`: an existing key keeps its value. */
  function Insert(m: map<string, string>, key: string, value: string): map<string, string> {
    if key in m then m else m[key := value]
  }

  /** The outer loop of `query_to_params`: a key up to `=`, a value up to
      `&`, inserted first-wins, until the view is empty. */
  function ParamsFrom(q: string, acc: map<string, string>): Result<map<string, string>>
    decreases |q|
  {
    if q == [] then Ok(acc)
    else match ScanUntil(q, '=', [])
      case Err(e) => Err(e)
      case Ok((key, afterKey)) =>
        match ScanUntil(afterKey, '&', [])
        case Err(e) => Err(e)
        case Ok((value, afterValue)) => ParamsFrom(afterValue, Insert(acc, key, value))
  }

  function QueryParams(query: string): Result<map<string, string>> {
    ParamsFrom(query, map[])
  }

  // ---------------------------------------------------------------------
  // query_to_params, as the source runs it

  /** `query_to_params`: nested loops that accumulate a key until `=` and a
      value until `&`, decoding one escape or literal at a time; a decoding
      error aborts the whole parse. */
  method QueryToParams(query: string) returns (r: Result<map<string, string>>)
    ensures r == QueryParams(query)
  {
    var params: map<string, string> := map[];
    var q := query;
    while |q| > 0
      invariant ParamsFrom(q, params) == QueryParams(query)
      decreases |q|
    {
      ghost var start := q;
      var key := "";
      while |q| > 0 && q[0] != '='
        invariant ScanUntil(q, '=', key) == ScanUntil(start, '=', [])
        decreases |q|
      {
        var d := DecodeChar(q);
        if d.Err? {
          return Err(d.error);
        }
        key := key + [d.value.ch];
        q := q[d.value.consumed..];
      }
      if |q| > 0 {
        q := q[1..];
      }
      ghost var afterKey := q;
      var value := "";
      while |q| > 0 && q[0] != '&'
        invariant ScanUntil(q, '&', value) == ScanUntil(afterKey, '&', [])
        decreases |q|
      {
        var d := DecodeChar(q);
        if d.Err? {
          return Err(d.error);
        }
        value := value + [d.value.ch];
        q := q[d.value.consumed..];
      }
      if |q| > 0 {
        q := q[1..];
      }
      params := Insert(params, key, value);
    }
    r := Ok(params);
  }

  // ---------------------------------------------------------------------
  // The rendering partner and the round trip

  /** `key=value` pairs joined by `&`, in the given order, without any
      re-encoding (what `async_write_http_request` appends after `?`). */
  function QueryString(ps: seq<(string, string)>): string {
    if ps == [] then []
    else if |ps| == 1 then ps[0].0 + "=" + ps[0].1
    else ps[0].0 + "=" + ps[0].1 + "&" + QueryString(ps[1..])
  }

  /** The map obtained by inserting the pairs in order into `acc`, the first
      occurrence of a key winning. */
  function InsertAll(acc: map<string, string>, ps: seq<(string, string)>): map<string, string>
    decreases |ps|
  {
    if ps == [] then acc else InsertAll(Insert(acc, ps[0].0, ps[0].1), ps[1..])
  }

  /** Text without `%` and without the stop character is copied verbatim,
      and scanning ends at the stop character. */
  lemma {:induction false} ScanLiteral(s: string, stop: char, rest: string, acc: string)
    requires stop !in s && '%' !in s
    ensures ScanUntil(s + [stop] + rest, stop, acc) == Ok((acc + s, rest))
    ensures ScanUntil(s, stop, acc) == Ok((acc + s, []))
    decreases |s|
  {
    if s == [] {
      assert ([] + [stop] + rest)[1..] == rest;
      assert acc + s == acc;
    } else {
      var q := s + [stop] + rest;
      assert q[0] == s[0] && q[1..] == s[1..] + [stop] + rest;
      assert acc + s == (acc + [s[0]]) + s[1..];
      ScanLiteral(s[1..], stop, rest, acc + [s[0]]);
    }
  }

  /** One round of the outer loop of `query_to_params`. */
  lemma ParamsRound(q: string, key: string, afterKey: string, value: string, afterValue: string, acc: map<string, string>)
    requires q != []
    requires ScanUntil(q, '=', []) == Ok((key, afterKey))
    requires ScanUntil(afterKey, '&', []) == Ok((value, afterValue))
    ensures ParamsFrom(q, acc) == ParamsFrom(afterValue, Insert(acc, key, value))
  {
  }

  /** Parsing a rendered query inserts its pairs in order, first-wins, as
      long as no key holds `=` or `%` and no value holds `&` or `%`. */
  lemma {:induction false} ParamsOfQueryString(ps: seq<(string, string)>, acc: map<string, string>)
    requires forall i :: 0 <= i < |ps| ==> '=' !in ps[i].0 && '%' !in ps[i].0 && '&' !in ps[i].1 && '%' !in ps[i].1
    ensures ParamsFrom(QueryString(ps), acc) == Ok(InsertAll(acc, ps))
    decreases |ps|
  {
    if ps != [] {
      var k, v := ps[0].0, ps[0].1;
      assert [] + k == k && [] + v == v;
      var q := QueryString(ps);
      if |ps| == 1 {
        assert q == k + ['='] + v;
        ScanLiteral(k, '=', v, []);
        ScanLiteral(v, '&', [], []);
        ParamsRound(q, k, v, v, [], acc);
        assert ps[1..] == [];
      } else {
        var tail := QueryString(ps[1..]);
        assert q == k + ['='] + (v + "&" + tail);
        ScanLiteral(k, '=', v + "&" + tail, []);
        ScanLiteral(v, '&', tail, []);
        ParamsRound(q, k, v + "&" + tail, v, tail, acc);
        ParamsOfQueryString(ps[1..], Insert(acc, k, v));
      }
    }
  }

  lemma QueryRoundTrip(ps: seq<(string, string)>)
    requires forall i :: 0 <= i < |ps| ==> '=' !in ps[i].0 && '%' !in ps[i].0 && '&' !in ps[i].1 && '%' !in ps[i].1
    ensures QueryParams(QueryString(ps)) == Ok(InsertAll(map[], ps))
  {
    ParamsOfQueryString(ps, map[]);
  }

  /** The first occurrence of a key decides its value. */
  lemma {:induction false} FirstOccurrenceWins(acc: map<string, string>, ps: seq<(string, string)>, i: nat)
    requires i < |ps| && ps[i].0 !in acc
    requires forall j :: 0 <= j < i ==> ps[j].0 != ps[i].0
    ensures ps[i].0 in InsertAll(acc, ps) && InsertAll(acc, ps)[ps[i].0] == ps[i].1
    decreases |ps|
  {
    if i == 0 {
      KeptByLaterInserts(Insert(acc, ps[0].0, ps[0].1), ps[1..], ps[0].0);
    } else {
      FirstOccurrenceWins(Insert(acc, ps[0].0, ps[0].1), ps[1..], i - 1);
    }
  }

  lemma {:induction false} KeptByLaterInserts(acc: map<string, string>, ps: seq<(string, string)>, k: string)
    requires k in acc
    ensures k in InsertAll(acc, ps) && InsertAll(acc, ps)[k] == acc[k]
    decreases |ps|
  {
    if ps != [] {
      KeptByLaterInserts(Insert(acc, ps[0].0, ps[0].1), ps[1..], k);
    }
  }

  /** Inserting an enumeration of a map's entries (in any order, repeats
      allowed) rebuilds the map. */
  lemma {:induction false} EnumerationRebuilds(m: map<string, string>, acc: map<string, string>, ps: seq<(string, string)>)
    requires forall k :: k in acc ==> k in m && acc[k] == m[k]
    requires forall i :: 0 <= i < |ps| ==> ps[i].0 in m && m[ps[i].0] == ps[i].1
    requires forall k :: k in m ==> k in acc || exists i :: 0 <= i < |ps| && ps[i].0 == k
    ensures InsertAll(acc, ps) == m
    decreases |ps|
  {
    if ps == [] {
      assert acc.Keys == m.Keys;
    } else {
      var acc' := Insert(acc, ps[0].0, ps[0].1);
      forall k | k in m
        ensures k in acc' || exists i :: 0 <= i < |ps[1..]| && ps[1..][i].0 == k
      {
        if k !in acc' {
          var i :| 0 <= i < |ps| && ps[i].0 == k;
          assert i != 0;
          assert ps[1..][i - 1].0 == k;
        }
      }
      EnumerationRebuilds(m, acc', ps[1..]);
    }
  }

  /** A key given twice keeps its first value. */
  lemma RepeatedKeyFirstWins(k: string, v: string, w: string)
    requires '=' !in k && '%' !in k && '&' !in v && '%' !in v && '&' !in w && '%' !in w
    ensures QueryParams(k + "=" + v + "&" + k + "=" + w) == Ok(map[k := v])
  {
    var ps := [(k, v), (k, w)];
    assert QueryString(ps) == k + "=" + v + "&" + k + "=" + w by {
      assert ps[1..] == [(k, w)];
      assert QueryString(ps[1..]) == k + "=" + w;
    }
    QueryRoundTrip(ps);
    assert InsertAll(map[], ps) == map[k := v] by {
      var m := map[k := v];
      assert ps[1..] == [(k, w)] && ps[1..][1..] == [];
      assert Insert(map[], k, v) == m;
      assert Insert(m, k, w) == m;
      assert InsertAll(m, [(k, w)]) == InsertAll(m, []);
      assert InsertAll(map[], ps) == InsertAll(m, [(k, w)]);
    }
  }

  lemma RepeatedKeyExample()
    ensures QueryParams("a=1&a=2") == Ok(map["a" := "1"])
  {
    RepeatedKeyFirstWins("a", "1", "2");
    assert "a" + "=" + "1" + "&" + "a" + "=" + "2" == "a=1&a=2";
  }

  /** `&` inside a key is not a separator: only `=` ends a key. */
  lemma AmpersandStaysInKey(k: string, v: string)
    requires '=' !in k && '%' !in k && '&' !in v && '%' !in v
    ensures QueryParams(k + "=" + v) == Ok(map[k := v])
  {
    var ps := [(k, v)];
    assert QueryString(ps) == k + "=" + v;
    QueryRoundTrip(ps);
    assert InsertAll(map[], ps) == map[k := v] by {
      assert ps[1..] == [];
    }
  }

  lemma AmpersandKeyExample()
    ensures QueryParams("a&b=1") == Ok(map["a&b" := "1"])
  {
    AmpersandStaysInKey("a&b", "1");
    assert "a&b" + "=" + "1" == "a&b=1";
  }

  /** `%41` is a full escape, `%4` before a non-digit a single nibble. */
  lemma EscapesDecoded()
    ensures QueryParams("k=%41%4x") == Ok(map["k" := [65 as char, 4 as char, 'x']])
  {
    var q := "k=%41%4x";
    var v := [65 as char, 4 as char, 'x'];
    assert ScanUntil(q, '=', []) == Ok(("k", q[2..])) by {
      assert DecodeChar(q) == Ok(Decoded('k', 1));
      assert [] + ['k'] == "k";
      assert q[1..][0] == '=' && q[1..][1..] == q[2..];
    }
    assert ScanUntil(q[2..], '&', []) == Ok((v, [])) by {
      var s1, s2, s3 := q[2..], q[5..], q[7..];
      assert s1[3..] == s2 && s2[2..] == s3 && s3[1..] == [];
      assert DecodeChar(s1) == Ok(Decoded(65 as char, 3));
      assert DecodeChar(s2) == Ok(Decoded(4 as char, 2));
      assert DecodeChar(s3) == Ok(Decoded('x', 1));
      assert s1[0] == '%' && s2[0] == '%' && s3[0] == 'x';
      assert [] + [65 as char] == [65 as char];
      assert [65 as char] + [4 as char] == [65 as char, 4 as char];
      assert [65 as char, 4 as char] + ['x'] == v;
      assert ScanUntil(s1, '&', []) == ScanUntil(s2, '&', [65 as char]);
      assert ScanUntil(s2, '&', [65 as char]) == ScanUntil(s3, '&', [65 as char, 4 as char]);
      assert ScanUntil(s3, '&', [65 as char, 4 as char]) == ScanUntil([], '&', v);
    }
    ParamsRound(q, "k", q[2..], v, [], map[]);
  }
}
