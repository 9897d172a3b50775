/** Body framing, `async_read_body`: `Transfer-Encoding` is refused, a
    missing `Content-Length` means an empty body, and otherwise the body is
    resized to the declared length, the bytes already buffered behind the
    header block are copied to its front and one exact read supplies the
    rest (section 6.3 of RFC 9112 gives the full rules; only the
    Content-Length case is implemented). Bytes are `char`s, as in the
    source's `std::string`. */
module Body {
  import opened Common

  /** What the peer sends after the single `async_read_exactly` is issued:
      the bytes it delivers, and the error code the stream ends with (end of
      file, reset, ...) should they run out before the read is satisfied. */
  datatype Incoming = Incoming(data: string, endCode: nat)

  /** How `async_read_body` ends: with an exception (or, for an overrun,
      undefined behaviour), or by calling the completion handler with an
      error code and a byte count. `read` is the length of the one
      asynchronous read issued, if any. */
  datatype BodyOutcome =
    | Failed(error: Error)
    | Completed(ec: ErrorCode, transferred: nat, read: Option<nat>)

  datatype Framing = Framing(outcome: BodyOutcome, body: string)

  /** The declared length. `var::to_i` is not part of this model: a
      non-empty run of decimal digits is read as its value, anything else is
      an error. */
  function ContentLength(text: string): (r: Result<nat>)
    ensures r.Ok? <==> text != [] && AllDigits(text)
    ensures r.Ok? ==> r.value == DecimalValue(text)
  {
    if text != [] && AllDigits(text) then Ok(DecimalValue(text)) else Err(BadContentLength(text))
  }

  /** `std::string::resize`: keep the first `n` characters, pad with NUL. */
  function Resize(s: string, n: nat): (r: string)
    ensures |r| == n
    ensures forall i :: 0 <= i < n ==> r[i] == if i < |s| then s[i] else '\0'
  {
    if n <= |s| then s[..n] else s + seq(n - |s|, _ => '\0')
  }

  /** What `async_read_body` does to the body and how it completes. */
  function BodyFraming(headers: map<string, string>, buffered: string, body: string, incoming: Incoming): (f: Framing)
    ensures "Transfer-Encoding" in headers ==>
              f == Framing(Failed(UnsupportedTransferEncoding(headers["Transfer-Encoding"])), body)
    ensures "Transfer-Encoding" !in headers && "Content-Length" !in headers ==>
              f == Framing(Completed(NoError, 0, None), body)
    ensures f.outcome.Completed? && f.outcome.read.None? ==> f.outcome.ec == NoError
    ensures "Transfer-Encoding" !in headers && "Content-Length" in headers ==>
              var declared := ContentLength(headers["Content-Length"]);
              && (declared.Err? ==> f.outcome == Failed(declared.error))
              && (declared.Ok? && |buffered| > declared.value ==>
                    f.outcome == Failed(BodyOverrun(declared.value, |buffered|)))
              && (declared.Ok? && |buffered| <= declared.value ==>
                    var n, need := declared.value, declared.value - |buffered|;
                    && f.outcome.Completed?
                    && |f.body| == n
                    && f.body[..|buffered|] == buffered
                    && (need == 0 <==> f.outcome.read.None?)
                    && (need == 0 ==> f.outcome.transferred == n)
                    && (need > 0 ==> f.outcome.read == Some(need))
                    && (need > 0 && |incoming.data| >= need ==>
                          f.outcome.ec == NoError && f.outcome.transferred == need &&
                          f.body[|buffered|..] == incoming.data[..need])
                    && (need > 0 && |incoming.data| < need ==>
                          f.outcome.ec == Failure(incoming.endCode) &&
                          f.outcome.transferred == |incoming.data| &&
                          f.body[|buffered|..|buffered| + |incoming.data|] == incoming.data))
  {
    if "Transfer-Encoding" in headers then
      Framing(Failed(UnsupportedTransferEncoding(headers["Transfer-Encoding"])), body)
    else if "Content-Length" !in headers then
      Framing(Completed(NoError, 0, None), body)
    else match ContentLength(headers["Content-Length"])
      case Err(e) => Framing(Failed(e), body)
      case Ok(n) =>
        if |buffered| > n then Framing(Failed(BodyOverrun(n, |buffered|)), body)
        else
          var need := n - |buffered|;
          if need == 0 then Framing(Completed(NoError, n, None), buffered)
          else if |incoming.data| >= need then
            Framing(Completed(NoError, need, Some(need)), buffered + incoming.data[..need])
          else
            var resized := Resize(body, n);
            Framing(Completed(Failure(incoming.endCode), |incoming.data|, Some(need)),
                    buffered + incoming.data + resized[|buffered| + |incoming.data|..])
  }

  /** `async_read_body`. The old body is an array; when a length is declared
      the result is a new array of that length (the resized string), filled
      as the source fills it: resize, copy the buffered bytes to the front,
      then read the remainder. */
  method ReadBody(headers: map<string, string>, buffered: string, body: array<char>, incoming: Incoming)
    returns (outcome: BodyOutcome, result: array<char>)
    ensures Framing(outcome, result[..]) == BodyFraming(headers, buffered, body[..], incoming)
  {
    if "Transfer-Encoding" in headers {
      return Failed(UnsupportedTransferEncoding(headers["Transfer-Encoding"])), body;
    }
    if "Content-Length" !in headers {
      return Completed(NoError, 0, None), body;
    }
    var declared := ContentLength(headers["Content-Length"]);
    if declared.Err? {
      return Failed(declared.error), body;
    }
    var n := declared.value;
    var available := |buffered|;
    if available > n {
      return Failed(BodyOverrun(n, available)), body;
    }
    ghost var resized := Resize(body[..], n);

    // body.resize(body_size)
    result := ResizeBody(body, n);

    // stream.read(body.data(), available_size)
    CopyInto(result, 0, buffered);
    assert result[..] == buffered + resized[available..];

    var need := n - available;
    if need == 0 {
      assert result[..] == buffered;
      return Completed(NoError, n, None), result;
    }

    // async_read_exactly(body.data() + available_size, remaining_size)
    var delivered := if |incoming.data| >= need then need else |incoming.data|;
    CopyInto(result, available, incoming.data[..delivered]);
    assert result[..] == buffered + incoming.data[..delivered] + resized[available + delivered..];
    if delivered == need {
      assert result[..] == buffered + incoming.data[..need];
      outcome := Completed(NoError, need, Some(need));
    } else {
      assert incoming.data[..delivered] == incoming.data;
      outcome := Completed(Failure(incoming.endCode), delivered, Some(need));
    }
  }

  /** `std::string::resize` on the body, as a new array. */
  method ResizeBody(body: array<char>, n: nat) returns (result: array<char>)
    ensures fresh(result)
    ensures result[..] == Resize(body[..], n)
  {
    ghost var resized := Resize(body[..], n);
    result := new char[n];
    var i := 0;
    while i < n
      invariant 0 <= i <= n
      invariant forall j :: 0 <= j < i ==> result[j] == resized[j]
    {
      result[i] := if i < body.Length then body[i] else '\0';
      i := i + 1;
    }
  }

  /** A read of `src` into `a` at offset `at`: only those characters change. */
  method CopyInto(a: array<char>, at: nat, src: string)
    requires at + |src| <= a.Length
    modifies a
    ensures a[..] == old(a[..])[..at] + src + old(a[..])[at + |src|..]
  {
    ghost var before := a[..];
    var i := 0;
    while i < |src|
      invariant 0 <= i <= |src|
      invariant forall j :: 0 <= j < at ==> a[j] == before[j]
      invariant forall j :: 0 <= j < i ==> a[at + j] == src[j]
      invariant forall j :: at + i <= j < a.Length ==> a[j] == before[j]
    {
      a[at + i] := src[i];
      i := i + 1;
    }
    assert a[..] == before[..at] + src + before[at + |src|..];
  }

  /** The `Content-Length` a writer renders for `n` body bytes makes a
      reader whose buffer holds no body bytes yet request exactly `n` more
      and assemble exactly the bytes the peer sends. */
  lemma RenderedLengthFramesBody(headers: map<string, string>, n: nat, incoming: Incoming, body: string)
    requires "Transfer-Encoding" !in headers
    requires "Content-Length" in headers && headers["Content-Length"] == NatToString(n)
    requires n > 0 && |incoming.data| >= n
    ensures BodyFraming(headers, [], body, incoming) ==
              Framing(Completed(NoError, n, Some(n)), incoming.data[..n])
  {
    DecimalRoundTrip(n);
  }

  /** A body of five bytes split across the header read ("he") and the exact
      read ("llo") is assembled as "hello". */
  lemma SplitBodyExample(body: string)
    ensures BodyFraming(map["Content-Length" := "5"], "he", body, Incoming("llo", 1)) ==
              Framing(Completed(NoError, 3, Some(3)), "hello")
  {
    var h := map["Content-Length" := "5"];
    assert "Transfer-Encoding" !in h;
    assert DecimalValue("5") == 5 by {
      assert "5"[..0] == [];
    }
    assert "llo"[..3] == "llo";
    assert "he" + "llo" == "hello";
  }
}
