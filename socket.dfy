/** `basic_socket`: a protocol tag and two stream slots, one for plain TCP
    and one for TLS, of which the tag says which is in use. Streams are
    opaque tokens that are open or closed; resolving and connecting are
    given outcomes. */
module Socket {
  import opened Common
  import Headers

  datatype Protocol = Http | Https

  /** An asio stream as far as this model sees it. */
  datatype Stream = Stream(open: bool)

  /** Where an I/O operation goes: issued on the stream in the named slot,
      not issued at all (its completion never runs), an exception, or a
      dereference of an empty slot (undefined behaviour). */
  datatype Dispatch = Issued(slot: Protocol) | NotIssued | Thrown | NullDeref

  // ---------------------------------------------------------------------
  // The host/port split of `connect` and `connect_async`

  /** The tag a scheme selects: only the exact string "https" means TLS. */
  function SchemeProtocol(scheme: string): (p: Protocol)
    ensures p == Https <==> scheme == "https"
  {
    if scheme == "https" then Https else Http
  }

  /** The resolver query `connect` builds: the host up to its first `:`
      and the rest as the port; a host without `:` is used whole, with the
      scheme as the service name. */
  function SplitHost(scheme: string, host: string): (q: (string, string))
    ensures ':' !in host ==> q == (host, scheme)
    ensures ':' in host ==> ':' !in q.0 && q.0 + ":" + q.1 == host
  {
    match Headers.Find(host, ':')
    case None => (host, scheme)
    case Some(i) =>
      ColonSplit(host, i);
      (host[..i], host[i + 1..])
  }

  /** A host is what lies either side of one of its colons, rejoined. */
  lemma ColonSplit(host: string, i: nat)
    requires i < |host| && host[i] == ':'
    ensures host[..i] + ":" + host[i + 1..] == host
  {
    assert host[i..] == [host[i]] + host[i + 1..];
    assert host == host[..i] + host[i..];
  }

  /** `connect_async` also drops one trailing `/` from the host part. */
  function AsyncSplitHost(scheme: string, host: string): (q: (string, string))
    ensures q.1 == SplitHost(scheme, host).1
    ensures var h := SplitHost(scheme, host).0;
              q.0 == if h != [] && h[|h| - 1] == '/' then h[..|h| - 1] else h
  {
    var (h, port) := SplitHost(scheme, host);
    if h != [] && h[|h| - 1] == '/' then (h[..|h| - 1], port) else (h, port)
  }

  /** The split is determined by the first `:`: whatever follows it,
      colons included, is the port. */
  lemma SplitAtFirstColon(scheme: string, name: string, port: string)
    requires ':' !in name
    ensures SplitHost(scheme, name + ":" + port) == (name, port)
  {
    var host := name + ":" + port;
    assert host[|name|] == ':';
    assert host[..|name|] == name && host[|name| + 1..] == port;
  }

  /** Only one `/` is dropped, and only by the asynchronous variant. */
  lemma TrailingSlashDroppedOnce(scheme: string, name: string)
    requires ':' !in name
    ensures AsyncSplitHost(scheme, name + "//") == (name + "/", scheme)
    ensures SplitHost(scheme, name + "/") == (name + "/", scheme)
  {
    assert ':' !in name + "//";
    assert ':' !in name + "/";
    assert (name + "//")[..|name| + 1] == name + "/";
  }

  // ---------------------------------------------------------------------
  // The class

  class BasicSocket {
    var protocol: Protocol
    var plain: Option<Stream>     // m_socket
    var tls: Option<Stream>       // m_ssl_socket

    /** The slot the tag selects. */
    function Active(): Option<Stream>
      reads this
    {
      if protocol == Https then tls else plain
    }

    /** The discipline the class relies on without enforcing it: the slot
        the tag does not select is empty. */
    predicate Consistent()
      reads this
    {
      if protocol == Https then plain.None? else tls.None?
    }

    /** Wraps an accepted socket: exactly the slot matching the protocol is
        filled. */
    constructor (stream: Stream, p: Protocol)
      ensures protocol == p
      ensures p == Http ==> plain == Some(stream) && tls == None
      ensures p == Https ==> tls == Some(stream) && plain == None
      ensures Consistent()
    {
      protocol := p;
      if p == Http {
        plain := Some(stream);
        tls := None;
      } else {
        tls := Some(stream);
        plain := None;
      }
    }

    /** The move constructor: both slots and the tag are taken over and
        the source is left with empty slots. */
    constructor Moved(other: BasicSocket)
      modifies other
      ensures protocol == old(other.protocol) && plain == old(other.plain) && tls == old(other.tls)
      ensures other.plain == None && other.tls == None && other.protocol == old(other.protocol)
    {
      protocol := other.protocol;
      plain := other.plain;
      tls := other.tls;
      other.plain := None;
      other.tls := None;
    }

    /** `operator bool`: whether the slot the tag selects holds a stream. */
    function Truthy(): (b: bool)
      reads this
      ensures b <==> (if protocol == Https then tls.Some? else plain.Some?)
    {
      Active().Some?
    }

    /** `is_open`: false when both slots are empty; otherwise the state of
        the stream in the selected slot, which may be the empty one. */
    function IsOpen(): (r: Result<bool>)
      reads this
      ensures plain.None? && tls.None? ==> r == Ok(false)
      ensures (plain.Some? || tls.Some?) && Active().None? ==> r == Err(NullStream)
      ensures Active().Some? ==> r == Ok(Active().value.open)
    {
      if plain.None? && tls.None? then Ok(false)
      else match Active()
        case None => Err(NullStream)
        case Some(s) => Ok(s.open)
    }

    /** `needs_handshake`: the tag alone decides. */
    function NeedsHandshake(): (b: bool)
      reads this
      ensures b <==> protocol == Https
    {
      protocol == Https
    }

    /** `close`: nothing happens when both slots are empty; otherwise the
        stream in the selected slot is closed (the slot keeps it), which is
        a null dereference when that slot is the empty one. */
    method Close() returns (r: Result<()>)
      modifies this
      ensures protocol == old(protocol)
      ensures old(plain).None? && old(tls).None? ==> r == Ok(()) && plain == None && tls == None
      ensures (old(plain).Some? || old(tls).Some?) && old(Active()).None? ==>
                r == Err(NullStream) && plain == old(plain) && tls == old(tls)
      ensures old(Active()).Some? ==> r == Ok(()) && Active() == Some(Stream(false))
      ensures old(Active()).Some? && protocol == Https ==> plain == old(plain)
      ensures old(Active()).Some? && protocol == Http ==> tls == old(tls)
      ensures Consistent() <==> old(Consistent())
    {
      if plain.None? && tls.None? {
        return Ok(());
      }
      if protocol == Https {
        if tls.None? {
          return Err(NullStream);
        }
        tls := Some(Stream(false));
      } else {
        if plain.None? {
          return Err(NullStream);
        }
        plain := Some(Stream(false));
      }
      r := Ok(());
    }

    /** Replaces the slots after a successful resolve: a new stream in the
        selected slot, open when the connect succeeds, the other slot
        reset; a failed connect closes the new stream again. */
    method Attach(connected: ErrorCode)
      modifies this
      ensures protocol == old(protocol)
      ensures Active() == Some(Stream(connected == NoError))
      ensures Consistent()
    {
      if protocol == Https {
        tls := Some(Stream(connected == NoError));
        plain := None;
      } else {
        plain := Some(Stream(connected == NoError));
        tls := None;
      }
      if connected != NoError {
        var _ := Close();
      }
    }

    /** `connect`: the tag is set from the scheme before resolving; a
        resolve failure is returned with the slots untouched; otherwise
        the selected slot gets the new stream, the other is reset, and the
        connect's error code is returned. `query` is what the resolver is
        asked for. */
    method Connect(scheme: string, host: string, resolved: ErrorCode, connected: ErrorCode)
      returns (ec: ErrorCode, query: (string, string))
      modifies this
      ensures query == SplitHost(scheme, host)
      ensures protocol == SchemeProtocol(scheme)
      ensures resolved != NoError ==> ec == resolved && plain == old(plain) && tls == old(tls)
      ensures resolved == NoError ==>
                ec == connected && Consistent() && Active() == Some(Stream(connected == NoError))
    {
      query := SplitHost(scheme, host);
      protocol := SchemeProtocol(scheme);
      if resolved != NoError {
        return resolved, query;
      }
      Attach(connected);
      ec := connected;
    }

    /** `connect_async`: the same, with one trailing `/` dropped from the
        host; the completion handler runs once, with the returned code. */
    method ConnectAsync(scheme: string, host: string, resolved: ErrorCode, connected: ErrorCode)
      returns (completion: ErrorCode, query: (string, string))
      modifies this
      ensures query == AsyncSplitHost(scheme, host)
      ensures protocol == SchemeProtocol(scheme)
      ensures resolved != NoError ==> completion == resolved && plain == old(plain) && tls == old(tls)
      ensures resolved == NoError ==>
                completion == connected && Consistent() && Active() == Some(Stream(connected == NoError))
    {
      query := AsyncSplitHost(scheme, host);
      protocol := SchemeProtocol(scheme);
      if resolved != NoError {
        return resolved, query;
      }
      Attach(connected);
      completion := connected;
    }

    /** `async_read_until`, as written: the plaintext case has no label,
        so a plaintext socket issues no read and its completion never runs. */
    function AsyncReadUntilDispatch(): (d: Dispatch)
      reads this
      ensures protocol == Http ==> d == NotIssued
      ensures protocol == Https ==> d == (if tls.Some? then Issued(Https) else NullDeref)
    {
      match protocol
      case Https => if tls.Some? then Issued(Https) else NullDeref
      case Http => NotIssued
    }

    /** `async_write`, as written: both branches write to the TLS slot. */
    function AsyncWriteDispatch(): (d: Dispatch)
      reads this
      ensures d == (if tls.Some? then Issued(Https) else NullDeref)
      ensures d.Issued? ==> d.slot == Https
    {
      if tls.Some? then Issued(Https) else NullDeref
    }

    /** `write`: the TLS branch throws on an empty slot, the plaintext branch
        dereferences its slot unchecked. */
    function WriteDispatch(): (d: Dispatch)
      reads this
      ensures Active().Some? ==> d == Issued(protocol)
      ensures Active().None? ==> d == (if protocol == Https then Thrown else NullDeref)
    {
      if protocol == Https then (if tls.Some? then Issued(Https) else Thrown)
      else if plain.Some? then Issued(Http) else NullDeref
    }

    /** Where an I/O operation evidently should go: the selected slot. */
    function IntendedDispatch(): (d: Dispatch)
      reads this
      ensures d == Issued(protocol) <==> Active().Some?
      ensures d != Issued(protocol) ==> d == NullDeref
    {
      if Active().Some? then Issued(protocol) else NullDeref
    }
  }

  // ---------------------------------------------------------------------
  // Properties

  /** While the discipline holds, every observer is defined, `operator bool`
      says whether any slot is filled, and every operation is issued where
      the tag says. */
  lemma ConsistentObservers(s: BasicSocket)
    requires s.Consistent()
    ensures s.IsOpen().Ok?
    ensures s.Truthy() <==> s.plain.Some? || s.tls.Some?
    ensures s.IsOpen() == Ok(true) ==> s.Truthy()
    ensures s.Truthy() ==> s.IntendedDispatch() == Issued(s.protocol) && s.WriteDispatch() == Issued(s.protocol)
  {
  }

  /** A plaintext socket that is connected never gets its reads issued,
      although the intended dispatch would issue them. */
  lemma PlainReadNeverIssued(s: BasicSocket)
    requires s.protocol == Http && s.plain.Some?
    ensures s.AsyncReadUntilDispatch() == NotIssued
    ensures s.IntendedDispatch() == Issued(Http)
  {
  }

  /** A consistent plaintext socket's asynchronous writes dereference the
      empty TLS slot, where the intended dispatch would use its stream. */
  lemma PlainWriteHitsNullSlot(s: BasicSocket)
    requires s.protocol == Http && s.plain.Some? && s.Consistent()
    ensures s.AsyncWriteDispatch() == NullDeref
    ensures s.IntendedDispatch() == Issued(Http)
  {
  }

  /** A failed resolve after a change of scheme leaves the tag pointing at
      the empty slot: `is_open` then dereferences it, and so does `close`. */
  method MismatchAfterFailedResolve(stream: Stream, host: string, code: nat)
    returns (observed: Result<bool>, closed: Result<()>)
    ensures observed == Err(NullStream)
    ensures closed == Err(NullStream)
  {
    var s := new BasicSocket(stream, Http);
    var ec, _ := s.Connect("https", host, Failure(code), NoError);
    assert s.protocol == Https && s.plain == Some(stream) && s.tls == None;
    observed := s.IsOpen();
    closed := s.Close();
  }

  /** A successful connect over TLS, then `close`: the socket stays truthy
      and needs a handshake, and is no longer open. */
  method ConnectThenClose(host: string) returns (open: Result<bool>, truthy: bool, handshake: bool)
    ensures open == Ok(false) && truthy && handshake
  {
    var s := new BasicSocket(Stream(true), Http);
    var ec, _ := s.Connect("https", host, NoError, NoError);
    var _ := s.Close();
    open := s.IsOpen();
    truthy := s.Truthy();
    handshake := s.NeedsHandshake();
  }
}
