/**
 * How `client.rs` gets a connection for a request: the address chosen from
 * the resolver's answer, the liveness probe of a pooled stream, and the
 * scheme dispatch of `pick_or_connect_stream`. The resolver, the probe, the
 * TLS configuration, the connect and the handshake are I/O; their outcomes
 * are parameters here.
 */
module Acquire {
  import opened Base
  import opened Streams
  import opened Misc
  import opened Requestx
  import opened Pool

  /**
   * `resolve_1st_ip`: the address taken off the end of the resolver's list
   * (`pop`), or an error when the list is empty.
   */
  function ResolveFirstIp(addrs: seq<SocketAddr>): (r: Result<SocketAddr, Error>)
    ensures r.Err? <==> addrs == []
    ensures r.Err? ==> r.error == NoDnsResult
    ensures r.Ok? ==> r.value in addrs && addrs == addrs[..|addrs| - 1] + [r.value]
  {
    if addrs == [] then Err(NoDnsResult) else Ok(addrs[|addrs| - 1])
  }

  /** The outcome of peeking one byte with a one-second timeout. */
  datatype Probe =
    | Peeked(n: nat)
    | PeekFailed
    | TimedOut

  /**
   * `is_stream_closed_inner`: a stream counts as closed when the peek returns
   * 0 bytes or fails; bytes waiting, or nothing within the timeout, count as open.
   */
  predicate IsStreamClosed(probe: Probe): (closed: bool)
    ensures closed <==> !probe.TimedOut? && !(probe.Peeked? && probe.n > 0)
  {
    match probe
    case Peeked(n) => n == 0
    case PeekFailed => true
    case TimedOut => false
  }

  /**
   * The peek a stream answers at once: how many of at most one byte it has
   * waiting. In this stream model an empty pending list means the peer has
   * closed its side.
   */
  function PeekNow(segments: seq<Bytes>): Probe {
    Peeked(|NextRead(segments, 1)|)
  }

  /**
   * A stream that answers the peek at once is judged closed exactly when its
   * peer has nothing more to send.
   */
  lemma PeekDecision(segments: seq<Bytes>)
    requires Segmented(segments)
    ensures IsStreamClosed(PeekNow(segments)) <==> Flatten(segments) == []
  {
    ReadTakesPrefix(segments, 1);
  }

  /**
   * How `create_tls_config` ends: the configuration is built; a `?` returns
   * an error (the PEM file does not open, or `root_store.add` rejects a
   * certificate, whatever the trust store); or the `expect` on loading the
   * system's certificates panics, which only happens with no trust store.
   */
  datatype TlsSetup = Built | Failed | Panicked

  /**
   * `pick_or_connect_stream`. For `http` and `https` the TCP or the TLS
   * bucket of `addr` is popped, and the stream popped, if any, is reused
   * unless `probe` (its probe outcome) says it is closed; a closed one is
   * dropped. Otherwise a new connection is made, whose peer will send
   * `incoming`. For `http` a failed connect is an `unwrap` on an error. For
   * `https` the TLS configuration is built first from the client's
   * `trustStore`, ending as `tlsSetup` says, then the URL
   * must have a host and it must be a domain name; `connected` says whether
   * the connect and the handshake succeed. Any other scheme is refused and
   * the pools are not touched.
   */
  method PickOrConnect(pools: Pools, req: Request, addr: SocketAddr, probe: Probe,
                       trustStore: Option<TrustStorePem>, tlsSetup: TlsSetup, connected: bool,
                       incoming: seq<Bytes>)
    returns (r: Result<Stream, Error>)
    requires pools.Valid() && Segmented(incoming)
    requires tlsSetup.Panicked? ==> trustStore.None?
    modifies pools
    ensures pools.Valid()
    ensures var scheme := req.url.scheme;
      scheme != Ascii("http") && scheme != Ascii("https") ==>
        r == Err(UnsupportedScheme(scheme)) && pools.tcp == old(pools.tcp) && pools.tls == old(pools.tls)
    ensures req.url.scheme == Ascii("http") ==>
      var (popped, rest) := Popped(old(pools.tcp), addr);
      && pools.tcp == rest && pools.tls == old(pools.tls)
      && (popped.Some? && !IsStreamClosed(probe) ==> r == Ok(popped.value))
      && (popped.None? || IsStreamClosed(probe) ==>
            if connected then r.Ok? && fresh(r.value) && NewConnection(r.value, Plain, incoming)
            else r == Err(Panic))
    ensures req.url.scheme == Ascii("https") ==>
      var (popped, rest) := Popped(old(pools.tls), addr);
      && pools.tls == rest && pools.tcp == old(pools.tcp)
      && (popped.Some? && !IsStreamClosed(probe) ==> r == Ok(popped.value))
      && (popped.None? || IsStreamClosed(probe) ==>
            if tlsSetup.Panicked? then r == Err(Panic)
            else if tlsSetup.Failed? then r == Err(TlsConfigFailed)
            else if req.url.host.None? then r == Err(NoHostInUrl)
            else if !req.url.host.value.Domain? then r == Err(HttpsNeedsDomain)
            else if !connected then r == Err(ConnectFailed)
            else r.Ok? && fresh(r.value) && NewConnection(r.value, Tls, incoming))
  {
    var scheme := req.url.scheme;
    if scheme == Ascii("http") {
      var popped := pools.Pop(false, addr);
      if popped.Some? && !IsStreamClosed(probe) {
        return Ok(popped.value);
      }
      if !connected {
        return Err(Panic);
      }
      var s := new Stream(Plain, incoming);
      return Ok(s);
    } else if scheme == Ascii("https") {
      var popped := pools.Pop(true, addr);
      if popped.Some? && !IsStreamClosed(probe) {
        return Ok(popped.value);
      }
      match tlsSetup {
        case Panicked =>
          return Err(Panic);
        case Failed =>
          return Err(TlsConfigFailed);
        case Built =>
      }
      match req.url.host {
        case None =>
          return Err(NoHostInUrl);
        case Some(host) =>
          if !host.Domain? {
            return Err(HttpsNeedsDomain);
          }
      }
      if !connected {
        return Err(ConnectFailed);
      }
      var s := new Stream(Tls, incoming);
      return Ok(s);
    } else {
      return Err(UnsupportedScheme(scheme));
    }
  }

  /** A freshly connected stream of the given kind: nothing written, the peer's bytes all pending. */
  ghost predicate NewConnection(s: Stream, kind: Kind, incoming: seq<Bytes>)
    reads s
  {
    s.kind == kind && s.pending == incoming && s.written == [] && s.Valid()
  }
}
