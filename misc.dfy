/**
 * The plain data the engine passes around: protocol version, request body,
 * trust-store source, URL and socket address, and the failures it reports.
 */
module Misc {
  import opened Base
  import opened Streams

  datatype HttpVersion = V1_0 | V1_1

  /**
   * A request body: `Body::Str`, `Body::Stream` (here `Reader`), `Body::ByteSlice`,
   * `Body::Form` and `Body::None` (here `NoBody`). Only the first two and the last
   * are ever set; the setters of the other two never return.
   */
  datatype Body =
    | Str(text: Bytes)
    | Reader(source: Stream)
    | ByteSlice
    | Form
    | NoBody

  /** Where extra trusted certificates come from: PEM bytes, or a PEM file's path. */
  datatype TrustStorePem = PemBytes(data: Bytes) | PemPath(path: Bytes)

  /** The host part of a parsed URL. */
  datatype Host = Domain(name: Bytes) | Ipv4(octets: seq<byte>) | Ipv6(segments: seq<nat>)

  /**
   * A parsed URL: the parser normalises the scheme to lower case and gives
   * every `http`/`https` URL a path that starts with `/`.
   */
  datatype Url = Url(scheme: Bytes, host: Option<Host>, path: Bytes, query: Option<Bytes>)

  /** A resolved socket address. */
  datatype SocketAddr = SocketAddr(ip: seq<byte>, port: nat)

  /** Every failure the engine reports, one variant per stage and cause. */
  datatype Error =
    | NoDnsResult
    | UnsupportedScheme(scheme: Bytes)
    | NoHostInUrl
    | HttpsNeedsDomain
    | TlsConfigFailed
    | ConnectFailed
    | ClosedBeforeContinue
    | ContinueNotUtf8
    | NotContinue(reply: Bytes)
    | StatusLineNotUtf8
    | BadStatusLine
    | HeaderBlockNotUtf8
    | BadHeaderLine
    | InvalidHttpResponseVersion(version: Bytes)
    | InvalidHttpResponseStatusCode(code: Bytes)
    | BodyAlreadyRead
    | BodyStreamMissing
    | ChunkedUnsupported
    | BodyNotUtf8
    /** A panic of the source: an `unwrap` on nothing, or an `unimplemented!()` body. */
    | Panic
}
