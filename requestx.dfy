/**
 * The request record the engine serialises. Every setter updates one or two
 * fields in place; the writer in `RequestWriter` reads them.
 */
module Requestx {
  import opened Base
  import opened Streams
  import opened Misc

  class Request {
    /** The request method (`method` is a keyword here). */
    var verb: Bytes
    var url: Url
    /** Header name to its values; the writer emits only the first value of each. */
    var headers: map<Bytes, seq<Bytes>>
    var expectContinue: bool
    var contentType: Bytes
    var basicAuth: Option<(Bytes, Bytes)>
    /** A `u64` in the source; every value a setter stores fits. */
    var contentLength: nat
    /** The header-read timeout, in nanoseconds. */
    var headerTimeout: Option<nat>
    var body: Body
    var trustStorePem: Option<TrustStorePem>

    /** `Request::new` on a URL that parsed: a bodiless `GET` with no headers. */
    constructor (url: Url)
      ensures this.url == url
      ensures verb == Ascii("GET") && headers == map[] && !expectContinue
      ensures contentType == Ascii("application/octet-stream")
      ensures basicAuth == None && body == NoBody && contentLength == 0
      ensures headerTimeout == None && trustStorePem == None
    {
      this.url := url;
      verb := Ascii("GET");
      headers := map[];
      expectContinue := false;
      contentType := Ascii("application/octet-stream");
      basicAuth := None;
      body := NoBody;
      contentLength := 0;
      headerTimeout := None;
      trustStorePem := None;
    }

    method Method(m: Bytes)
      modifies this`verb
      ensures verb == m
    {
      verb := m;
    }

    /** Replaces every value of `key` by the single value `value`. */
    method SetHeader(key: Bytes, value: Bytes)
      modifies this`headers
      ensures headers.Keys == old(headers).Keys + {key}
      ensures headers[key] == [value]
      ensures forall k :: k in old(headers) && k != key ==> headers[k] == old(headers)[k]
    {
      headers := headers[key := [value]];
    }

    /** `extend`: each key of `m` takes `m`'s whole value list; other keys stay. */
    method SetHeaders(m: map<Bytes, seq<Bytes>>)
      modifies this`headers
      ensures headers.Keys == old(headers).Keys + m.Keys
      ensures forall k :: k in m ==> headers[k] == m[k]
      ensures forall k :: k in old(headers) && k !in m ==> headers[k] == old(headers)[k]
    {
      headers := headers + m;
    }

    /** Sets the flag whatever `wanted` says: the argument is never read. */
    method PutExpectContinue(wanted: bool)
      modifies this`expectContinue
      ensures expectContinue
    {
      expectContinue := true;
    }

    method SetContentType(contentType: Bytes)
      modifies this`contentType
      ensures this.contentType == contentType
    {
      this.contentType := contentType;
    }

    method SetContentLength(len: nat)
      requires len <= U64_MAX
      modifies this`contentLength
      ensures contentLength == len
    {
      contentLength := len;
    }

    method SetBasicAuth(username: Bytes, password: Bytes)
      modifies this`basicAuth
      ensures basicAuth == Some((username, password))
    {
      basicAuth := Some((username, password));
    }

    /** A literal body; the declared length becomes its byte length. */
    method SetBodyString(text: Bytes)
      modifies this`body, this`contentLength
      ensures body == Str(text) && contentLength == |text|
    {
      contentLength := |text|;
      body := Str(text);
    }

    /** A streamed body with a length the caller declares; nothing checks it against the stream. */
    method SetBodyStream(source: Stream, length: nat)
      requires length <= U64_MAX
      modifies this`body, this`contentLength
      ensures body == Reader(source) && contentLength == length
    {
      contentLength := length;
      body := Reader(source);
    }

    method SetHeaderTimeout(nanos: nat)
      modifies this`headerTimeout
      ensures headerTimeout == Some(nanos)
    {
      headerTimeout := Some(nanos);
    }
  }
}
