/**
 * The response side of `response.rs`: the record built from a parsed head,
 * its header map, `content_length`, `is_success`, `body_string`, and the
 * release of its stream to the pool (`return_stream_to_pool` of `client.rs`,
 * which is also what dropping a response does).
 */
module Responses {
  import opened Base
  import opened Utf8
  import opened Streams
  import opened Misc
  import opened Pool

  /** The header map key `content_length` looks up; keys arrive lower-cased. */
  const CONTENT_LENGTH_KEY: Bytes := Ascii("content-length")
  /** `body_string` reads into a buffer of this many bytes. */
  const BODY_BUFFER: nat := 1024

  type Headers = map<Bytes, seq<Bytes>>

  // Grouping header pairs by key

  /** `value` appended to the list of `key`, which is created when missing. */
  function AddValue(m: Headers, key: Bytes, value: Bytes): Headers {
    if key in m then m[key := m[key] + [value]] else m[key := [value]]
  }

  /** The header map the construction loop builds from `pairs`, taken in order. */
  function Group(pairs: seq<(Bytes, Bytes)>): Headers
    decreases |pairs|
  {
    if pairs == [] then map[]
    else
      var last := pairs[|pairs| - 1];
      AddValue(Group(pairs[..|pairs| - 1]), last.0, last.1)
  }

  /** The values `pairs` gives for `key`, in input order. */
  function ValuesOf(pairs: seq<(Bytes, Bytes)>, key: Bytes): seq<Bytes>
    decreases |pairs|
  {
    if pairs == [] then []
    else
      var last := pairs[|pairs| - 1];
      ValuesOf(pairs[..|pairs| - 1], key) + (if last.0 == key then [last.1] else [])
  }

  /**
   * Grouping loses and reorders nothing: a key is in the map exactly when
   * some pair has it, and its list is every value given for it, in order.
   */
  lemma {:induction false} GroupCollects(pairs: seq<(Bytes, Bytes)>, key: Bytes)
    ensures key in Group(pairs) <==> ValuesOf(pairs, key) != []
    ensures key in Group(pairs) ==> Group(pairs)[key] == ValuesOf(pairs, key)
    decreases |pairs|
  {
    if pairs != [] {
      GroupCollects(pairs[..|pairs| - 1], key);
    }
  }

  /** The values for a key over a concatenation of pair lists. */
  lemma {:induction false} ValuesOfAppend(a: seq<(Bytes, Bytes)>, b: seq<(Bytes, Bytes)>, key: Bytes)
    ensures ValuesOf(a + b, key) == ValuesOf(a, key) + ValuesOf(b, key)
    decreases |b|
  {
    if b == [] {
      assert a + b == a;
    } else {
      assert (a + b)[..|a + b| - 1] == a + b[..|b| - 1];
      ValuesOfAppend(a, b[..|b| - 1], key);
    }
  }

  /** The keys of `pairs`, each once, in order of first appearance. */
  function DistinctKeys(pairs: seq<(Bytes, Bytes)>): (keys: seq<Bytes>)
    ensures forall i, j :: 0 <= i < j < |keys| ==> keys[i] != keys[j]
    decreases |pairs|
  {
    if pairs == [] then []
    else
      var init := DistinctKeys(pairs[..|pairs| - 1]);
      var key := pairs[|pairs| - 1].0;
      if key in init then init else init + [key]
  }

  /** The number of values `m` holds under `keys`. */
  function SumLengths(m: Headers, keys: seq<Bytes>): nat
    requires forall k :: k in keys ==> k in m
    decreases |keys|
  {
    if keys == [] then 0 else SumLengths(m, keys[..|keys| - 1]) + |m[keys[|keys| - 1]]|
  }

  /** The keys of the grouped map are exactly the distinct keys of the pairs. */
  lemma {:induction false} GroupKeys(pairs: seq<(Bytes, Bytes)>)
    ensures forall k :: k in DistinctKeys(pairs) <==> k in Group(pairs)
    decreases |pairs|
  {
    if pairs != [] {
      GroupKeys(pairs[..|pairs| - 1]);
    }
  }

  /** Adding one value to one key adds one to the count over any list of distinct keys holding it. */
  lemma {:induction false} SumAddValue(m: Headers, keys: seq<Bytes>, key: Bytes, value: Bytes)
    requires forall k :: k in keys ==> k in m
    requires forall i, j :: 0 <= i < j < |keys| ==> keys[i] != keys[j]
    ensures SumLengths(AddValue(m, key, value), keys) == SumLengths(m, keys) + (if key in keys then 1 else 0)
    decreases |keys|
  {
    if keys != [] {
      var init := keys[..|keys| - 1];
      assert forall k :: k in init ==> k in keys;
      SumAddValue(m, init, key, value);
      if keys[|keys| - 1] == key {
        assert key !in init;
      }
    }
  }

  /** Grouping keeps every value: the map holds as many values as there were pairs. */
  lemma {:induction false} GroupCount(pairs: seq<(Bytes, Bytes)>)
    ensures forall k :: k in DistinctKeys(pairs) ==> k in Group(pairs)
    ensures SumLengths(Group(pairs), DistinctKeys(pairs)) == |pairs|
    decreases |pairs|
  {
    GroupKeys(pairs);
    if pairs != [] {
      var init := pairs[..|pairs| - 1];
      var (key, value) := pairs[|pairs| - 1];
      GroupKeys(init);
      GroupCount(init);
      var keys := DistinctKeys(init);
      var m := Group(pairs);
      assert m == AddValue(Group(init), key, value);
      SumAddValue(Group(init), keys, key, value);
      if key !in keys {
        SumSnoc(m, keys, key);
      }
    }
  }

  /** The count over one more key. */
  lemma SumSnoc(m: Headers, keys: seq<Bytes>, key: Bytes)
    requires forall k :: k in keys ==> k in m
    requires key in m
    ensures SumLengths(m, keys + [key]) == SumLengths(m, keys) + |m[key]|
  {
    assert (keys + [key])[..|keys|] == keys;
  }

  // The record

  /** `content_length`: the first value under `content-length`, when it parses as a `u64`. */
  function ContentLengthOf(headers: Headers): (r: Option<nat>)
    ensures r.Some? ==> r.value <= U64_MAX
  {
    if CONTENT_LENGTH_KEY in headers && headers[CONTENT_LENGTH_KEY] != []
    then ParseUnsigned(headers[CONTENT_LENGTH_KEY][0], U64_MAX)
    else None
  }

  /**
   * Whatever other pairs come first, the map built from a head whose first
   * `content-length` field is the numeral of `n` reports `n`, and one with no
   * such field reports none.
   */
  lemma ContentLengthFromHead(before: seq<(Bytes, Bytes)>, n: nat, after: seq<(Bytes, Bytes)>)
    requires n <= U64_MAX
    requires forall i :: 0 <= i < |before| ==> before[i].0 != CONTENT_LENGTH_KEY
    ensures ContentLengthOf(Group(before + [(CONTENT_LENGTH_KEY, Decimal(n))] + after)) == Some(n)
  {
    var pairs := before + [(CONTENT_LENGTH_KEY, Decimal(n))] + after;
    NoValuesOf(before, CONTENT_LENGTH_KEY);
    ValuesOfAppend(before, [(CONTENT_LENGTH_KEY, Decimal(n))], CONTENT_LENGTH_KEY);
    ValuesOfAppend(before + [(CONTENT_LENGTH_KEY, Decimal(n))], after, CONTENT_LENGTH_KEY);
    assert ValuesOf([(CONTENT_LENGTH_KEY, Decimal(n))], CONTENT_LENGTH_KEY) == [Decimal(n)];
    GroupCollects(pairs, CONTENT_LENGTH_KEY);
    DecimalRoundTrip(n, U64_MAX);
  }

  lemma ContentLengthAbsent(pairs: seq<(Bytes, Bytes)>)
    requires forall i :: 0 <= i < |pairs| ==> pairs[i].0 != CONTENT_LENGTH_KEY
    ensures ContentLengthOf(Group(pairs)) == None
  {
    NoValuesOf(pairs, CONTENT_LENGTH_KEY);
    GroupCollects(pairs, CONTENT_LENGTH_KEY);
  }

  /** A key no pair carries has no values. */
  lemma {:induction false} NoValuesOf(pairs: seq<(Bytes, Bytes)>, key: Bytes)
    requires forall i :: 0 <= i < |pairs| ==> pairs[i].0 != key
    ensures ValuesOf(pairs, key) == []
    decreases |pairs|
  {
    if pairs != [] {
      NoValuesOf(pairs[..|pairs| - 1], key);
    }
  }

  class Response {
    const addr: SocketAddr
    const isTls: bool
    const httpVersion: HttpVersion
    /** A `u16`; `status_code()` returns it as it is. */
    const statusCode: nat
    const headers: Headers
    /** Whether the body counts as consumed, so that the stream may be pooled. */
    var bodyReaded: bool
    var bodyStream: Option<Stream>

    /** The record as first built: body not read, stream held. */
    constructor (addr: SocketAddr, isTls: bool, httpVersion: HttpVersion, statusCode: nat,
                 headers: Headers, stream: Stream)
      ensures this.addr == addr && this.isTls == isTls && this.httpVersion == httpVersion
      ensures this.statusCode == statusCode && this.headers == headers
      ensures !bodyReaded && bodyStream == Some(stream)
    {
      this.addr := addr;
      this.isTls := isTls;
      this.httpVersion := httpVersion;
      this.statusCode := statusCode;
      this.headers := headers;
      bodyReaded := false;
      bodyStream := Some(stream);
    }

    /**
     * `is_success`: a status in `200..300`, upper end excluded. Those are the
     * three-digit statuses whose numeral starts with `2`, the class of
     * section 15 of RFC 9110.
     */
    predicate IsSuccess(): (ok: bool)
      ensures ok ==> |Decimal(statusCode)| == 3 && Decimal(statusCode)[0] == 50
      ensures 100 <= statusCode <= 999 && Decimal(statusCode)[0] == 50 ==> ok
    {
      ThreeDigitNumeral(statusCode);
      200 <= statusCode < 300
    }

    /**
     * `body_string`. A body already read, or one of unknown length (no valid
     * `content-length`), is refused and nothing changes; a declared length of
     * 0 gives the empty string and also changes nothing. Otherwise the stream
     * is read in pieces of at most 1024 bytes and never past the declared
     * length, so the body is the first `min(length, available)` bytes; the body
     * is then marked read, even when it turns out not to be UTF-8.
     */
    method BodyString() returns (r: Result<Bytes, Error>)
      requires bodyStream.Some? ==> bodyStream.value.Valid()
      modifies this`bodyReaded, (if bodyStream.Some? then {bodyStream.value} else {})`pending
      ensures old(bodyReaded) ==> r == Err(BodyAlreadyRead) && bodyReaded
      ensures !old(bodyReaded) && ContentLengthOf(headers).None? ==> r == Err(ChunkedUnsupported) && !bodyReaded
      ensures !old(bodyReaded) && ContentLengthOf(headers) == Some(0) ==> r == Ok([]) && !bodyReaded
      ensures !old(bodyReaded) && ContentLengthOf(headers).Some? && ContentLengthOf(headers).value > 0 ==>
        if bodyStream.None? then r == Err(BodyStreamMissing) && !bodyReaded
        else
          var s := bodyStream.value;
          var len := ContentLengthOf(headers).value;
          var before := old(s.Unread());
          var body := before[..if len < |before| then len else |before|];
          && bodyReaded
          && s.Valid()
          && before == body + s.Unread()
          && r == (if ValidUtf8(body) then Ok(body) else Err(BodyNotUtf8))
      ensures r.Err? && r.error != BodyNotUtf8 && bodyStream.Some? ==> unchanged(bodyStream.value)
      ensures r == Ok([]) && bodyStream.Some? && ContentLengthOf(headers) == Some(0) ==> unchanged(bodyStream.value)
    {
      if bodyReaded {
        return Err(BodyAlreadyRead);
      }
      match ContentLengthOf(headers) {
        case None =>
          return Err(ChunkedUnsupported);
        case Some(len) =>
          if len == 0 {
            return Ok([]);
          }
          if bodyStream.None? {
            return Err(BodyStreamMissing);
          }
          var s := bodyStream.value;
          var v := ReadBounded(s, len);
          bodyReaded := true;
          if ValidUtf8(v) {
            return Ok(v);
          } else {
            return Err(BodyNotUtf8);
          }
      }
    }
  }

  /**
   * The read loop of `body_string`: reads of at most 1024 bytes, each no
   * larger than what is still owed, until `len` bytes have come or the
   * stream ends.
   */
  method ReadBounded(s: Stream, len: nat) returns (v: Bytes)
    requires s.Valid()
    modifies s`pending
    ensures s.Valid()
    ensures var before := old(s.Unread());
      v == before[..if len < |before| then len else |before|] && before == v + s.Unread()
  {
    ghost var before := s.Unread();
    v := [];
    var remaining: nat := len;
    while remaining > 0
      invariant s.Valid()
      invariant before == v + s.Unread()
      invariant |v| + remaining == len
      decreases remaining
    {
      var toRead := if BODY_BUFFER < remaining then BODY_BUFFER else remaining;
      var n := s.Read(toRead);
      if n == [] {
        assert v == before;
        break;
      }
      AppendAssoc(v, n, s.Unread());
      v := v + n;
      remaining := remaining - |n|;
    }
    assert before[..|v|] == v;
  }

  /**
   * `new_from_parse_result`: the version token must be `1.1` or `1.0` and the
   * status token must parse as a `u16`; the pairs are grouped by key, and
   * the body counts as read from the start when the declared length is 0.
   */
  method NewFromParseResult(version: Bytes, code: Bytes, pairs: seq<(Bytes, Bytes)>,
                            stream: Stream, isTls: bool, addr: SocketAddr)
    returns (r: Result<Response, Error>)
    ensures version != Ascii("1.1") && version != Ascii("1.0") ==>
      r == Err(InvalidHttpResponseVersion(version))
    ensures (version == Ascii("1.1") || version == Ascii("1.0")) && ParseUnsigned(code, U16_MAX).None? ==>
      r == Err(InvalidHttpResponseStatusCode(code))
    ensures r.Ok? <==>
      (version == Ascii("1.1") || version == Ascii("1.0")) && ParseUnsigned(code, U16_MAX).Some?
    ensures r.Ok? ==>
      var resp := r.value;
      && fresh(resp)
      && resp.httpVersion == (if version == Ascii("1.1") then V1_1 else V1_0)
      && resp.statusCode == ParseUnsigned(code, U16_MAX).value
      && resp.headers == Group(pairs)
      && resp.bodyStream == Some(stream)
      && resp.isTls == isTls && resp.addr == addr
      && (resp.bodyReaded <==> ContentLengthOf(Group(pairs)) == Some(0))
  {
    var httpVersion;
    if version == Ascii("1.1") {
      httpVersion := V1_1;
    } else if version == Ascii("1.0") {
      httpVersion := V1_0;
    } else {
      return Err(InvalidHttpResponseVersion(version));
    }
    var statusCode := ParseUnsigned(code, U16_MAX);
    if statusCode.None? {
      return Err(InvalidHttpResponseStatusCode(code));
    }
    var headers := GroupPairs(pairs);
    var resp := new Response(addr, isTls, httpVersion, statusCode.value, headers, stream);
    if ContentLengthOf(resp.headers) == Some(0) {
      resp.bodyReaded := true;
    }
    return Ok(resp);
  }

  /** The grouping loop of `new_from_parse_result`: each value pushed onto its key's list. */
  method GroupPairs(pairs: seq<(Bytes, Bytes)>) returns (headers: Headers)
    ensures headers == Group(pairs)
  {
    headers := map[];
    for i := 0 to |pairs|
      invariant headers == Group(pairs[..i])
    {
      assert pairs[..i + 1][..i] == pairs[..i];
      var (key, value) := pairs[i];
      if key in headers {
        headers := headers[key := headers[key] + [value]];
      } else {
        headers := headers[key := [value]];
      }
    }
    assert pairs[..|pairs|] == pairs;
  }

  /** A status from 100 to 999 is written with three digits, the first giving its hundreds. */
  lemma ThreeDigitNumeral(c: nat)
    ensures 100 <= c <= 999 ==> |Decimal(c)| == 3 && Decimal(c)[0] as int == 48 + c / 100
  {
    if 100 <= c <= 999 {
      assert Decimal(c) == Decimal(c / 10) + [(48 + c % 10) as byte];
      assert Decimal(c / 10) == Decimal(c / 100) + [(48 + c / 10 % 10) as byte];
      assert Decimal(c / 100) == [(48 + c / 100) as byte];
    }
  }

  /**
   * `return_stream_to_pool`, run when a response is dropped: a response
   * whose body was not read keeps its stream out of the pools; otherwise its
   * stream, if it still holds one, is taken and released to the TLS or the
   * TCP pool under the response's address.
   */
  method ReturnStreamToPool(resp: Response, pools: Pools)
    requires pools.Valid()
    modifies resp`bodyStream, pools
    ensures pools.Valid()
    ensures !resp.bodyReaded || old(resp.bodyStream).None? ==>
      resp.bodyStream == old(resp.bodyStream) && pools.tcp == old(pools.tcp) && pools.tls == old(pools.tls)
    ensures resp.bodyReaded && old(resp.bodyStream).Some? ==>
      var s := old(resp.bodyStream).value;
      && resp.bodyStream.None?
      && (resp.isTls ==> pools.tls == Released(old(pools.tls), resp.addr, s) && pools.tcp == old(pools.tcp))
      && (!resp.isTls ==> pools.tcp == Released(old(pools.tcp), resp.addr, s) && pools.tls == old(pools.tls))
  {
    if !resp.bodyReaded {
      return;
    }
    var taken := resp.bodyStream;
    resp.bodyStream := None;
    if taken.Some? {
      pools.Release(resp.isTls, resp.addr, taken.value);
    }
  }
}
