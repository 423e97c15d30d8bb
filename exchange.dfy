/**
 * `read_headers_to_resp` of `client.rs`: the response head read off the
 * stream (the status line up to its CRLF, then the header block up to the
 * blank line), checked to be UTF-8, parsed, and turned into a `Response`
 * that keeps the stream for the body.
 */
module Exchange {
  import opened Base
  import opened Utf8
  import opened Streams
  import opened Misc
  import opened HeadParse
  import opened Reader
  import opened Responses

  const BLANK_LINE: Bytes := CRLF + CRLF

  /**
   * Header names lower-cased, values untouched, order kept: each name becomes
   * the one string with no upper-case letter that matches it ignoring case.
   */
  function LowerKeys(pairs: seq<(Bytes, Bytes)>): (r: seq<(Bytes, Bytes)>)
    ensures |r| == |pairs|
    ensures forall i :: 0 <= i < |pairs| ==>
      EqualIgnoringCase(pairs[i].0, r[i].0) && NoUpper(r[i].0) && r[i].1 == pairs[i].1
  {
    seq(|pairs|, i requires 0 <= i < |pairs| => (AsciiLower(pairs[i].0), pairs[i].1))
  }

  lemma LowerKeysAppend(a: seq<(Bytes, Bytes)>, b: seq<(Bytes, Bytes)>)
    ensures LowerKeys(a + b) == LowerKeys(a) + LowerKeys(b)
  {
  }

  /**
   * What lower-casing the names is for: the declared length is found whatever
   * the case of the name the server sent. When the first field whose name is
   * `Content-Length` in any ASCII case carries the numeral of `n`, the
   * response reports `n`.
   */
  lemma ContentLengthAnyCase(before: seq<(Bytes, Bytes)>, key: Bytes, n: nat, after: seq<(Bytes, Bytes)>)
    requires n <= U64_MAX && EqualIgnoringCase(key, CONTENT_LENGTH_KEY)
    requires forall i :: 0 <= i < |before| ==> !EqualIgnoringCase(before[i].0, CONTENT_LENGTH_KEY)
    ensures ContentLengthOf(Group(LowerKeys(before + [(key, Decimal(n))] + after))) == Some(n)
  {
    LowerLiteral("content-length");
    LowerUnique(key, CONTENT_LENGTH_KEY);
    var lowered := LowerKeys(before);
    forall i | 0 <= i < |lowered|
      ensures lowered[i].0 != CONTENT_LENGTH_KEY
    {
      if lowered[i].0 == CONTENT_LENGTH_KEY {
        LowerUnique(before[i].0, CONTENT_LENGTH_KEY);
      }
    }
    LowerKeysAppend(before + [(key, Decimal(n))], after);
    LowerKeysAppend(before, [(key, Decimal(n))]);
    assert LowerKeys([(key, Decimal(n))]) == [(CONTENT_LENGTH_KEY, Decimal(n))];
    ContentLengthFromHead(lowered, n, LowerKeys(after));
  }

  /** And with no such field, in any case, the response reports none. */
  lemma ContentLengthAbsentAnyCase(pairs: seq<(Bytes, Bytes)>)
    requires forall i :: 0 <= i < |pairs| ==> !EqualIgnoringCase(pairs[i].0, CONTENT_LENGTH_KEY)
    ensures ContentLengthOf(Group(LowerKeys(pairs))) == None
  {
    LowerLiteral("content-length");
    var lowered := LowerKeys(pairs);
    forall i | 0 <= i < |lowered|
      ensures lowered[i].0 != CONTENT_LENGTH_KEY
    {
      if lowered[i].0 == CONTENT_LENGTH_KEY {
        LowerUnique(pairs[i].0, CONTENT_LENGTH_KEY);
      }
    }
    ContentLengthAbsent(lowered);
  }

  /** The status line a read up to CRLF takes off `unread`. */
  function StatusLineOf(unread: Bytes): (line: Bytes)
    ensures line <= unread
  {
    unread[..UntilLength(unread, CRLF)]
  }

  /** The header block a read up to the blank line then takes. */
  function HeaderBlockOf(unread: Bytes): (block: Bytes)
    ensures StatusLineOf(unread) + block <= unread
  {
    var rest := unread[|StatusLineOf(unread)|..];
    assert unread == StatusLineOf(unread) + rest;
    rest[..UntilLength(rest, BLANK_LINE)]
  }

  /**
   * The parsing stages of a response head, given the status line and the
   * header block read: each fails with its own error, and on success they
   * yield the version token, the status token and the header pairs with
   * lower-cased names. The head is accepted exactly when both parts are UTF-8
   * and parse; the tokens are then those of the status line, and the pairs
   * are the fields the block is written as, in order.
   */
  function ParseHead(line: Bytes, block: Bytes): (r: Result<(Bytes, Bytes, seq<(Bytes, Bytes)>), Error>)
    ensures r.Ok? <==> StatusLineAccepted(line) && ValidUtf8(block) && ParseHeaders(block).Some?
    ensures r.Ok? ==> exists rest :: StatusLineShape(line, r.value.0, r.value.1, rest)
    ensures r.Ok? ==> exists fields :: ReadBack(block, fields) && r.value.2 == LowerKeys(fields)
    ensures r.Err? ==> r.error in {StatusLineNotUtf8, BadStatusLine, HeaderBlockNotUtf8, BadHeaderLine}
    ensures r.Err? && StatusLineAccepted(line) ==> r.error in {HeaderBlockNotUtf8, BadHeaderLine}
  {
    if !ValidUtf8(line) then Err(StatusLineNotUtf8)
    else match ParseRespFirstLine(line)
      case None => Err(BadStatusLine)
      case Some((version, code, rest)) =>
        if !ValidUtf8(block) then Err(HeaderBlockNotUtf8)
        else match ParseHeaders(block)
          case None => Err(BadHeaderLine)
          case Some(pairs) =>
            ParseHeadersSound(block);
            Ok((version, code, LowerKeys(pairs)))
  }

  /** Whether the status line is good enough for the header block to be read at all. */
  predicate StatusLineAccepted(line: Bytes) {
    ValidUtf8(line) && ParseRespFirstLine(line).Some?
  }

  /**
   * `read_headers_to_resp` without the optional header timeout: the status
   * line is read, then, if it is accepted, the header block; a failed stage
   * is the error of `ParseHead`, and a parsed head goes to
   * `NewFromParseResult`, which keeps the stream, left right after the blank
   * line, for the body.
   */
  method ReadHeadersToResp(stream: Stream, isHttps: bool, addr: SocketAddr) returns (r: Result<Response, Error>)
    requires stream.Valid()
    modifies stream`pending
    ensures stream.Valid()
    ensures var unread := old(stream.Unread());
      var line := StatusLineOf(unread);
      var block := HeaderBlockOf(unread);
      var head := ParseHead(line, block);
      && (StatusLineAccepted(line) ==> unread == line + block + stream.Unread())
      && (!StatusLineAccepted(line) ==> unread == line + stream.Unread())
      && (head.Err? ==> r == Err(head.error))
      && (head.Ok? ==>
            var (version, code, pairs) := head.value;
            && (version != Ascii("1.1") && version != Ascii("1.0") ==>
                  r == Err(InvalidHttpResponseVersion(version)))
            && ((version == Ascii("1.1") || version == Ascii("1.0")) && ParseUnsigned(code, U16_MAX).None? ==>
                  r == Err(InvalidHttpResponseStatusCode(code)))
            && (r.Ok? <==> (version == Ascii("1.1") || version == Ascii("1.0")) && ParseUnsigned(code, U16_MAX).Some?))
      && (r.Ok? ==>
            && head.Ok?
            && fresh(r.value)
            && r.value.httpVersion == (if head.value.0 == Ascii("1.1") then V1_1 else V1_0)
            && ParseUnsigned(head.value.1, U16_MAX) == Some(r.value.statusCode)
            && r.value.headers == Group(head.value.2)
            && r.value.bodyStream == Some(stream)
            && r.value.isTls == isHttps
            && r.value.addr == addr
            && (r.value.bodyReaded <==> ContentLengthOf(r.value.headers) == Some(0)))
  {
    ghost var unread := stream.Unread();
    var line := ReadUntil(stream, CRLF);
    if !ValidUtf8(line) {
      return Err(StatusLineNotUtf8);
    }
    var first := ParseRespFirstLine(line);
    if first.None? {
      return Err(BadStatusLine);
    }
    var (version, code, _) := first.value;
    assert unread[|line|..] == stream.Unread();
    var block := ReadUntil(stream, BLANK_LINE);
    AppendAssoc(line, block, stream.Unread());
    if !ValidUtf8(block) {
      return Err(HeaderBlockNotUtf8);
    }
    var parsed := ParseHeaders(block);
    if parsed.None? {
      return Err(BadHeaderLine);
    }
    r := NewFromParseResult(version, code, LowerKeys(parsed.value), stream, isHttps, addr);
  }

  /**
   * A well-formed status line and a well-formed, non-empty header block are
   * accepted with exactly their version, status token and fields.
   */
  lemma ParseHeadAccepts(line: Bytes, version: Bytes, code: Bytes, reason: Bytes, rest: Bytes,
                         fields: seq<(Bytes, Bytes)>)
    requires StatusLineParts(line, version, code, reason, rest) && ValidUtf8(line)
    requires |fields| > 0 && WellFormedFields(fields) && ValidUtf8(FieldLines(fields) + CRLF)
    ensures ParseHead(line, FieldLines(fields) + CRLF) == Ok((version, code, LowerKeys(fields)))
  {
    ParseRespFirstLineComplete(line, version, code, reason, rest);
    ParseHeadersComplete(fields);
  }
}
