/**
 * The request side of `client.rs`: `send_header` writes the request line of
 * section 3 of RFC 9112 and the field lines of section 5, then (when the
 * request asked for it) insists on an interim `100 Continue` reply
 * (section 10.1.1 of RFC 9110); `send_body` copies the body.
 */
module RequestWriter {
  import opened Base
  import opened Utf8
  import Base64
  import opened Streams
  import opened Misc
  import opened HeadParse
  import opened Requestx

  const HTTP_1_1: Bytes := Ascii("HTTP/1.1")
  const CONTENT_LENGTH: Bytes := Ascii("Content-Length")
  const AUTHORIZATION: Bytes := Ascii("Authorization")
  const BASIC_SP: Bytes := Ascii("Basic ")
  const EXPECT: Bytes := Ascii("Expect")
  const CONTINUE_100: Bytes := Ascii("100-continue")
  const CONNECTION: Bytes := Ascii("Connection")
  const KEEP_ALIVE: Bytes := Ascii("keep-alive")
  /** The one interim reply `send_header` accepts, byte for byte. */
  const CONTINUE_REPLY: Bytes := Ascii("HTTP/1.1 100 Continue\r\n\r\n")
  /** The buffer the interim reply is read into. */
  const CONTINUE_BUFFER: nat := 1024
  /** The buffer a streamed body is copied through: 128 KiB. */
  const BODY_CHUNK: nat := 131072

  // ---------------------------------------------------------------------
  // The request head

  /** The request target: the path, then `?` and the query when there is one. */
  function RequestTarget(url: Url): Bytes {
    url.path + (if url.query.Some? then [QUESTION] + url.query.value else [])
  }

  /** `method SP request-target SP HTTP-version CRLF`. */
  function RequestLine(verb: Bytes, url: Url): Bytes {
    verb + [SP] + RequestTarget(url) + [SP] + HTTP_1_1 + CRLF
  }

  /** `order` lists every key of the set once. */
  predicate EnumeratesKeys(order: seq<Bytes>, keys: set<Bytes>) {
    && (forall i :: 0 <= i < |order| ==> order[i] in keys)
    && (forall k :: k in keys ==> k in order)
    && (forall i, j :: 0 <= i < j < |order| ==> order[i] != order[j])
  }

  /** Some header has an empty list of values, which `send_header` cannot write. */
  predicate HasEmptyValueList(headers: map<Bytes, seq<Bytes>>) {
    exists k :: k in headers && headers[k] == []
  }

  /** The header fields written, in the order the keys are visited: each key with its first value. */
  function FirstValues(headers: map<Bytes, seq<Bytes>>, order: seq<Bytes>): (fields: seq<(Bytes, Bytes)>)
    requires forall i :: 0 <= i < |order| ==> order[i] in headers && headers[order[i]] != []
    ensures |fields| == |order|
    ensures forall i :: 0 <= i < |order| ==> fields[i] == (order[i], headers[order[i]][0])
  {
    seq(|order|, i requires 0 <= i < |order| => (order[i], headers[order[i]][0]))
  }

  lemma FirstValuesSnoc(headers: map<Bytes, seq<Bytes>>, order: seq<Bytes>, key: Bytes)
    requires forall i :: 0 <= i < |order| ==> order[i] in headers && headers[order[i]] != []
    requires key in headers && headers[key] != []
    ensures FirstValues(headers, order + [key]) == FirstValues(headers, order) + [(key, headers[key][0])]
  {
  }

  /** The value of the `Authorization` field: `Basic`, a space and the Base64 of `user:password`. */
  function BasicCredentials(username: Bytes, password: Bytes): Bytes {
    BASIC_SP + Base64.Encode(username + [COLON] + password)
  }

  /** The fields `send_header` always appends after the request's own headers. */
  function TrailerFields(contentLength: nat, basicAuth: Option<(Bytes, Bytes)>, expectContinue: bool): seq<(Bytes, Bytes)> {
    [(CONTENT_LENGTH, Decimal(contentLength))]
    + (if basicAuth.Some? then [(AUTHORIZATION, BasicCredentials(basicAuth.value.0, basicAuth.value.1))] else [])
    + (if expectContinue then [(EXPECT, CONTINUE_100)] else [])
    + [(CONNECTION, KEEP_ALIVE)]
  }

  /** The whole head, for one order of visiting the header keys. */
  function RequestHead(verb: Bytes, url: Url, headers: map<Bytes, seq<Bytes>>, order: seq<Bytes>,
                       contentLength: nat, basicAuth: Option<(Bytes, Bytes)>, expectContinue: bool): Bytes
    requires forall i :: 0 <= i < |order| ==> order[i] in headers && headers[order[i]] != []
  {
    RequestLine(verb, url)
    + FieldLines(FirstValues(headers, order) + TrailerFields(contentLength, basicAuth, expectContinue))
    + CRLF
  }

  /**
   * The check of the interim reply: nothing read means the peer closed; the
   * bytes must be UTF-8 and then exactly `HTTP/1.1 100 Continue` and a blank line.
   */
  function ContinueCheck(reply: Bytes): (r: Result<(), Error>)
    ensures r.Ok? <==> reply == CONTINUE_REPLY
    ensures r == Err(ClosedBeforeContinue) <==> reply == []
    ensures r.Err? && reply != [] ==> r == Err(ContinueNotUtf8) || r == Err(NotContinue(reply))
  {
    AsciiLiteral("HTTP/1.1 100 Continue\r\n\r\n");
    AsciiIsUtf8(CONTINUE_REPLY);
    if reply == [] then Err(ClosedBeforeContinue)
    else if !ValidUtf8(reply) then Err(ContinueNotUtf8)
    else if reply != CONTINUE_REPLY then Err(NotContinue(reply))
    else Ok(())
  }

  /**
   * `send_header`. The header map is visited in an order the model leaves
   * open (a hash map's); the written bytes are the head for that order. A key
   * with no value panics on `unwrap`.
   */
  method SendHeader(req: Request, stream: Stream) returns (r: Result<(), Error>)
    requires stream.Valid()
    modifies stream
    ensures stream.Valid()
    ensures r == Err(Panic) <==> HasEmptyValueList(req.headers)
    ensures r != Err(Panic) ==>
      exists order :: EnumeratesKeys(order, req.headers.Keys) &&
        stream.written == old(stream.written)
          + RequestHead(req.verb, req.url, req.headers, order, req.contentLength, req.basicAuth, req.expectContinue)
    ensures r != Err(Panic) && !req.expectContinue ==> r == Ok(()) && stream.pending == old(stream.pending)
    ensures r != Err(Panic) && req.expectContinue ==>
      r == ContinueCheck(NextRead(old(stream.pending), CONTINUE_BUFFER))
      && stream.pending == AfterRead(old(stream.pending), CONTINUE_BUFFER)
  {
    var panicked;
    ghost var order;
    panicked, order := WriteHead(req, stream);
    if panicked {
      return Err(Panic);
    }
    if req.expectContinue {
      var reply := stream.Read(CONTINUE_BUFFER);
      r := ContinueCheck(reply);
    } else {
      r := Ok(());
    }
  }

  /** Everything `send_header` writes, up to the flush. */
  method WriteHead(req: Request, stream: Stream) returns (panicked: bool, ghost order: seq<Bytes>)
    modifies stream`written
    ensures panicked <==> HasEmptyValueList(req.headers)
    ensures !panicked ==> EnumeratesKeys(order, req.headers.Keys)
    ensures !panicked ==>
      stream.written == old(stream.written)
        + RequestHead(req.verb, req.url, req.headers, order, req.contentLength, req.basicAuth, req.expectContinue)
  {
    var verb, url, headers := req.verb, req.url, req.headers;
    var contentLength, basicAuth, expectContinue := req.contentLength, req.basicAuth, req.expectContinue;
    ghost var start := stream.written;
    WriteRequestLine(verb, url, stream);
    ghost var line := RequestLine(verb, url);
    panicked, order := WriteHeaderFields(headers, stream);
    if panicked {
      return;
    }
    ghost var fields := FieldLines(FirstValues(headers, order));
    ghost var afterFields := stream.written;
    WriteTrailer(contentLength, basicAuth, expectContinue, stream);
    ghost var trailer := FieldLines(TrailerFields(contentLength, basicAuth, expectContinue)) + CRLF;
    AppendAssoc(start, line, fields);
    AppendAssoc(start + line, fields, trailer);
    AppendAssoc(line, fields, trailer);
    AppendAssoc(start, line + fields, trailer);
    RequestHeadParts(verb, url, headers, order, contentLength, basicAuth, expectContinue);
  }

  /** The head is the request line, the request's own fields, then the trailer fields and the blank line. */
  lemma RequestHeadParts(verb: Bytes, url: Url, headers: map<Bytes, seq<Bytes>>, order: seq<Bytes>,
                         contentLength: nat, basicAuth: Option<(Bytes, Bytes)>, expectContinue: bool)
    requires forall i :: 0 <= i < |order| ==> order[i] in headers && headers[order[i]] != []
    ensures RequestHead(verb, url, headers, order, contentLength, basicAuth, expectContinue) ==
      RequestLine(verb, url) + FieldLines(FirstValues(headers, order))
      + (FieldLines(TrailerFields(contentLength, basicAuth, expectContinue)) + CRLF)
  {
    FieldLinesAppend(FirstValues(headers, order), TrailerFields(contentLength, basicAuth, expectContinue));
  }

  /** The first line of `send_header`. */
  method WriteRequestLine(verb: Bytes, url: Url, stream: Stream)
    modifies stream`written
    ensures stream.written == old(stream.written) + RequestLine(verb, url)
  {
    stream.WriteAll(verb);
    stream.WriteAll([SP]);
    stream.WriteAll(url.path);
    if url.query.Some? {
      stream.WriteAll([QUESTION]);
      stream.WriteAll(url.query.value);
    }
    stream.WriteAll([SP]);
    stream.WriteAll(HTTP_1_1 + CRLF);
  }

  /**
   * The loop of `send_header` over the header map: one field line per key,
   * with the key's first value, in the order the keys are drawn; it stops at
   * (and reports) a key with no value.
   */
  method WriteHeaderFields(headers: map<Bytes, seq<Bytes>>, stream: Stream) returns (panicked: bool, ghost order: seq<Bytes>)
    modifies stream`written
    ensures panicked <==> HasEmptyValueList(headers)
    ensures !panicked ==> EnumeratesKeys(order, headers.Keys)
    ensures !panicked ==> stream.written == old(stream.written) + FieldLines(FirstValues(headers, order))
  {
    ghost var start := stream.written;
    var remaining := headers.Keys;
    order := [];
    while remaining != {}
      invariant remaining <= headers.Keys
      invariant forall i :: 0 <= i < |order| ==> order[i] in headers && order[i] !in remaining
      invariant forall k :: k in headers ==> k in order || k in remaining
      invariant forall i, j :: 0 <= i < j < |order| ==> order[i] != order[j]
      invariant forall i :: 0 <= i < |order| ==> headers[order[i]] != []
      invariant stream.written == start + FieldLines(FirstValues(headers, order))
      decreases |remaining|
    {
      var key :| key in remaining;
      var values := headers[key];
      if values == [] {
        return true, order;
      }
      WriteNextField(headers, start, order, key, stream);
      order := order + [key];
      remaining := remaining - {key};
    }
    panicked := false;
  }

  /** One turn of that loop: the line of `key` with its first value joins the lines written since `start`. */
  method WriteNextField(headers: map<Bytes, seq<Bytes>>, ghost start: Bytes, ghost order: seq<Bytes>, key: Bytes, stream: Stream)
    requires forall i :: 0 <= i < |order| ==> order[i] in headers && headers[order[i]] != []
    requires key in headers && headers[key] != []
    requires stream.written == start + FieldLines(FirstValues(headers, order))
    modifies stream`written
    ensures stream.written == start + FieldLines(FirstValues(headers, order + [key]))
  {
    var value := headers[key][0];
    WriteHeaderLine(stream, key, value);
    FieldLinesSnoc(FirstValues(headers, order), key, value);
    FirstValuesSnoc(headers, order, key);
    AppendAssoc(start, FieldLines(FirstValues(headers, order)), FieldLine(key, value));
  }

  /** One header line, written piece by piece. */
  method WriteHeaderLine(stream: Stream, key: Bytes, value: Bytes)
    modifies stream`written
    ensures stream.written == old(stream.written) + FieldLine(key, value)
  {
    stream.WriteAll(key);
    stream.WriteAll(COLON_SP);
    stream.WriteAll(value);
    stream.WriteAll(CRLF);
  }

  /** The fixed fields and the blank line that end every head. */
  method WriteTrailer(contentLength: nat, basicAuth: Option<(Bytes, Bytes)>, expectContinue: bool, stream: Stream)
    modifies stream`written
    ensures stream.written == old(stream.written) + FieldLines(TrailerFields(contentLength, basicAuth, expectContinue)) + CRLF
  {
    ghost var start := stream.written;
    ghost var fields: seq<(Bytes, Bytes)> := [(CONTENT_LENGTH, Decimal(contentLength))];
    stream.WriteAll(CONTENT_LENGTH + COLON_SP);
    stream.WriteAll(Decimal(contentLength));
    stream.WriteAll(CRLF);
    assert FieldLines(fields) == FieldLine(CONTENT_LENGTH, Decimal(contentLength)) + FieldLines([]);
    assert stream.written == start + FieldLines(fields);
    if basicAuth.Some? {
      var credentials := BasicCredentials(basicAuth.value.0, basicAuth.value.1);
      WriteField(stream, start, fields, AUTHORIZATION, credentials);
      fields := fields + [(AUTHORIZATION, credentials)];
    }
    if expectContinue {
      WriteField(stream, start, fields, EXPECT, CONTINUE_100);
      fields := fields + [(EXPECT, CONTINUE_100)];
    }
    WriteField(stream, start, fields, CONNECTION, KEEP_ALIVE);
    fields := fields + [(CONNECTION, KEEP_ALIVE)];
    assert fields == TrailerFields(contentLength, basicAuth, expectContinue);
    stream.WriteAll(CRLF);
  }

  /** Writes one field line after the lines `fields` already written since `start`. */
  method WriteField(stream: Stream, ghost start: Bytes, ghost fields: seq<(Bytes, Bytes)>, key: Bytes, value: Bytes)
    requires stream.written == start + FieldLines(fields)
    modifies stream`written
    ensures stream.written == start + FieldLines(fields + [(key, value)])
  {
    stream.WriteAll(FieldLine(key, value));
    FieldLinesSnoc(fields, key, value);
  }

  /** The credentials travel as a field value: no CR, no LF. */
  lemma CredentialsAreFieldValue(username: Bytes, password: Bytes)
    ensures IsFieldValue(BasicCredentials(username, password))
  {
    var encoded := Base64.Encode(username + [COLON] + password);
    Base64.EncodeAlphabet(username + [COLON] + password);
    assert forall i :: 0 <= i < |encoded| ==> encoded[i] != CR && encoded[i] != LF;
  }

  /** Decoding what follows `Basic ` gives back `username:password`. */
  lemma CredentialsDecode(username: Bytes, password: Bytes)
    ensures BasicCredentials(username, password)[..|BASIC_SP|] == BASIC_SP
    ensures Base64.Decode(BasicCredentials(username, password)[|BASIC_SP|..]) == Some(username + [COLON] + password)
  {
    var encoded := Base64.Encode(username + [COLON] + password);
    assert BasicCredentials(username, password)[|BASIC_SP|..] == encoded;
    Base64.DecodeEncode(username + [COLON] + password);
  }

  /** The fields `send_header` appends are well formed whatever the request holds. */
  lemma TrailerWellFormed(contentLength: nat, basicAuth: Option<(Bytes, Bytes)>, expectContinue: bool)
    ensures WellFormedFields(TrailerFields(contentLength, basicAuth, expectContinue))
  {
    AsciiTokens();
    if basicAuth.Some? {
      CredentialsAreFieldValue(basicAuth.value.0, basicAuth.value.1);
    }
  }

  /** The fixed names and values are tokens and field values. */
  lemma AsciiTokens()
    ensures IsToken(CONTENT_LENGTH) && IsToken(AUTHORIZATION) && IsToken(EXPECT) && IsToken(CONNECTION)
    ensures IsFieldValue(CONTINUE_100) && IsFieldValue(KEEP_ALIVE)
    ensures forall n: nat :: IsFieldValue(Decimal(n))
  {
    LiteralToken("Content-Length");
    LiteralToken("Authorization");
    LiteralToken("Expect");
    LiteralToken("Connection");
    LiteralToken("100-continue");
    LiteralToken("keep-alive");
    forall n: nat
      ensures IsFieldValue(Decimal(n))
    {
      var d := Decimal(n);
      assert forall i :: 0 <= i < |d| ==> IsDigit(d[i]);
    }
  }

  /** A literal of visible ASCII other than `:` and space is a token, and a field value. */
  lemma LiteralToken(s: string)
    requires |s| > 0
    requires forall i :: 0 <= i < |s| ==> 32 < s[i] as int < 127 && s[i] != ':'
    ensures IsToken(Ascii(s)) && IsFieldValue(Ascii(s))
  {
  }

  /**
   * When every header name is a token and every first value a field value,
   * the field lines `send_header` writes after the request line form a block
   * the response-head parser reads back field for field, in order.
   */
  lemma HeadFieldsReadBack(headers: map<Bytes, seq<Bytes>>, order: seq<Bytes>, contentLength: nat,
                           basicAuth: Option<(Bytes, Bytes)>, expectContinue: bool)
    requires forall i :: 0 <= i < |order| ==> order[i] in headers && headers[order[i]] != []
    requires forall k :: k in headers && headers[k] != [] ==> IsToken(k) && IsFieldValue(headers[k][0])
    ensures var fields := FirstValues(headers, order) + TrailerFields(contentLength, basicAuth, expectContinue);
      ParseHeaders(FieldLines(fields) + CRLF) == Some(fields)
  {
    var own := FirstValues(headers, order);
    var trailer := TrailerFields(contentLength, basicAuth, expectContinue);
    TrailerWellFormed(contentLength, basicAuth, expectContinue);
    assert WellFormedFields(own + trailer);
    ParseHeadersComplete(own + trailer);
  }

  // ---------------------------------------------------------------------
  // The body

  /**
   * What the copy loop of `send_body` does to a streamed body whose unread
   * bytes arrive as `segments`, when `readN` bytes were copied before and the
   * declared length is `len`: the bytes it forwards and the segments it leaves
   * unread. It reads up to 128 KiB at a time and forwards each read; it stops
   * when a read is empty, or right after a read that brings the running count
   * to exactly `len`.
   */
  function CopyPlan(segments: seq<Bytes>, len: nat, readN: nat): (r: (Bytes, seq<Bytes>))
    requires Segmented(segments)
    ensures Segmented(r.1)
    ensures Flatten(segments) == r.0 + Flatten(r.1)
    ensures r.1 == [] || readN + |r.0| == len
    decreases |Flatten(segments)|
  {
    ReadTakesPrefix(segments, BODY_CHUNK);
    var n := NextRead(segments, BODY_CHUNK);
    var after := AfterRead(segments, BODY_CHUNK);
    if n == [] then ([], segments)
    else if readN + |n| == len then (n, after)
    else
      var more := CopyPlan(after, len, readN + |n|);
      (n + more.0, more.1)
  }

  /**
   * `send_body`: nothing for no body, the whole string for a string body
   * whatever the declared length, a panic for the two body kinds whose setters
   * never return; a streamed body is copied as `CopyPlan` says.
   */
  method SendBody(req: Request, stream: Stream) returns (r: Result<(), Error>)
    requires req.body.Reader? ==> req.body.source != stream && req.body.source.Valid()
    modifies stream`written, (if req.body.Reader? then {req.body.source} else {})`pending
    ensures req.body.NoBody? ==> r == Ok(()) && stream.written == old(stream.written)
    ensures req.body.Str? ==> r == Ok(()) && stream.written == old(stream.written) + req.body.text
    ensures req.body.ByteSlice? || req.body.Form? ==> r == Err(Panic) && stream.written == old(stream.written)
    ensures req.body.Reader? ==>
      var plan := CopyPlan(old(req.body.source.pending), req.contentLength, 0);
      && r == Ok(())
      && stream.written == old(stream.written) + plan.0
      && req.body.source.pending == plan.1
  {
    match req.body {
      case NoBody =>
        r := Ok(());
      case Reader(source) =>
        CopyStream(source, stream, req.contentLength);
        r := Ok(());
      case Str(text) =>
        stream.WriteAll(text);
        r := Ok(());
      case Form =>
        r := Err(Panic);
      case ByteSlice =>
        r := Err(Panic);
    }
  }

  /** The copy loop of `send_body` for a streamed body of declared length `len`. */
  method CopyStream(source: Stream, stream: Stream, len: nat)
    requires source != stream && source.Valid()
    modifies source`pending, stream`written
    ensures source.Valid()
    ensures var plan := CopyPlan(old(source.pending), len, 0);
      stream.written == old(stream.written) + plan.0 && source.pending == plan.1
  {
    ghost var plan := CopyPlan(source.pending, len, 0);
    ghost var start := stream.written;
    ghost var sent: Bytes := [];
    var readN := 0;
    var done := false;
    assert plan.0 == sent + plan.0;
    while !done
      invariant source.Valid()
      invariant readN == |sent|
      invariant stream.written == start + sent
      invariant !done ==> plan.0 == sent + CopyPlan(source.pending, len, readN).0
      invariant !done ==> plan.1 == CopyPlan(source.pending, len, readN).1
      invariant done ==> plan.0 == sent && plan.1 == source.pending
      decreases |source.Unread()|, !done
    {
      ghost var rest := CopyPlan(source.pending, len, readN);
      var n := CopyTurn(source, stream, len, readN);
      if n == [] {
        done := true;
      } else {
        readN := readN + |n|;
        if readN == len {
          done := true;
        } else {
          AppendAssoc(sent, n, CopyPlan(source.pending, len, readN).0);
        }
        AppendAssoc(start, sent, n);
        sent := sent + n;
      }
    }
  }

  /** One turn of the copy loop: a read, forwarded unless it is empty, and how it advances the plan. */
  method CopyTurn(source: Stream, stream: Stream, len: nat, readN: nat) returns (n: Bytes)
    requires source != stream && source.Valid()
    modifies source`pending, stream`written
    ensures source.Valid()
    ensures stream.written == old(stream.written) + n
    ensures |old(source.Unread())| == |n| + |source.Unread()|
    ensures var rest := CopyPlan(old(source.pending), len, readN);
      if n == [] then rest.0 == [] && rest.1 == source.pending
      else if readN + |n| == len then rest.0 == n && rest.1 == source.pending
      else
        var more := CopyPlan(source.pending, len, readN + |n|);
        rest.0 == n + more.0 && rest.1 == more.1
  {
    CopyPlanStep(source.pending, len, readN);
    n := source.Read(BODY_CHUNK);
    if n != [] {
      stream.WriteAll(n);
    }
  }

  /** One turn of the copy loop: the plan from here is the next read followed by the plan after it. */
  lemma CopyPlanStep(segments: seq<Bytes>, len: nat, readN: nat)
    requires Segmented(segments)
    ensures Segmented(AfterRead(segments, BODY_CHUNK))
    ensures var n := NextRead(segments, BODY_CHUNK);
      var after := AfterRead(segments, BODY_CHUNK);
      CopyPlan(segments, len, readN) ==
        if n == [] then ([], segments)
        else if readN + |n| == len then (n, after)
        else (n + CopyPlan(after, len, readN + |n|).0, CopyPlan(after, len, readN + |n|).1)
  {
    ReadTakesPrefix(segments, BODY_CHUNK);
  }

  /**
   * Once the running count has passed the declared length it can never equal
   * it again, so the loop copies the whole body; a declared length of 0 is the
   * case where this starts at once.
   */
  lemma {:induction false} CopyPastLength(segments: seq<Bytes>, len: nat, readN: nat)
    requires Segmented(segments) && readN >= len
    ensures CopyPlan(segments, len, readN) == (Flatten(segments), [])
    decreases |Flatten(segments)|
  {
    ReadTakesPrefix(segments, BODY_CHUNK);
    var n := NextRead(segments, BODY_CHUNK);
    if n != [] {
      CopyPastLength(AfterRead(segments, BODY_CHUNK), len, readN + |n|);
    }
  }

  /** A body shorter than the declared length is copied whole; the loop then waits for end of stream. */
  lemma {:induction false} CopyShortBody(segments: seq<Bytes>, len: nat, readN: nat)
    requires Segmented(segments) && readN + |Flatten(segments)| < len
    ensures CopyPlan(segments, len, readN) == (Flatten(segments), [])
    decreases |Flatten(segments)|
  {
    ReadTakesPrefix(segments, BODY_CHUNK);
    var n := NextRead(segments, BODY_CHUNK);
    if n != [] {
      CopyShortBody(AfterRead(segments, BODY_CHUNK), len, readN + |n|);
    }
  }
}
