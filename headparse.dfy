/**
 * The response-head grammar of `client.rs`: three small parser combinator
 * chains over the bytes read off the stream. They accept a strict subset of the
 * field-line and status-line syntax of sections 4 and 5 of RFC 9112: no
 * optional whitespace, exactly one space after the colon.
 */
module HeadParse {
  import opened Base

  const HTTP_SLASH: Bytes := [72, 84, 84, 80, 47]   // "HTTP/"
  const COLON_SP: Bytes := [COLON, SP]               // ": "

  /** nom's `tag`: the remainder after `t`, when `s` starts with `t`. */
  function Tag(s: Bytes, t: Bytes): (r: Option<Bytes>)
    ensures r.Some? <==> |t| <= |s| && s[..|t|] == t
    ensures r.Some? ==> s == t + r.value
  {
    if |t| <= |s| && s[..|t|] == t then Some(s[|t|..]) else None
  }

  lemma TagPrefix(t: Bytes, x: Bytes)
    ensures Tag(t + x, t) == Some(x)
  {
    assert (t + x)[..|t|] == t;
    assert (t + x)[|t|..] == x;
  }

  /** How many leading bytes of `s` hold no byte of `stop`. */
  function RunLength(s: Bytes, stop: set<byte>): (n: nat)
    ensures n <= |s|
    ensures forall i :: 0 <= i < n ==> s[i] !in stop
    ensures n < |s| ==> s[n] in stop
  {
    if s == [] || s[0] in stop then 0 else 1 + RunLength(s[1..], stop)
  }

  /**
   * nom's `take_till` (and, when the run must not be empty, `is_not`): the
   * longest prefix of `s` holding no byte of `stop`, and what follows it.
   */
  function TakeTill(s: Bytes, stop: set<byte>): (r: (Bytes, Bytes))
    ensures s == r.0 + r.1
    ensures forall i :: 0 <= i < |r.0| ==> r.0[i] !in stop
    ensures r.1 == [] || r.1[0] in stop
  {
    var n := RunLength(s, stop);
    (s[..n], s[n..])
  }

  /** The split is unique: a run followed by a stop byte (or nothing) is taken whole. */
  lemma {:induction false} TakeTillExact(run: Bytes, tail: Bytes, stop: set<byte>)
    requires forall i :: 0 <= i < |run| ==> run[i] !in stop
    requires tail == [] || tail[0] in stop
    ensures TakeTill(run + tail, stop) == (run, tail)
    decreases |run|
  {
    if run != [] {
      assert (run + tail)[1..] == run[1..] + tail;
      TakeTillExact(run[1..], tail, stop);
    }
    assert RunLength(run + tail, stop) == |run|;
  }

  /** A header name: one or more bytes, none of them `:` or a space. */
  predicate IsToken(key: Bytes) {
    |key| > 0 && forall i :: 0 <= i < |key| ==> key[i] != COLON && key[i] != SP
  }

  /** A header value: no CR, no LF. */
  predicate IsFieldValue(value: Bytes) {
    forall i :: 0 <= i < |value| ==> value[i] != CR && value[i] != LF
  }

  /** The wire shape of one header line, shared by the writer and the parser. */
  function FieldLine(key: Bytes, value: Bytes): Bytes {
    key + COLON_SP + value + CRLF
  }

  /** Consecutive header lines, in order. */
  function FieldLines(fields: seq<(Bytes, Bytes)>): Bytes {
    if fields == [] then [] else FieldLine(fields[0].0, fields[0].1) + FieldLines(fields[1..])
  }

  lemma {:induction false} FieldLinesSnoc(fields: seq<(Bytes, Bytes)>, key: Bytes, value: Bytes)
    ensures FieldLines(fields + [(key, value)]) == FieldLines(fields) + FieldLine(key, value)
    decreases |fields|
  {
    if fields == [] {
      assert [(key, value)][1..] == [];
    } else {
      assert (fields + [(key, value)])[1..] == fields[1..] + [(key, value)];
      FieldLinesSnoc(fields[1..], key, value);
    }
  }

  lemma {:induction false} FieldLinesAppend(a: seq<(Bytes, Bytes)>, b: seq<(Bytes, Bytes)>)
    ensures FieldLines(a + b) == FieldLines(a) + FieldLines(b)
    decreases |a|
  {
    if a == [] {
      assert a + b == b;
    } else {
      assert (a + b)[1..] == a[1..] + b;
      FieldLinesAppend(a[1..], b);
    }
  }

  predicate WellFormedFields(fields: seq<(Bytes, Bytes)>) {
    forall i :: 0 <= i < |fields| ==> IsToken(fields[i].0) && IsFieldValue(fields[i].1)
  }

  /**
   * `parse_one_line_header`: `is_not(": ")`, `tag(": ")`,
   * `take_till(CR or LF)`, `tag("\r\n")`. On success it gives the key, the
   * value and the untouched remainder.
   */
  function ParseOneLineHeader(input: Bytes): (r: Option<(Bytes, Bytes, Bytes)>)
    ensures r.Some? ==>
      IsToken(r.value.0) && IsFieldValue(r.value.1) && input == FieldLine(r.value.0, r.value.1) + r.value.2
  {
    var (key, afterKey) := TakeTill(input, {COLON, SP});
    if key == [] then None
    else
      match Tag(afterKey, COLON_SP)
      case None => None
      case Some(valueAndRest) =>
        var (value, afterValue) := TakeTill(valueAndRest, {CR, LF});
        match Tag(afterValue, CRLF)
        case None => None
        case Some(rest) =>
          HeaderLineAssembled(input, key, afterKey, valueAndRest, value, afterValue, rest);
          Some((key, value, rest))
  }

  /** The pieces the combinators of `parse_one_line_header` cut fit together as a header line. */
  lemma HeaderLineAssembled(input: Bytes, key: Bytes, afterKey: Bytes, valueAndRest: Bytes,
                            value: Bytes, afterValue: Bytes, rest: Bytes)
    requires input == key + afterKey && key != [] && (forall i :: 0 <= i < |key| ==> key[i] !in {COLON, SP})
    requires afterKey == COLON_SP + valueAndRest
    requires valueAndRest == value + afterValue && (forall i :: 0 <= i < |value| ==> value[i] !in {CR, LF})
    requires afterValue == CRLF + rest
    ensures IsToken(key) && IsFieldValue(value) && input == FieldLine(key, value) + rest
  {
  }

  /** Every well-formed header line is accepted, and split exactly as it was built. */
  lemma ParseOneLineHeaderComplete(key: Bytes, value: Bytes, rest: Bytes)
    requires IsToken(key) && IsFieldValue(value)
    ensures ParseOneLineHeader(FieldLine(key, value) + rest) == Some((key, value, rest))
  {
    var valueAndRest := value + (CRLF + rest);
    assert FieldLine(key, value) + rest == key + (COLON_SP + valueAndRest);
    TakeTillExact(key, COLON_SP + valueAndRest, {COLON, SP});
    TagPrefix(COLON_SP, valueAndRest);
    TakeTillExact(value, CRLF + rest, {CR, LF});
    TagPrefix(CRLF, rest);
  }

  /** Where an accepted line has its first name byte, its `": "` and its CRLF. */
  lemma AcceptedLineMarks(input: Bytes)
    requires ParseOneLineHeader(input).Some?
    ensures var (key, value, _) := ParseOneLineHeader(input).value;
      && |key| + 3 + |value| < |input|
      && input[0] == key[0] && input[0] != COLON && input[0] != SP
      && input[|key|] == COLON && input[|key| + 1] == SP
      && input[|key| + 2 + |value|] == CR && input[|key| + 3 + |value|] == LF
  {
  }

  /**
   * A line with no `": "` anywhere is rejected: the missing colon, the colon
   * with no space after it, a bare CRLF and the empty string.
   */
  lemma NoColonSpaceRejected(input: Bytes)
    requires forall i :: 0 <= i < |input| - 1 ==> !(input[i] == COLON && input[i + 1] == SP)
    ensures ParseOneLineHeader(input) == None
  {
    if ParseOneLineHeader(input).Some? {
      AcceptedLineMarks(input);
    }
  }

  /** A line with no CRLF anywhere is rejected. */
  lemma NoCrlfRejected(input: Bytes)
    requires forall i :: 0 <= i < |input| - 1 ==> !(input[i] == CR && input[i + 1] == LF)
    ensures ParseOneLineHeader(input) == None
  {
    if ParseOneLineHeader(input).Some? {
      AcceptedLineMarks(input);
    }
  }

  /** A line whose name would be empty, starting at the colon or a space, is rejected. */
  lemma EmptyNameRejected(input: Bytes)
    requires |input| > 0 && (input[0] == COLON || input[0] == SP)
    ensures ParseOneLineHeader(input) == None
  {
    if ParseOneLineHeader(input).Some? {
      AcceptedLineMarks(input);
    }
  }

  /**
   * `parse_headers`: header lines one after another until the remainder is
   * exactly `"\r\n"`; any line that fails fails the block.
   */
  function ParseHeaders(input: Bytes): (r: Option<seq<(Bytes, Bytes)>>)
    ensures r.Some? ==> |r.value| > 0 && WellFormedFields(r.value)
    decreases |input|
  {
    match ParseOneLineHeader(input)
    case None => None
    case Some((key, value, rest)) =>
      if rest == CRLF then Some([(key, value)])
      else
        match ParseHeaders(rest)
        case None => None
        case Some(more) =>
          FieldsCons(key, value, more);
          Some([(key, value)] + more)
  }

  /** One step of `parse_headers`: the first line, then either the blank line or the rest of the block. */
  lemma ParseHeadersStep(input: Bytes)
    requires ParseHeaders(input).Some?
    ensures ParseOneLineHeader(input).Some?
    ensures var (key, value, rest) := ParseOneLineHeader(input).value;
      if rest == CRLF then ParseHeaders(input).value == [(key, value)]
      else ParseHeaders(rest).Some? && ParseHeaders(input).value == [(key, value)] + ParseHeaders(rest).value
  {
  }

  /** Prepending a well-formed line keeps a block well formed and prepends its wire form. */
  lemma FieldsCons(key: Bytes, value: Bytes, more: seq<(Bytes, Bytes)>)
    requires IsToken(key) && IsFieldValue(value) && WellFormedFields(more)
    ensures WellFormedFields([(key, value)] + more)
    ensures FieldLines([(key, value)] + more) == FieldLine(key, value) + FieldLines(more)
  {
    var fields := [(key, value)] + more;
    assert fields[1..] == more;
  }

  /** The three facts of soundness about a block `parse_headers` read as `fields`. */
  predicate ReadBack(input: Bytes, fields: seq<(Bytes, Bytes)>) {
    |fields| > 0 && WellFormedFields(fields) && input == FieldLines(fields) + CRLF
  }

  /** A block that is one line and the blank line. */
  lemma ReadBackLast(input: Bytes, key: Bytes, value: Bytes)
    requires IsToken(key) && IsFieldValue(value) && input == FieldLine(key, value) + CRLF
    ensures ReadBack(input, [(key, value)])
  {
    FieldsCons(key, value, []);
    assert [(key, value)] + [] == [(key, value)];
  }

  /** A line in front of a block that reads back reads back too. */
  lemma ReadBackMore(input: Bytes, key: Bytes, value: Bytes, rest: Bytes, more: seq<(Bytes, Bytes)>)
    requires IsToken(key) && IsFieldValue(value) && input == FieldLine(key, value) + rest
    requires ReadBack(rest, more)
    ensures ReadBack(input, [(key, value)] + more)
  {
    FieldsCons(key, value, more);
  }

  /** What `parse_headers` accepts is one or more well-formed lines and a blank line, read in order. */
  lemma {:induction false} ParseHeadersSound(input: Bytes)
    requires ParseHeaders(input).Some?
    ensures ReadBack(input, ParseHeaders(input).value)
    decreases |input|
  {
    ParseHeadersStep(input);
    var line := ParseOneLineHeader(input).value;
    if line.2 == CRLF {
      ReadBackLast(input, line.0, line.1);
    } else {
      ParseHeadersSound(line.2);
      ReadBackMore(input, line.0, line.1, line.2, ParseHeaders(line.2).value);
    }
  }

  /** A well-formed line followed by the blank line is a block of one field. */
  lemma ParseHeadersLast(key: Bytes, value: Bytes)
    requires IsToken(key) && IsFieldValue(value)
    ensures ParseHeaders(FieldLine(key, value) + CRLF) == Some([(key, value)])
  {
    ParseOneLineHeaderComplete(key, value, CRLF);
  }

  /** A well-formed line in front of a block that parses adds its field in front. */
  lemma ParseHeadersMore(key: Bytes, value: Bytes, rest: Bytes, more: seq<(Bytes, Bytes)>)
    requires IsToken(key) && IsFieldValue(value)
    requires rest != CRLF && ParseHeaders(rest) == Some(more)
    ensures ParseHeaders(FieldLine(key, value) + rest) == Some([(key, value)] + more)
  {
    ParseOneLineHeaderComplete(key, value, rest);
  }

  lemma {:induction false} ParseHeadersComplete(fields: seq<(Bytes, Bytes)>)
    requires |fields| > 0 && WellFormedFields(fields)
    ensures ParseHeaders(FieldLines(fields) + CRLF) == Some(fields)
    decreases |fields|
  {
    var key, value := fields[0].0, fields[0].1;
    var tail := fields[1..];
    assert fields == [(key, value)] + tail;
    var rest := FieldLines(tail) + CRLF;
    assert FieldLines(fields) + CRLF == FieldLine(key, value) + rest;
    if tail == [] {
      assert fields == [(key, value)];
      assert FieldLines(fields) + CRLF == FieldLine(key, value) + CRLF;
      ParseHeadersLast(key, value);
    } else {
      assert |FieldLines(tail)| >= |FieldLine(tail[0].0, tail[0].1)| > 0;
      ParseHeadersComplete(tail);
      ParseHeadersMore(key, value, rest, tail);
    }
  }

  /** A block that is only the blank line is an error: a head with no header fails. */
  lemma BlankBlockRejected()
    ensures ParseHeaders(CRLF) == None
  {
    if ParseHeaders(CRLF).Some? {
      ParseHeadersSound(CRLF);
    }
  }

  /**
   * `parse_resp_first_line`: `tag("HTTP/")`, the version up to a space,
   * `tag(" ")`, the status code up to a space or CR, then the reason phrase
   * up to LF, which is dropped. Gives (version, status code, remainder).
   */
  function ParseRespFirstLine(input: Bytes): (r: Option<(Bytes, Bytes, Bytes)>)
    ensures r.Some? ==> StatusLineShape(input, r.value.0, r.value.1, r.value.2)
  {
    match Tag(input, HTTP_SLASH)
    case None => None
    case Some(afterTag) => ParseVersionAndCode(afterTag)
  }

  /** The status line after `"HTTP/"`. */
  function ParseVersionAndCode(afterTag: Bytes): (r: Option<(Bytes, Bytes, Bytes)>)
    ensures r.Some? ==> StatusLineShape(HTTP_SLASH + afterTag, r.value.0, r.value.1, r.value.2)
  {
    var (version, afterVersion) := TakeTill(afterTag, {SP});
    match Tag(afterVersion, [SP])
    case None => None
    case Some(codeAndRest) =>
      var (code, reasonAndRest) := TakeTill(codeAndRest, {SP, CR});
      var (reason, rest) := TakeTill(reasonAndRest, {LF});
      StatusLineAssembled(HTTP_SLASH + afterTag, afterTag, version, afterVersion, codeAndRest, code, reasonAndRest, reason, rest);
      Some((version, code, rest))
  }

  /** The pieces the combinators of `parse_resp_first_line` cut fit together as a status line. */
  lemma StatusLineAssembled(input: Bytes, afterTag: Bytes, version: Bytes, afterVersion: Bytes,
                            codeAndRest: Bytes, code: Bytes, reasonAndRest: Bytes, reason: Bytes, rest: Bytes)
    requires input == HTTP_SLASH + afterTag
    requires afterTag == version + afterVersion && (forall i :: 0 <= i < |version| ==> version[i] !in {SP})
    requires afterVersion == [SP] + codeAndRest
    requires codeAndRest == code + reasonAndRest && (forall i :: 0 <= i < |code| ==> code[i] !in {SP, CR})
    requires reasonAndRest == [] || reasonAndRest[0] in {SP, CR}
    requires reasonAndRest == reason + rest && (forall i :: 0 <= i < |reason| ==> reason[i] !in {LF})
    requires rest == [] || rest[0] in {LF}
    ensures StatusLineParts(input, version, code, reason, rest)
  {
    assert input == HTTP_SLASH + version + [SP] + code + reason + rest;
    if reason == [] {
      assert reasonAndRest == rest;
    } else {
      assert reason[0] == reasonAndRest[0];
    }
  }

  /**
   * `input` is `"HTTP/" version SP code reason rest`: the version has no space,
   * the code no space or CR and runs to a space, a CR or the end, the reason has
   * no LF, and the remainder is empty or starts at the LF.
   */
  ghost predicate StatusLineShape(input: Bytes, version: Bytes, code: Bytes, rest: Bytes) {
    exists reason: Bytes :: StatusLineParts(input, version, code, reason, rest)
  }

  predicate StatusLineParts(input: Bytes, version: Bytes, code: Bytes, reason: Bytes, rest: Bytes) {
    && input == HTTP_SLASH + version + [SP] + code + reason + rest
    && (forall i :: 0 <= i < |version| ==> version[i] != SP)
    && (forall i :: 0 <= i < |code| ==> code[i] != SP && code[i] != CR)
    && (reason == [] ==> rest == [])
    && (reason != [] ==> reason[0] == SP || reason[0] == CR)
    && (forall i :: 0 <= i < |reason| ==> reason[i] != LF)
    && (rest == [] || rest[0] == LF)
  }

  /** Every status line of that shape is accepted with exactly those parts. */
  lemma ParseRespFirstLineComplete(input: Bytes, version: Bytes, code: Bytes, reason: Bytes, rest: Bytes)
    requires StatusLineParts(input, version, code, reason, rest)
    ensures ParseRespFirstLine(input) == Some((version, code, rest))
  {
    var afterTag := version + ([SP] + (code + (reason + rest)));
    assert input == HTTP_SLASH + afterTag;
    TagPrefix(HTTP_SLASH, afterTag);
    ParseVersionAndCodeComplete(version, code, reason, rest);
  }

  lemma ParseVersionAndCodeComplete(version: Bytes, code: Bytes, reason: Bytes, rest: Bytes)
    requires StatusLineParts(HTTP_SLASH + version + [SP] + code + reason + rest, version, code, reason, rest)
    ensures ParseVersionAndCode(version + ([SP] + (code + (reason + rest)))) == Some((version, code, rest))
  {
    var codeAndRest := code + (reason + rest);
    TakeTillExact(version, [SP] + codeAndRest, {SP});
    TagPrefix([SP], codeAndRest);
    TakeTillExact(code, reason + rest, {SP, CR});
    TakeTillExact(reason, rest, {LF});
  }
}
