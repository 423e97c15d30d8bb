# zjhttpc request/response engine in Dafny

This project models the HTTP/1.1 client engine of zjhttpc, a small Rust HTTP
client, and proves properties of that model. It covers the following parts:

- the request record and its setters (`src/requestx.rs`);
- the serialisation of the request head, with the optional
  `Expect: 100-continue` handshake;
- the copy loop that sends a request body;
- the delimiter reader that reads the response head off the socket;
- the combinator parsers for the status line and the header fields;
- the `Response` record, its construction, and `body_string`;
- the two connection pools, one for TCP and one for TLS, that streams are
  released to and popped from;
- the scheme dispatch that picks or opens a connection.

Files, one Dafny module each:

| file | module | what it holds |
|---|---|---|
| `base.dfy` | `Base` | bytes, `Option`/`Result`, ASCII helpers, `to_string` and `parse` for unsigned integers |
| `utf8.dfy` | `Utf8` | UTF-8 validity, as `std::str::from_utf8` checks it |
| `base64.dfy` | `Base64` | the standard Base64 alphabet with padding, encoder and decoder |
| `stream.dfy` | `Streams` | the boxed duplex stream: the peer's bytes as segments, and the bytes written |
| `misc.dfy` | `Misc` | `HttpVersion`, `Body`, URL and socket address, error variants |
| `requestx.dfy` | `Requestx` | class `Request` and its setters |
| `headparse.dfy` | `HeadParse` | `parse_one_line_header`, `parse_headers`, `parse_resp_first_line` |
| `reader.dfy` | `Reader` | `read_until` |
| `requestwriter.dfy` | `RequestWriter` | `send_header`, `send_body` |
| `pool.dfy` | `Pool` | the TCP and TLS pools |
| `acquire.dfy` | `Acquire` | `resolve_1st_ip`, the closed-stream probe, `pick_or_connect_stream` |
| `responses.dfy` | `Responses` | class `Response`, `new_from_parse_result`, `content_length`, `body_string`, `is_success`, `return_stream_to_pool` |
| `exchange.dfy` | `Exchange` | `read_headers_to_resp` |

Modelling choices:

- **Bytes.** Rust strings are modelled as their UTF-8 bytes (`seq<byte>`).
  Every delimiter the parsers look for is ASCII, so parsing the bytes is the
  same as parsing the `&str`.
- **Streams.** A stream holds the bytes its peer has sent and nobody has
  read, as the segments in which they arrive. One `read` returns at most the
  rest of the current segment, so any pattern of short reads a socket can
  produce is some segmentation. An empty read means end of stream.
- **Pools.** The `DashMap` globals become the two map fields of a `Pools`
  object, passed to the methods that use them.
- **`HashMap` iteration order.** The order in which `send_header` visits the
  header map is left open: its contract holds for an order that lists each
  key once.
- **Probe results and I/O outcomes.** The outcome of the one-byte `peek`, of
  building the TLS configuration, and of connecting are parameters.
- **`status_code()`** is the `statusCode` field of `Response`.
- **`Drop`** for `Response` is `Responses.ReturnStreamToPool`.

Behaviours of the code that the model keeps as written:

- A pool bucket can reach 31 streams, because a push happens while the
  length is at most 30.
- The body copy loop stops only when the running count equals the declared
  length exactly. With a declared length of 0, or once the count has
  overshot, it copies until end of stream.
- `put_expect_continue` ignores its argument.
- A response whose `content-length` is 0 is marked read when it is built.
  `body_string` on it therefore fails with "has been read", by the
  contracts of `Responses.NewFromParseResult` and `Responses.Response.BodyString`
  together.
- For `https`, the TLS pool is popped before the TLS configuration and the
  host are checked.
- For `http`, a failed connect is an `unwrap` on an error (`Panic`).
- Header names are lower-cased in `read_headers_to_resp`, before they are
  grouped.

Where the system's documented behaviour differs from its code, the model
follows the code:

- `resolve_1st_ip` takes the last resolved address (`pop`), not the first.
- `body_string` with a declared length of 0 returns the empty string without
  marking the body read.

## Model

| member | source | states |
|---|---|---|
| Requestx.Request.constructor | src/requestx.rs:27-41 | a new request is a `GET` with no headers, no basic auth, no expect-continue, length 0, no body, no timeout, and content type `application/octet-stream` |
| Requestx.Request.Method | src/requestx.rs:43-46 | sets the method and only the method |
| Requestx.Request.SetHeader | src/requestx.rs:54-59 | the key then has exactly the one given value; earlier values are discarded and every other key is unchanged |
| Requestx.Request.SetHeaders | src/requestx.rs:61-64 | each key of the argument takes the argument's whole value list; keys not in it keep theirs |
| Requestx.Request.PutExpectContinue | src/requestx.rs:74-77 | the flag is true afterwards whatever the argument |
| Requestx.Request.SetContentType | src/requestx.rs:79-82 | sets the content type only |
| Requestx.Request.SetContentLength | src/requestx.rs:84-87 | sets the declared length only |
| Requestx.Request.SetBasicAuth | src/requestx.rs:89-97 | stores the user name and password pair, nothing else |
| Requestx.Request.SetBodyString | src/requestx.rs:99-104 | the body is the string and the declared length is its byte length |
| Requestx.Request.SetBodyStream | src/requestx.rs:106-113 | the body is the stream and the declared length is the given one, unchecked |
| Requestx.Request.SetHeaderTimeout | src/requestx.rs:144-147 | sets the header timeout only |
| HeadParse.Tag | src/client.rs:389 | `tag` succeeds exactly when the input starts with the literal, and returns the rest after it |
| HeadParse.TakeTill | src/client.rs:389 | `take_till` splits the input into the longest run with no stop byte and the rest, which is empty or starts with a stop byte |
| HeadParse.ParseOneLineHeader | src/client.rs:388-390 | whatever is accepted is a non-empty name with no colon or space, then `": "`, then a value with no CR or LF, then CRLF, then the returned remainder |
| HeadParse.ParseOneLineHeaderComplete | src/client.rs:388-390 | every line of that shape is accepted, with exactly its name, value and remainder (the unit tests at src/client.rs:476-565) |
| HeadParse.NoColonSpaceRejected | src/client.rs:518-523 | a line with no `": "` anywhere fails: the colon without a space, the missing colon (567-572), a bare CRLF (581-586) and the empty string (588-593) |
| HeadParse.NoCrlfRejected | src/client.rs:574-579 | a line with no CRLF anywhere fails |
| HeadParse.EmptyNameRejected | src/client.rs:388-390 | a line that starts at the colon or a space has an empty name and fails (`is_not` needs one byte) |
| HeadParse.ParseHeaders | src/client.rs:366-386 | a block that is accepted yields at least one pair, and every pair has a token name and a value with no CR or LF |
| HeadParse.ParseHeadersSound | src/client.rs:366-386 | an accepted block is the field lines of the returned pairs, in order, followed by exactly one CRLF, and every pair is well formed |
| HeadParse.ParseHeadersComplete | src/client.rs:366-386 | any non-empty list of well-formed fields, written as lines and ended with CRLF, is parsed back to exactly that list |
| HeadParse.BlankBlockRejected | src/client.rs:366-386 | a block that is only CRLF fails, so success never yields zero pairs |
| HeadParse.ParseRespFirstLine | src/client.rs:392-401 | an accepted status line is `HTTP/`, a version with no space, one space, a code with no space or CR, a reason with no LF, then the remainder from the LF |
| HeadParse.ParseRespFirstLineComplete | src/client.rs:392-401 | every status line of that shape is accepted, with exactly that version, code and remainder |
| Reader.UntilLength | src/client.rs:404-424 | with an empty delimiter nothing is taken; otherwise the shortest prefix that ends with the delimiter is taken, or all of the input |
| Reader.UntilLengthUnique | src/client.rs:404-424 | those properties determine the length uniquely |
| Reader.ReadUntil | src/client.rs:404-424 | the result is exactly the bytes taken off the stream, and they are the prefix `UntilLength` gives |
| Reader.StopsAtFirstDelimiter | src/client.rs:413-422 | where the delimiter first completes at the end of `head`, the reader returns `head` and leaves the rest on the stream |
| Base.Decimal | src/client.rs:249-254 | `to_string` of an unsigned integer is a non-empty digit string with no leading zero |
| Base.DecimalRoundTrip | src/response.rs:142-147 | `parse` reads the numeral of `n` back as `n` when `n` fits the type |
| Base.ParseUnsigned | src/response.rs:42-44 | `parse` for an unsigned type accepts only values that fit the type, written as digits after an optional `+`; the empty string and a lone `+` fail (also `parse::<u64>` at src/response.rs:146) |
| Base.AsciiLower | src/client.rs:353 | `to_ascii_lowercase` gives a string that matches its input ignoring ASCII case and holds no upper-case letter |
| Base.LowerUnique | src/client.rs:353 | that string is the only one with both properties |
| Base64.DecodeEncode | src/client.rs:255-259 | decoding the Base64 of `user:password` gives it back |
| Base64.Encode | src/client.rs:256 | the standard padded encoding is four symbols per started group of three bytes; `DecodeEncode` is its inverse |
| Base64.EncodeAlphabet | src/client.rs:255-259 | the encoding uses only alphabet symbols and `=` |
| RequestWriter.ContinueCheck | src/client.rs:272-286 | the reply is accepted exactly when it is `HTTP/1.1 100 Continue` and a blank line; an empty read is "closed", any other reply is "not UTF-8" or "not 100 continue" |
| RequestWriter.SendHeader | src/client.rs:223-288 | panics exactly when some header has no value; otherwise writes the head for some order of the keys, and with expect-continue reads one reply of at most 1024 bytes and returns the check of it |
| RequestWriter.WriteHead | src/client.rs:227-270 | writes the request line, one line per header key with its first value, the trailer fields and the blank line |
| RequestWriter.WriteRequestLine | src/client.rs:227-237 | writes method, space, path, `?` and query when present, space, `HTTP/1.1` and CRLF |
| RequestWriter.WriteHeaderFields | src/client.rs:239-248 | visits each key once, writes its first value, and reports a key with no value |
| RequestWriter.WriteTrailer | src/client.rs:249-270 | writes `Content-Length`, `Authorization: Basic` when credentials are set, `Expect: 100-continue` when asked, `Connection: keep-alive`, then the blank line |
| RequestWriter.CredentialsDecode | src/client.rs:255-259 | the `Authorization` value is `Basic `, then an encoding that decodes to `user:password` |
| RequestWriter.CredentialsAreFieldValue | src/client.rs:255-259 | the credentials contain no CR or LF |
| RequestWriter.TrailerWellFormed | src/client.rs:249-270 | the fixed fields are well-formed header fields |
| RequestWriter.HeadFieldsReadBack | src/client.rs:239-270 | when header names are tokens and first values are field values, the header parser reads back exactly the fields that were written |
| RequestWriter.CopyPlan | src/client.rs:297-311 | the copy loop forwards a prefix of the body and leaves the rest; it leaves bytes unread only when the running count hit the declared length exactly |
| RequestWriter.SendBody | src/client.rs:290-321 | no body writes nothing; a string body is written whole regardless of length; a streamed body is copied as `CopyPlan` says; form and slice bodies panic |
| RequestWriter.CopyStream | src/client.rs:296-312 | the loop writes exactly the bytes `CopyPlan` forwards and leaves the source at its remainder |
| RequestWriter.CopyPastLength | src/client.rs:306-311 | once the count is at or past the length, or the length is 0, the whole rest of the stream is copied |
| RequestWriter.CopyShortBody | src/client.rs:300-306 | a body shorter than the declared length is copied whole |
| Pool.Released | src/client.rs:426-464 | a release creates a one-stream bucket, pushes while the bucket holds at most 30, and otherwise drops the stream; other buckets are unchanged |
| Pool.Popped | src/client.rs:92 | a pop yields the top of a non-empty bucket and removes it; otherwise nothing changes |
| Pool.ReleaseToFullBucket | src/client.rs:437-445 | a bucket of 30 grows to 31, and one of 31 refuses |
| Pool.ReleaseAllFills | src/client.rs:437-445 | releasing a sequence keeps exactly the first streams that fit, in order |
| Pool.ReleaseAllFresh | src/client.rs:445-448 | from no bucket, a sequence of releases keeps its first 31 streams |
| Pool.PopAfterRelease | src/client.rs:92 | last in, first out: popping right after a push yields that stream and restores the bucket |
| Pool.Pools.Release | src/client.rs:434-462 | updates the TLS or the TCP map as `Released` says and leaves the other map alone |
| Pool.Pools.Pop | src/client.rs:92 | updates the TLS or the TCP map as `Popped` says and leaves the other map alone |
| Acquire.ResolveFirstIp | src/client.rs:172-179 | an empty answer is an error; otherwise the last address |
| Acquire.IsStreamClosed | src/client.rs:146-169 | a probed stream is closed exactly when the peek did not time out and did not see a byte: 0 bytes or an error mean closed, bytes or a timeout mean open |
| Acquire.PeekDecision | src/client.rs:146-169 | a stream that answers the peek at once is closed exactly when its peer has nothing more to send |
| Acquire.PickOrConnect | src/client.rs:85-134 | only `http` and `https` are served; the pooled stream on top is reused unless the probe says closed; otherwise a new connection, with the `https` checks in the source's order; building the TLS configuration ends in a panic only when the system's certificates cannot be loaded with no trust store (`expect`, src/client.rs:184), and in an error when a file cannot be opened or a certificate is rejected (src/client.rs:198-200, 213-214) |
| Responses.GroupCollects | src/response.rs:45-53 | a key is in the grouped map exactly when some pair has it, and its list is every value for it in input order |
| Responses.GroupCount | src/response.rs:45-53 | the grouped map holds as many values as there were pairs |
| Responses.GroupPairs | src/response.rs:45-53 | the grouping loop builds `Group` of the pairs |
| Responses.DistinctKeys | src/response.rs:45-53 | the distinct keys of the pairs, each once |
| Responses.ContentLengthOf | src/response.rs:142-147 | the declared length, when present and parsable, fits a `u64` |
| Responses.ContentLengthFromHead | src/response.rs:142-147 | a head whose first `content-length` is the numeral of `n` reports `n` |
| Responses.ContentLengthAbsent | src/response.rs:142-147 | a head with no `content-length` reports none |
| Responses.Response.IsSuccess | src/response.rs:72-74 | success means a three-digit status whose numeral starts with `2`, and every such status is a success |
| Responses.NewFromParseResult | src/response.rs:29-67 | version `1.1` or `1.0`, else an error; the code must parse as a `u16`, else an error; pairs are grouped; the body counts as read exactly when the length is 0 |
| Responses.Response.constructor | src/response.rs:54-62 | the record as first built: body not read, stream held |
| Responses.Response.BodyString | src/response.rs:84-120 | a read body or an unknown length is refused and nothing changes; length 0 gives the empty string; otherwise exactly the first min(length, available) bytes are read, and the body is marked read even when they are not UTF-8 |
| Responses.ReadBounded | src/response.rs:99-110 | the loop takes exactly the first min(length, available) bytes |
| Responses.ReturnStreamToPool | src/client.rs:426-464 | an unread body keeps its stream out of the pools; otherwise the stream is taken and released to the TLS or TCP pool under the response's address |
| Exchange.ReadHeadersToResp | src/client.rs:323-364 | reads the status line up to CRLF and, if it parses, the header block up to the blank line; each failing stage is its own error; a parsed head gives a response exactly when the version is `1.1` or `1.0` and the status fits a `u16`, else the version or the status error; the response is fresh, with the version, the status, the lower-cased headers grouped, the stream, the scheme flag, the address, and the body marked read exactly when the length is 0 |
| Exchange.ParseHeadAccepts | src/client.rs:339-357 | a well-formed status line and header block are accepted with exactly their version, code and fields |
| Exchange.LowerKeys | src/client.rs:351-354 | each name becomes a string with no upper-case letter that matches it ignoring case; values and order are kept |
| Exchange.ParseHead | src/client.rs:337-354 | a head is accepted exactly when the status line and the block are UTF-8 and parse; the tokens then come from a status line of the accepted shape, and the pairs are the lower-cased fields the block is written as |
| Exchange.ContentLengthAnyCase | src/client.rs:351-354 | whatever the ASCII case of the first `Content-Length` name the server sends, the response reports the length it carries |
| Exchange.ContentLengthAbsentAnyCase | src/client.rs:351-354 | with no `Content-Length` name in any case, the response reports none |
| Streams.ReadTakesPrefix | src/client.rs:300-305 | a read takes a prefix of the unread bytes, at most the buffer size, and is empty only at end of stream |
| Streams.Stream.Read | src/client.rs:301-305 | a read into a buffer of `max` bytes takes a prefix of the unread bytes, at most `max` long, and is empty exactly when `max` is 0 or nothing is left unread |
| Streams.Stream.WriteAll | src/client.rs:307 | `write_all` appends every byte, in order |

## Left out

- Sockets, connect, the TLS handshake, `peek` and the timeouts are I/O. Their outcomes are parameters of `Acquire.PickOrConnect` or stream contents.
- `create_tls_config` is out of scope: it loads certificates from the system and the file system. Its success is a parameter.
- DNS resolution through `socket_addrs` is out of scope. Only the selection from its answer is modelled.
- The concurrent `DashMap`/`LazyLock` globals are modelled as one single-threaded `Pools` object. Interleavings between tasks are not modelled.
- `tracing` calls are left out: they are logging side effects only.
- `set_body_file` is left out: it opens a file and reads its metadata.
- `src/lib.rs` is not part of this model: it is a stub client with no logic.
- The `unimplemented!()` members are left out: `add_header`, `header_one`, `header_all`, `body_slice`, `body_json`, `body_form` and `body_multipart_form`.
- I/O errors from `read`, `write_all` and `flush` are not modelled: every read and write succeeds, and an empty read is end of stream.
- URL parsing in `Request::new` is not modelled: the constructor takes a parsed URL.
- The optional header timeout of `read_headers_to_resp` is not modelled: the status line is always read in full.
- `ZJHttpClient::send`, `send_header_only` and `send_body_only`, which chain the modelled steps, are not modelled as members of their own.
- `is_stream_closed` can fail to downcast and then reports "closed". With the two-variant stream kind that branch cannot happen, so it is not modelled.
- Acquire.PickOrConnect: does not model which streams the probe finds closed; the probe outcome is an input, linked to stream contents by `Acquire.PeekDecision`. How `create_tls_config` ends (built, failed, panicked) is an input too; the model fixes what each ending becomes, and that only the system-certificate load can panic.
- RequestWriter.SendHeader: states the head for some order of the header keys, not for the order a `HashMap` would actually use.
- Requestx.Request.SetContentLength: the `u64` parameter is a natural bounded by `2^64 - 1`; `as usize` in `send_body` is taken as lossless.
