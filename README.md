# A verified model of the HTTP/1.x request and response core

This project models the message logic of a small Rust HTTP library:

- **Request decoding.** `Request::new` reads a request line, a header block and a body from a connection.
- **Response building.** `Response` is a mutable record with setters. Its `build` serialises the record into the bytes of an HTTP/1.1 response (sections 4 and 5 of RFC 9112).
- **Vocabulary.** The `Methods`, `HttpVersion` and `ContentType` enumerations, their parsing and printing, and the body formatters of `ContentType`.
- **Errors.** The request and response error enumerations and their `Display` text.

## How the model is laid out

- **`requests.dfy`** models the request decoder.
  - The connection is a byte sequence with a cursor.
  - `ReadLine` is `BufRead::read_line`: the bytes up to and including the first LF, then UTF-8 validation.
  - `ReadBody` is `read_exact`.
  - `SplitTarget` is the pure split of the request target into path, query and fragment.
  - The header loop and the body read are the imperative methods `ReadHeaderBlock` and `ReadExactBody`. `New` is `Request::new`.
  - Each method is proved equal to a specification function, and `New` to `Decode`.
  - The getters of `Request` are the fields of the `Request` datatype.
- **`request_properties.dfy`** states what the header fold computes: the `host`, the content length and the header map. It also decodes concrete request shapes end to end.
- **`responses.dfy`** is the `Response` class.
  - It has the constructor, `get_header`, the setters, `push_header` and `push_http_response_first_line`.
  - `Build` is specified by the function `ResponseWire.Wire`.
  - Its loop over the lowercased header map is the method `WriteUserHeaders`. The defaults added after the loop are the method `WriteDefaults`.
- **`response_wire.dfy`** defines the wire format `build` produces, and proves what that format contains:
  - which field lines appear, and how often;
  - the defaults for `connection` and `content-type`;
  - the recomputed `content-length`;
  - the final body.
- **`content_types.dfy`, `http_methods.dfy`, `http_versions.dfy` and `errors.dfy`** hold the vocabulary types and the error types.
- **`text.dfy`, `decimal.dfy`, `utf8.dfy` and `hex.dfy`** model the Rust standard-library and crate functions the core calls:
  - `trim`, `split_whitespace`, `find`, `splitn(2, ": ")`, `to_ascii_lowercase` and `eq_ignore_ascii_case`;
  - `usize::to_string` and `str::parse::<usize>`;
  - UTF-8 encoding and validation;
  - `hex::encode`.
- **`constants.dfy`** holds the `http_constant` strings. `wrappers.dfy` holds `Option` and `Result`, and `bytes.dfy` holds the byte type.

## Where the code departs from RFC 3986 and its own doc comments

- **The request-target split follows the code**, not the split of section 3 of RFC 3986 (src/request/impl.rs:48).
  - The path ends at the first `?` when there is one, and only otherwise at the first `#`. So `/a#b?c` has path `/a#b`.
  - The query keeps the whole remainder after `?` when the first `#` comes before the `?`.
- **`Methods::default()` is `UNKNOWN("")`**, although its doc comment names `GET`. The model follows the code.

## Model

| member | source | states |
|---|---|---|
| Requests.LineEnd | src/request/impl.rs:21-23 | the line read at a cursor ends just past the first LF at or after it, or at the end of input; it is empty only at the end of input |
| Requests.ReadLine | src/request/impl.rs:21-23 | the line is the text whose UTF-8 encoding is exactly the bytes from the cursor up to the line's end, and the returned cursor is that end; reading fails, only with the UTF-8 read error, exactly when those bytes are not UTF-8; an empty line comes only at the end of input |
| Requests.FirstSegment | src/request/impl.rs:41-45 | `split('#').next()` is the whole text or the prefix before the first separator, and contains no separator |
| Requests.SplitTargetPlain | src/request/impl.rs:30-52 | a target without `?` or `#` is all path, with empty query and fragment |
| Requests.SplitTargetFragmentOnly | src/request/impl.rs:30-52 | without `?`, the target is path + `#` + fragment, the path has no `#` and the query is empty |
| Requests.SplitTargetQueryAndFragment | src/request/impl.rs:30-52 | when `?` comes before the first `#`, the target is path + `?` + query + `#` + fragment, and neither the path nor the query holds a `#` |
| Requests.SplitTargetQueryOnly | src/request/impl.rs:36-52 | when there is no `#`, or the first `#` is inside the path, the target is path + `?` + query, with no `?` in the path |
| Requests.SplitTargetHash | src/request/impl.rs:30-35 | the fragment is empty without `#`, and otherwise is everything after the first `#` |
| Requests.HashIsSuffix | src/request/impl.rs:30-35 | the text after the first `#` is a suffix preceded by a `#`, with no `#` before it |
| Requests.HashWithoutQuery | src/request/impl.rs:48-52 | without `?` the path is cut at the first `#` |
| Requests.QueryWithoutLaterHash | src/request/impl.rs:36-40 | when no `#` follows the `?`, the query is the whole remainder and every `#` lies in the path |
| Requests.QueryBeforeHash | src/request/impl.rs:36-47 | when the first `#` follows the first `?`, the query is exactly the text between them |
| Requests.ParseHeaderLine | src/request/impl.rs:65-70 | a header line is `pre` + `": "` + `post` with no `": "` starting inside `pre`, so the split is at the first separator, and the entry is the trimmed `pre` and the trimmed `post`; a line without `": "` gives no entry |
| Requests.HeaderLines | src/request/impl.rs:56-64 | the header block is the trimmed non-empty lines before the first blank line; reading fails only with the UTF-8 read error |
| Requests.HeaderLinesStep | src/request/impl.rs:57-64 | one loop turn: a line that is empty once trimmed ends the block, any other line is the block's first |
| Requests.ConsTrimmedLines | src/request/impl.rs:61-64 | every line of the block is trimmed and non-empty |
| Requests.FoldHeadersSnoc | src/request/impl.rs:65-77 | folding one more line applies its entry on top of the state so far |
| Requests.HeaderBlock | src/request/impl.rs:53-78 | the header block and its folded state end at a cursor within the stream |
| Requests.ReadHeaderBlock | src/request/impl.rs:53-78 | the header loop computes exactly the header block's fold of map, host and content length, and the cursor after it |
| Requests.StoreHeaderLine | src/request/impl.rs:65-77 | one turn of the header loop on a non-empty line changes map, host and content length exactly as that line's entry does |
| Requests.ReadBody | src/request/impl.rs:79-85 | a body of length n is the next n bytes; it fails with the short-read error exactly when n > 0 and fewer bytes remain |
| Requests.ReadExactBody | src/request/impl.rs:79-85 | the body read computes exactly `ReadBody` |
| Requests.ReadBodyAsWritten | src/request/impl.rs:79-85 | the body read as written panics in `resize` exactly when the content length exceeds `isize::MAX`, and is `ReadBody` otherwise |
| Requests.DecodeAfterHeaders | src/request/impl.rs:86-94 | once the request line and header block are read, the request is the first token, the folded host and headers, the split target and the body read |
| Requests.New | src/request/impl.rs:18-95 | `Request::new` computes exactly `Decode` of the stream |
| RequestProperties.FoldEntriesHost | src/request/impl.rs:54-73 | `host` is the value of the last entry naming `Host` in any ASCII case, and empty without one |
| RequestProperties.FoldEntriesContentLength | src/request/impl.rs:55-76 | the content length is the parsed value of the last `Content-Length` entry, 0 when it does not parse and 0 without one |
| RequestProperties.FoldEntriesKeys | src/request/impl.rs:77 | the header map's keys are exactly the keys of the parsed entries |
| RequestProperties.FoldEntriesValues | src/request/impl.rs:77 | each key maps to the value of its last entry, so a later identical key overwrites an earlier one |
| RequestProperties.LineEndAt | src/request/impl.rs:21-23 | a line ends just past its first LF |
| RequestProperties.ReadEncodedLine | src/request/impl.rs:21-23 | reading a UTF-8 encoded line that ends in LF gives back that line and the cursor after it |
| RequestProperties.RequestLineTokens | src/request/impl.rs:24 | `m t v` followed by CRLF splits into exactly the three tokens |
| RequestProperties.DecodeEmptyStream | src/request/impl.rs:21-27 | an empty input reads an empty line and fails with `InvalidHttpRequest("")` |
| RequestProperties.DecodeFirstLine | src/request/impl.rs:21-27 | a failed read of the first line is returned as it is, and a first line of fewer than three tokens, however it ends, is rejected with the raw line |
| RequestProperties.DecodeShortRequestLine | src/request/impl.rs:24-27 | a request line with fewer than three tokens fails with `InvalidHttpRequest` carrying the raw line |
| RequestProperties.BlankLineEndsHeaders | src/request/impl.rs:61-64 | a blank line ends the header block with no headers, empty host and length 0 |
| RequestProperties.DecodeOfEmptyBlock | src/request/impl.rs:79-94 | with an empty header block the request has no headers, empty host and empty body, and nothing more is read |
| RequestProperties.DecodeLineThenBlank | src/request/impl.rs:18-95 | a request line of at least three tokens followed by a blank line decodes to its first token and split target, with no headers and no body |
| RequestProperties.ReadSentLine | src/request/impl.rs:21-23 | a line without LF sent with its LF is read back, LF included, and the cursor moves past its bytes |
| RequestProperties.BlankLineStep | src/request/impl.rs:57-63 | a line that is empty once trimmed ends the header block there, with no lines |
| RequestProperties.SentLineStep | src/request/impl.rs:57-64 | a line that is not empty once trimmed is the block's first line, trimmed, before the block read after it |
| RequestProperties.HeaderLinesOfEncoded | src/request/impl.rs:56-64 | for any header lines sent one per line and then a blank line, the header block is exactly those lines trimmed, and the body starts right after the blank line |
| RequestProperties.BodyAfterFront | src/request/impl.rs:79-85 | when at least `n` bytes follow the header block, the body is exactly the next `n` bytes |
| RequestProperties.DecodeWithHeaders | src/request/impl.rs:18-95 | a request line, any sent header lines, a blank line and then `rest` decode to the first token, the split target, the folded host and headers and the first content-length bytes of `rest`, or fail with the short-read error when `rest` is shorter |
| RequestProperties.TokenLineSplits | src/request/impl.rs:24 | `m t v` with its CR holds no LF and splits, with its LF, into exactly the three tokens |
| RequestProperties.DecodeSentTokens | src/request/impl.rs:18-95 | a request line `m t v` with any sent header lines decodes to method `m` and the split of `t`, with the folded headers and the body bytes, or the short-read error |
| RequestProperties.ParseHeaderLineAfterKey | src/request/impl.rs:65-70 | a key without `:` followed by `": "` and a value splits into the trimmed key and the trimmed value |
| RequestProperties.ContentLengthLine | src/request/impl.rs:65-77 | a sent `Content-Length: n` line, in any ASCII case, stores its value under its key, sets the content length to `n` and leaves the host empty |
| RequestProperties.DecodeWithContentLength | src/request/impl.rs:18-95 | `m t v`, one `Content-Length: n` line and a blank line decode to method `m`, the split of `t`, that one header and the next `n` bytes as the body, or fail with the short-read error when fewer than `n` bytes follow |
| RequestProperties.OversizedContentLength | src/request/impl.rs:75-85 | a `Content-Length` of `usize::MAX` is accepted by the header loop; the read as written panics on it, while `ReadBody` reports the short-read error for any stream that fits in memory |
| RequestProperties.DecodeRequestLineOnly | src/request/impl.rs:18-95 | `m t v` CRLF CRLF decodes to method `m` and the split of target `t`; the version token is required but not kept |
| Responses.Response.constructor | src/response/impl.rs:14-21 | a new response is HTTP/1.1, status 200, empty reason phrase, no headers and an empty body |
| Responses.Response.GetHeader | src/response/impl.rs:32-39 | the value stored under exactly that key, and none when the key is absent |
| Responses.Response.SetHeader | src/response/impl.rs:81-88 | afterwards the key reads back the value, every other key reads back as before, and no other field changes |
| Responses.Response.SetBody | src/response/impl.rs:114-117 | replaces the body and nothing else |
| Responses.Response.SetReasonPhrase | src/response/impl.rs:132-138 | replaces the reason phrase and nothing else |
| Responses.Response.PushHeader | src/response/impl.rs:146-151 | appends exactly one field line, key + `": "` + value + CRLF |
| Responses.Response.PushFirstLine | src/response/impl.rs:158-165 | appends exactly the status line: version, space, decimal status code, space, reason phrase, CRLF |
| Responses.Response.Build | src/response/impl.rs:170-228 | an empty reason phrase is replaced for good by the status code's phrase; the header map is left empty and the body field untouched; the bytes are the wire format of the lowercased headers in the loop's order |
| Responses.Response.DrainLowercased | src/response/impl.rs:179-183 | the header map is emptied into a map keyed by the lowercased names, each entry overwriting an earlier one that lowercases the same |
| Responses.Response.WriteUserHeaders | src/response/impl.rs:184-199 | writes every field of the lowercased map except `content-length` in the loop's order, and records the compression scheme, connection, content type and the event-stream flag |
| Responses.Response.VisitHeader | src/response/impl.rs:186-198 | one loop turn: `content-length` is skipped, any other field is written, and only its own flag changes |
| Responses.Response.WriteDefaults | src/response/impl.rs:200-223 | adds `connection: keep-alive` and the default content type when missing, and a `content-length` of the final body unless the body is an event stream |
| Responses.Response.DefaultContentTypeString | src/response/impl.rs:204-209 | the default content type is `text/html; charset=utf-8` |
| Responses.Response.Compressed | src/response/impl.rs:214-220 | the body is encoded only with a known scheme and is otherwise left as is |
| ResponseWire.CollectKeys | src/response/impl.rs:179-183 | the drained map's keys are exactly the lowercased original keys, and all are lower case |
| ResponseWire.CollectValues | src/response/impl.rs:179-183 | under a lowercased key, the drained map holds the value of the last original key that lowercases to it |
| ResponseWire.UserFieldsCount | src/response/impl.rs:185-198 | each key of the map other than `content-length` is written exactly once by the loop, and `content-length` never |
| ResponseWire.UserFieldsContent | src/response/impl.rs:185-198 | every field the loop writes carries a key of the map with that key's value, and none is `content-length` |
| ResponseWire.FieldsCount | src/response/impl.rs:185-223 | how often a name occurs: its count among the user's fields plus one for each default `build` adds under that name |
| ResponseWire.ConnectionField | src/response/impl.rs:190-202 | among the field lines `build` pushes, exactly one `connection` field: the user's value when set, otherwise `keep-alive` |
| ResponseWire.ContentTypeField | src/response/impl.rs:192-211 | among the field lines `build` pushes, exactly one `content-type` field: the user's value when set, otherwise `text/html; charset=utf-8` |
| ResponseWire.ContentLengthField | src/response/impl.rs:186-187 | among the field lines `build` pushes, no `content-length` for an event stream, otherwise exactly one, and every pushed `content-length` field carries the final body's length, so no pushed field carries a user-set value |
| ResponseWire.UserHeaderOnce | src/response/impl.rs:182-198 | every user header whose lowercased name is not `content-length` is pushed as exactly one field line, lowercased, with the value of the last key of that spelling |
| ResponseWire.FinalBodyCases | src/response/impl.rs:212-220 | the final body is the encoded body only for a known `content-encoding` and a content type that is not an event stream; it is the body as set otherwise |
| ResponseWire.WireLayout | src/response/impl.rs:224-227 | the bytes are the status line, the field lines and CRLF, all UTF-8 encoded, followed by the final body |
| ResponseWire.LinesAppend | src/response/impl.rs:146-151 | writing two runs of field lines one after the other is writing their concatenation |
| ResponseWire.CountZero | src/response/impl.rs:185-223 | a name occurs zero times exactly when no field carries it |
| ContentTypes.FromStr | src/content_type/impl.rs:166-175 | parsing never fails; each of the five known types is chosen exactly when the ASCII-lowercased input is its name, and anything else is `Unknown` |
| ContentTypes.FromStrIgnoresCase | src/content_type/impl.rs:167 | inputs that are equal ignoring ASCII case parse the same |
| ContentTypes.FromStrKnown | src/content_type/impl.rs:168-172 | each known name parses to its own type |
| ContentTypes.Default | src/content_type/impl.rs:178-182 | the default is what the empty string parses to: `Unknown` |
| ContentTypes.GetApplicationJson | src/content_type/impl.rs:16-18 | the JSON text, or `{}` when serialisation fails |
| ContentTypes.GetApplicationXml | src/content_type/impl.rs:32-34 | the XML text, or `<root></root>` when serialisation fails |
| ContentTypes.GetFormUrlEncoded | src/content_type/impl.rs:82-84 | the url-encoded text, or the empty string when serialisation fails |
| ContentTypes.GetBinary | src/content_type/impl.rs:97-99 | the hex text is twice as long as the UTF-8 bytes of the display text, and decodes back to them |
| ContentTypes.GetTextHtml | src/content_type/impl.rs:62-68 | the debug text wrapped in `<table><tr><td>` and `</td></tr></table>`, and recoverable from between them |
| ContentTypes.GetBodyString | src/content_type/impl.rs:114-126 | always a string, per type: JSON, XML or url-encoded text with their fallbacks, display text, the HTML table, or the hex of the display text for `Unknown` |
| ContentTypes.FormatContentTypeWithCharset | src/content_type/impl.rs:133-142 | the content type, `"; "`, `charset=` and the charset, with the sum of their lengths |
| ContentTypes.FormatContentTypeWithCharsetDeclaration | src/content_type/impl.rs:149-160 | the content type, `"; "` and the declaration; with a `charset=` declaration this equals the charset formatter |
| HttpMethods.Default | src/methods/impl.rs:3-8 | the default method is `UNKNOWN` with empty text, not `GET` |
| HttpMethods.FromStr | src/methods/impl.rs:33-46 | parsing never fails, printing the result gives back the input, and only a spelling outside the nine names is `UNKNOWN` |
| HttpMethods.FromStrToStringNamed | src/methods/impl.rs:12-46 | each of the nine named methods parses back from its printed name |
| HttpMethods.FromStrToStringUnknown | src/methods/impl.rs:12-46 | `UNKNOWN(t)` parses back from its text exactly when `t` is not one of the nine names |
| HttpMethods.ExactlyOnePredicate | src/methods/impl.rs:62-136 | exactly one `is_*` predicate holds of any method |
| HttpVersions.Default | src/http_version/impl.rs:3-8 | the default version is `Unknown` with empty text |
| HttpVersions.FromStr | src/http_version/impl.rs:29-38 | parsing never fails, printing the result gives back the input, and only a spelling outside the five names is `Unknown` |
| HttpVersions.FromStrToStringNamed | src/http_version/impl.rs:12-38 | each of the five named versions parses back from its printed name |
| HttpVersions.FromStrToStringUnknown | src/http_version/impl.rs:12-38 | `Unknown(t)` parses back from its text exactly when `t` is not one of the five names |
| HttpVersions.ExactlyOnePredicate | src/http_version/impl.rs:43-76 | exactly one `is_*` predicate holds of any version |
| RequestErrors.ToString | src/request/error.rs:15-23 | a read error displays as exactly `Http read error: ` followed by its detail, an invalid request as exactly `Invalid http request: ` followed by its detail, and `Unknown` as `Unknown` |
| RequestErrors.ToStringInjective | src/request/error.rs:17-21 | distinct errors never display the same text |
| ResponseErrors.ToString | src/response/error.rs:14-20 | a response error displays as exactly `Response Error: ` followed by its detail, and `Unknown` as `Unknown` |
| ResponseErrors.ToStringInjective | src/response/error.rs:16-19 | distinct errors never display the same text, so no `ResponseError` displays as `Unknown` |
| Text.LeadingWhitespace | src/request/impl.rs:61 | the characters before the count are all whitespace and the next one is not |
| Text.Trim | src/request/impl.rs:61 | `trim` is the slice of the input that starts after its leading whitespace and is followed only by whitespace; it neither starts nor ends with whitespace, and it is empty only when the input is all whitespace |
| Text.TrimTrailingWhitespace | src/request/impl.rs:61 | trimming a line with no whitespace at its ends followed by whitespace, such as CR LF, gives back the line |
| Text.TrimIdempotent | src/request/impl.rs:61-70 | trimming an already trimmed key or value changes nothing |
| Text.SplitWhitespace | src/request/impl.rs:24 | `split_whitespace` yields only non-empty runs without whitespace |
| Text.SplitOnce | src/request/impl.rs:65 | `splitn(2, ": ")` splits at the first occurrence of the separator and rejoins to the input |
| Text.IndexOf | src/request/impl.rs:30-31 | `find` of a character gives its first index, or none when it does not occur |
| Text.EqIgnoreAsciiCaseIsLowerEq | src/request/impl.rs:71-74 | `eq_ignore_ascii_case` holds exactly when the ASCII-lowercased strings are equal |
| Decimal.ParseNatToString | src/request/impl.rs:75 | parsing the decimal text of any `usize` gives the number back |
| Decimal.NatToStringInjective | src/response/impl.rs:221 | different lengths print as different decimal texts |
| Utf8.DecodeEncode | src/request/impl.rs:21-23 | UTF-8 validation accepts the encoding of any string and gives that string back |
| Utf8.Decode | src/request/impl.rs:21-23 | validation accepts bytes only when they are the encoding of the returned string |
| Utf8.EncodeConcat | src/response/impl.rs:225-226 | the bytes of a concatenation are the concatenated bytes |
| Hex.DecodeEncode | src/content_type/impl.rs:97-99 | the hex text of any bytes decodes back to them |

## Left out

- OS-level read errors on the connection are not modelled. The only read failures are invalid UTF-8 in a line and a short body read. They carry the messages of the Rust standard library: "stream did not contain valid UTF-8" and "failed to fill whole buffer".
- Keys and values are written to the wire verbatim, as `push_header` does: neither checks for CR or LF. The field-line lemmas (`ConnectionField`, `ContentTypeField`, `ContentLengthField`, `UserHeaderOnce`) count the field lines `build` pushes, not the lines a reader of the bytes would see. A value holding CR LF, such as `1\r\ncontent-length: 5`, adds lines of its own, and the model does not exclude them.
- `key.to_lowercase()` in `build` is full Unicode lowercasing. The model lowercases ASCII only.
- `HttpStatus::phrase`, the parsing of a `Compress` scheme and `Compress::encode` are parameters of `Build`, because their code is not part of this model.
- The serialisers (JSON, XML, url-encoded) and the `Display` and `Debug` text of the formatted value are parameters of the `ContentTypes` formatters, for the same reason.
- `Response::get_body_string` (lossy UTF-8 decoding), `Response::get_body_json` and `Response::get_string` are not modelled. They depend on replacement-character decoding, a JSON parser and the `Debug` text of a hash map, none of which is part of this model.
- The lock wrappers in src/arc_mutex/func.rs and src/rc_rwlock/func.rs are not modelled; they only serve shared concurrency.
- The iteration order of a Rust `HashMap` is not modelled. `Build` returns the drain order and the loop order as ghost enumerations, and every property of the wire format holds for any order.
- The `usize` content length assumes a 64-bit target. A value above 2^64 - 1 does not parse and so counts as 0.
- The string constants of the `http_constant` crate are given their conventional spellings, and the proofs see those values. The facts they lean on are that header names and media types are lower case, that the names within each group are pairwise distinct, and that the separators hold no line feed. The crate's `COLON_SPACE_SYMBOL`, which the request parser splits on, has the same value as `COLON_SPACE` and is modelled by it.
- The getters of `Request` are not separate members; they are the fields of the `Request` datatype.
- The loops of `Request::new` and `build` are separate methods: `ReadHeaderBlock` (whose turn on a header line is `StoreHeaderLine`), `DrainLowercased` and `WriteUserHeaders`. The resize-and-read step of `Request::new` is the method `ReadExactBody`. Each is proved equal to its specification.
- ReadBody: a `Content-Length` above `isize::MAX` makes `body.resize` panic with a capacity overflow, and a large one below it can abort on allocation. `ReadBody` does not model either; it reports the short-read error instead, and the panic is kept in `ReadBodyAsWritten` (see Findings).

## Findings

| source | as written | input that shows it | evidently intended | confidence | as-written member | corrected member |
|---|---|---|---|---|---|---|
| src/request/impl.rs:75-81 | the content length is any `usize` that parses, and `body.resize(content_length, 0)` runs before any byte is read | a header `Content-Length: 18446744073709551615`: `resize` panics with a capacity overflow, so one request header crashes the handling thread (RequestProperties.OversizedContentLength) | a content length that cannot be allocated is rejected as an error, like a body that ends early | not executed | Requests.ReadBodyAsWritten | Requests.ReadBody |
