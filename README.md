# uva::networking HTTP/1.1 core, modelled in Dafny

This project models the HTTP/1.1 text handling of `src/networking.cpp` from
the `uva::networking` library, and proves properties of that model:

- the status-code and content-type tables, and `content_type_from_string`;
- `parse_headers`, over the lines that `std::getline` yields;
- `decode_char_from_web` and `query_to_params`;
- `async_read_body`, which fills a resized body from the stream buffer and one exact read;
- the two framers, `async_read_http_request` and `async_read_http_response`,
  from the point where the header block is in the stream buffer;
- the two writers, `async_write_http_request` and `async_write_http_response`,
  including the order of their writes and callbacks;
- `basic_socket`'s protocol tag and its two stream slots (plain TCP and TLS).

Every loop of the source is a Dafny `method` with a `while` loop, proved
equal to a pure specification function. The properties are lemmas about
those functions:

- the parsers stop, split and trim where the source does;
- a rendered query string parses back to its parameters, first occurrence winning;
- a rendered response head, followed by its body, is read back by the response
  framer into the same status, reason, fields, content type and body;
- a rendered request head, followed by its body, is read back by the request
  framer into the written method, version `HTTP/1.1` and fields. The URL becomes
  the one the message already held with the written path appended, as the
  source's loop appends it. The body is the written one, or the old one when it
  is empty. The params are the written ones, or `json::decode` of the body for a
  JSON `POST`. This holds when the method and target contain no white space,
  the URL has no `?`, query keys hold no `=` or `%` and values no `&` or `%`,
  the host is one clean line, and user headers render as themselves and do not
  name Content-Type, Content-Length or Transfer-Encoding;
- while the tag and the slots agree, `is_open` is defined, truthiness means the
  selected slot holds a stream, and `write` and the intended dispatch of the
  asynchronous operations go to the selected slot.

Bytes are `char`s, as in the source's `std::string`. A failure that the source
throws, and each point of undefined behaviour that the model covers, is an
explicit `Err` outcome. Each undefined one is named as such in `Common.Error`,
or, for the socket's dispatch, is the `NullDeref` or `Thrown` case of
`Socket.Dispatch`.
The dangling write buffers of the two writers are not covered (see
"Left out").

The socket's I/O does not happen in the model:

- resolving, connecting and writing do not happen; each of their results is a
  parameter (an `ErrorCode`);
- what the peer sends is a parameter (`Body.Incoming`);
- the remote endpoint string is a parameter;
- the `Date` string is a parameter;
- `json::decode` is recorded as `JsonOf(body)`, since the JSON codec is not
  part of this model.

Where the code and its documentation disagree, the model follows the code.
For example, a response's `status_msg` keeps the space that follows the
status code, since only a trailing `\r` is removed.

Files:

| file | contents |
|---|---|
| `common.dfy` | `Option`, `Result`, the error outcomes, asio error codes, decimal digits and `std::to_string` |
| `tables.dfy` | status and content-type tables, `content_type_from_string` |
| `headers.dfy` | `std::getline`, value trimming, `parse_headers` |
| `query.dfy` | `decode_char_from_web`, `query_to_params`, the `k=v&...` rendering |
| `body.dfy` | `async_read_body` on an array |
| `framer.dfy` | stream extraction (`>>`), both framers |
| `serializer.dfy` | both writers |
| `roundtrip.dfy` | a written response head read back by the response framer, and a written request by the request framer |
| `socket.dfy` | `basic_socket` as a class |

## Model

| member | source | states |
|---|---|---|
| Common.NatToString | src/networking.cpp:413 | `std::to_string` of a size: a non-empty run of decimal digits without a leading zero |
| Common.DecimalRoundTrip | src/networking.cpp:499 | reading the decimal rendering of `n` back gives `n` |
| Tables.FindByKey | src/networking.cpp:115-121 | `std::map::find`: `None` exactly when no entry has the key, otherwise the value of an entry with that key |
| Tables.FindByValue | src/networking.cpp:149-153 | the table scan: `None` exactly when no entry has the name, otherwise the key of an entry with that name |
| Tables.StatusReason | src/networking.cpp:114-122 | a reason phrase exactly for the nine listed codes; `InvalidStatusCode(code)` for any other code; 404 is "Not Found" |
| Tables.ContentTypeName | src/networking.cpp:124-132 | a name exactly for the four listed types; `InvalidContentTypeCode` for any other value |
| Tables.LookupContentType | src/networking.cpp:149-155 | success exactly for the four table names, and then the type whose name it is; otherwise `InvalidContentType(name)` |
| Tables.MediaTypeText | src/networking.cpp:136-147 | the longest prefix free of `;` and NUL, and it ends at `;`, at NUL or at the end |
| Tables.ContentTypeFromString | src/networking.cpp:134-156 | the copy loop and the table-scan loop yield the lookup of the media-type prefix, and an unlisted name is `InvalidContentType` |
| Tables.PrefixIsMediaType | src/networking.cpp:139-147 | any `;`/NUL-free prefix ending at `;`, NUL or the end is the copied text |
| Tables.KeyValueInverse | src/networking.cpp:149-153 | with distinct names, the reverse scan finds the key a name came from |
| Tables.ContentTypeNamesDistinct | src/networking.cpp:104-110 | the four names are pairwise distinct and contain no `;` and no NUL |
| Tables.ContentTypeRoundTrip | src/networking.cpp:124-156 | `content_type_from_string(content_type_to_string(t)) == t` for every listed `t` |
| Tables.ParametersIgnored | src/networking.cpp:139-147 | text after the first `;` does not change the result |
| Tables.JsonWithCharset | src/networking.cpp:134-156 | "application/json; charset=utf-8" is `application_json` |
| Headers.Getline | src/networking.cpp:197 | the line has no `'\n'`; the text is the line, a `'\n'` and the rest, or the whole text with nothing left; the rest is shorter |
| Headers.GetlineSplits | src/networking.cpp:197 | a `'\n'`-free line followed by `'\n'` is read whole, and the rest is left |
| Headers.GetlineCrlf | src/networking.cpp:197 | on a CRLF line, `getline` keeps the `\r` |
| Headers.TrimStartShape | src/networking.cpp:204-206 | the front trim drops exactly the longest prefix of space, tab, `'` and `"` |
| Headers.TrimEndShape | src/networking.cpp:207-209 | the back trim drops exactly the longest suffix of space, tab, `'`, `"`, `\r` and `\n` |
| Headers.TrimValueShape | src/networking.cpp:204-209 | the trimmed value is the slice between the two trimmed runs, and it neither starts nor ends with a trimmed character |
| Headers.Find | src/networking.cpp:200 | `find(':')`: `None` exactly when there is no `:`; otherwise the index of the first one |
| Headers.Block | src/networking.cpp:197 | the lines read are the prefix before the first line that is exactly `"\r"` |
| Headers.ParseHeaders | src/networking.cpp:192-215 | the parsing loop yields the header map of its lines, and the count of lines it takes from the stream |
| Headers.BlockIs | src/networking.cpp:197 | a prefix free of `"\r"` that ends at `"\r"` or at the end is the block |
| Headers.StopsAtCarriageReturnLine | src/networking.cpp:197 | nothing after a `"\r"` line is parsed |
| Headers.SkippedLine | src/networking.cpp:199-201 | an empty line, or one without `:`, is skipped without ending the block |
| Headers.HeaderNames | src/networking.cpp:200-211 | a name is in the map exactly when it was there before, or some line of the block has a `:` and that name before it |
| Headers.LastFieldWins | src/networking.cpp:211 | a field not followed by a later one of the same name keeps its value |
| Headers.LaterFieldsKeep | src/networking.cpp:211 | a name no line of the block mentions keeps its earlier value |
| Headers.FieldOfLine | src/networking.cpp:200-203 | the name is the untrimmed text before the first `:`, and the value is the trimmed rest |
| Headers.TrimStartDrops | src/networking.cpp:204-206 | a run of front-trimmed characters before a value is removed, and all of it |
| Headers.TrimEndDrops | src/networking.cpp:207-209 | a run of back-trimmed characters after a value is removed, and all of it |
| Headers.TrimExample | src/networking.cpp:200-211 | `X-Test:  "value" \r` gives the field (`X-Test`, `value`) |
| Query.Nibble | src/networking.cpp:530 | the escape's single digit, as a byte |
| Query.HexByte | src/networking.cpp:535 | the escape's two digits, read in base 16 |
| Query.DecodeChar | src/networking.cpp:520-551 | a non-`%` is copied and consumes 1; `%dd` consumes 3; `%d` before a non-digit or the end consumes 2; `%` before a non-digit is `InvalidEscape`; `%` at the end is `DanglingPercent`; a success consumes 1 to 3 |
| Query.ScanUntil | src/networking.cpp:562-580 | each inner loop strictly shortens a non-empty view |
| Query.QueryToParams | src/networking.cpp:553-592 | the nested loops yield the parse of the query, and a decoding error aborts it |
| Query.ScanLiteral | src/networking.cpp:562-580 | text without `%` and without the stop character is copied verbatim, and the stop character is consumed |
| Query.ParamsRound | src/networking.cpp:560-589 | one round of the outer loop inserts one key/value pair |
| Query.ParamsOfQueryString | src/networking.cpp:553-592 | parsing rendered pairs inserts them in order, first occurrence winning, when keys lack `=` and `%` and values lack `&` and `%` |
| Query.QueryRoundTrip | src/networking.cpp:378-386 | the `k=v&...` text the request writer renders parses back to the map its pairs build |
| Query.FirstOccurrenceWins | src/networking.cpp:582 | `std::map::insert`: the first occurrence of a key gives its value |
| Query.KeptByLaterInserts | src/networking.cpp:582 | later inserts never change a key already present |
| Query.EnumerationRebuilds | src/networking.cpp:378-384 | inserting an enumeration of a map's entries rebuilds the map |
| Query.RepeatedKeyFirstWins | src/networking.cpp:582 | `k=v&k=w` gives `{k: v}` |
| Query.RepeatedKeyExample | src/networking.cpp:582 | `a=1&a=2` gives `{a: 1}` |
| Query.AmpersandStaysInKey | src/networking.cpp:562-570 | a key ends only at `=`, so an `&` inside it is kept |
| Query.AmpersandKeyExample | src/networking.cpp:562-570 | `a&b=1` gives `{a&b: 1}` |
| Query.EscapesDecoded | src/networking.cpp:520-551 | in `k=%41%4x`, `%41` is one byte (65) and `%4` a nibble (4) |
| Body.ContentLength | src/networking.cpp:273 | the declared length is the decimal value of a non-empty digit string; anything else is `BadContentLength` |
| Body.Resize | src/networking.cpp:274 | `resize(n)`: length `n`, the old characters first, NUL-padded |
| Body.BodyFraming | src/networking.cpp:232-291 | `Transfer-Encoding` fails before any read. Without `Content-Length` it completes with 0. Otherwise, with `available <= L`: the body has length L and starts with the buffered bytes; if `available == L` no read is issued and the completion reports L; otherwise one read of `L - available` supplies the rest, or as much as arrives, with the stream's error code. `available > L` is `BodyOverrun` |
| Body.ReadBody | src/networking.cpp:232-291 | the resize-and-copy procedure on an array produces the body and completion `BodyFraming` describes |
| Body.ResizeBody | src/networking.cpp:274 | the new array holds `Resize(body, n)` |
| Body.CopyInto | src/networking.cpp:279-285 | only the characters at `at .. at+|src|` change, and they become `src` |
| Body.RenderedLengthFramesBody | src/networking.cpp:268-288 | the rendered `Content-Length: n` with an empty buffer makes one read of `n`, which is the body |
| Body.SplitBodyExample | src/networking.cpp:276-285 | "he" buffered and "llo" read give "hello" |
| Framer.ReadInt | src/networking.cpp:465 | `>> int` succeeds only with a value in the 32-bit range |
| Framer.SkipSpaceShape | src/networking.cpp:300-302 | the sentry skips exactly the leading white space |
| Framer.WordShape | src/networking.cpp:300-302 | `>> string` takes a space-free prefix that ends at white space or at the end |
| Framer.TokenShape | src/networking.cpp:300-302 | an extraction fails exactly on a stream of white space; otherwise the token is non-empty and space-free, and what follows it is empty or starts with white space |
| Framer.DigitRunShape | src/networking.cpp:465 | the digits read are a prefix of digits that ends at a non-digit or at the end |
| Framer.PathOf | src/networking.cpp:309-318 | the path is a `?`-free prefix of the target, and it ends at the first `?` or at the end |
| Framer.PathIsPrefix | src/networking.cpp:309-318 | any `?`-free prefix that ends at `?` or at the end is the path |
| Framer.SplitTarget | src/networking.cpp:304-318 | the copy loop appends the path to the old URL and leaves the query in the view |
| Framer.TargetSplit | src/networking.cpp:309-324 | the target is the path, then `?` and the query when it has a `?`; nothing else is lost |
| Framer.AfterStartLine | src/networking.cpp:335-336 | discarding the rest of the start line never lengthens the stream |
| Framer.RequestCompletion | src/networking.cpp:337-350 | only the headers, the body and the params change; the headers are the parse of the block; the params become `json::decode(body)` exactly for a POST with Content-Type `application/json` |
| Framer.FinishRequest | src/networking.cpp:337-350 | header parsing, the body read on an array and the JSON rule produce `RequestCompletion` |
| Framer.ReadHttpRequest | src/networking.cpp:293-353 | the three extractions, the URL loop, the query parse, the version check and the completion produce `RequestFraming`, whatever the read's error code |
| Framer.ResponseContentType | src/networking.cpp:476 | a missing Content-Type is an error; otherwise it is parsed from its text |
| Framer.StatusMessage | src/networking.cpp:466-470 | exactly one trailing `\r` is removed, when there is one |
| Framer.ResponseCompletion | src/networking.cpp:473-488 | only the headers, the content type, the body and the params change; the content type is the header's; the params are `json::decode(body)` exactly for `application/json`; an unparsable content type is thrown before the body read |
| Framer.ParseStatusLine | src/networking.cpp:463-470 | the status line parses exactly when an int is read and something follows it; the status is the int read |
| Framer.FinishResponse | src/networking.cpp:473-488 | header parsing, the content type, the body read on an array and the JSON rule produce `ResponseCompletion` |
| Framer.ReadHttpResponse | src/networking.cpp:447-491 | the response procedure produces `ResponseFraming` |
| Framer.RequestUrlDropsQuery | src/networking.cpp:309-318 | the stored URL is the old URL followed by a `?`-free path, so it is `?`-free when the old one was |
| Framer.RequestLineFields | src/networking.cpp:300-333 | method and version come from the request line; the version starts with `HTTP/`; a version without it is `UnrecognizedVersion`; a query error is thrown first |
| Framer.RequestParamsSource | src/networking.cpp:320-346 | params are `json::decode(body)` exactly for a JSON POST, otherwise the parsed query, which is empty without one |
| Framer.ResponseStartLineChecked | src/networking.cpp:449-459 | with a read error the completion never fires; a version without `HTTP/` is `InvalidResponse` |
| Framer.ResponseVersion | src/networking.cpp:453-470 | the version loses its 5-character prefix; status and message come from the status line |
| Framer.WordOf | src/networking.cpp:300-302 | a space-free word before white space or the end is read whole |
| Framer.TokenOf | src/networking.cpp:300-302 | a non-empty space-free word at the front is the next token |
| Framer.TokenAfterSpace | src/networking.cpp:453-465 | the same behind one space |
| Framer.DigitRunOf | src/networking.cpp:465 | digits before a non-digit or the end are read whole |
| Framer.RequestLineRoundTrip | src/networking.cpp:300-302 | `verb SP target SP version CRLF rest` yields the three tokens, and discarding the line leaves `rest` |
| Framer.EndOfStartLine | src/networking.cpp:335-336 | discarding the line end `CRLF rest` leaves `rest` |
| Framer.RequestLineOfTokens | src/networking.cpp:300-302 | the request line is the three extractions in turn |
| Framer.StatusLineRoundTrip | src/networking.cpp:465-470 | ` code SP reason CRLF rest` gives the code, the message " reason" and `rest`, for any code in the 32-bit range |
| Framer.StatusLineOf | src/networking.cpp:465-470 | a read int followed by a `getline` gives the status line |
| Framer.ReadCode | src/networking.cpp:465 | a space, then the decimal rendering of a code, is read as that code |
| Serializer.FieldLinesAppend | src/networking.cpp:403-409 | rendering a concatenation of field lists concatenates the renderings |
| Serializer.ParamTextIsQuery | src/networking.cpp:378-386 | the pairs loop appends the query string and one trailing `&`, which `pop_back` removes |
| Serializer.QueryStringSnoc | src/networking.cpp:378-384 | one more pair adds `&k=v` |
| Serializer.BuildTarget | src/networking.cpp:360-387 | the buffer is the method, a space and the request target: a `/` when the URL lacks one, the URL, and `?` and the query exactly when there are params |
| Serializer.AppendQuery | src/networking.cpp:369-387 | the pairs loop and `pop_back` append `?` and the query string |
| Serializer.AppendFields | src/networking.cpp:403-409 | the headers loop appends one `name: value` CRLF line per header, in order |
| Serializer.AppendFixedFields | src/networking.cpp:391-401 | Host, `User-Agent: uva::networking/1.0.0`, `Accept: */*`, Content-Type and `Connection: keep-alive`, in that order |
| Serializer.AppendEnd | src/networking.cpp:411-417 | `Content-Length: N` CRLF CRLF for a non-empty body, a bare CRLF otherwise |
| Serializer.AppendFieldBlock | src/networking.cpp:391-417 | the fixed fields, the user's headers and the length, then the empty line |
| Serializer.BuildRequestHead | src/networking.cpp:355-417 | the appends build the request head, and an unlisted content type throws `InvalidContentTypeCode` before anything is written; the partly built buffer is dropped |
| Serializer.RequestWrites | src/networking.cpp:423-444 | the head is always written first; the body is written exactly after a successful head write with a non-empty body; success exactly when every write issued succeeds; an error reports the failing write's code, or nothing without `on_error` |
| Serializer.WriteHttpRequest | src/networking.cpp:355-445 | the head is built, then the writes and callbacks of `RequestWrites` follow; it fails exactly when the head cannot be built |
| Serializer.ExactlyOneCallback | src/networking.cpp:423-444 | with `on_error` set, exactly one of `on_success` and `on_error` runs |
| Serializer.ResponseHead | src/networking.cpp:495-509 | fails exactly for an unlisted status or content type, with the status checked first |
| Serializer.AppendResponseFields | src/networking.cpp:501-509 | Server, Date, Content-Type and Content-Length, in the format's order |
| Serializer.WriteHttpResponse | src/networking.cpp:493-518 | the head and then the body are written whatever the head write gives, and the completion carries only the body write's code |
| RoundTrip.TrimPadded | src/networking.cpp:204-209 | a clean value behind `": "` and before `\r` is trimmed back to itself |
| RoundTrip.FieldLineCarries | src/networking.cpp:200-209 | a rendered field line, read by `getline`, parses back to the field |
| RoundTrip.FieldBlockReadsBack | src/networking.cpp:192-215 | a rendered field block and its empty line parse to the fields' map, last name winning, and exactly the block's lines are consumed |
| RoundTrip.BlockConsumed | src/networking.cpp:192-215 | after the block, the stream holds exactly what followed it |
| RoundTrip.LengthFramesBody | src/networking.cpp:268-288 | a rendered `Content-Length`, with any prefix of the body buffered and the rest delivered, frames exactly the body without error |
| RoundTrip.ReasonsAreOneLine | src/networking.cpp:91-102 | no reason phrase holds a newline |
| RoundTrip.ListedStatus | src/networking.cpp:91-102 | every listed status fits an `int`, and its reason holds no newline |
| RoundTrip.TypeNameText | src/networking.cpp:104-110 | every content-type name is one clean line without `:` |
| RoundTrip.ListedTypeName | src/networking.cpp:104-110 | the same for the name of each listed type, and only `application_json` is named `application/json` |
| RoundTrip.DecimalIsClean | src/networking.cpp:499 | a rendered length is one clean line |
| RoundTrip.ResponseFieldsRenderable | src/networking.cpp:501-507 | every field of the response format reads back as itself |
| RoundTrip.ServerFieldRenderable | src/networking.cpp:503 | the Server field reads back as itself |
| RoundTrip.ResponseFieldMap | src/networking.cpp:501-507 | the four response fields build the map of Server, Date, Content-Type and Content-Length |
| RoundTrip.ResponseCompletes | src/networking.cpp:473-488 | a parsed content type and a completed body read complete the response |
| RoundTrip.ResponseBlockReadsBack | src/networking.cpp:473-488 | the rendered response fields and a delivered body complete the response with those fields, type and body |
| RoundTrip.HttpOneOne | src/networking.cpp:502 | `HTTP/1.1` is one token with the `HTTP/` prefix and version `1.1` |
| RoundTrip.ResponseFramingOf | src/networking.cpp:449-474 | a valid version and status line hand the rest of the buffer to the completion, with the version, status, message and null params set |
| RoundTrip.ResponseReadsBack | src/networking.cpp:447-518 | a response head written for a status, type, date and body, followed by any prefix of the body with the rest delivered, is framed into version `1.1`, that status, message " reason", the written fields, that type, that body, and params `json::decode(body)` exactly for JSON |
| RoundTrip.FoldFieldsAppend | src/networking.cpp:192-215 | storing two lists of fields in turn builds the map of their concatenation |
| RoundTrip.FoldFieldsSnoc | src/networking.cpp:192-215 | one more field overwrites its name and leaves the rest of the map |
| RoundTrip.FoldFieldsAbsent | src/networking.cpp:192-215 | fields of other names leave a name's presence and value as they were |
| RoundTrip.RequestTargetSplits | src/networking.cpp:304-324 | the target the request writer renders (lines 363-387) splits back into the URL behind its leading `/` and a query that decodes to the written params |
| RoundTrip.FixedFieldsRenderable | src/networking.cpp:391-401 | Host, User-Agent, Accept, Content-Type and Connection read back as themselves |
| RoundTrip.AgentFieldRenderable | src/networking.cpp:394-396 | the User-Agent field reads back as itself |
| RoundTrip.LengthFieldRenderable | src/networking.cpp:411-414 | the length field, when written, reads back as itself |
| RoundTrip.RequestFieldsRenderable | src/networking.cpp:391-414 | every field of a request head reads back as itself, given user headers that do |
| RoundTrip.RequestFieldMap | src/networking.cpp:391-417 | the request fields build a map with the written Content-Type, no Transfer-Encoding, and a Content-Length exactly for a non-empty body |
| RoundTrip.RequestHeaderBlock | src/networking.cpp:335-337 | a rendered request field block parses back to its fields' map and leaves what follows it |
| RoundTrip.RequestBodyFramed | src/networking.cpp:340 | the framing of a written request completes with its body, or keeps the old body when it is empty |
| RoundTrip.RequestCompletes | src/networking.cpp:337-349 | parsed headers and a completed body read complete the request, with the JSON rule for a POST |
| RoundTrip.RequestBlockReadsBack | src/networking.cpp:335-349 | the rendered request fields and a delivered body complete the request with those fields and that body, and JSON params exactly for a JSON POST |
| RoundTrip.RequestLineReadsBack | src/networking.cpp:300-302 | the written request line, read by the three extractions, yields its method, target and `HTTP/1.1` and leaves the field lines |
| RoundTrip.RequestFramingOf | src/networking.cpp:300-337 | a request line with a decodable query and an `HTTP/` version hands the rest of the buffer to the completion, with method, URL, version, params and endpoint set |
| RoundTrip.RequestReadsBack | src/networking.cpp:293-445 | a request head written for a method, URL, params, host, type, user headers and body, followed by any prefix of the body with the rest delivered, is framed into that method, the URL behind its `/`, `HTTP/1.1`, the written fields, the body (the old one if empty) and params that are the decoded body for a JSON POST and the written params otherwise |
| Socket.SchemeProtocol | src/networking.cpp:716 | only the exact scheme `https` selects TLS |
| Socket.SplitHost | src/networking.cpp:706-711 | a host without `:` is used whole with the scheme as port; otherwise host and port are the two sides of a `:`, and the host has no `:` |
| Socket.AsyncSplitHost | src/networking.cpp:743-753 | the same split, then one trailing `/` dropped from the host |
| Socket.SplitAtFirstColon | src/networking.cpp:706-711 | the split is at the first `:`; the port keeps any later ones |
| Socket.TrailingSlashDroppedOnce | src/networking.cpp:751-753 | only one `/` is dropped, and only by `connect_async` |
| Socket.BasicSocket.constructor | src/networking.cpp:594-606 | exactly the slot matching the protocol holds the stream |
| Socket.BasicSocket.Moved | src/networking.cpp:608-612 | the tag and both slots move over; the source's slots are left empty |
| Socket.BasicSocket.Truthy | src/networking.cpp:614-624 | true exactly when the slot the tag selects holds a stream |
| Socket.BasicSocket.IsOpen | src/networking.cpp:648-656 | false when both slots are empty; otherwise the selected stream's state, or `NullStream` when the selected slot is empty |
| Socket.BasicSocket.NeedsHandshake | src/networking.cpp:659-666 | true exactly when the tag is https |
| Socket.BasicSocket.Close | src/networking.cpp:829-841 | a no-op with both slots empty; `NullStream` when the selected slot is empty; otherwise the selected stream is closed and the other slot is unchanged |
| Socket.BasicSocket.Attach | src/networking.cpp:722-736 | the selected slot gets a new stream, open exactly when the connect succeeds, and the other slot is reset |
| Socket.BasicSocket.Connect | src/networking.cpp:704-739 | the resolver is asked for the split host; the tag follows the scheme even on failure; a resolve failure leaves both slots as they were and is returned; otherwise the connect's code is returned and the slots agree with the tag |
| Socket.BasicSocket.ConnectAsync | src/networking.cpp:741-783 | the same with the trailing-`/` rule; the completion runs once, with the resolve's or the connect's code |
| Socket.BasicSocket.AsyncReadUntilDispatch | src/networking.cpp:847-857 | as written: a plaintext socket issues no read; TLS reads from the TLS slot |
| Socket.BasicSocket.AsyncWriteDispatch | src/networking.cpp:871-882 | as written: both branches write to the TLS slot |
| Socket.BasicSocket.WriteDispatch | src/networking.cpp:859-869 | writes go to the selected slot; an empty TLS slot throws, and an empty plain slot is dereferenced |
| Socket.BasicSocket.IntendedDispatch | src/networking.cpp:847-882 | an operation goes to the slot the tag selects, and is a null dereference only when that slot is empty |
| Socket.ConsistentObservers | src/networking.cpp:614-666 | while the slots agree with the tag, `is_open` is defined, truthiness means some slot holds a stream, and writes go where intended |
| Socket.PlainReadNeverIssued | src/networking.cpp:853-854 | a connected plaintext socket never issues its read, although the intended dispatch would |
| Socket.PlainWriteHitsNullSlot | src/networking.cpp:878 | a consistent plaintext socket's asynchronous write dereferences the empty TLS slot |
| Socket.MismatchAfterFailedResolve | src/networking.cpp:716-720 | an http socket whose `https` resolve fails has a tag that selects the empty slot, so `is_open` and `close` dereference it |
| Socket.ConnectThenClose | src/networking.cpp:704-841 | after a TLS connect and `close`, the socket is not open, is still truthy and needs a handshake |

## Findings

| source | as written | input that shows it | evidently intended | confidence | as-written member | corrected member |
|---|---|---|---|---|---|---|
| src/networking.cpp:853-854 | the plaintext call in `async_read_until` has no `case protocol::http:` label, so it is unreachable | any socket with the http tag: no read is issued and the completion never runs | the plaintext reads from `m_socket` | high, not executed | Socket.PlainReadNeverIssued | Socket.BasicSocket.IntendedDispatch |
| src/networking.cpp:878 | the plaintext branch of `async_write` writes to `m_ssl_socket` | a socket connected over http: its TLS slot is empty | the plaintext branch writes to `m_socket` | high, not executed | Socket.PlainWriteHitsNullSlot | Socket.BasicSocket.IntendedDispatch |

`Socket.ConsistentObservers` proves about the corrected dispatch that a
truthy, consistent socket's operations are issued on the slot its tag selects.

## Left out

- `init`, `cleanup` and `asio_thread_loop` (lines 23-89): thread and `io_context` lifetime, certificate loading, and concurrency.
- The time formatting helpers (lines 158-190) call `gmtime` and `strftime`. The `Date` value is a parameter instead.
- asio's resolve, connect, handshake, read, write, `available` and `remote_endpoint`: network I/O. Each result is a parameter. `server_handshake`, `client_handshake`, their asynchronous forms, `available` and `remote_endpoint_string` are not modelled.
- The destructor of `basic_socket` (lines 627-646): object lifetime, not observable state.
- The commented-out chunked-transfer code (lines 217-265), the empty `read_until` stub, and `read_exactly`/`read_byte`: thin I/O wrappers.
- `json::decode` and the `var` type: foreign libraries. Params are `NullParams`, a string map, or `JsonOf(body)`.
- `var::to_i`: not part of this model. `Body.ContentLength` reads a non-empty digit string and treats anything else as an error.
- `nibble_from_hex_string` and `byte_from_hex_string` (binary.hpp) are not part of this model. They are taken to read their digits in base 16; only decimal digits reach them.
- The null value that `headers["Content-Type"]` inserts into the request's header map (line 343): a side effect of `var`. A missing header is simply not JSON.
- `fetch("Content-Type")` on a response without that header: a null `var` converted to a string, which is not a table name. It is modelled as the error `MissingContentType`.
- A request writer's params and headers that are not maps: they are given as the sequences of their entries, in `std::map` order.
- Logging and console output.
- Body.ReadBody: the source resizes the body string in place. The model returns a new array holding the resized content, so aliasing of the old body is not captured.
- Framer.ReadHttpRequest: when a later step throws, the fields already stored into `request` stay stored in the source. The model returns only `Rejected`, without that partial message.
- Framer.ReadHttpResponse: the same holds for responses.
- Socket.BasicSocket.ConnectAsync: the asynchronous callbacks run in the model as one call, in the order the source chains them. Interleaving with other operations is not captured.
- Serializer.WriteHttpRequest: the head is built in a local `std::string` (line 357) and handed to `basic_socket::async_write` as a `std::string_view` (lines 423 and 871). The string is destroyed when the function returns, while the asynchronous write may still be reading it. That dangling buffer is undefined behaviour, and it is not modelled: the head is treated as sent whole.
- Serializer.WriteHttpResponse: the same holds for the local `header` (lines 509 and 513), which is also treated as sent whole.
- Serializer.WriteHttpRequest: an empty `on_success` would throw `std::bad_function_call`. That case is not modelled; a success always notifies.
- Framer.ReadInt: `>> int` over a stream is modelled on the buffered text only. A status line split across reads is not modelled, because the framers run once the whole header block is buffered.
