# Parallel: a verified model of the racing proxy's core

Parallel is a local proxy that accepts SOCKS5 and HTTP/1.x clients on one
port and races every outgoing connection (or, for HTTP, every request)
across several upstream SOCKS5 proxies, using whichever answers first.
This project models in Dafny the sequential core of that proxy and proves
what it promises:

- the SOCKS5 codec of RFC 1928, both sides: the server's method
  negotiation, CONNECT request parsing with its byte-exact raw request, and
  reply encoding; the client's greeting, CONNECT encoding, and reply check
  with the bind-address bytes it discards (`socks5_protocol.dfy`,
  `socks5_server.dfy`, `socks5_client.dfy`);
- the HTTP/1.x framer: request and status lines, the header multimap, the
  body framing decision (chunked before Content-Length before none), chunked
  decoding, the keep-alive decision, and the 16-byte method sniffer
  (`stream.dfy`, `http_types.dfy`, `http_parser.dfy`, `http_chunked.dfy`,
  `http_framing.dfy`, `http_detector.dfy`);
- the two racers' consumer loops as folds over results in arrival order:
  the SOCKS5 connection racer (`racer.dfy`) and the HTTP request racer,
  with its drain, error responses and read-race-write loop per client
  connection (`http_racer.dfy`, `http_error_response.dfy`);
- configuration validation (`config.dfy`).

Network reads are a finite input sequence: all the peer sends before it
closes. Writes are an output sequence. The HTTP reader is a class with a
position and a tee buffer. Each reading method is proved equal to a pure
function of the stream and its start position, and the properties are
proved about those functions. HTTP text is a Dafny `string` holding one
char per byte. The SOCKS5 layer uses a `byte` newtype.

Calls into the Go library that the model cannot see are parameters:

- `net.IP.String` is `ipText`;
- `net.ParseIP` is `parseIP`;
- `net.SplitHostPort` is a `Splitter`;
- the upstream results of each HTTP exchange are `arrivalsFor`;
- whether writing a response back fails is `writeFails`;
- the error a SOCKS5 write returns, if any, is `writeErr`.

`To4`, `To16`, `JoinHostPort`, `strconv` and the `strings` helpers the
code relies on are modelled concretely.

The HTTP racer takes each upstream as a name and an address
(`config.UpstreamConfig`). That type is not part of this model, and
`src/config/config.go` itself keeps upstreams as plain address strings.
The model follows each file as written: `HttpRacer.Upstream` has a name
and an address, and `Config.ListenerConfig` has address strings.

## Model

| member | source | states |
|---|---|---|
| Common.BytesToString | src/socks5/server.go:101 | `string(b)` keeps the length and every byte's code |
| Common.StringToBytes | src/socks5/client.go:89 | `[]byte(s)` keeps the length and every char's code |
| Common.StringBytesRoundTrip | src/socks5/client.go:89 | converting bytes to a string and back gives the same bytes |
| Common.ReadFullError | src/socks5/server.go:13-15 | `io.ReadFull` reports EOF exactly when nothing was read, otherwise unexpected EOF |
| Common.BigEndian16 | src/socks5/client.go:95-97 | the two bytes are the high and low halves of the port |
| Common.Uint16Of | src/socks5/server.go:112 | reading two bytes big-endian inverts `BigEndian16` |
| Common.NatToDecimal | src/socks5/protocol.go:48 | `strconv.Itoa` gives a non-empty run of digits with no leading zero |
| Common.ParseInt | src/http/parser.go:162 | `strconv.ParseInt(s, base, 64)` succeeds only on a non-empty string and only with a value in the int64 range |
| Common.DecimalRoundTrip | src/http/parser.go:65 | every decimal numeral up to the int64 maximum reads back as its value |
| Common.TrimSpace | src/http/parser.go:22 | the result is no longer than the input and neither starts nor ends with white space |
| Common.TrimSpaceSurrounded | src/http/parser.go:22 | the result is the middle of the input: only white space comes before it and only white space after it |
| Common.TrimRightCRLF | src/http/parser.go:109 | the result is no longer than the input and does not end in CR or LF |
| Common.TrimRightCRLFPrefix | src/http/parser.go:109 | the result is a prefix of the input, and every character dropped is a CR or an LF |
| Common.IndexOfFirst | src/http/parser.go:115 | the colon found is the first one, and none is found exactly when there is none |
| Common.SplitN3Rejoins | src/http/parser.go:22 | `strings.SplitN(s, " ", 3)`: the parts rejoin around single spaces to `s`; the first two parts hold no space; a single part means `s` has none |
| Stream.ReadLine | src/http/parser.go:17 | `ReadString('\n')` returns the bytes from the position through the next newline and the position after it; without a newline it gives EOF |
| Stream.ReadLineStops | src/http/parser.go:104 | the line ends at the first newline, and reading fails exactly when no newline remains |
| Stream.SkipLineEndsLine | src/http/parser.go:186 | a line whose result is dropped is consumed exactly as reading it would consume it, or up to the end of the stream |
| Stream.ReadFullFailure | src/http/parser.go:191 | a short `io.ReadFull` fails with EOF exactly when no byte remains |
| Stream.Reader.ReadString | src/http/parser.go:17 | the method returns the `ReadLine` line and position, or the partial line and EOF with the stream consumed; the tee records every consumed byte |
| Stream.Reader.ReadFull | src/http/parser.go:141 | the method returns the next `n` bytes, or the `ReadFullFailure` error with the stream consumed; the tee records every consumed byte |
| Stream.Reader.Peek | src/http/detector.go:21 | the method returns the next `n` bytes, or the bytes there are and EOF, and consumes nothing |
| Stream.Reader.StartTee | src/http/parser.go:13-15 | a fresh raw buffer is empty and the position is kept |
| Stream.TeeHoldsConsumed | src/http/parser.go:13-15 | a tee started at `start` holds exactly the bytes consumed since |
| HttpTypes.AddHeader | src/http/parser.go:123 | a value is appended under its name and every other name keeps its values |
| HttpTypes.ShouldCloseConnection | src/http/types.go:21-51 | with no `Connection` header only HTTP/1.0 closes; a close is only ever caused by HTTP/1.0 or a `Connection` value exactly "close"; HTTP/1.0 with a "keep-alive" value stays open |
| HttpTypes.HttpRequest.ShouldClose | src/http/types.go:21-26 | an HTTP/1.1 request without a `Connection` header keeps the connection; a request closes only when it is HTTP/1.0 or says "close" |
| HttpTypes.HttpResponse.ShouldClose | src/http/types.go:28-33 | an HTTP/1.0 response without a `Connection` header closes the connection; a response closes only when it is HTTP/1.0 or says "close" |
| HttpTypes.RequestResponseAgree | src/http/types.go:21-33 | requests and responses decide persistence by the same rule |
| HttpTypes.ShouldCloseReadsOnlyConnection | src/http/types.go:21-51 | the decision depends on nothing but the version and the `Connection` values |
| HttpTypes.ShouldCloseByValues | src/http/types.go:21-51 | HTTP/1.0 closes iff no `Connection` value is exactly "keep-alive"; any other version closes iff some value is exactly "close" |
| HttpTypes.ShouldCloseExamples | src/http/types.go:35-51 | "Keep-Alive", a lower-case header name and "close, x" do not count; HTTP/1.0 with keep-alive and close stays open; HTTP/1.1 with close closes |
| HttpParser.AddHeaderLine | src/http/parser.go:115-123 | a header line without a colon adds nothing |
| HttpParser.HeadersFrom | src/http/parser.go:100-127 | a header block that reads ends after at least one line and within the stream; `HeadersOnlyAppend` and `HeadersPrefix` state what it collects and reads |
| HttpParser.ShouldHaveBody | src/http/parser.go:204-216 | a message may have a body iff the method is none of GET, HEAD, DELETE and the code is neither 1xx nor 204 nor 304 |
| HttpParser.IsChunked | src/http/parser.go:151-158 | without a Transfer-Encoding header a body is never chunked; a chunked body has a Transfer-Encoding value that, lower-cased, contains "chunked" |
| HttpParser.ContentLength | src/http/parser.go:160-168 | the length is always an int64, and 0 without a Content-Length header |
| HttpParser.FirstInt64 | src/http/parser.go:160-168 | the Content-Length chosen is always an int64 |
| HttpParser.ChunkHeaderAsWritten | src/http/parser.go:179-190 | as written: a panic happens only on a size below 0 or above `MaxAlloc`; a chunk is allocated only with a size from 1 to `MaxAlloc` |
| HttpParser.ChunkHeaderOf | src/http/parser.go:179-190 | corrected chunk-size step: a data chunk always has a size from 1 to `MaxAlloc`, the largest `make` accepts |
| HttpParser.ChunkedFrom | src/http/parser.go:170-202 | a chunked body that reads ends past its start and within the stream; `DecodeEncoding` states what it yields |
| HttpParser.FramingAsWritten | src/http/parser.go:138-140 | as written: the framing panics only on a Content-Length above `MaxAlloc`, with that length; when it does not panic it frames the body as the corrected `FramingOf` does, with a length `make` accepts |
| HttpParser.BodyFrom | src/http/parser.go:129-149 | a body that reads ends at or past its start and within the stream; `BodilessRequest`, `ChunkedIgnoresLength` and `LengthFramedBody` state what it yields |
| HttpParser.RequestLineOf | src/http/parser.go:22-32 | a request line that does not split in three fails with `InvalidRequestLine` of the line; otherwise the method and URI hold no space, and method, URI and version rejoined with single spaces give the trimmed line |
| HttpParser.StatusLineOf | src/http/parser.go:60-80 | a failure is `InvalidStatusLine` of the line or a bad code; otherwise the version holds no space, the code is an int64, and version, a space and the status give the trimmed line |
| HttpParser.RequestFrom | src/http/parser.go:12-48 | a parsed request's `raw` is exactly the bytes from the start position to where parsing stopped |
| HttpParser.ResponseFrom | src/http/parser.go:50-98 | a parsed response's `raw` is exactly the bytes from the start position to where parsing stopped |
| HttpParser.ReadHeaders | src/http/parser.go:100-127 | the header loop returns what `HeadersFrom` specifies and stops where it does; the tee records every consumed byte |
| HttpParser.ReadChunk | src/http/parser.go:173-198 | one round of the chunk loop equals `ChunkStepAt` (corrected: a size `make` cannot allocate is an error) |
| HttpParser.ReadChunkRest | src/http/parser.go:185-198 | the rest of a round, after the size line, equals `ChunkStepAfter` |
| HttpParser.ReadChunkedBody | src/http/parser.go:170-202 | the chunk loop returns what `ChunkedFrom` specifies and stops where it does (corrected: a size `make` cannot allocate is an error) |
| HttpParser.ReadBody | src/http/parser.go:129-149 | `readBody` returns what `BodyFrom` specifies and stops where it does (corrected: a length `make` cannot allocate is an error) |
| HttpParser.ParseRequest | src/http/parser.go:12-48 | `ParseRequest` returns the request or error that `RequestFrom` specifies and stops where it does |
| HttpParser.ParseResponse | src/http/parser.go:50-98 | `ParseResponse` returns the response or error that `ResponseFrom` specifies and stops where it does |
| HttpChunked.HexDigitsValue | src/http/parser.go:180 | the hexadecimal numeral of a size reads back, in base 16, as that size |
| HttpChunked.SizeLineHeader | src/http/parser.go:179-180 | a size line with a size from 1 to `MaxAlloc` in hexadecimal announces a chunk of that size |
| HttpChunked.OversizeChunkPanics | src/http/parser.go:179-190 | as written, a well-formed size line above `MaxAlloc` (2^48) reaches `make`, which panics; corrected, the body fails with that size |
| HttpChunked.LastLineHeader | src/http/parser.go:185-188 | the size line "0" announces the last chunk |
| HttpChunked.ChunkRoundFrom | src/http/parser.go:173-198 | a size line, that many bytes and a line break make one round that yields those bytes |
| HttpChunked.LastRoundFrom | src/http/parser.go:185-188 | a zero size line ends the body after one more line |
| HttpChunked.DecodeRounds | src/http/parser.go:173-199 | from any chunk on, the rounds append the remaining chunks' data to the body and stop after the last chunk |
| HttpChunked.DecodeEncoding | src/http/parser.go:170-202 | decoding the chunked encoding of non-empty chunks of at most `MaxAlloc` bytes, followed by anything, yields their concatenation and stops right after the encoding |
| HttpChunked.ChunkedBodyRoundTrip | src/http/parser.go:129-136 | a chunked message body is read back as its chunks' data, to the end of its encoding |
| HttpChunked.HelloExample | src/http/parser.go:170-202 | "5\r\nhello\r\n0\r\n\r\n" decodes to "hello" with all 15 bytes read |
| HttpFraming.HeadersPrefix | src/http/parser.go:100-127 | the header block reads nothing past its blank line |
| HttpFraming.ChunkedPrefix | src/http/parser.go:170-202 | a chunked body reads nothing past its last line |
| HttpFraming.BodyPrefix | src/http/parser.go:129-149 | a body reads nothing past its end |
| HttpFraming.RequestPrefix | src/http/parser.go:12-48 | cutting the stream right after a request does not change how it parses |
| HttpFraming.ResponsePrefix | src/http/parser.go:50-98 | cutting the stream right after a response does not change how it parses |
| HttpFraming.RequestRawReparses | src/http/parser.go:12-48 | a request's `raw` parses back alone to the same request, consumed to its last byte; for single-message input `raw` is the whole input |
| HttpFraming.ResponseRawReparses | src/http/parser.go:50-98 | a response's `raw` parses back alone to the same response; for single-message input `raw` is the whole input |
| HttpFramingRules.AnyChunkedExists | src/http/parser.go:151-158 | `isChunked` holds iff some Transfer-Encoding value, lower-cased, contains "chunked" |
| HttpFramingRules.FirstInt64Decides | src/http/parser.go:160-168 | the first Content-Length value that parses as a decimal int64 decides |
| HttpFramingRules.FirstInt64NoneParses | src/http/parser.go:160-168 | with no parseable value the length is 0 |
| HttpFramingRules.BodilessRequest | src/http/parser.go:129-132 | GET, HEAD and DELETE requests end with their headers and have an empty body |
| HttpFramingRules.ResponseFraming | src/http/parser.go:88-94 | 1xx, 204 and 304 responses end with their headers; any other response reads its body as `readBody` frames it |
| HttpFramingRules.ChunkedIgnoresLength | src/http/parser.go:134-136 | once a body is chunked, no Content-Length value changes how it is read |
| HttpFramingRules.LengthFramedBody | src/http/parser.go:138-148 | an unchunked body is exactly Content-Length bytes when that is positive, an error when fewer remain, `TooLarge` (corrected) above `MaxAlloc`, and empty otherwise |
| HttpFramingRules.HeadersOnlyAppend | src/http/parser.go:123 | reading headers keeps every name's earlier values, in order, as a prefix |
| HttpFramingRules.NegativeChunkSizePanics | src/http/parser.go:180-190 | as written, the size line "-1" reaches `make` with a negative length |
| HttpFramingRules.ChunkHeaderCorrected | src/http/parser.go:179-190 | the corrected size step agrees with the source wherever the source does not panic; the source panics exactly where the corrected step reports a negative size or one above `MaxAlloc`, and on that size |
| HttpFramingRules.FramingCorrected | src/http/parser.go:129-149 | the corrected framing agrees with the source wherever the source does not panic; the source panics exactly on a Content-Length above `MaxAlloc`, where the corrected body read fails with that length |
| HttpFramingRules.HugeContentLengthPanics | src/http/parser.go:138-140 | as written, a POST with a decimal Content-Length above `MaxAlloc`, such as 9223372036854775807, panics in `make`; corrected, its body read fails with that length |
| HttpDetector.Detect | src/http/detector.go:20-33 | detection fails with EOF exactly when fewer than 16 bytes remain |
| HttpDetector.StartsWithMethod | src/http/detector.go:26-31 | a match needs at least four bytes and an upper-case first letter, so lower-case methods are never recognised; `DetectIffStreamStarts` states the full match |
| HttpDetector.DetectProtocol | src/http/detector.go:20-33 | the method gives the verdict or error that `Detect` specifies |
| HttpDetector.MethodsFitPeek | src/http/detector.go:8-21 | every method prefix fits in the 16 bytes peeked |
| HttpDetector.DetectIffStreamStarts | src/http/detector.go:8-32 | with 16 bytes available, the answer is yes iff the stream starts with one of the nine method prefixes |
| HttpDetector.DetectReadsPeekOnly | src/http/detector.go:21-30 | the verdict depends only on the 16 bytes from the position |
| HttpDetector.DetectExamples | src/http/detector.go:26-32 | "POST /api" is HTTP; "get /" and a TLS ClientHello are not; seven bytes give EOF |
| HttpErrorResponse.ErrorStatusLineParses | src/http/racer.go:120-123 | the error status line parses back to version HTTP/1.1, the code, and the code with the message |
| HttpErrorResponse.ErrorResponse | src/http/racer.go:120-123 | the response starts with "HTTP/1.1 " and ends with the fixed `Content-Length: 0`, `Connection: close` block and the blank line; `ErrorResponseParses` proves it reads back |
| HttpErrorResponse.TwoHeadersRead | src/http/parser.go:100-127 | two header lines and a blank line read back as those two headers |
| HttpErrorResponse.ErrorHeadersRead | src/http/racer.go:121 | the error response's header block reads back as `Content-Length: 0` and `Connection: close` |
| HttpErrorResponse.ErrorHeadersNoBody | src/http/parser.go:138-148 | those headers frame an empty body |
| HttpErrorResponse.ErrorResponseParses | src/http/racer.go:120-123 | the whole error response parses back to its code, an empty body and `ShouldClose` true, consumed to its last byte |
| HttpErrorResponse.HandlerErrorResponses | src/http/racer.go:21-38 | the 400 and 502 responses the handler sends parse with those codes, no body and `ShouldClose` true |
| HttpRacer.WinnerName | src/http/racer.go:92-95 | the name is the address alone exactly when the display name is empty, and otherwise "Name (" then the address then ")" |
| HttpRacer.FirstResponse | src/http/racer.go:88-99 | the index found is a response preceded only by failures; none is found only when the first `n` arrivals all failed |
| HttpRacer.Race | src/http/racer.go:88-105 | a win leaves fewer than `n` results to drain and never more than have arrived; a time-out comes with fewer than `n` arrivals, all-failed with at least `n`; `RaceCases` states when each happens |
| HttpRacer.RaceRequest | src/http/racer.go:88-105 | the receive loop ends as `Race` specifies |
| HttpRacer.FirstResponseIs | src/http/racer.go:88-99 | a response preceded only by failures is the one chosen |
| HttpRacer.NoResponse | src/http/racer.go:88-105 | with only failures no response is chosen |
| HttpRacer.RaceCases | src/http/racer.go:88-105 | the race is won iff one of the first `n` arrivals is a response, by the first of them; it times out iff fewer than `n` results came, all failures; all failed iff `n` failures came |
| HttpRacer.RaceIgnoresLateArrivals | src/http/racer.go:88 | results after the `n`-th are never looked at |
| HttpRacer.DrainChannel | src/http/racer.go:114-118 | the drain takes exactly `remaining` results off the channel |
| HttpRacer.RaceThenDrain | src/http/racer.go:97 | with every result in, the selection loop and the drain take all `n` results between them and the channel ends empty |
| HttpRacer.ParseFailure | src/http/racer.go:21-29 | corrected: a failure that wraps the end of the stream ends the session quietly; any other failure gets the 400 the source sends |
| HttpRacer.ParseFailureAsWritten | src/http/racer.go:23-28 | as written: every parse failure, the wrapped end of the stream included, is returned and answered with the non-empty 400 response |
| HttpRacer.ServeFrom | src/http/racer.go:17-51 | for the source's handler (`AsWritten`) and the corrected one alike, a race error is "request timeout" or "all upstreams failed"; with the corrected handler a parse error is never the end of the stream |
| HttpRacer.ServeGoesOn | src/http/racer.go:42-50 | after a written response where neither side asked to close, the session goes on with the next exchange |
| HttpRacer.HandleHTTP | src/http/racer.go:17-51 | the read-race-write loop, as written (`h = AsWritten`) or corrected, writes exactly what `ServeFrom` specifies for that handler and returns its error |
| HttpRacer.EndOfStream | src/http/parser.go:17-20 | at the end of the client stream, reading a request fails with the end of the stream, wrapped |
| HttpRacer.ServeAtEnd | src/http/racer.go:21-29 | as written, a client that closed with every request served gets a 400 and the session returns the wrapped end of the stream; corrected, the session ends quietly |
| HttpRacer.KeepAliveThenCloseAsWritten | src/http/racer.go:17-51 | as written: a keep-alive exchange followed by the client closing writes the response, then a 400, and returns the wrapped end of the stream as a parse error |
| HttpRacer.KeepAliveThenCloseIsClean | src/http/racer.go:42-49 | corrected: a keep-alive exchange followed by the client closing writes exactly the response and returns no error |
| HttpRacer.CorrectionOnlyAtEnd | src/http/racer.go:21-29 | the corrected handler differs from the source's only at the end of the stream: where the corrected session ends quietly, the source's writes the same bytes and a 400, and returns the end of the stream; every other session is the same |
| HttpRacer.CloseRequestEndsSession | src/http/racer.go:47-49 | a request that asks to close ends the session after its response, and nothing sent after it is read |
| HttpRacer.CloseResponseEndsSession | src/http/racer.go:47-49 | a response that asks to close ends the session after it is written, and nothing sent after the request is read |
| HttpRacer.BadRequestAnswered | src/http/racer.go:25-29 | an unreadable request (as written, any; corrected, any but the end of the stream) is answered with the 400 response and ends the session with the error |
| HttpRacer.BadGatewayAnswered | src/http/racer.go:33-38 | a race without a winner is answered with the 502 response and ends the session with the race's error |
| HttpRacer.ErrorsAreAnswered | src/http/racer.go:21-38 | whenever a session ends with a parse or race error, what was written ends with the matching 400 or 502 response |
| Socks5Protocol.TargetAddress.Network | src/socks5/protocol.go:51-53 | the network is always "tcp" |
| Socks5Protocol.Socks5Error.Error | src/socks5/protocol.go:36-38 | the error text is the message alone, without the reply code |
| Socks5Protocol.TargetAddress.String | src/socks5/protocol.go:47-49 | the text starts with the host, bracketed when it holds a colon, then ':' |
| Socks5Protocol.TargetStringRoundTrip | src/socks5/protocol.go:47-49 | the text splits at its last colon into that host part and a decimal port that reads back as the port |
| Socks5Protocol.IPFormsRoundTrip | src/socks5/server.go:137-143 | To4 and To16 are inverse between 4-byte addresses and their IPv4-mapped forms; a 16-byte address is mappable iff it has the mapping prefix |
| Socks5Server.Negotiate | src/socks5/server.go:11-47 | a bad version or zero methods fails with nothing written; a complete greeting gets {5,0} iff it offers no-auth, and then the result is the error of that write; otherwise it gets {5,0xFF} and "no acceptable methods", whatever that write returns; only these replies are ever written |
| Socks5Server.HandleNegotiation | src/socks5/server.go:11-47 | the method's result and writes are what `Negotiate` specifies, for any write error |
| Socks5Server.DecodeRequest | src/socks5/server.go:49-120 | a request is accepted iff version 5, CONNECT, a known address type and every byte present; the version, command and address-type errors carry the offending byte |
| Socks5Server.DecodedRequestShape | src/socks5/server.go:61-119 | the raw request is the wire bytes from the address type through the port, of length 7, 19 or domain length + 4; the host is the IP text or the domain bytes verbatim; the port is the last two bytes big-endian |
| Socks5Server.DecodePort | src/socks5/server.go:107-119 | the port step succeeds iff two bytes remain and closes the raw request with them |
| Socks5Server.ReservedByteIgnored | src/socks5/server.go:57-59 | the reserved byte is never looked at |
| Socks5Server.ParseRequest | src/socks5/server.go:49-120 | the step-by-step reader returns what `DecodeRequest` specifies |
| Socks5Server.ReadTarget | src/socks5/server.go:61-119 | the address-and-port reader returns what `DecodeTarget` specifies, keeping the raw request as it reads |
| Socks5Server.EncodeReply | src/socks5/server.go:122-153 | a reply starts {5,status,0}; no or non-TCP bind address gives the 10-byte zero reply; an IPv4-mappable address gives type 1 and 4 bytes, any other type 4 and the 16-byte form; the port is big-endian, truncated to 16 bits |
| Socks5Server.SendReply | src/socks5/server.go:122-153 | the reply written is exactly `EncodeReply`'s, and the write's error is returned |
| Socks5Server.BuildReply | src/socks5/server.go:122-150 | the appends build exactly `EncodeReply` |
| Socks5Client.CheckMethodReply | src/socks5/client.go:40-60 | the answer is accepted iff it is exactly {5,0}; any other method fails with its code in the message |
| Socks5Client.ClientNegotiate | src/socks5/client.go:40-60 | the greeting written is exactly {5,1,0}; a failed write returns "write negotiation: " and its error without reading; otherwise the verdict is `CheckMethodReply` |
| Socks5Client.NegotiationAgreement | src/socks5/client.go:40-60 | the server accepts the client's greeting with {5,0}, which the client accepts |
| Socks5Client.EncodeConnect | src/socks5/client.go:62-97 | the request is {5,1,0}, the type, the address and the big-endian port; a domain is its length byte and bytes, and over 255 bytes it is refused; an IP address that does not parse is refused |
| Socks5Client.CheckConnectReply | src/socks5/client.go:103-134 | a bad version or non-success code fails with the byte in the message; on success the bytes discarded are 6, 18, length + 2 after the length byte, or none for another type |
| Socks5Client.ClientConnect | src/socks5/client.go:62-134 | nothing is written when the request cannot be built; otherwise the request is written; a failed write returns "write connect request: " and its error without reading; otherwise the verdict and discard count are `CheckConnectReply`'s |
| Socks5Client.ReadConnectReply | src/socks5/client.go:103-131 | the reply reader returns no error and the bytes `CheckConnectReply` discards when the reply is accepted, and that check's error with nothing discarded otherwise |
| Socks5Client.BytesStringRoundTrip | src/socks5/client.go:89 | converting a byte string to bytes and back gives the same string |
| Socks5Client.DomainRawConnect | src/socks5/client.go:83-97 | a domain target with a well-formed raw form is encoded as {5,1,0} followed by that raw form |
| Socks5Client.DomainRawIsRequest | src/socks5/client.go:83-97 | for a domain target the server decoded, the client's CONNECT bytes after the first three equal the server's raw request |
| Socks5Client.DomainConnectRoundTrip | src/socks5/client.go:62-97 | a domain target that fits survives client encoding and server decoding: same type, host and port |
| Socks5Client.IPConnectRoundTrip | src/socks5/client.go:66-81 | an IP target decodes back to the same type and port, with the host the address text of its bytes |
| Racer.Winner | src/racer/racer.go:66-72 | the winner found is a connection among the results |
| Racer.Closed | src/racer/racer.go:73-77 | every position closed is a success among the arrivals, and nothing is closed when there is no winner |
| Racer.Entries | src/racer/racer.go:78-82 | there are exactly as many entries as failures |
| Racer.AllFailedError | src/racer/racer.go:93 | the error starts with "all upstreams failed: ", and is that prefix alone with no entries |
| Racer.Racer.constructor | src/racer/racer.go:19-24 | `New` stores the upstreams and the timeout unchanged |
| Racer.Racer.Race | src/racer/racer.go:56-93 | the loop takes exactly one result per upstream; it returns the winner's connection, or "all upstreams failed: " and the entries joined by "; "; it closes exactly the `Closed` results |
| Racer.WinnerIsFirstSuccess | src/racer/racer.go:66-72 | there is a winner iff some dial succeeded, and only failures come before it |
| Racer.WinnerKept | src/racer/racer.go:66-67 | a later result never replaces the winner |
| Racer.ClosedAreTheLosers | src/racer/racer.go:73-77 | a result is closed iff it is a success other than the winner; the positions closed rise strictly, so none is closed twice |
| Racer.EntryPerFailure | src/racer/racer.go:78-82 | there is exactly one "addr: err" entry per failure, in arrival order |
| Racer.RaceOutcome | src/racer/racer.go:87-93 | the race succeeds iff some dial did; otherwise every result failed and entry `j` is the `j`-th arrival's |
| Config.FirstFailure | src/config/config.go:22-26 | the position reported is the first whose check fails; none is reported exactly when every check passes |
| Config.FirstFailureAt | src/config/config.go:22-26 | a failure preceded only by passes is the one reported |
| Config.FirstFailureLooksNoFurther | src/config/config.go:22-26 | nothing after the first failure is checked |
| Config.ListenerError | src/config/config.go:31-61 | a listener passes only with a non-empty address that splits and at least one upstream; every error has a message |
| Config.ValidateListener | src/config/config.go:31-61 | `ListenerConfig.Validate` returns the error `ListenerError` specifies |
| Config.ListenerValidIff | src/config/config.go:31-61 | a listener is valid iff its address is non-empty and splits into a non-empty host and port, and it has upstreams that all split |
| Config.UpstreamErrorNamesFirst | src/config/config.go:53-58 | the upstream error names the first upstream that does not split, with its index, address and the splitter's error |
| Config.AddressCheckedFirst | src/config/config.go:32-47 | the address checks come first: a bad address gives the same error whatever the upstreams are |
| Config.ConfigError | src/config/config.go:17-29 | a configuration passes only with a listener; every listener's error is prefixed with "listener " |
| Config.Validate | src/config/config.go:17-29 | `Config.Validate` returns the error `ConfigError` specifies |
| Config.ConfigValidIff | src/config/config.go:17-29 | a configuration is valid iff it has a listener and every listener is valid |
| Config.FirstInvalidListenerReported | src/config/config.go:22-26 | the first invalid listener is reported as "listener i: " and its error; listeners after it play no part |

## Left out

- The relay (`src/relay/relay.go`) is left out. It consists of two goroutines copying bytes in both directions, with no sequential logic to model.
- The listener, connection handler, `main`, command-line flags, configuration loading and logger are left out. They are process and I/O plumbing, and depend on a `pool` package that is not part of this model.
- The dialling in `DialSOCKS5` is left out: its network connection, deadlines and connection closing. The racers take each dial's outcome as an input.
- Goroutines, channels, `context` deadlines and durations are left out. The racers see their results as a sequence in arrival order. For the HTTP racer, a deadline that strikes is a sequence shorter than the number of upstreams.
- Timing and log output are left out. Log lines, durations and the SOCKS5 racer's `winnerProxy` only feed logging.
- A concurrency defect in the HTTP racer is not modelled. Once a race is won, the deferred `cancel()` (src/http/racer.go:56-57) cancels the race context. Each worker that succeeds after that reaches a select (src/http/racer.go:81-84) where both the send and `Done` are ready, and Go picks one at random, so the worker may drop its result. Workers never block, because the channel holds one slot per upstream (src/http/racer.go:54). But `drainChannel`, started only after a win (src/http/racer.go:97), then waits for a result that never comes, and the drain goroutine leaks. `HttpRacer.RaceThenDrain` covers only the case where every worker sends its result.
- `bufio` look-ahead is not modelled. The model's parser consumes exactly one message. The Go parser's inner buffered reader can pull bytes past the message into `Raw`, and those bytes are lost to the next read. The raw round trip is therefore stated only for a message at the start of its input.
- The textual IP forms are parameters: `net.IP.String`, `net.ParseIP` and `net.SplitHostPort`. Round trips that depend on their behaviour are stated relative to those parameters.
- Writes to the client are modelled through `writeFails`. A failed write of a winning response writes nothing in the model.
- SOCKS5 writes take the error they return as `writeErr`. The bytes handed to a write are reported as written whether or not it fails.
- The source ignores the write errors of the 400 and 502 responses (src/http/racer.go:120-123) and of the SOCKS5 rejection {5,0xFF} (src/socks5/server.go:41). The model does the same.
- Common.TrimSpace: white space is the six ASCII space characters. Go's `strings.TrimSpace` also trims Unicode spaces such as U+0085 and U+00A0; the model keeps them.
- HttpFramingRules.AnyChunkedExists: lower-casing maps only A to Z. Go's `strings.ToLower` also maps other letters, such as U+212A (Kelvin sign) to "k", so a Transfer-Encoding value spelled with it is chunked in Go but not in the model.
- HttpParser.ReadBody: models the corrected read. A Content-Length above `MaxAlloc` fails with `TooLarge`, where the source panics in `make`; `HttpParser.FramingAsWritten` is the source's behaviour. An allocation below `MaxAlloc` that runs out of memory is not modelled.
- HttpParser.ReadChunk: models the corrected read. A chunk size below zero or above `MaxAlloc` fails, where the source panics in `make`; `HttpParser.ChunkHeaderAsWritten` is the source's behaviour.
- HttpParser.ReadChunkRest: runs on the header of the corrected size step, so its chunk size is never one `make` would panic on.
- HttpParser.ReadChunkedBody: models the corrected read, as `HttpParser.ReadChunk` does.
- HttpParser.ParseRequest: models the corrected body read, as `HttpParser.ReadBody` does; the source's panic is not a result the model returns.
- HttpParser.ParseResponse: models the corrected body read, as `HttpParser.ReadBody` does.
- HttpRacer.HandleHTTP: with either handler, a request whose body `make` cannot allocate is answered with a 400; the source panics there, and nothing recovers it.
- HttpErrorResponse.HandlerErrorResponses: the parsed status is stated as the decimal code, a space and the message, not as the literal "400 Bad Request" or "502 Bad Gateway" text.
- HttpRacer.ServeFrom: the upstream side of each exchange is an input (`arrivalsFor`). How an upstream's response is parsed is proved separately, by `HttpParser.ResponseFrom` and its lemmas.
- Racer.Racer.Race: connections are opaque handles, and closing one is recorded in `closed` rather than performed.

## Findings

| source | as written | input that shows it | evidently intended | confidence | as-written member | corrected member |
|---|---|---|---|---|---|---|
| src/http/parser.go:180-190 | a chunk size is parsed as a signed int64 and passed to `make` with no sign check | a chunked body whose size line is "-1" makes `make([]byte, -1)` panic | a negative size is rejected as a malformed chunk size | not executed | HttpFramingRules.NegativeChunkSizePanics | HttpFramingRules.ChunkHeaderCorrected |
| src/http/parser.go:180-190 | a chunk size is passed to `make` with no upper bound | a size line "1000000000001" (2^48 + 1) makes `make` panic, over the runtime's 2^48 limit on 64-bit Linux | a size that cannot be allocated is rejected | not executed | HttpChunked.OversizeChunkPanics | HttpFramingRules.ChunkHeaderCorrected |
| src/http/parser.go:138-140 | a positive Content-Length is passed to `make` with no upper bound, and no `recover` catches the panic | a POST with "Content-Length: 9223372036854775807" makes `make` panic | a length that cannot be allocated is rejected as a bad request | not executed | HttpFramingRules.HugeContentLengthPanics | HttpFramingRules.FramingCorrected |
| src/http/racer.go:23 | the handler compares the parse error with `io.EOF`, but `ParseRequest` always wraps it (src/http/parser.go:19), so the check never holds | a client that sends one keep-alive request and then closes gets a "400 Bad Request" written after the response, and the handler returns an error | a clean close between requests ends the session quietly | not executed | HttpRacer.KeepAliveThenCloseAsWritten | HttpRacer.KeepAliveThenCloseIsClean |
