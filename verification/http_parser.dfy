/** The HTTP/1.x message framer: request and status lines, the header
    multimap, the body framing decision (chunked before Content-Length
    before none) and chunked decoding. Each reading operation is a method on
    a `Stream.Reader`, proved equal to a function of the stream and the
    position it starts from. */
module HttpParser {
  import opened Common
  import opened Stream
  import opened HttpTypes

  /** Why a body could not be read. */
  datatype BodyError =
    | Io(io: IoError)                 // the stream ended early
    | BadChunkSize(text: string)      // "parse chunk size: ..."
    | NegativeChunkSize(size: int)    // a chunk size below zero (see ChunkHeaderAsWritten)
    | TooLarge(size: int)             // a size above MaxAlloc (see ChunkHeaderAsWritten, FramingAsWritten)

  /** Why a message could not be parsed; each wraps the failing step. */
  datatype ParseError =
    | RequestLineFailed(io: IoError)
    | InvalidRequestLine(line: string)
    | StatusLineFailed(io: IoError)
    | InvalidStatusLine(line: string)
    | BadStatusCode(text: string)
    | HeadersFailed(io: IoError)
    | BodyFailed(body: BodyError)

  /** A reading method agrees with its specification function: it returns
      the specified value and stops where the specification says, or it
      fails with the specified error. */
  predicate Agrees<T(==), E(==)>(spec: Result<(T, nat), E>, res: Result<T, E>, pos: nat) {
    match spec
    case Ok((v, n)) => res == Ok(v) && pos == n
    case Err(e) => res == Err(e)
  }

  // ---------------------------------------------------------------------
  // Headers
  // ---------------------------------------------------------------------

  /** One header line, already stripped of its CR/LF: split at the first
      colon and trimmed; a line without a colon adds nothing. */
  function AddHeaderLine(acc: Headers, text: string): (r: Headers)
    ensures ':' !in text ==> r == acc
  {
    match IndexOf(text, ':')
    case None => acc
    case Some(c) => AddHeader(acc, TrimSpace(text[..c]), TrimSpace(text[c + 1..]))
  }

  /** `readHeaders` from `pos` with the headers gathered so far in `acc`:
      lines are read until one is empty once its trailing CR/LF is stripped. */
  function HeadersFrom(data: string, pos: nat, acc: Headers): (r: Result<(Headers, nat), IoError>)
    requires pos <= |data|
    ensures r.Ok? ==> pos < r.value.1 <= |data|
    decreases |data| - pos
  {
    match ReadLine(data, pos)
    case Err(e) => Err(e)
    case Ok((line, next)) =>
      var text := TrimRightCRLF(line);
      if text == "" then Ok((acc, next))
      else HeadersFrom(data, next, AddHeaderLine(acc, text))
  }

  // ---------------------------------------------------------------------
  // Body framing
  // ---------------------------------------------------------------------

  /** `shouldHaveBody`: GET, HEAD and DELETE never have a body, nor do 1xx,
      204 and 304 responses. */
  predicate ShouldHaveBody(statusCode: int, httpMethod: string)
    ensures ShouldHaveBody(statusCode, httpMethod) <==>
              && httpMethod !in {"GET", "HEAD", "DELETE"}
              && !(100 <= statusCode < 200)
              && statusCode !in {204, 304}
  {
    if httpMethod == "HEAD" || httpMethod == "GET" || httpMethod == "DELETE" then false
    else if 100 <= statusCode < 200 then false
    else !(statusCode == 204 || statusCode == 304)
  }

  /** Some value, lower-cased, contains "chunked". */
  predicate AnyChunked(values: seq<string>)
    decreases |values|
  {
    values != [] && (Contains(ToLowerAscii(values[0]), "chunked") || AnyChunked(values[1..]))
  }

  /** `isChunked`: some Transfer-Encoding value, lower-cased, contains
      "chunked"; without that header a body is never chunked. */
  predicate IsChunked(h: Headers)
    ensures "Transfer-Encoding" !in h ==> !IsChunked(h)
    ensures IsChunked(h) ==> exists v | v in h["Transfer-Encoding"] :: Contains(ToLowerAscii(v), "chunked")
  {
    AnyChunkedWitness(Values(h, "Transfer-Encoding"));
    AnyChunked(Values(h, "Transfer-Encoding"))
  }

  /** A value behind `AnyChunked`. */
  lemma {:induction false} AnyChunkedWitness(values: seq<string>)
    ensures AnyChunked(values) ==> exists v | v in values :: Contains(ToLowerAscii(v), "chunked")
    decreases |values|
  {
    if values != [] && !Contains(ToLowerAscii(values[0]), "chunked") {
      AnyChunkedWitness(values[1..]);
      if AnyChunked(values) {
        var v :| v in values[1..] && Contains(ToLowerAscii(v), "chunked");
        assert v in values;
      }
    }
  }

  /** The first value that parses as a decimal int64, or 0 when none does. */
  function FirstInt64(values: seq<string>): (n: int)
    ensures MinInt64 <= n <= MaxInt64
    decreases |values|
  {
    if values == [] then 0
    else match ParseInt(values[0], 10)
      case Some(v) => v
      case None => FirstInt64(values[1..])
  }

  /** `getContentLength`: always an int64, and 0 without the header. */
  function ContentLength(h: Headers): (n: int)
    ensures MinInt64 <= n <= MaxInt64
    ensures "Content-Length" !in h ==> n == 0
  {
    FirstInt64(Values(h, "Content-Length"))
  }

  /** The largest length Go's `make([]byte, n)` accepts on 64-bit Linux
      (the runtime's `maxAlloc`, 2^48); a negative length or a larger one
      makes it panic. */
  const MaxAlloc: nat := 0x1_0000_0000_0000

  /** What one chunk-size line announces. */
  datatype ChunkHeader = LastChunk | Chunk(size: nat) | Invalid(err: BodyError)

  /** A length handed to `make` without a bounds check: the value computed
      when the allocation succeeds, or the runtime panic when it does not. */
  datatype Allocation<T> = Allocated(value: T) | MakeSlicePanic(size: int)

  /** The chunk-size step as the source has it: the trimmed line is parsed
      as signed hexadecimal; zero ends the body, and any other value becomes
      the length of a new buffer, which panics when it is negative or above
      `MaxAlloc`. */
  function ChunkHeaderAsWritten(line: string): (a: Allocation<ChunkHeader>)
    ensures a.MakeSlicePanic? ==> a.size < 0 || a.size > MaxAlloc
    ensures a.Allocated? && a.value.Chunk? ==> 0 < a.value.size <= MaxAlloc
  {
    var text := TrimSpace(line);
    match ParseInt(text, 16)
    case None => Allocated(Invalid(BadChunkSize(text)))
    case Some(n) =>
      if n == 0 then Allocated(LastChunk)
      else if n < 0 || n > MaxAlloc then MakeSlicePanic(n)
      else Allocated(Chunk(n))
  }

  /** The chunk-size step with a size `make` cannot allocate reported as an
      error. */
  function ChunkHeaderOf(line: string): (h: ChunkHeader)
    ensures h.Chunk? ==> 0 < h.size <= MaxAlloc
  {
    var text := TrimSpace(line);
    match ParseInt(text, 16)
    case None => Invalid(BadChunkSize(text))
    case Some(n) =>
      if n == 0 then LastChunk
      else if n < 0 then Invalid(NegativeChunkSize(n))
      else if n > MaxAlloc then Invalid(TooLarge(n))
      else Chunk(n)
  }

  /** One round of `readChunkedBody` from `pos`. */
  datatype ChunkStep =
    | StepDone(end: nat)                  // zero size; `end` is after the line that follows
    | StepChunk(chunk: string, next: nat) // the chunk data; `next` is after the rest of its line
    | StepFail(err: BodyError)

  /** Reads a size line; a zero size ends the body after one more line,
      which may be missing; any other size is followed by that many bytes,
      then the rest of their line is dropped. */
  function ChunkStepAt(data: string, pos: nat): (s: ChunkStep)
    requires pos <= |data|
    ensures s.StepDone? ==> pos < s.end <= |data|
    ensures s.StepChunk? ==> pos < s.next <= |data| && |s.chunk| > 0
  {
    match ReadLine(data, pos)
    case Err(e) => StepFail(Io(e))
    case Ok((line, next)) => ChunkStepAfter(data, next, ChunkHeaderOf(line))
  }

  /** The rest of a round once the size line, which ends before `next`, has
      announced `header`. */
  function ChunkStepAfter(data: string, next: nat, header: ChunkHeader): (s: ChunkStep)
    requires 0 < next <= |data|
    requires header.Chunk? ==> header.size > 0
    ensures s.StepDone? ==> next <= s.end <= |data|
    ensures s.StepChunk? ==> next < s.next <= |data| && |s.chunk| > 0
  {
    match header
    case Invalid(e) => StepFail(e)
    case LastChunk => StepDone(SkipLine(data, next))
    case Chunk(size) =>
      if next + size <= |data| then StepChunk(data[next..next + size], SkipLine(data, next + size))
      else StepFail(Io(ReadFullFailure(|data| - next)))
  }

  /** `readChunkedBody` from `pos`, with the data of earlier chunks in `body`. */
  function ChunkedFrom(data: string, pos: nat, body: string): (r: Result<(string, nat), BodyError>)
    requires pos <= |data|
    ensures r.Ok? ==> pos < r.value.1 <= |data|
    decreases |data| - pos
  {
    match ChunkStepAt(data, pos)
    case StepFail(e) => Err(e)
    case StepDone(end) => Ok((body, end))
    case StepChunk(c, next) => ChunkedFrom(data, next, body + c)
  }

  /** How `readBody` frames a body. */
  datatype Framing = NoBody | ChunkedBody | FixedLength(length: nat)

  /** `readBody`'s decision: none for a bodiless request method; otherwise
      chunked when announced, else Content-Length bytes when that is
      positive, else none. */
  function FramingOf(h: Headers, httpMethod: string): (f: Framing)
    ensures f.FixedLength? ==> f.length > 0
  {
    if !ShouldHaveBody(0, httpMethod) && httpMethod != "" then NoBody
    else if IsChunked(h) then ChunkedBody
    else if ContentLength(h) > 0 then FixedLength(ContentLength(h))
    else NoBody
  }

  /** `readBody`'s framing as the source has it: a positive Content-Length
      becomes the length of a new buffer, which panics above `MaxAlloc`. */
  function FramingAsWritten(h: Headers, httpMethod: string): (a: Allocation<Framing>)
    ensures a.MakeSlicePanic? ==> a.size == ContentLength(h) > MaxAlloc
    ensures a.Allocated? ==> a.value == FramingOf(h, httpMethod)
    ensures a.Allocated? && a.value.FixedLength? ==> a.value.length <= MaxAlloc
  {
    var f := FramingOf(h, httpMethod);
    if f.FixedLength? && f.length > MaxAlloc then MakeSlicePanic(f.length) else Allocated(f)
  }

  /** Reads a body framed as `f` from `pos`; a length `make` cannot
      allocate is reported as an error. */
  function BodyWith(data: string, pos: nat, f: Framing): (r: Result<(string, nat), BodyError>)
    requires pos <= |data|
    ensures r.Ok? ==> pos <= r.value.1 <= |data|
  {
    match f
    case NoBody => Ok(("", pos))
    case ChunkedBody => ChunkedFrom(data, pos, "")
    case FixedLength(n) =>
      if n > MaxAlloc then Err(TooLarge(n))
      else if pos + n <= |data| then Ok((data[pos..pos + n], pos + n))
      else Err(Io(ReadFullFailure(|data| - pos)))
  }

  /** `readBody` from `pos`. */
  function BodyFrom(data: string, pos: nat, h: Headers, httpMethod: string): (r: Result<(string, nat), BodyError>)
    requires pos <= |data|
    ensures r.Ok? ==> pos <= r.value.1 <= |data|
  {
    BodyWith(data, pos, FramingOf(h, httpMethod))
  }

  // ---------------------------------------------------------------------
  // Messages
  // ---------------------------------------------------------------------

  /** The fields of a request line. */
  datatype RequestLine = RequestLine(httpMethod: string, uri: string, version: string)

  /** A request line, trimmed and cut at its first two spaces, must give
      exactly three parts. */
  function RequestLineOf(line: string): (r: Result<RequestLine, ParseError>)
    ensures r.Err? ==> r.error == InvalidRequestLine(line)
    ensures r.Ok? ==> ' ' !in r.value.httpMethod && ' ' !in r.value.uri
    ensures r.Ok? ==> r.value.httpMethod + " " + r.value.uri + " " + r.value.version == TrimSpace(line)
  {
    SplitN3Rejoins(TrimSpace(line));
    var parts := SplitN3(TrimSpace(line));
    if |parts| != 3 then Err(InvalidRequestLine(line))
    else Ok(RequestLine(parts[0], parts[1], parts[2]))
  }

  /** The fields of a status line; `status` is the code with the reason
      phrase, when there is one. */
  datatype StatusLine = StatusLine(version: string, code: int, status: string)

  /** A status line, trimmed and cut at its first two spaces, needs at least
      a version and a decimal code. */
  function StatusLineOf(line: string): (r: Result<StatusLine, ParseError>)
    ensures r.Err? ==> r.error == InvalidStatusLine(line) || r.error.BadStatusCode?
    ensures r.Ok? ==> ' ' !in r.value.version && MinInt64 <= r.value.code <= MaxInt64
    ensures r.Ok? ==> r.value.version + " " + r.value.status == TrimSpace(line)
  {
    var parts := SplitN3(TrimSpace(line));
    if |parts| < 2 then Err(InvalidStatusLine(line))
    else
      var status := if |parts| == 3 then parts[1] + " " + parts[2] else parts[1];
      assert ' ' !in parts[0] && parts[0] + " " + status == TrimSpace(line) by {
        SplitN3Rejoins(TrimSpace(line));
        if |parts| == 3 {
          SplitThree(parts[0], parts[1], parts[2]);
        }
      }
      match ParseInt(parts[1], 10)
      case None => Err(BadStatusCode(parts[1]))
      case Some(code) => Ok(StatusLine(parts[0], code, status))
  }

  /** `ParseRequest` from `pos`: the message and the position after it.
      `raw` is every byte consumed. */
  function RequestFrom(data: string, pos: nat): (r: Result<(HttpRequest, nat), ParseError>)
    requires pos <= |data|
    ensures r.Ok? ==> pos < r.value.1 <= |data| && r.value.0.raw == data[pos..r.value.1]
  {
    match ReadLine(data, pos)
    case Err(e) => Err(RequestLineFailed(e))
    case Ok((line, p1)) =>
      match RequestLineOf(line)
      case Err(e) => Err(e)
      case Ok(start) => RequestAfterLine(data, pos, p1, start)
  }

  /** The headers and body of a request whose line, read from `pos`, ends
      before `p1`. */
  function RequestAfterLine(data: string, pos: nat, p1: nat, start: RequestLine): (r: Result<(HttpRequest, nat), ParseError>)
    requires pos < p1 <= |data|
    ensures r.Ok? ==> p1 <= r.value.1 <= |data| && r.value.0.raw == data[pos..r.value.1]
  {
    match HeadersFrom(data, p1, map[])
    case Err(e) => Err(HeadersFailed(e))
    case Ok((h, p2)) =>
      match BodyFrom(data, p2, h, start.httpMethod)
      case Err(e) => Err(BodyFailed(e))
      case Ok((body, p3)) =>
        Ok((HttpRequest(data[pos..p3], start.httpMethod, start.uri, start.version, h, body), p3))
  }

  /** `ParseResponse` from `pos`: the message and the position after it.
      `raw` is every byte consumed. */
  function ResponseFrom(data: string, pos: nat): (r: Result<(HttpResponse, nat), ParseError>)
    requires pos <= |data|
    ensures r.Ok? ==> pos < r.value.1 <= |data| && r.value.0.raw == data[pos..r.value.1]
  {
    match ReadLine(data, pos)
    case Err(e) => Err(StatusLineFailed(e))
    case Ok((line, p1)) =>
      match StatusLineOf(line)
      case Err(e) => Err(e)
      case Ok(start) => ResponseAfterLine(data, pos, p1, start)
  }

  /** The headers and body of a response whose status line, read from
      `pos`, ends before `p1`. A response that may not have a body ends
      after its headers. */
  function ResponseAfterLine(data: string, pos: nat, p1: nat, start: StatusLine): (r: Result<(HttpResponse, nat), ParseError>)
    requires pos < p1 <= |data|
    ensures r.Ok? ==> p1 <= r.value.1 <= |data| && r.value.0.raw == data[pos..r.value.1]
  {
    match HeadersFrom(data, p1, map[])
    case Err(e) => Err(HeadersFailed(e))
    case Ok((h, p2)) =>
      match (if ShouldHaveBody(start.code, "") then BodyFrom(data, p2, h, "") else Ok(("", p2)))
      case Err(e) => Err(BodyFailed(e))
      case Ok((body, p3)) =>
        Ok((HttpResponse(data[pos..p3], start.code, start.status, start.version, h, body), p3))
  }

  // ---------------------------------------------------------------------
  // The reading methods
  // ---------------------------------------------------------------------

  method ReadHeaders(r: Reader) returns (res: Result<Headers, IoError>)
    requires r.Valid()
    modifies r
    ensures r.Valid() && |r.raw| == old(|r.raw|) + (r.pos - old(r.pos))
    ensures Agrees(HeadersFrom(r.data, old(r.pos), map[]), res, r.pos)
  {
    var headers: Headers := map[];
    while true
      invariant r.Valid() && old(r.pos) <= r.pos && |r.raw| == old(|r.raw|) + (r.pos - old(r.pos))
      invariant HeadersFrom(r.data, old(r.pos), map[]) == HeadersFrom(r.data, r.pos, headers)
      decreases |r.data| - r.pos
    {
      var line, err := r.ReadString();
      if err.Some? {
        return Err(err.value);
      }
      line := TrimRightCRLF(line);
      if line == "" {
        return Ok(headers);
      }
      match IndexOf(line, ':')
      case None =>
      case Some(colon) =>
        var key := TrimSpace(line[..colon]);
        var value := TrimSpace(line[colon + 1..]);
        headers := headers[key := Values(headers, key) + [value]];
    }
  }

  /** One round of the `readChunkedBody` loop. */
  method ReadChunk(r: Reader) returns (step: ChunkStep)
    requires r.Valid()
    modifies r
    ensures r.Valid() && |r.raw| == old(|r.raw|) + (r.pos - old(r.pos))
    ensures step == ChunkStepAt(r.data, old(r.pos))
    ensures step.StepDone? ==> r.pos == step.end
    ensures step.StepChunk? ==> r.pos == step.next
  {
    var line, err := r.ReadString();
    if err.Some? {
      return StepFail(Io(err.value));
    }
    step := ReadChunkRest(r, ChunkHeaderOf(line));
  }

  /** The rest of a round, once the size line has announced `header`. */
  method ReadChunkRest(r: Reader, header: ChunkHeader) returns (step: ChunkStep)
    requires r.Valid() && 0 < r.pos && (header.Chunk? ==> header.size > 0)
    modifies r
    ensures r.Valid() && |r.raw| == old(|r.raw|) + (r.pos - old(r.pos))
    ensures step == ChunkStepAfter(r.data, old(r.pos), header)
    ensures step.StepDone? ==> r.pos == step.end
    ensures step.StepChunk? ==> r.pos == step.next
  {
    ghost var next := r.pos;
    match header
    case Invalid(e) =>
      return StepFail(e);
    case LastChunk =>
      var trailer, trailerErr := r.ReadString();
      return StepDone(r.pos);
    case Chunk(size) =>
      var chunk, readErr := r.ReadFull(size);
      if readErr.Some? {
        return StepFail(Io(readErr.value));
      }
      var rest, restErr := r.ReadString();
      return StepChunk(chunk, r.pos);
  }

  method ReadChunkedBody(r: Reader) returns (res: Result<string, BodyError>)
    requires r.Valid()
    modifies r
    ensures r.Valid() && |r.raw| == old(|r.raw|) + (r.pos - old(r.pos))
    ensures Agrees(ChunkedFrom(r.data, old(r.pos), ""), res, r.pos)
  {
    var body := "";
    while true
      invariant r.Valid() && old(r.pos) <= r.pos && |r.raw| == old(|r.raw|) + (r.pos - old(r.pos))
      invariant ChunkedFrom(r.data, old(r.pos), "") == ChunkedFrom(r.data, r.pos, body)
      decreases |r.data| - r.pos
    {
      var step := ReadChunk(r);
      match step
      case StepFail(e) =>
        return Err(e);
      case StepDone(_) =>
        return Ok(body);
      case StepChunk(chunk, _) =>
        body := body + chunk;
    }
  }

  method ReadBody(r: Reader, h: Headers, httpMethod: string) returns (res: Result<string, BodyError>)
    requires r.Valid()
    modifies r
    ensures r.Valid() && |r.raw| == old(|r.raw|) + (r.pos - old(r.pos))
    ensures Agrees(BodyFrom(r.data, old(r.pos), h, httpMethod), res, r.pos)
  {
    if !ShouldHaveBody(0, httpMethod) && httpMethod != "" {
      return Ok("");
    }
    if IsChunked(h) {
      res := ReadChunkedBody(r);
      return;
    }
    var contentLength := ContentLength(h);
    if contentLength > 0 {
      if contentLength > MaxAlloc {
        return Err(TooLarge(contentLength));
      }
      var body, err := r.ReadFull(contentLength);
      if err.Some? {
        return Err(Io(err.value));
      }
      return Ok(body);
    }
    return Ok("");
  }

  method ParseRequest(r: Reader) returns (res: Result<HttpRequest, ParseError>)
    requires r.Valid()
    modifies r
    ensures r.Valid()
    ensures Agrees(RequestFrom(r.data, old(r.pos)), res, r.pos)
  {
    r.StartTee();
    var line, err := r.ReadString();
    if err.Some? {
      return Err(RequestLineFailed(err.value));
    }
    var parts := SplitN3(TrimSpace(line));
    if |parts| != 3 {
      return Err(InvalidRequestLine(line));
    }
    var headers := ReadHeaders(r);
    if headers.Err? {
      return Err(HeadersFailed(headers.error));
    }
    var body := ReadBody(r, headers.value, parts[0]);
    if body.Err? {
      return Err(BodyFailed(body.error));
    }
    TeeHoldsConsumed(r, old(r.pos));
    res := Ok(HttpRequest(r.raw, parts[0], parts[1], parts[2], headers.value, body.value));
  }

  method ParseResponse(r: Reader) returns (res: Result<HttpResponse, ParseError>)
    requires r.Valid()
    modifies r
    ensures r.Valid()
    ensures Agrees(ResponseFrom(r.data, old(r.pos)), res, r.pos)
  {
    r.StartTee();
    var line, err := r.ReadString();
    if err.Some? {
      return Err(StatusLineFailed(err.value));
    }
    var parts := SplitN3(TrimSpace(line));
    if |parts| < 2 {
      return Err(InvalidStatusLine(line));
    }
    var code := ParseInt(parts[1], 10);
    if code.None? {
      return Err(BadStatusCode(parts[1]));
    }
    var status := parts[1];
    if |parts| == 3 {
      status := parts[1] + " " + parts[2];
    }
    var headers := ReadHeaders(r);
    if headers.Err? {
      return Err(HeadersFailed(headers.error));
    }
    var body := "";
    if ShouldHaveBody(code.value, "") {
      var b := ReadBody(r, headers.value, "");
      if b.Err? {
        return Err(BodyFailed(b.error));
      }
      body := b.value;
    }
    TeeHoldsConsumed(r, old(r.pos));
    res := Ok(HttpResponse(r.raw, code.value, status, parts[0], headers.value, body));
  }
}
