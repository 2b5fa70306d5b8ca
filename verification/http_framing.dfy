/** Properties of the HTTP/1.x framer: which bytes decide a message, what
    `raw` holds, the body framing rules and chunked decoding. */
module HttpFraming {
  import opened Common
  import opened Stream
  import opened HttpTypes
  import opened HttpParser

  // ---------------------------------------------------------------------
  // The parser reads nothing past the end of the message: cutting the
  // stream right after it changes nothing. For a message at the start of
  // the stream this means `raw` parses back to the same message.
  // ---------------------------------------------------------------------

  lemma {:induction false} HeadersPrefix(data: string, e: nat, pos: nat, acc: Headers)
    requires pos <= e <= |data|
    requires HeadersFrom(data, pos, acc).Ok? && HeadersFrom(data, pos, acc).value.1 <= e
    ensures HeadersFrom(data[..e], pos, acc) == HeadersFrom(data, pos, acc)
    decreases |data| - pos
  {
    match ReadLine(data, pos)
    case Err(_) =>
    case Ok((line, next)) =>
      ReadLinePrefix(data, e, pos);
      var text := TrimRightCRLF(line);
      if text != "" {
        HeadersPrefix(data, e, next, AddHeaderLine(acc, text));
      }
  }

  lemma ChunkStepAfterPrefix(data: string, e: nat, next: nat, header: ChunkHeader)
    requires 0 < next <= e <= |data|
    requires header.Chunk? ==> header.size > 0
    requires ChunkStepAfter(data, next, header).StepDone? ==> ChunkStepAfter(data, next, header).end <= e
    requires ChunkStepAfter(data, next, header).StepChunk? ==> ChunkStepAfter(data, next, header).next <= e
    requires !ChunkStepAfter(data, next, header).StepFail?
    ensures ChunkStepAfter(data[..e], next, header) == ChunkStepAfter(data, next, header)
  {
    match header
    case Invalid(_) =>
    case LastChunk =>
      SkipLinePrefix(data, e, next);
    case Chunk(size) =>
      SkipLinePrefix(data, e, next + size);
      if next + size <= e {
        PrefixSlice(data, e, next, next + size);
      }
  }

  lemma ChunkStepPrefix(data: string, e: nat, pos: nat)
    requires pos <= e <= |data|
    requires ChunkStepAt(data, pos).StepDone? ==> ChunkStepAt(data, pos).end <= e
    requires ChunkStepAt(data, pos).StepChunk? ==> ChunkStepAt(data, pos).next <= e
    requires !ChunkStepAt(data, pos).StepFail?
    ensures ChunkStepAt(data[..e], pos) == ChunkStepAt(data, pos)
  {
    var (line, next) := ReadLine(data, pos).value;
    ReadLinePrefix(data, e, pos);
    ChunkStepAfterPrefix(data, e, next, ChunkHeaderOf(line));
  }

  lemma {:induction false} ChunkedPrefix(data: string, e: nat, pos: nat, body: string)
    requires pos <= e <= |data|
    requires ChunkedFrom(data, pos, body).Ok? && ChunkedFrom(data, pos, body).value.1 <= e
    ensures ChunkedFrom(data[..e], pos, body) == ChunkedFrom(data, pos, body)
    decreases |data| - pos
  {
    match ChunkStepAt(data, pos)
    case StepFail(_) =>
    case StepDone(_) =>
      ChunkStepPrefix(data, e, pos);
    case StepChunk(c, next) =>
      ChunkStepPrefix(data, e, pos);
      ChunkedPrefix(data, e, next, body + c);
  }

  lemma BodyPrefix(data: string, e: nat, pos: nat, h: Headers, httpMethod: string)
    requires pos <= e <= |data|
    requires BodyFrom(data, pos, h, httpMethod).Ok? && BodyFrom(data, pos, h, httpMethod).value.1 <= e
    ensures BodyFrom(data[..e], pos, h, httpMethod) == BodyFrom(data, pos, h, httpMethod)
  {
    match FramingOf(h, httpMethod)
    case NoBody =>
    case ChunkedBody =>
      ChunkedPrefix(data, e, pos, "");
    case FixedLength(n) =>
      if pos + n <= e {
        PrefixSlice(data, e, pos, pos + n);
      }
  }

  lemma RequestPrefix(data: string, e: nat, pos: nat)
    requires pos <= e <= |data|
    requires RequestFrom(data, pos).Ok? && RequestFrom(data, pos).value.1 <= e
    ensures RequestFrom(data[..e], pos) == RequestFrom(data, pos)
  {
    var (line, p1) := ReadLine(data, pos).value;
    ReadLinePrefix(data, e, pos);
    var start := RequestLineOf(line).value;
    var (h, p2) := HeadersFrom(data, p1, map[]).value;
    HeadersPrefix(data, e, p1, map[]);
    BodyPrefix(data, e, p2, h, start.httpMethod);
    assert ReadLine(data[..e], pos) == Ok((line, p1));
    assert HeadersFrom(data[..e], p1, map[]) == Ok((h, p2));
    var (body, p3) := BodyFrom(data, p2, h, start.httpMethod).value;
    assert BodyFrom(data[..e], p2, h, start.httpMethod) == Ok((body, p3));
    PrefixSlice(data, e, pos, p3);
  }

  lemma ResponsePrefix(data: string, e: nat, pos: nat)
    requires pos <= e <= |data|
    requires ResponseFrom(data, pos).Ok? && ResponseFrom(data, pos).value.1 <= e
    ensures ResponseFrom(data[..e], pos) == ResponseFrom(data, pos)
  {
    var (line, p1) := ReadLine(data, pos).value;
    ReadLinePrefix(data, e, pos);
    var start := StatusLineOf(line).value;
    var (h, p2) := HeadersFrom(data, p1, map[]).value;
    HeadersPrefix(data, e, p1, map[]);
    if ShouldHaveBody(start.code, "") {
      BodyPrefix(data, e, p2, h, "");
    }
    assert ReadLine(data[..e], pos) == Ok((line, p1));
    assert HeadersFrom(data[..e], p1, map[]) == Ok((h, p2));
    var p3 := ResponseFrom(data, pos).value.1;
    PrefixSlice(data, e, pos, p3);
  }

  /** A request parsed from the start of the stream: its `raw` bytes parse
      back, on their own, to the same request, consumed to the last byte, so
      forwarding `raw` upstream forwards exactly this message; and when the
      stream holds nothing else, `raw` is the whole stream. */
  lemma RequestRawReparses(data: string, req: HttpRequest, next: nat)
    requires RequestFrom(data, 0) == Ok((req, next))
    ensures next == |req.raw| && RequestFrom(req.raw, 0) == Ok((req, next))
    ensures next == |data| ==> req.raw == data
  {
    PrefixFromStart(data, next);
    var prefix := data[..next];
    assert req.raw == prefix;
    RequestPrefix(data, next, 0);
    assert RequestFrom(prefix, 0) == Ok((req, next));
  }

  /** The same for a response read from the start of the upstream stream:
      the client receives exactly this message. */
  lemma ResponseRawReparses(data: string, resp: HttpResponse, next: nat)
    requires ResponseFrom(data, 0) == Ok((resp, next))
    ensures next == |resp.raw| && ResponseFrom(resp.raw, 0) == Ok((resp, next))
    ensures next == |data| ==> resp.raw == data
  {
    PrefixFromStart(data, next);
    var prefix := data[..next];
    assert resp.raw == prefix;
    ResponsePrefix(data, next, 0);
    assert ResponseFrom(prefix, 0) == Ok((resp, next));
  }
}

module HttpFramingRules {
  import opened Common
  import opened Stream
  import opened HttpTypes
  import opened HttpParser

  // ---------------------------------------------------------------------
  // The header lookups behind the framing decision
  // ---------------------------------------------------------------------

  /** `isChunked` holds iff some Transfer-Encoding value, lower-cased,
      contains "chunked". */
  lemma {:induction false} AnyChunkedExists(values: seq<string>)
    ensures AnyChunked(values) <==>
              exists i | 0 <= i < |values| :: Contains(ToLowerAscii(values[i]), "chunked")
    decreases |values|
  {
    if values != [] {
      var tail := values[1..];
      AnyChunkedExists(tail);
      if AnyChunked(tail) {
        var i :| 0 <= i < |tail| && Contains(ToLowerAscii(tail[i]), "chunked");
        assert values[i + 1] == tail[i];
      }
      if exists i | 0 <= i < |values| :: Contains(ToLowerAscii(values[i]), "chunked") {
        var i :| 0 <= i < |values| && Contains(ToLowerAscii(values[i]), "chunked");
        if i > 0 {
          assert tail[i - 1] == values[i];
        }
      }
    }
  }

  /** `getContentLength`: the first value that parses as a decimal int64
      decides, whatever follows it. */
  lemma {:induction false} FirstInt64Decides(values: seq<string>, i: nat)
    requires i < |values| && ParseInt(values[i], 10).Some?
    requires forall j | 0 <= j < i :: ParseInt(values[j], 10).None?
    ensures FirstInt64(values) == ParseInt(values[i], 10).value
    decreases i
  {
    if i > 0 {
      var tail := values[1..];
      assert tail[i - 1] == values[i];
      forall j | 0 <= j < i - 1
        ensures ParseInt(tail[j], 10).None?
      {
        assert tail[j] == values[j + 1];
      }
      FirstInt64Decides(tail, i - 1);
    }
  }

  /** `getContentLength`: 0 when no value parses. */
  lemma {:induction false} FirstInt64NoneParses(values: seq<string>)
    requires forall j | 0 <= j < |values| :: ParseInt(values[j], 10).None?
    ensures FirstInt64(values) == 0
    decreases |values|
  {
    if values != [] {
      var tail := values[1..];
      forall j | 0 <= j < |tail|
        ensures ParseInt(tail[j], 10).None?
      {
        assert tail[j] == values[j + 1];
      }
      FirstInt64NoneParses(tail);
    }
  }

  // ---------------------------------------------------------------------
  // The framing decision
  // ---------------------------------------------------------------------

  /** GET, HEAD and DELETE requests never have a body, whatever their
      headers announce: the request ends with its headers. */
  lemma BodilessRequest(data: string, pos: nat, req: HttpRequest, next: nat)
    requires pos <= |data| && RequestFrom(data, pos) == Ok((req, next))
    requires req.httpMethod == "GET" || req.httpMethod == "HEAD" || req.httpMethod == "DELETE"
    ensures req.body == ""
    ensures ReadLine(data, pos).Ok?
    ensures HeadersFrom(data, ReadLine(data, pos).value.1, map[]) == Ok((req.headers, next))
  {
    var (line, p1) := ReadLine(data, pos).value;
    BodilessRequestAfterLine(data, pos, p1, RequestLineOf(line).value, req, next);
  }

  lemma BodilessRequestAfterLine(data: string, pos: nat, p1: nat, start: RequestLine, req: HttpRequest, next: nat)
    requires pos < p1 <= |data| && RequestAfterLine(data, pos, p1, start) == Ok((req, next))
    requires req.httpMethod == "GET" || req.httpMethod == "HEAD" || req.httpMethod == "DELETE"
    ensures req.body == ""
    ensures HeadersFrom(data, p1, map[]) == Ok((req.headers, next))
  {
    var (h, p2) := HeadersFrom(data, p1, map[]).value;
    assert FramingOf(h, req.httpMethod) == NoBody;
  }

  /** 1xx, 204 and 304 responses never have a body, whatever their headers
      announce: the response ends with its headers. Any other response
      reads its body as `readBody` frames it for a response, which has no
      request method. */
  lemma ResponseFraming(data: string, pos: nat, resp: HttpResponse, next: nat)
    requires pos <= |data| && ResponseFrom(data, pos) == Ok((resp, next))
    ensures ReadLine(data, pos).Ok? && HeadersFrom(data, ReadLine(data, pos).value.1, map[]).Ok?
    ensures var (h, p2) := HeadersFrom(data, ReadLine(data, pos).value.1, map[]).value;
      h == resp.headers &&
      if 100 <= resp.statusCode < 200 || resp.statusCode == 204 || resp.statusCode == 304
      then resp.body == "" && next == p2
      else BodyFrom(data, p2, h, "") == Ok((resp.body, next))
  {
    var (line, p1) := ReadLine(data, pos).value;
    ResponseFramingAfterLine(data, pos, p1, StatusLineOf(line).value, resp, next);
  }

  lemma ResponseFramingAfterLine(data: string, pos: nat, p1: nat, start: StatusLine, resp: HttpResponse, next: nat)
    requires pos < p1 <= |data| && ResponseAfterLine(data, pos, p1, start) == Ok((resp, next))
    ensures HeadersFrom(data, p1, map[]).Ok?
    ensures var (h, p2) := HeadersFrom(data, p1, map[]).value;
      h == resp.headers &&
      if 100 <= resp.statusCode < 200 || resp.statusCode == 204 || resp.statusCode == 304
      then resp.body == "" && next == p2
      else BodyFrom(data, p2, h, "") == Ok((resp.body, next))
  {
  }

  /** Chunked framing is decided before Content-Length: once a body is
      chunked, no Content-Length value changes how it is read. */
  lemma ChunkedIgnoresLength(data: string, pos: nat, h: Headers, httpMethod: string, lengths: seq<string>)
    requires pos <= |data| && IsChunked(h)
    ensures BodyFrom(data, pos, h, httpMethod) == BodyFrom(data, pos, h["Content-Length" := lengths], httpMethod)
  {
    assert Values(h["Content-Length" := lengths], "Transfer-Encoding") == Values(h, "Transfer-Encoding");
  }

  /** A body that may be present and is not chunked is exactly the
      Content-Length bytes when that is positive (an error when fewer
      remain, or when `make` could not allocate that many), and empty
      otherwise. */
  lemma LengthFramedBody(data: string, pos: nat, h: Headers, httpMethod: string)
    requires pos <= |data| && !IsChunked(h)
    requires httpMethod == "" || ShouldHaveBody(0, httpMethod)
    ensures var n := ContentLength(h);
      0 < n <= MaxAlloc && pos + n <= |data| ==> BodyFrom(data, pos, h, httpMethod) == Ok((data[pos..pos + n], pos + n))
    ensures var n := ContentLength(h);
      0 < n <= MaxAlloc && pos + n > |data| ==> BodyFrom(data, pos, h, httpMethod) == Err(Io(ReadFullFailure(|data| - pos)))
    ensures var n := ContentLength(h);
      n > MaxAlloc ==> BodyFrom(data, pos, h, httpMethod) == Err(TooLarge(n))
    ensures ContentLength(h) <= 0 ==> BodyFrom(data, pos, h, httpMethod) == Ok(("", pos))
  {
  }

  // ---------------------------------------------------------------------
  // Headers
  // ---------------------------------------------------------------------

  /** One header line only appends. */
  lemma HeaderLineOnlyAppends(acc: Headers, text: string, name: string)
    ensures Values(acc, name) <= Values(AddHeaderLine(acc, text), name)
  {
    match IndexOf(text, ':')
    case None =>
    case Some(c) =>
      var key := TrimSpace(text[..c]);
      if key == name {
        assert Values(AddHeaderLine(acc, text), name) == Values(acc, name) + [TrimSpace(text[c + 1..])];
      }
  }

  /** Reading headers only ever appends: every name keeps the values it had,
      in order, as a prefix of its final values. */
  lemma {:induction false} HeadersOnlyAppend(data: string, pos: nat, acc: Headers, name: string)
    requires pos <= |data| && HeadersFrom(data, pos, acc).Ok?
    ensures Values(acc, name) <= Values(HeadersFrom(data, pos, acc).value.0, name)
    decreases |data| - pos
  {
    var (line, next) := ReadLine(data, pos).value;
    var text := TrimRightCRLF(line);
    if text != "" {
      var acc' := AddHeaderLine(acc, text);
      assert HeadersFrom(data, pos, acc) == HeadersFrom(data, next, acc');
      HeadersOnlyAppend(data, next, acc', name);
      HeaderLineOnlyAppends(acc, text, name);
    }
  }

  // ---------------------------------------------------------------------
  // Chunk-size lines (see the findings in README.md)
  // ---------------------------------------------------------------------

  /** As written, a negative hexadecimal size reaches `make`, which panics. */
  lemma NegativeChunkSizePanics()
    ensures ChunkHeaderAsWritten("-1\r\n") == MakeSlicePanic(-1)
  {
    var s := "-1\r\n";
    assert TrimLeftSpace(s) == s;
    assert TrimRightSpace("-1") == "-1";
    assert TrimRightSpace("-1\r") == "-1" by {
      assert "-1\r"[..2] == "-1";
    }
    assert TrimRightSpace(s) == "-1" by {
      assert s[..3] == "-1\r";
    }
    assert TrimSpace(s) == "-1";
    assert ParseInt("-1", 16) == Some(-1) by {
      assert "-1"[1..] == "1";
      assert DigitsValue("1", 16) == Some(1);
    }
  }

  /** The corrected size step agrees with the source wherever the source
      does not panic, and reports the size it panics on where it does. */
  lemma ChunkHeaderCorrected(line: string)
    ensures ChunkHeaderAsWritten(line).Allocated? ==> ChunkHeaderOf(line) == ChunkHeaderAsWritten(line).value
    ensures ChunkHeaderAsWritten(line).MakeSlicePanic? <==>
              ChunkHeaderOf(line).Invalid? && (ChunkHeaderOf(line).err.NegativeChunkSize? || ChunkHeaderOf(line).err.TooLarge?)
    ensures ChunkHeaderAsWritten(line).MakeSlicePanic? ==>
              var n := ChunkHeaderAsWritten(line).size;
              ChunkHeaderOf(line) == Invalid(if n < 0 then NegativeChunkSize(n) else TooLarge(n))
  {
  }

  // ---------------------------------------------------------------------
  // Content-Length above what `make` can allocate (see the findings in
  // README.md)
  // ---------------------------------------------------------------------

  /** The corrected framing agrees with the source wherever the source does
      not panic; it panics exactly on a Content-Length above `MaxAlloc`,
      where the corrected body read fails with that length, whatever the
      stream holds. */
  lemma FramingCorrected(data: string, pos: nat, h: Headers, httpMethod: string)
    requires pos <= |data|
    ensures FramingAsWritten(h, httpMethod).Allocated? ==> FramingAsWritten(h, httpMethod).value == FramingOf(h, httpMethod)
    ensures FramingAsWritten(h, httpMethod).MakeSlicePanic? <==>
              && FramingOf(h, httpMethod).FixedLength?
              && BodyFrom(data, pos, h, httpMethod).Err? && BodyFrom(data, pos, h, httpMethod).error.TooLarge?
    ensures FramingAsWritten(h, httpMethod).MakeSlicePanic? ==>
              BodyFrom(data, pos, h, httpMethod) == Err(TooLarge(FramingAsWritten(h, httpMethod).size))
  {
  }

  /** A request whose Content-Length, written in decimal, is above
      `MaxAlloc` but still an int64 (9223372036854775807, say): as written,
      reading its body panics; corrected, it fails with that length. */
  lemma HugeContentLengthPanics(data: string, pos: nat, n: nat)
    requires pos <= |data| && MaxAlloc < n <= MaxInt64
    ensures var h := map["Content-Length" := [NatToDecimal(n)]];
      && FramingAsWritten(h, "POST") == MakeSlicePanic(n)
      && BodyFrom(data, pos, h, "POST") == Err(TooLarge(n))
  {
    var h := map["Content-Length" := [NatToDecimal(n)]];
    DecimalRoundTrip(n);
    FirstInt64Decides(Values(h, "Content-Length"), 0);
    assert ContentLength(h) == n;
    assert !IsChunked(h) by {
      assert Values(h, "Transfer-Encoding") == [];
    }
    assert FramingOf(h, "POST") == FixedLength(n);
  }
}
