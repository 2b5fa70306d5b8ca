/** The error responses the HTTP side sends to its client, and the proof
    that each reads back, with the proxy's own parser, as a complete
    body-less response that tells the client to close the connection. */
module HttpErrorResponse {
  import opened Common
  import opened Stream
  import opened HttpTypes
  import opened HttpParser
  import opened HttpChunked

  /** The status line of an error response, without its line break. */
  function ErrorStatusLine(code: nat, message: string): string {
    "HTTP/1.1 " + NatToDecimal(code) + " " + message
  }

  /** The fixed header block: an empty body, and the connection closes. */
  const ErrorHeaderBlock: string := "Content-Length: 0\r\nConnection: close\r\n\r\n"

  /** `sendErrorResponse`'s text for `code` and `message`. */
  function ErrorResponse(code: nat, message: string): (r: string)
    ensures IsPrefix("HTTP/1.1 ", r)
    ensures |ErrorHeaderBlock| < |r| && r[|r| - |ErrorHeaderBlock|..] == ErrorHeaderBlock
  {
    ErrorStatusLine(code, message) + "\r\n" + ErrorHeaderBlock
  }

  /** The headers a reader of an error response collects, in the order it
      collects them. */
  const ErrorHeaders: Headers := AddHeader(AddHeader(map[], "Content-Length", "0"), "Connection", "close")

  /** A reason phrase that survives the round trip: not empty, no trailing
      white space, no line break. */
  predicate ReasonPhrase(message: string) {
    && message != []
    && !IsSpace(message[|message| - 1])
    && forall i | 0 <= i < |message| :: message[i] != '\n'
  }

  // ---------------------------------------------------------------------
  // Text helpers
  // ---------------------------------------------------------------------

  lemma IndexOfAt(s: string, c: char, i: nat)
    requires i < |s| && s[i] == c
    requires forall j | 0 <= j < i :: s[j] != c
    ensures IndexOf(s, c) == Some(i)
  {
    IndexOfFirst(s, c);
  }

  /** A token with no white space at either end. */
  predicate Trimmed(s: string) {
    s != [] && !IsSpace(s[0]) && !IsSpace(s[|s| - 1])
  }

  lemma TrimmedTrims(s: string)
    requires Trimmed(s)
    ensures TrimSpace(s) == s && TrimSpace(" " + s) == s
  {
    assert (" " + s)[1..] == s;
  }

  /** A line whose text is trimmed is trimmed back to that text. */
  lemma TrimmedLine(text: string)
    requires Trimmed(text)
    ensures TrimSpace(text + "\r\n") == text
  {
    assert (text + "\r\n")[0] == text[0];
    assert TrimLeftSpace(text + "\r\n") == text + "\r\n";
    TrimRightSpaceCrlf(text);
  }

  lemma TrimRightCRLFOf(text: string)
    requires text != [] && text[|text| - 1] != '\r' && text[|text| - 1] != '\n'
    ensures TrimRightCRLF(text + "\r\n") == text
  {
    var t := text + "\r\n";
    assert t[..|t| - 1] == text + "\r";
    assert (text + "\r")[..|text|] == text;
    assert TrimRightCRLF(text) == text;
    assert TrimRightCRLF(text + "\r") == text;
  }

  // ---------------------------------------------------------------------
  // The status line
  // ---------------------------------------------------------------------

  lemma SplitAfterVersion(version: string, dec: string, message: string)
    requires version == "HTTP/1.1" && |dec| >= 1 && AllDigits(dec)
    ensures SplitN3(version + " " + (dec + " " + message)) == [version, dec, message]
  {
    var line := version + " " + (dec + " " + message);
    var rest := dec + " " + message;
    IndexOfAt(line, ' ', |version|);
    assert line[..|version|] == version;
    assert line[|version| + 1..] == rest;
    IndexOfAt(rest, ' ', |dec|);
    assert rest[..|dec|] == dec;
    assert rest[|dec| + 1..] == message;
  }

  lemma StatusLineText(code: nat, message: string)
    requires ReasonPhrase(message)
    ensures forall i | 0 <= i < |ErrorStatusLine(code, message)| :: ErrorStatusLine(code, message)[i] != '\n'
    ensures Trimmed(ErrorStatusLine(code, message))
  {
    var dec := NatToDecimal(code);
    var line := ErrorStatusLine(code, message);
    forall i | 0 <= i < |line|
      ensures line[i] != '\n'
    {
      if i < 9 {
        assert line[i] == "HTTP/1.1 "[i];
      } else if i < 9 + |dec| {
        assert line[i] == dec[i - 9];
      } else if i > 9 + |dec| {
        assert line[i] == message[i - 10 - |dec|];
      }
    }
    assert line[0] == 'H';
    assert line[|line| - 1] == message[|message| - 1];
  }

  /** The status line of an error response reads back as its version, its
      code, and the code with the reason phrase. */
  lemma ErrorStatusLineParses(code: nat, message: string)
    requires code <= MaxInt64 && ReasonPhrase(message)
    ensures StatusLineOf(ErrorStatusLine(code, message) + "\r\n") ==
              Ok(StatusLine("HTTP/1.1", code, NatToDecimal(code) + " " + message))
  {
    var dec := NatToDecimal(code);
    var line := ErrorStatusLine(code, message);
    assert line == "HTTP/1.1" + " " + (dec + " " + message);
    StatusLineText(code, message);
    TrimmedLine(line);
    SplitAfterVersion("HTTP/1.1", dec, message);
    DecimalRoundTrip(code);
  }

  // ---------------------------------------------------------------------
  // The header block
  // ---------------------------------------------------------------------

  function HeaderText(name: string, value: string): string {
    name + ": " + value
  }

  /** A header name and value as a sender writes them. */
  predicate HeaderField(name: string, value: string) {
    && Trimmed(name) && Trimmed(value)
    && (forall i | 0 <= i < |name| :: name[i] != ':' && name[i] != '\n')
    && (forall i | 0 <= i < |value| :: value[i] != '\n')
  }

  /** A "Name: value" line adds that value under that name. */
  lemma HeaderLineAdds(acc: Headers, name: string, value: string)
    requires HeaderField(name, value)
    ensures AddHeaderLine(acc, HeaderText(name, value)) == AddHeader(acc, name, value)
  {
    var t := HeaderText(name, value);
    IndexOfAt(t, ':', |name|);
    assert t[..|name|] == name;
    assert t[|name| + 1..] == " " + value;
    TrimmedTrims(name);
    TrimmedTrims(value);
  }

  lemma HeaderTextLine(name: string, value: string)
    requires HeaderField(name, value)
    ensures forall i | 0 <= i < |HeaderText(name, value)| :: HeaderText(name, value)[i] != '\n'
    ensures TrimRightCRLF(HeaderText(name, value) + "\r\n") == HeaderText(name, value) != ""
  {
    var l := HeaderText(name, value);
    forall i | 0 <= i < |l|
      ensures l[i] != '\n'
    {
      if i >= |name| + 2 {
        assert l[i] == value[i - |name| - 2];
      }
    }
    assert l[|l| - 1] == value[|value| - 1];
    TrimRightCRLFOf(l);
  }

  /** The line read at `p` is the header line. */
  lemma HeaderLineRead(data: string, p: nat, name: string, value: string)
    requires At(data, p, HeaderText(name, value) + "\r\n")
    requires HeaderField(name, value)
    ensures ReadLine(data, p) == Ok((HeaderText(name, value) + "\r\n", p + |HeaderText(name, value)| + 2))
    ensures TrimRightCRLF(HeaderText(name, value) + "\r\n") == HeaderText(name, value) != ""
  {
    HeaderTextLine(name, value);
    CrlfLineAt(data, p, HeaderText(name, value));
  }

  /** A non-empty line adds itself to the headers and reading goes on. */
  lemma HeadersGoOn(data: string, p: nat, acc: Headers, line: string, next: nat, text: string)
    requires p <= |data| && ReadLine(data, p) == Ok((line, next))
    requires TrimRightCRLF(line) == text != ""
    ensures HeadersFrom(data, p, acc) == HeadersFrom(data, next, AddHeaderLine(acc, text))
  {
  }

  /** An empty line ends the header block. */
  lemma HeadersStop(data: string, p: nat, acc: Headers, line: string, next: nat)
    requires p <= |data| && ReadLine(data, p) == Ok((line, next))
    requires TrimRightCRLF(line) == ""
    ensures HeadersFrom(data, p, acc) == Ok((acc, next))
  {
  }

  /** One header line at `p` adds its value and moves to the next line,
      which starts at `next`. */
  lemma HeaderLineStep(data: string, p: nat, acc: Headers, name: string, value: string, next: nat)
    requires At(data, p, HeaderText(name, value) + "\r\n")
    requires HeaderField(name, value) && next == p + |HeaderText(name, value)| + 2
    ensures next <= |data|
    ensures HeadersFrom(data, p, acc) == HeadersFrom(data, next, AddHeader(acc, name, value))
  {
    var l := HeaderText(name, value);
    HeaderLineRead(data, p, name, value);
    HeadersGoOn(data, p, acc, l + "\r\n", p + |l| + 2, l);
    HeaderLineAdds(acc, name, value);
  }

  /** An empty line at `p` ends the header block at `end`. */
  lemma HeaderBlockEnd(data: string, p: nat, acc: Headers, end: nat)
    requires At(data, p, "\r\n") && end == p + 2
    ensures HeadersFrom(data, p, acc) == Ok((acc, end))
  {
    assert "" + "\r\n" == "\r\n";
    CrlfLineAt(data, p, "");
    assert TrimRightCRLF("\r\n") == "" by {
      assert "\r\n"[..1] == "\r";
      assert "\r"[..0] == "";
    }
    HeadersStop(data, p, acc, "\r\n", p + 2);
  }

  function TwoHeaderBlock(n1: string, v1: string, n2: string, v2: string): string {
    HeaderText(n1, v1) + "\r\n" + HeaderText(n2, v2) + "\r\n\r\n"
  }

  /** Where the lines of a two-header block lie. */
  lemma TwoHeaderBlockLayout(data: string, p: nat, n1: string, v1: string, n2: string, v2: string)
    requires At(data, p, TwoHeaderBlock(n1, v1, n2, v2))
    ensures At(data, p, HeaderText(n1, v1) + "\r\n")
    ensures At(data, p + |HeaderText(n1, v1)| + 2, HeaderText(n2, v2) + "\r\n")
    ensures At(data, p + |HeaderText(n1, v1)| + |HeaderText(n2, v2)| + 4, "\r\n")
    ensures |TwoHeaderBlock(n1, v1, n2, v2)| == |HeaderText(n1, v1)| + |HeaderText(n2, v2)| + 6
  {
    var l1 := HeaderText(n1, v1) + "\r\n";
    var l2 := HeaderText(n2, v2) + "\r\n";
    assert TwoHeaderBlock(n1, v1, n2, v2) == l1 + (l2 + "\r\n");
    AtSplit(data, p, l1, l2 + "\r\n");
    AtSplit(data, p + |l1|, l2, "\r\n");
  }

  /** Two header lines and the empty line after them are read as those two
      headers, in order, and reading stops right after the empty line. */
  lemma TwoHeadersRead(data: string, p: nat, n1: string, v1: string, n2: string, v2: string)
    requires At(data, p, TwoHeaderBlock(n1, v1, n2, v2))
    requires HeaderField(n1, v1) && HeaderField(n2, v2)
    ensures HeadersFrom(data, p, map[]) ==
              Ok((AddHeader(AddHeader(map[], n1, v1), n2, v2), p + |TwoHeaderBlock(n1, v1, n2, v2)|))
  {
    var t1 := |HeaderText(n1, v1)|;
    var t2 := |HeaderText(n2, v2)|;
    var h1 := AddHeader(map[], n1, v1);
    var h2 := AddHeader(h1, n2, v2);
    var e1 := p + t1 + 2;
    var e2 := e1 + t2 + 2;
    TwoHeaderBlockLayout(data, p, n1, v1, n2, v2);
    calc {
      HeadersFrom(data, p, map[]);
      { HeaderLineStep(data, p, map[], n1, v1, e1); }
      HeadersFrom(data, e1, h1);
      { HeaderLineStep(data, e1, h1, n2, v2, e2); }
      HeadersFrom(data, e2, h2);
      { HeaderBlockEnd(data, e2, h2, e2 + 2); }
      Ok((h2, e2 + 2));
      Ok((AddHeader(AddHeader(map[], n1, v1), n2, v2), p + |TwoHeaderBlock(n1, v1, n2, v2)|));
    }
  }

  lemma LiteralField(name: string, value: string)
    requires name == "Content-Length" || name == "Connection"
    requires value == "0" || value == "close"
    ensures HeaderField(name, value)
  {
  }

  lemma ErrorHeaderBlockShape()
    ensures ErrorHeaderBlock == TwoHeaderBlock("Content-Length", "0", "Connection", "close")
  {
  }

  lemma ErrorHeadersRead(data: string, p: nat)
    requires At(data, p, ErrorHeaderBlock)
    ensures HeadersFrom(data, p, map[]) == Ok((ErrorHeaders, p + |ErrorHeaderBlock|))
  {
    LiteralField("Content-Length", "0");
    LiteralField("Connection", "close");
    ErrorHeaderBlockShape();
    TwoHeadersRead(data, p, "Content-Length", "0", "Connection", "close");
  }

  /** Whatever the method, the error headers frame no body: nothing says
      chunked and the length is zero. */
  lemma ErrorHeadersNoBody(data: string, p: nat, httpMethod: string)
    requires p <= |data|
    ensures BodyFrom(data, p, ErrorHeaders, httpMethod) == Ok(("", p))
  {
    assert Values(ErrorHeaders, "Transfer-Encoding") == [];
    assert Values(ErrorHeaders, "Content-Length") == ["0"];
    assert ParseInt("0", 10) == Some(0);
  }

  // ---------------------------------------------------------------------
  // The whole response
  // ---------------------------------------------------------------------

  lemma ResponseFromLine(data: string, pos: nat, line: string, p1: nat, start: StatusLine)
    requires pos <= |data| && ReadLine(data, pos) == Ok((line, p1))
    requires StatusLineOf(line) == Ok(start)
    ensures ResponseFrom(data, pos) == ResponseAfterLine(data, pos, p1, start)
  {
  }

  lemma BodilessAfterLine(data: string, pos: nat, p1: nat, start: StatusLine, h: Headers, end: nat)
    requires pos < p1 <= |data| && HeadersFrom(data, p1, map[]) == Ok((h, end))
    requires BodyFrom(data, end, h, "") == Ok(("", end))
    ensures ResponseAfterLine(data, pos, p1, start) ==
              Ok((HttpResponse(data[pos..end], start.code, start.status, start.version, h, ""), end))
  {
  }

  /** An error response reads back, to its last byte, as a response with
      its code, the code and the reason phrase as its status, version
      HTTP/1.1, a zero Content-Length and "Connection: close" as its
      headers, and no body; a client must close the connection after it. */
  lemma ErrorResponseParses(code: nat, message: string)
    requires code <= MaxInt64 && ReasonPhrase(message)
    ensures var text := ErrorResponse(code, message);
      ResponseFrom(text, 0) ==
        Ok((HttpResponse(text, code, NatToDecimal(code) + " " + message, "HTTP/1.1", ErrorHeaders, ""), |text|))
    ensures Values(ErrorHeaders, "Content-Length") == ["0"] && Values(ErrorHeaders, "Connection") == ["close"]
    ensures ShouldCloseConnection("HTTP/1.1", ErrorHeaders)
  {
    var line := ErrorStatusLine(code, message);
    var text := ErrorResponse(code, message);
    var p1 := |line| + 2;
    var end := |text|;
    assert text == (line + "\r\n") + ErrorHeaderBlock;
    assert At(text, 0, text) by { assert text[0..|text|] == text; }
    AtSplit(text, 0, line + "\r\n", ErrorHeaderBlock);
    StatusLineText(code, message);
    CrlfLineAt(text, 0, line);
    ErrorStatusLineParses(code, message);
    var start := StatusLine("HTTP/1.1", code, NatToDecimal(code) + " " + message);
    ResponseFromLine(text, 0, line + "\r\n", p1, start);
    ErrorHeadersRead(text, p1);
    ErrorHeadersNoBody(text, end, "");
    BodilessAfterLine(text, 0, p1, start, ErrorHeaders, end);
    assert text[0..end] == text;
  }

  /** The two responses the handler sends, "400 Bad Request" when a
      request cannot be read and "502 Bad Gateway" when no upstream answers:
      each is a complete response with that status that closes the
      connection. */
  lemma HandlerErrorResponses(code: nat, message: string)
    requires (code, message) == (400, "Bad Request") || (code, message) == (502, "Bad Gateway")
    ensures ResponseFrom(ErrorResponse(code, message), 0) ==
              Ok((HttpResponse(ErrorResponse(code, message), code, NatToDecimal(code) + " " + message, "HTTP/1.1", ErrorHeaders, ""),
                  |ErrorResponse(code, message)|))
    ensures ShouldCloseConnection("HTTP/1.1", ErrorHeaders)
  {
    assert ReasonPhrase(message);
    ErrorResponseParses(code, message);
  }
}
