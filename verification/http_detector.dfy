/** The sniffer that tells an HTTP/1.x client from a SOCKS5 client by the
    first bytes it sends, without consuming them. */
module HttpDetector {
  import opened Common
  import opened Stream

  /** The request methods recognised, each with the space that ends it. */
  const HttpMethods: seq<string> :=
    ["GET ", "POST ", "PUT ", "DELETE ", "HEAD ", "OPTIONS ", "PATCH ", "CONNECT ", "TRACE "]

  /** How many bytes are looked at. */
  const PeekSize: nat := 16

  /** `s` starts with one of the method prefixes; matching is exact, so
      case matters. */
  predicate StartsWithMethod(s: string)
    ensures StartsWithMethod(s) ==> 4 <= |s| && 'A' <= s[0] <= 'Z'
  {
    exists i | 0 <= i < |HttpMethods| :: IsPrefix(HttpMethods[i], s)
  }

  /** The specification of `DetectProtocol` on a stream at `pos`: an error
      when fewer than 16 bytes remain, otherwise whether those 16 bytes
      start with a method. */
  function Detect(data: string, pos: nat): (r: Result<bool, IoError>)
    requires pos <= |data|
    ensures r.Err? <==> |data| - pos < PeekSize
    ensures r.Err? ==> r.error == EOF
  {
    if pos + PeekSize > |data| then Err(EOF)
    else Ok(StartsWithMethod(data[pos..pos + PeekSize]))
  }

  /** Peeks at 16 bytes and tries each method in table order. The reader
      is not modified: detection consumes nothing, so a parse that follows
      starts from the same byte. */
  method DetectProtocol(r: Reader) returns (isHttp: bool, err: Option<IoError>)
    requires r.Valid()
    ensures match Detect(r.data, r.pos)
      case Ok(b) => err == None && isHttp == b
      case Err(e) => err == Some(e) && !isHttp
  {
    var peek, peekErr := r.Peek(PeekSize);
    if peekErr.Some? {
      return false, peekErr;
    }
    var i := 0;
    while i < |HttpMethods|
      invariant 0 <= i <= |HttpMethods|
      invariant forall j | 0 <= j < i :: !IsPrefix(HttpMethods[j], peek)
    {
      if IsPrefix(HttpMethods[i], peek) {
        return true, None;
      }
      i := i + 1;
    }
    return false, None;
  }

  /** No method prefix is longer than the bytes peeked. */
  lemma MethodsFitPeek()
    ensures forall i | 0 <= i < |HttpMethods| :: 0 < |HttpMethods[i]| <= PeekSize
  {
  }

  /** With at least 16 bytes available the answer is yes exactly when the
      stream itself starts with one of the nine method prefixes. */
  lemma DetectIffStreamStarts(data: string, pos: nat)
    requires pos + PeekSize <= |data|
    ensures Detect(data, pos) == Ok(StartsWithMethod(data[pos..]))
  {
    var peek := data[pos..pos + PeekSize];
    var rest := data[pos..];
    MethodsFitPeek();
    forall i | 0 <= i < |HttpMethods|
      ensures IsPrefix(HttpMethods[i], peek) <==> IsPrefix(HttpMethods[i], rest)
    {
      var m := HttpMethods[i];
      assert peek[..|m|] == rest[..|m|];
    }
  }

  /** Only the first 16 bytes from `pos` matter. */
  lemma DetectReadsPeekOnly(d1: string, d2: string, pos: nat)
    requires pos <= |d1| && pos <= |d2|
    requires |d1| - pos >= PeekSize <==> |d2| - pos >= PeekSize
    requires pos + PeekSize <= |d1| ==> d1[pos..pos + PeekSize] == d2[pos..pos + PeekSize]
    ensures Detect(d1, pos) == Detect(d2, pos)
  {
  }

  /** The first 16 bytes of a TLS ClientHello record. */
  const TlsHelloStart: string := ['\U{16}', '\U{03}', '\U{01}', '\U{02}', '\U{00}', '\U{01}', '\U{00}', '\U{01}', '\U{FC}', '\U{03}', '\U{03}', '\U{00}', '\U{00}', '\U{00}', '\U{00}', '\U{00}']

  /** "POST /api" is HTTP, lower-case "get /" is not, nor is a TLS
      ClientHello, and a seven-byte request is an error, not a "no". */
  lemma DetectExamples()
    ensures Detect("POST /api HTTP/1.1\r\n", 0) == Ok(true)
    ensures Detect("get / HTTP/1.1\r\nHost: a\r\n", 0) == Ok(false)
    ensures Detect(TlsHelloStart, 0) == Ok(false)
    ensures Detect("GET /\r\n", 0) == Err(EOF)
  {
    var post := "POST /api HTTP/1.1\r\n";
    assert IsPrefix(HttpMethods[1], post[0..PeekSize]);
    var get := "get / HTTP/1.1\r\nHost: a\r\n"[0..PeekSize];
    forall i | 0 <= i < |HttpMethods|
      ensures !IsPrefix(HttpMethods[i], get)
    {
      assert HttpMethods[i][0] != get[0];
    }
    var tls := TlsHelloStart;
    forall i | 0 <= i < |HttpMethods|
      ensures !IsPrefix(HttpMethods[i], tls[0..PeekSize])
    {
      assert HttpMethods[i][0] != tls[0];
    }
  }
}
