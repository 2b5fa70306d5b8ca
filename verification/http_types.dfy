/** HTTP/1.x messages as the proxy keeps them: the exact bytes read (`raw`),
    the fields of the start line, the headers and the body. A stream byte is
    held as the char with the same code. */
module HttpTypes {

  /** Header name to its values in arrival order. Names are kept as received
      and looked up case-sensitively. */
  type Headers = map<string, seq<string>>

  /** The values of a header; a missing name has none. */
  function Values(h: Headers, name: string): seq<string> {
    if name in h then h[name] else []
  }

  /** Appends one value under a name, keeping earlier values. */
  function AddHeader(h: Headers, name: string, value: string): (r: Headers)
    ensures Values(r, name) == Values(h, name) + [value]
    ensures forall n | n != name :: Values(r, n) == Values(h, n)
  {
    h[name := Values(h, name) + [value]]
  }

  datatype HttpRequest = HttpRequest(
    raw: string, httpMethod: string, uri: string, version: string, headers: Headers, body: string)
  {
    /** Whether the client asked for the connection to close after this
        exchange: an HTTP/1.1 request keeps it unless told otherwise. */
    predicate ShouldClose()
      ensures version == "HTTP/1.1" && "Connection" !in headers ==> !ShouldClose()
      ensures ShouldClose() ==> version == "HTTP/1.0" || "close" in Values(headers, "Connection")
    {
      ShouldCloseConnection(version, headers)
    }
  }

  datatype HttpResponse = HttpResponse(
    raw: string, statusCode: int, status: string, version: string, headers: Headers, body: string)
  {
    /** Whether the upstream asked for the connection to close after this
        exchange: an HTTP/1.0 response closes it unless told otherwise. */
    predicate ShouldClose()
      ensures version == "HTTP/1.0" && "Connection" !in headers ==> ShouldClose()
      ensures ShouldClose() ==> version == "HTTP/1.0" || "close" in Values(headers, "Connection")
    {
      ShouldCloseConnection(version, headers)
    }
  }

  /** Some `Connection` value is exactly "keep-alive". */
  predicate HasKeepAlive(h: Headers) {
    "keep-alive" in Values(h, "Connection")
  }

  /** Some `Connection` value is exactly "close". */
  predicate HasClose(h: Headers) {
    "close" in Values(h, "Connection")
  }

  /** The persistence decision shared by requests and responses: an HTTP/1.0
      message closes unless it asks for keep-alive; any other version closes
      only when asked to. */
  predicate ShouldCloseConnection(version: string, h: Headers)
    ensures "Connection" !in h ==> (ShouldCloseConnection(version, h) <==> version == "HTTP/1.0")
    ensures ShouldCloseConnection(version, h) ==> version == "HTTP/1.0" || "close" in Values(h, "Connection")
    ensures version == "HTTP/1.0" && "keep-alive" in Values(h, "Connection") ==> !ShouldCloseConnection(version, h)
  {
    if version == "HTTP/1.0" then !HasKeepAlive(h) else HasClose(h)
  }

  /** Requests and responses decide persistence by the same rule. */
  lemma RequestResponseAgree(req: HttpRequest, resp: HttpResponse)
    requires req.version == resp.version && req.headers == resp.headers
    ensures req.ShouldClose() == resp.ShouldClose()
  {
  }

  /** The decision reads nothing but the version and the `Connection` values. */
  lemma ShouldCloseReadsOnlyConnection(version: string, h1: Headers, h2: Headers)
    requires Values(h1, "Connection") == Values(h2, "Connection")
    ensures ShouldCloseConnection(version, h1) == ShouldCloseConnection(version, h2)
  {
  }

  /** HTTP/1.0 closes iff no `Connection` value is exactly "keep-alive";
      any other version closes iff some value is exactly "close". */
  lemma {:induction false} ShouldCloseByValues(version: string, h: Headers)
    ensures version == "HTTP/1.0" ==>
              (ShouldCloseConnection(version, h) <==>
                 forall i | 0 <= i < |Values(h, "Connection")| :: Values(h, "Connection")[i] != "keep-alive")
    ensures version != "HTTP/1.0" ==>
              (ShouldCloseConnection(version, h) <==>
                 exists i | 0 <= i < |Values(h, "Connection")| :: Values(h, "Connection")[i] == "close")
  {
    var vs := Values(h, "Connection");
    if "close" in vs {
      var i :| 0 <= i < |vs| && vs[i] == "close";
    }
  }

  /** Matching is exact on both the header name and its value, and an
      HTTP/1.0 message ignores "close"; "close" closes an HTTP/1.1 message. */
  lemma ShouldCloseExamples()
    ensures ShouldCloseConnection("HTTP/1.0", map["Connection" := ["Keep-Alive"]])
    ensures ShouldCloseConnection("HTTP/1.0", map["connection" := ["keep-alive"]])
    ensures !ShouldCloseConnection("HTTP/1.1", map["Connection" := ["close, x"]])
    ensures !ShouldCloseConnection("HTTP/1.0", map["Connection" := ["keep-alive", "close"]])
    ensures ShouldCloseConnection("HTTP/1.1", map["Connection" := ["close"]])
    ensures ShouldCloseConnection("HTTP/1.0", map[])
    ensures !ShouldCloseConnection("HTTP/1.1", map[])
  {
    var close := "close";
    var ka := "keep-alive";
    assert "Keep-Alive" != ka by { assert "Keep-Alive"[0] != ka[0]; }
    assert "close, x" != close by { assert |"close, x"| != |close|; }
  }
}
