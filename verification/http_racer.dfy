/** The HTTP side of the proxy: the race of one request across the
    upstreams, the error responses sent to the client, and the
    read-race-write loop over a client connection. */
module HttpRacer {
  import opened Common
  import opened Stream
  import opened HttpTypes
  import opened HttpParser
  import opened HttpErrorResponse
  import opened HttpFraming

  /** An upstream SOCKS5 proxy: a display name, possibly empty, and its
      address. */
  datatype Upstream = Upstream(name: string, address: string)

  /** The upstream's name as reported for a winner: "Name (Address)" when
      it has a name, its address alone otherwise. */
  function WinnerName(u: Upstream): (s: string)
    ensures s == u.address <==> u.name == ""
    ensures u.name != "" ==> IsPrefix(u.name + " (", s) && s[|s| - 1] == ')'
    ensures u.name != "" ==> |s| == |u.name| + |u.address| + 3 && s[|u.name| + 2..|s| - 1] == u.address
  {
    if u.name != "" then u.name + " (" + u.address + ")" else u.address
  }

  // ---------------------------------------------------------------------
  // The race of one request
  // ---------------------------------------------------------------------

  /** What a worker hands back for its upstream: the response it parsed, or
      why it got none. */
  datatype WorkerResult =
    | Responded(upstream: Upstream, response: HttpResponse)
    | Failed(upstream: Upstream, err: string)

  /** How a race ends. A winner comes with the number of results still to
      be drained from the channel; failures are skipped, not collected. */
  datatype RaceOutcome =
    | Won(response: HttpResponse, winnerName: string, drain: nat)
    | TimedOut
    | AllFailed
  {
    /** The error `raceRequest` returns when nobody wins. */
    function Error(): string
      requires !Won?
    {
      if TimedOut? then "request timeout" else "all upstreams failed"
    }
  }

  /** The position of the first response among the first `n` arrivals. */
  function FirstResponse(arrivals: seq<WorkerResult>, n: nat): (r: Option<nat>)
    ensures r.Some? ==> r.value < n && r.value < |arrivals| && arrivals[r.value].Responded?
    ensures r.Some? ==> forall j | 0 <= j < r.value :: arrivals[j].Failed?
    ensures r.None? ==> forall j | 0 <= j < n && j < |arrivals| :: arrivals[j].Failed?
    decreases n
  {
    if n == 0 || arrivals == [] then None
    else if arrivals[0].Responded? then Some(0)
    else
      match FirstResponse(arrivals[1..], n - 1)
      case None => None
      case Some(k) => Some(k + 1)
  }

  /** The specification of `raceRequest` for `n` upstreams. `arrivals` are
      the results received before the five-second deadline, in arrival
      order; when they run out before `n` results have been taken, the
      deadline has struck. */
  function Race(n: nat, arrivals: seq<WorkerResult>): (r: RaceOutcome)
    ensures r.Won? ==> r.drain < n && n - r.drain <= |arrivals|
    ensures r.TimedOut? ==> |arrivals| < n
    ensures r.AllFailed? ==> n <= |arrivals|
  {
    match FirstResponse(arrivals, n)
    case Some(i) => Won(arrivals[i].response, WinnerName(arrivals[i].upstream), n - i - 1)
    case None => if |arrivals| < n then TimedOut else AllFailed
  }

  /** The receive loop of `raceRequest`: takes results one at a time, up to
      one per upstream, and stops at the first response. */
  method RaceRequest(n: nat, arrivals: seq<WorkerResult>) returns (outcome: RaceOutcome)
    ensures outcome == Race(n, arrivals)
  {
    var i := 0;
    while i < n
      invariant 0 <= i <= n
      invariant i <= |arrivals| && forall j | 0 <= j < i :: arrivals[j].Failed?
    {
      if i >= |arrivals| {
        assert FirstResponse(arrivals, n).None?;
        return TimedOut;
      }
      var res := arrivals[i];
      if res.Responded? {
        FirstResponseIs(arrivals, n, i);
        return Won(res.response, WinnerName(res.upstream), n - i - 1);
      }
      i := i + 1;
    }
    NoResponse(arrivals, n);
    return AllFailed;
  }

  lemma {:induction false} FirstResponseIs(arrivals: seq<WorkerResult>, n: nat, i: nat)
    requires i < n && i < |arrivals| && arrivals[i].Responded?
    requires forall j | 0 <= j < i :: arrivals[j].Failed?
    ensures FirstResponse(arrivals, n) == Some(i)
    decreases n
  {
    if i > 0 {
      FirstResponseIs(arrivals[1..], n - 1, i - 1);
    }
  }

  lemma {:induction false} NoResponse(arrivals: seq<WorkerResult>, n: nat)
    requires forall j | 0 <= j < n && j < |arrivals| :: arrivals[j].Failed?
    ensures FirstResponse(arrivals, n) == None
    decreases n
  {
    if n > 0 && arrivals != [] {
      NoResponse(arrivals[1..], n - 1);
    }
  }

  /** The race is won exactly when one of the first `n` arrivals is a
      response, and then by the first of them, whose upstream names the
      winner; otherwise it times out exactly when fewer than `n` results
      came in, and all upstreams have failed when `n` failures did. */
  lemma RaceCases(n: nat, arrivals: seq<WorkerResult>)
    ensures Race(n, arrivals).Won? <==> exists i | 0 <= i < n && i < |arrivals| :: arrivals[i].Responded?
    ensures Race(n, arrivals).Won? ==>
              exists i | 0 <= i < n && i < |arrivals| ::
                && arrivals[i].Responded?
                && (forall j | 0 <= j < i :: arrivals[j].Failed?)
                && Race(n, arrivals) == Won(arrivals[i].response, WinnerName(arrivals[i].upstream), n - i - 1)
    ensures Race(n, arrivals).TimedOut? <==>
              |arrivals| < n && forall j | 0 <= j < |arrivals| :: arrivals[j].Failed?
    ensures Race(n, arrivals).AllFailed? <==>
              |arrivals| >= n && forall j | 0 <= j < n :: arrivals[j].Failed?
  {
    match FirstResponse(arrivals, n)
    case Some(i) =>
      assert 0 <= i < n && i < |arrivals| && arrivals[i].Responded?;
    case None =>
  }

  /** Results that come in after the `n`-th are never looked at. */
  lemma RaceIgnoresLateArrivals(n: nat, arrivals: seq<WorkerResult>, later: seq<WorkerResult>)
    requires n <= |arrivals|
    ensures Race(n, arrivals + later) == Race(n, arrivals)
  {
    var all := arrivals + later;
    match FirstResponse(arrivals, n)
    case Some(i) =>
      FirstResponseIs(all, n, i);
    case None =>
      NoResponse(all, n);
  }

  /** `drainChannel`: takes `remaining` more results off the channel. */
  method DrainChannel(channel: seq<WorkerResult>, remaining: nat) returns (left: seq<WorkerResult>)
    requires remaining <= |channel|
    ensures left == channel[remaining..]
  {
    left := channel;
    var i := 0;
    while i < remaining
      invariant 0 <= i <= remaining && left == channel[i..]
    {
      left := left[1..];
      i := i + 1;
    }
  }

  /** A race followed by the drain it starts, when every upstream's result
      is sent on the channel: the selection loop and the drain take all `n`
      results between them, so the channel ends empty and the drain
      goroutine finishes. */
  method RaceThenDrain(n: nat, arrivals: seq<WorkerResult>) returns (outcome: RaceOutcome, left: seq<WorkerResult>)
    requires |arrivals| == n
    ensures outcome == Race(n, arrivals)
    ensures outcome.Won? || outcome.AllFailed?
    ensures left == []
  {
    outcome := RaceRequest(n, arrivals);
    if outcome.Won? {
      // The results the loop received, the winner's included.
      var taken := n - outcome.drain;
      left := DrainChannel(arrivals[taken..], outcome.drain);
    } else {
      left := arrivals[n..];
    }
  }

  // ---------------------------------------------------------------------
  // The connection loop
  // ---------------------------------------------------------------------

  /** Why `HandleHTTP` gives up on a connection. */
  datatype HandleError =
    | ParseFailed(parse: ParseError)  // the request could not be read
    | RaceFailed(reason: string)      // no upstream answered
    | WriteFailed                     // the response could not be written back

  /** What a connection comes to: every byte written to the client, and the
      error returned, if any. */
  datatype Session = Session(written: string, err: Option<HandleError>)

  /** `errors.Is(err, io.EOF)` for a parse error: the end of the stream
      was hit while reading a line or, with nothing left, a body. */
  predicate WrapsEOF(e: ParseError) {
    e == RequestLineFailed(EOF) || e == HeadersFailed(EOF) || e == BodyFailed(Io(EOF))
  }

  /** The handler's answer to a request that cannot be read, as written:
      it compares the error it got with `io.EOF`, but `ParseRequest` always
      wraps what fails, so the comparison never holds and every failure,
      the client's clean close included, is answered with a 400. */
  function ParseFailureAsWritten(e: ParseError): (s: Session)
    ensures s.err == Some(ParseFailed(e))
    ensures s.written == ErrorResponse(400, "Bad Request") && s.written != ""
  {
    Session(ErrorResponse(400, "Bad Request"), Some(ParseFailed(e)))
  }

  /** The answer with the comparison made through the wrapping: any read
      failure that wraps `io.EOF` (a request cut off in its request line,
      its headers or its body) ends the session quietly; any other failure
      is answered with a 400. */
  function ParseFailure(e: ParseError): (s: Session)
    ensures s.err.None? <==> WrapsEOF(e)
    ensures s.err.None? ==> s.written == ""
    ensures s.err.Some? ==> s == ParseFailureAsWritten(e)
  {
    if WrapsEOF(e) then Session("", None) else Session(ErrorResponse(400, "Bad Request"), Some(ParseFailed(e)))
  }

  /** Which answer to a request that cannot be read the handler gives: the
      source's, or the one with the comparison made through the wrapping. */
  datatype EofHandling = AsWritten | Corrected

  /** `s` ends with `t`. */
  predicate EndsWith(s: string, t: string) {
    |t| <= |s| && s[|s| - |t|..] == t
  }

  /** Writing more in front keeps what a session ends with. */
  lemma EndsWithAppend(a: string, b: string)
    ensures forall t | EndsWith(b, t) :: EndsWith(a + b, t)
  {
    forall t | EndsWith(b, t)
      ensures EndsWith(a + b, t)
    {
      assert (a + b)[|a + b| - |t|..] == b[|b| - |t|..];
    }
  }

  /** The specification of `HandleHTTP` on a client stream at `pos`, in the
      `round`-th exchange: read a request, race it, write the winning
      response back, and go on unless either side asked to close.
      `h` chooses the answer to a request that cannot be read (`AsWritten`
      is the source's), `arrivalsFor(k)` are the upstream results of
      exchange `k` as they arrive, and `writeFails(k)` says whether writing
      its response to the client fails. */
  function ServeFrom(data: string, pos: nat, round: nat, h: EofHandling, n: nat,
                     arrivalsFor: nat -> seq<WorkerResult>, writeFails: nat -> bool): (s: Session)
    requires pos <= |data|
    // Corrected, the end of the stream is never reported as an error.
    ensures h.Corrected? && s.err.Some? && s.err.value.ParseFailed? ==> !WrapsEOF(s.err.value.parse)
    ensures s.err.Some? && s.err.value.RaceFailed? ==> s.err.value.reason in {TimedOut.Error(), AllFailed.Error()}
    decreases |data| - pos
  {
    match RequestFrom(data, pos)
    case Err(e) => if h.AsWritten? then ParseFailureAsWritten(e) else ParseFailure(e)
    case Ok((req, next)) =>
      match Race(n, arrivalsFor(round))
      case Won(resp, _, _) =>
        if writeFails(round) then Session("", Some(WriteFailed))
        else if req.ShouldClose() || resp.ShouldClose() then Session(resp.raw, None)
        else
          var rest := ServeFrom(data, next, round + 1, h, n, arrivalsFor, writeFails);
          Session(resp.raw + rest.written, rest.err)
      case other => Session(ErrorResponse(502, "Bad Gateway"), Some(RaceFailed(other.Error())))
  }

  /** `s`, with `w` written before it. */
  function After(w: string, s: Session): Session {
    Session(w + s.written, s.err)
  }

  /** A request was read and its response written back, and neither side
      asked to close: the session goes on with the next exchange. */
  lemma ServeGoesOn(data: string, pos: nat, round: nat, h: EofHandling, n: nat,
                    arrivalsFor: nat -> seq<WorkerResult>, writeFails: nat -> bool,
                    req: HttpRequest, next: nat, resp: HttpResponse)
    requires pos <= |data| && RequestFrom(data, pos) == Ok((req, next))
    requires Race(n, arrivalsFor(round)).Won? && Race(n, arrivalsFor(round)).response == resp
    requires !writeFails(round) && !req.ShouldClose() && !resp.ShouldClose()
    ensures ServeFrom(data, pos, round, h, n, arrivalsFor, writeFails) ==
            After(resp.raw, ServeFrom(data, next, round + 1, h, n, arrivalsFor, writeFails))
  {
  }

  lemma AfterNothing(w: string)
    ensures After(w, Session("", None)) == Session(w, None)
  {
    assert w + "" == w;
  }

  lemma AfterAfter(w1: string, w2: string, s: Session)
    ensures After(w1, After(w2, s)) == After(w1 + w2, s)
  {
    assert w1 + (w2 + s.written) == (w1 + w2) + s.written;
  }

  /** `HandleHTTP`: serves requests from the client stream until one side
      asks to close, a request cannot be read, a race fails or a write
      fails. With `h == AsWritten` a request that cannot be read is always
      answered with a 400, as the source does; with `Corrected` the end of
      the stream ends the loop quietly. */
  method HandleHTTP(client: Reader, h: EofHandling, n: nat,
                    arrivalsFor: nat -> seq<WorkerResult>, writeFails: nat -> bool)
    returns (written: string, err: Option<HandleError>)
    requires client.Valid()
    modifies client
    ensures Session(written, err) == ServeFrom(client.data, old(client.pos), 0, h, n, arrivalsFor, writeFails)
  {
    var round := 0;
    written := "";
    while true
      invariant client.Valid()
      invariant ServeFrom(client.data, old(client.pos), 0, h, n, arrivalsFor, writeFails) ==
                After(written, ServeFrom(client.data, client.pos, round, h, n, arrivalsFor, writeFails))
      decreases |client.data| - client.pos
    {
      ghost var pos := client.pos;
      var res := ParseRequest(client);
      if res.Err? {
        if h.Corrected? && WrapsEOF(res.error) {
          assert written + "" == written;
          return written, None;
        }
        written := written + ErrorResponse(400, "Bad Request");
        return written, Some(ParseFailed(res.error));
      }
      var req := res.value;
      var outcome := RaceRequest(n, arrivalsFor(round));
      if !outcome.Won? {
        written := written + ErrorResponse(502, "Bad Gateway");
        return written, Some(RaceFailed(outcome.Error()));
      }
      if writeFails(round) {
        assert written + "" == written;
        return written, Some(WriteFailed);
      }
      var resp := outcome.response;
      if req.ShouldClose() || resp.ShouldClose() {
        written := written + resp.raw;
        return written, None;
      }
      ServeGoesOn(client.data, pos, round, h, n, arrivalsFor, writeFails, req, client.pos, resp);
      AfterAfter(written, resp.raw, ServeFrom(client.data, client.pos, round + 1, h, n, arrivalsFor, writeFails));
      written := written + resp.raw;
      round := round + 1;
    }
  }

  /** At the end of the client stream the next request read fails with the
      end of the stream, wrapped. */
  lemma EndOfStream(data: string)
    ensures RequestFrom(data, |data|) == Err(RequestLineFailed(EOF))
    ensures WrapsEOF(RequestFrom(data, |data|).error)
  {
  }

  /** A client that has closed, with every request served: as written, the
      handler answers the closed stream with "400 Bad Request" and returns
      the wrapped end of the stream as its error; corrected, the session
      ends quietly. */
  lemma ServeAtEnd(data: string, round: nat, n: nat, arrivalsFor: nat -> seq<WorkerResult>, writeFails: nat -> bool)
    ensures ServeFrom(data, |data|, round, AsWritten, n, arrivalsFor, writeFails) ==
              Session(ErrorResponse(400, "Bad Request"), Some(ParseFailed(RequestLineFailed(EOF))))
    ensures ServeFrom(data, |data|, round, Corrected, n, arrivalsFor, writeFails) == Session("", None)
  {
    EndOfStream(data);
  }

  /** A keep-alive exchange that uses up the client stream, as written: the
      response is written back, and when the client then closes, a 400 is
      written after it and the session ends with the end of the stream as
      a parse error. */
  lemma KeepAliveThenCloseAsWritten(data: string, pos: nat, round: nat, n: nat,
                                    arrivalsFor: nat -> seq<WorkerResult>, writeFails: nat -> bool,
                                    req: HttpRequest, resp: HttpResponse)
    requires pos <= |data| && RequestFrom(data, pos) == Ok((req, |data|))
    requires Race(n, arrivalsFor(round)).Won? && Race(n, arrivalsFor(round)).response == resp
    requires !writeFails(round) && !req.ShouldClose() && !resp.ShouldClose()
    ensures ServeFrom(data, pos, round, AsWritten, n, arrivalsFor, writeFails) ==
              Session(resp.raw + ErrorResponse(400, "Bad Request"), Some(ParseFailed(RequestLineFailed(EOF))))
  {
    ServeGoesOn(data, pos, round, AsWritten, n, arrivalsFor, writeFails, req, |data|, resp);
    ServeAtEnd(data, round + 1, n, arrivalsFor, writeFails);
  }

  /** The same exchange, corrected: the response is written back and, when
      the client then closes, the session ends without an error and without
      anything else written. */
  lemma KeepAliveThenCloseIsClean(data: string, pos: nat, round: nat, n: nat,
                                  arrivalsFor: nat -> seq<WorkerResult>, writeFails: nat -> bool,
                                  req: HttpRequest, resp: HttpResponse)
    requires pos <= |data| && RequestFrom(data, pos) == Ok((req, |data|))
    requires Race(n, arrivalsFor(round)).Won? && Race(n, arrivalsFor(round)).response == resp
    requires !writeFails(round) && !req.ShouldClose() && !resp.ShouldClose()
    ensures ServeFrom(data, pos, round, Corrected, n, arrivalsFor, writeFails) == Session(resp.raw, None)
  {
    ServeGoesOn(data, pos, round, Corrected, n, arrivalsFor, writeFails, req, |data|, resp);
    ServeAtEnd(data, round + 1, n, arrivalsFor, writeFails);
    AfterNothing(resp.raw);
  }

  /** Session `a` is session `c`, or `c` ended quietly where `a` went on
      to write a 400 and end with the end of the stream as a parse error. */
  predicate DiffersOnlyAtEnd(a: Session, c: Session) {
    || a == c
    || (&& c.err.None?
        && a.written == c.written + ErrorResponse(400, "Bad Request")
        && a.err.Some? && a.err.value.ParseFailed? && WrapsEOF(a.err.value.parse))
  }

  lemma ParseFailureDiffersOnlyAtEnd(e: ParseError)
    ensures DiffersOnlyAtEnd(ParseFailureAsWritten(e), ParseFailure(e))
  {
    if WrapsEOF(e) {
      assert "" + ErrorResponse(400, "Bad Request") == ErrorResponse(400, "Bad Request");
    }
  }

  lemma AfterDiffersOnlyAtEnd(w: string, a: Session, c: Session)
    requires DiffersOnlyAtEnd(a, c)
    ensures DiffersOnlyAtEnd(After(w, a), After(w, c))
  {
    if a != c {
      assert w + (c.written + ErrorResponse(400, "Bad Request")) ==
             (w + c.written) + ErrorResponse(400, "Bad Request");
    }
  }

  /** The correction changes one thing only: where the corrected session
      ends quietly on the end of the stream, the session as written has a
      400 written after the same bytes and ends with that end of the stream
      as a parse error; everything else is the same. */
  lemma {:induction false} CorrectionOnlyAtEnd(data: string, pos: nat, round: nat, n: nat,
                                               arrivalsFor: nat -> seq<WorkerResult>, writeFails: nat -> bool)
    requires pos <= |data|
    ensures DiffersOnlyAtEnd(ServeFrom(data, pos, round, AsWritten, n, arrivalsFor, writeFails),
                             ServeFrom(data, pos, round, Corrected, n, arrivalsFor, writeFails))
    decreases |data| - pos
  {
    match RequestFrom(data, pos)
    case Err(e) =>
      ParseFailureDiffersOnlyAtEnd(e);
    case Ok((req, next)) =>
      var outcome := Race(n, arrivalsFor(round));
      if outcome.Won? && !writeFails(round) && !req.ShouldClose() && !outcome.response.ShouldClose() {
        ServeGoesOn(data, pos, round, AsWritten, n, arrivalsFor, writeFails, req, next, outcome.response);
        ServeGoesOn(data, pos, round, Corrected, n, arrivalsFor, writeFails, req, next, outcome.response);
        CorrectionOnlyAtEnd(data, next, round + 1, n, arrivalsFor, writeFails);
        AfterDiffersOnlyAtEnd(outcome.response.raw,
                              ServeFrom(data, next, round + 1, AsWritten, n, arrivalsFor, writeFails),
                              ServeFrom(data, next, round + 1, Corrected, n, arrivalsFor, writeFails));
      }
  }

  /** A request that asks to close ends the session once its response is
      written: nothing the client sends after it is read. */
  lemma CloseRequestEndsSession(data: string, pos: nat, round: nat, h: EofHandling, n: nat,
                                arrivalsFor: nat -> seq<WorkerResult>, writeFails: nat -> bool,
                                req: HttpRequest, next: nat, resp: HttpResponse)
    requires pos <= |data| && RequestFrom(data, pos) == Ok((req, next))
    requires Race(n, arrivalsFor(round)).Won? && Race(n, arrivalsFor(round)).response == resp
    requires !writeFails(round) && req.ShouldClose()
    ensures ServeFrom(data, pos, round, h, n, arrivalsFor, writeFails) == Session(resp.raw, None)
    ensures ServeFrom(data[..next], pos, round, h, n, arrivalsFor, writeFails) == Session(resp.raw, None)
  {
    RequestPrefix(data, next, pos);
  }

  /** The same for a response that asks to close. */
  lemma CloseResponseEndsSession(data: string, pos: nat, round: nat, h: EofHandling, n: nat,
                                 arrivalsFor: nat -> seq<WorkerResult>, writeFails: nat -> bool,
                                 req: HttpRequest, next: nat, resp: HttpResponse)
    requires pos <= |data| && RequestFrom(data, pos) == Ok((req, next))
    requires Race(n, arrivalsFor(round)).Won? && Race(n, arrivalsFor(round)).response == resp
    requires !writeFails(round) && resp.ShouldClose()
    ensures ServeFrom(data, pos, round, h, n, arrivalsFor, writeFails) == Session(resp.raw, None)
    ensures ServeFrom(data[..next], pos, round, h, n, arrivalsFor, writeFails) == Session(resp.raw, None)
  {
    RequestPrefix(data, next, pos);
  }

  /** A request that cannot be read is answered, as written whatever the
      reason and corrected for any reason other than the end of the stream, with "400 Bad Request", and that ends the
      session with the error. */
  lemma BadRequestAnswered(data: string, pos: nat, round: nat, h: EofHandling, n: nat,
                           arrivalsFor: nat -> seq<WorkerResult>, writeFails: nat -> bool, e: ParseError)
    requires pos <= |data| && RequestFrom(data, pos) == Err(e) && (h.AsWritten? || !WrapsEOF(e))
    ensures ServeFrom(data, pos, round, h, n, arrivalsFor, writeFails) ==
              Session(ErrorResponse(400, "Bad Request"), Some(ParseFailed(e)))
  {
  }

  /** A race without a winner is answered with "502 Bad Gateway" and ends
      the session with the race's error. */
  lemma BadGatewayAnswered(data: string, pos: nat, round: nat, h: EofHandling, n: nat,
                           arrivalsFor: nat -> seq<WorkerResult>, writeFails: nat -> bool, req: HttpRequest, next: nat)
    requires pos <= |data| && RequestFrom(data, pos) == Ok((req, next))
    requires !Race(n, arrivalsFor(round)).Won?
    ensures ServeFrom(data, pos, round, h, n, arrivalsFor, writeFails) ==
              Session(ErrorResponse(502, "Bad Gateway"), Some(RaceFailed(Race(n, arrivalsFor(round)).Error())))
  {
  }

  /** Every error the session ends with, other than a failed write, is the
      last thing the client hears about: the written bytes end with the
      matching error response. */
  lemma {:induction false} ErrorsAreAnswered(data: string, pos: nat, round: nat, h: EofHandling, n: nat,
                                             arrivalsFor: nat -> seq<WorkerResult>, writeFails: nat -> bool)
    requires pos <= |data|
    ensures var s := ServeFrom(data, pos, round, h, n, arrivalsFor, writeFails);
      && (s.err.Some? && s.err.value.ParseFailed? ==> EndsWith(s.written, ErrorResponse(400, "Bad Request")))
      && (s.err.Some? && s.err.value.RaceFailed? ==> EndsWith(s.written, ErrorResponse(502, "Bad Gateway")))
    decreases |data| - pos
  {
    var s := ServeFrom(data, pos, round, h, n, arrivalsFor, writeFails);
    match RequestFrom(data, pos)
    case Err(e) =>
      assert s == if h.AsWritten? then ParseFailureAsWritten(e) else ParseFailure(e);
    case Ok((req, next)) =>
      var outcome := Race(n, arrivalsFor(round));
      if outcome.Won? && !writeFails(round) && !req.ShouldClose() && !outcome.response.ShouldClose() {
        var rest := ServeFrom(data, next, round + 1, h, n, arrivalsFor, writeFails);
        ServeGoesOn(data, pos, round, h, n, arrivalsFor, writeFails, req, next, outcome.response);
        ErrorsAreAnswered(data, next, round + 1, h, n, arrivalsFor, writeFails);
        EndsWithAppend(outcome.response.raw, rest.written);
      }
  }
}
