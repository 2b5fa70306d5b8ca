/** The SOCKS5 connection racer: every upstream is dialled at once, and the
    results are consumed in the order they arrive. The first connection
    that succeeds wins; every later success is closed; every failure is
    recorded for the error returned when nobody succeeds. The dialling
    goroutines and their deadline are not modelled: their results arrive
    as a sequence. */
module Racer {
  import opened Common

  /** What one dialling worker reports: a connection (named by an opaque
      handle) to its upstream, or the error it got. */
  datatype DialResult =
    | Connected(conn: nat, proxyAddr: string)
    | DialFailed(proxyAddr: string, err: string)

  /** The error entry a failed dial leaves: "address: error". */
  function FailureEntry(r: DialResult): string
    requires r.DialFailed?
  {
    r.proxyAddr + ": " + r.err
  }

  // ---------------------------------------------------------------------
  // The fold over arrivals
  // ---------------------------------------------------------------------

  /** The position of the winner among `arrivals`: the first success. */
  function Winner(arrivals: seq<DialResult>): (w: Option<nat>)
    ensures w.Some? ==> w.value < |arrivals| && arrivals[w.value].Connected?
    decreases |arrivals|
  {
    if arrivals == [] then None
    else
      var k := |arrivals| - 1;
      match Winner(arrivals[..k])
      case Some(i) => Some(i)
      case None => if arrivals[k].Connected? then Some(k) else None
  }

  /** The positions whose connections are closed, in the order they are
      closed: every success that arrives once there is a winner. */
  function Closed(arrivals: seq<DialResult>): (c: seq<nat>)
    ensures forall i | i in c :: i < |arrivals| && arrivals[i].Connected?
    ensures Winner(arrivals).None? ==> c == []
    decreases |arrivals|
  {
    if arrivals == [] then []
    else
      var k := |arrivals| - 1;
      assert forall i | i in Closed(arrivals[..k]) :: arrivals[..k][i] == arrivals[i];
      Closed(arrivals[..k]) + if arrivals[k].Connected? && Winner(arrivals[..k]).Some? then [k] else []
  }

  /** The error entries, one per failure, in arrival order. */
  function Entries(arrivals: seq<DialResult>): (e: seq<string>)
    ensures |e| == |Failures(arrivals)|
    decreases |arrivals|
  {
    if arrivals == [] then []
    else
      var k := |arrivals| - 1;
      Entries(arrivals[..k]) + if arrivals[k].DialFailed? then [FailureEntry(arrivals[k])] else []
  }

  /** The error returned when nobody succeeds. */
  function AllFailedError(entries: seq<string>): (s: string)
    ensures IsPrefix("all upstreams failed: ", s)
    ensures entries == [] ==> s == "all upstreams failed: "
  {
    "all upstreams failed: " + Join(entries, "; ")
  }

  /** `Racer`: the upstream addresses and the dialling deadline. */
  class Racer {
    const upstreams: seq<string>
    const timeout: nat

    /** `New`: keeps both as given. */
    constructor (upstreams: seq<string>, timeout: nat)
      ensures this.upstreams == upstreams && this.timeout == timeout
    {
      this.upstreams := upstreams;
      this.timeout := timeout;
    }

    /** The receive loop of `Race`: takes exactly one result per upstream,
        keeps the first success, closes every later one and records every
        failure. Returns the winner's connection, or the error naming every
        failure; `closed` lists, in order, the results whose connections
        were closed, and `received` counts the results taken. */
    method Race(arrivals: seq<DialResult>) returns (conn: Option<nat>, err: Option<string>, closed: seq<nat>, received: nat)
      requires |arrivals| == |upstreams|
      ensures received == |upstreams|
      ensures conn == (if Winner(arrivals).Some? then Some(arrivals[Winner(arrivals).value].conn) else None)
      ensures closed == Closed(arrivals)
      ensures err == (if conn.None? then Some(AllFailedError(Entries(arrivals))) else None)
    {
      var winner: Option<nat> := None;
      var errors: seq<string> := [];
      closed := [];
      received := 0;
      for i := 0 to |upstreams|
        invariant received == i
        invariant winner == Winner(arrivals[..i])
        invariant closed == Closed(arrivals[..i])
        invariant errors == Entries(arrivals[..i])
      {
        var result := arrivals[i];
        received := received + 1;
        assert arrivals[..i + 1][..i] == arrivals[..i];
        if result.Connected? {
          if winner.None? {
            winner := Some(i);
          } else {
            closed := closed + [i];
          }
        } else {
          errors := errors + [FailureEntry(result)];
        }
      }
      assert arrivals[..|upstreams|] == arrivals;
      if winner.Some? {
        return Some(arrivals[winner.value].conn), None, closed, received;
      }
      return None, Some(AllFailedError(errors)), closed, received;
    }
  }

  // ---------------------------------------------------------------------
  // What the fold computes
  // ---------------------------------------------------------------------

  /** The winner is exactly the first success: there is one iff some
      result succeeded, and it is preceded only by failures. */
  lemma {:induction false} WinnerIsFirstSuccess(arrivals: seq<DialResult>)
    ensures Winner(arrivals).Some? <==> exists j | 0 <= j < |arrivals| :: arrivals[j].Connected?
    ensures Winner(arrivals).Some? ==> forall j | 0 <= j < Winner(arrivals).value :: arrivals[j].DialFailed?
    decreases |arrivals|
  {
    if arrivals != [] {
      var k := |arrivals| - 1;
      var init := arrivals[..k];
      WinnerIsFirstSuccess(init);
      assert forall j | 0 <= j < k :: init[j] == arrivals[j];
      if Winner(init).None? && arrivals[k].DialFailed? {
        forall j | 0 <= j < |arrivals|
          ensures arrivals[j].DialFailed?
        {
          if j < k {
            assert init[j] == arrivals[j];
          }
        }
      }
    }
  }

  /** A later result never displaces the winner. */
  lemma {:induction false} WinnerKept(arrivals: seq<DialResult>, m: nat)
    requires m <= |arrivals| && Winner(arrivals[..m]).Some?
    ensures Winner(arrivals) == Winner(arrivals[..m])
    decreases |arrivals| - m
  {
    if m < |arrivals| {
      var k := |arrivals| - 1;
      assert arrivals[..k][..m] == arrivals[..m];
      WinnerKept(arrivals[..k], m);
    } else {
      assert arrivals[..m] == arrivals;
    }
  }

  /** Every success other than the winner is closed, the winner and the
      failures never are, and no result is closed twice: the positions
      closed rise strictly. */
  lemma {:induction false} ClosedAreTheLosers(arrivals: seq<DialResult>)
    ensures forall j | 0 <= j < |arrivals| ::
              j in Closed(arrivals) <==> arrivals[j].Connected? && Winner(arrivals) != Some(j)
    ensures forall c | c in Closed(arrivals) :: c < |arrivals|
    ensures forall a, b | 0 <= a < b < |Closed(arrivals)| :: Closed(arrivals)[a] < Closed(arrivals)[b]
    decreases |arrivals|
  {
    if arrivals != [] {
      var k := |arrivals| - 1;
      var init := arrivals[..k];
      ClosedAreTheLosers(init);
      var before := Closed(init);
      var extra := if arrivals[k].Connected? && Winner(init).Some? then [k] else [];
      assert Closed(arrivals) == before + extra;
      if Winner(init).Some? {
        WinnerKept(arrivals, k);
      }
      forall j | 0 <= j < |arrivals|
        ensures j in Closed(arrivals) <==> arrivals[j].Connected? && Winner(arrivals) != Some(j)
      {
        if j < k {
          assert init[j] == arrivals[j];
          assert j in before + extra <==> j in before;
        } else {
          assert k !in before;
        }
      }
      forall a, b | 0 <= a < b < |before + extra|
        ensures (before + extra)[a] < (before + extra)[b]
      {
        if b == |before| {
          assert before[a] in before;
        }
      }
    }
  }

  /** The positions of the failures, in arrival order. */
  function Failures(arrivals: seq<DialResult>): (fs: seq<nat>)
    ensures forall f | f in fs :: f < |arrivals| && arrivals[f].DialFailed?
    decreases |arrivals|
  {
    if arrivals == [] then []
    else
      var k := |arrivals| - 1;
      var init := Failures(arrivals[..k]);
      assert forall f | f in init :: arrivals[..k][f] == arrivals[f];
      init + if arrivals[k].DialFailed? then [k] else []
  }

  /** Each failure leaves exactly one entry, and the entries are in the
      order the failures arrived: entry `e` is the one of the `e`-th
      failure, and every failure is among them. */
  lemma {:induction false} EntryPerFailure(arrivals: seq<DialResult>)
    ensures |Entries(arrivals)| == |Failures(arrivals)|
    ensures forall e | 0 <= e < |Entries(arrivals)| && e < |Failures(arrivals)| ::
              Entries(arrivals)[e] == FailureEntry(arrivals[Failures(arrivals)[e]])
    ensures forall j | 0 <= j < |arrivals| :: arrivals[j].DialFailed? <==> j in Failures(arrivals)
    ensures forall a, b | 0 <= a < b < |Failures(arrivals)| :: Failures(arrivals)[a] < Failures(arrivals)[b]
    decreases |arrivals|
  {
    if arrivals != [] {
      var k := |arrivals| - 1;
      var init := arrivals[..k];
      EntryPerFailure(init);
      assert forall j | 0 <= j < k :: init[j] == arrivals[j];
    }
  }

  /** The race succeeds exactly when some dial did; otherwise every
      result is a failure and the error lists all of them, entry `j` for
      the `j`-th arrival. */
  lemma RaceOutcome(arrivals: seq<DialResult>)
    ensures Winner(arrivals).Some? <==> exists j | 0 <= j < |arrivals| :: arrivals[j].Connected?
    ensures Winner(arrivals).None? ==> |Entries(arrivals)| == |arrivals|
    ensures Winner(arrivals).None? ==> forall j | 0 <= j < |arrivals| ::
              arrivals[j].DialFailed? && Entries(arrivals)[j] == FailureEntry(arrivals[j])
  {
    WinnerIsFirstSuccess(arrivals);
    EntryPerFailure(arrivals);
    if Winner(arrivals).None? {
      assert forall j | 0 <= j < |arrivals| :: j in Failures(arrivals);
      FailuresAreAll(arrivals);
    }
  }

  /** When every result is a failure, every position is a failure. */
  lemma {:induction false} FailuresAreAll(arrivals: seq<DialResult>)
    requires forall j | 0 <= j < |arrivals| :: arrivals[j].DialFailed?
    ensures Failures(arrivals) == seq(|arrivals|, j => j)
    decreases |arrivals|
  {
    if arrivals != [] {
      var k := |arrivals| - 1;
      var init := arrivals[..k];
      assert forall j | 0 <= j < k :: init[j] == arrivals[j];
      FailuresAreAll(init);
    }
  }
}
