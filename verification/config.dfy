/** Validation of the configuration: a list of listeners, each with a listen
    address and the SOCKS5 upstreams it races. Splitting an address into
    host and port is the platform's job and is taken as a parameter. */
module Config {
  import opened Common

  datatype ListenerConfig = ListenerConfig(listen: string, socks: seq<string>)

  datatype Config = Config(listeners: seq<ListenerConfig>)

  /** The platform's host/port splitter: the two halves, or its error. */
  type Splitter = string -> Result<(string, string), string>

  // ---------------------------------------------------------------------
  // The first element that fails a check
  // ---------------------------------------------------------------------

  /** The first position from `from` on whose check reports an error,
      with that error; None when every check from `from` on passes. */
  function FirstFailure<T>(xs: seq<T>, check: T -> Option<string>, from: nat): (r: Option<(nat, string)>)
    requires from <= |xs|
    ensures r.None? <==> forall j | from <= j < |xs| :: check(xs[j]).None?
    ensures r.Some? ==> from <= r.value.0 < |xs| && check(xs[r.value.0]) == Some(r.value.1)
    ensures r.Some? ==> forall j | from <= j < r.value.0 :: check(xs[j]).None?
    decreases |xs| - from
  {
    if from == |xs| then None
    else match check(xs[from])
      case Some(e) => Some((from, e))
      case None => FirstFailure(xs, check, from + 1)
  }

  /** The first failure is the one at `i` when every earlier check passes
      and the one at `i` does not. */
  lemma FirstFailureAt<T>(xs: seq<T>, check: T -> Option<string>, i: nat, e: string)
    requires i < |xs| && check(xs[i]) == Some(e)
    requires forall j | 0 <= j < i :: check(xs[j]).None?
    ensures FirstFailure(xs, check, 0) == Some((i, e))
  {
  }

  /** Nothing after the first failure is looked at: any sequence that
      agrees up to and including it fails in the same place, the same way. */
  lemma FirstFailureLooksNoFurther<T>(xs: seq<T>, ys: seq<T>, check: T -> Option<string>, i: nat)
    requires FirstFailure(xs, check, 0).Some? && i == FirstFailure(xs, check, 0).value.0
    requires i < |ys| && ys[..i + 1] == xs[..i + 1]
    ensures FirstFailure(ys, check, 0) == FirstFailure(xs, check, 0)
  {
    assert forall j | 0 <= j <= i :: ys[j] == xs[..i + 1][j] == xs[j];
    FirstFailureAt(ys, check, i, FirstFailure(xs, check, 0).value.1);
  }

  // ---------------------------------------------------------------------
  // ListenerConfig.Validate
  // ---------------------------------------------------------------------

  /** The error a single upstream address gives, if it does not split. */
  function UpstreamCheck(split: Splitter): string -> Option<string> {
    s => if split(s).Err? then Some(split(s).error) else None
  }

  /** The specification of `ListenerConfig.Validate`: the checks in order
      (empty address, address that does not split, empty host, empty port,
      no upstreams, then each upstream), the first that fails giving the
      error. */
  function ListenerError(lc: ListenerConfig, split: Splitter): (r: Option<string>)
    ensures r.None? ==> lc.listen != "" && split(lc.listen).Ok? && |lc.socks| > 0
    ensures r.Some? ==> r.value != ""
  {
    if lc.listen == "" then Some("listen address is empty")
    else match split(lc.listen)
      case Err(e) => Some("invalid listen address: " + e)
      case Ok((host, port)) =>
        if host == "" then Some("listen host is empty")
        else if port == "" then Some("listen port is empty")
        else if |lc.socks| == 0 then Some("no socks upstreams configured")
        else match FirstFailure(lc.socks, UpstreamCheck(split), 0)
          case None => None
          case Some((i, e)) => Some("invalid socks upstream " + NatToDecimal(i) + " (" + lc.socks[i] + "): " + e)
  }

  /** `ListenerConfig.Validate`: the address checks, then a loop over the
      upstreams that stops at the first that does not split. */
  method ValidateListener(lc: ListenerConfig, split: Splitter) returns (err: Option<string>)
    ensures err == ListenerError(lc, split)
  {
    if lc.listen == "" {
      return Some("listen address is empty");
    }
    var parts := split(lc.listen);
    if parts.Err? {
      return Some("invalid listen address: " + parts.error);
    }
    var (host, port) := parts.value;
    if host == "" {
      return Some("listen host is empty");
    }
    if port == "" {
      return Some("listen port is empty");
    }
    if |lc.socks| == 0 {
      return Some("no socks upstreams configured");
    }
    var i := 0;
    while i < |lc.socks|
      invariant 0 <= i <= |lc.socks|
      invariant FirstFailure(lc.socks, UpstreamCheck(split), 0) == FirstFailure(lc.socks, UpstreamCheck(split), i)
    {
      var sock := lc.socks[i];
      var r := split(sock);
      if r.Err? {
        return Some("invalid socks upstream " + NatToDecimal(i) + " (" + sock + "): " + r.error);
      }
      i := i + 1;
    }
    return None;
  }

  /** A listener is valid exactly when its address is non-empty and splits
      into a non-empty host and port, and it has at least one upstream,
      every one of which splits. */
  lemma ListenerValidIff(lc: ListenerConfig, split: Splitter)
    ensures ListenerError(lc, split).None? <==>
              lc.listen != "" && split(lc.listen).Ok? &&
              split(lc.listen).value.0 != "" && split(lc.listen).value.1 != "" &&
              |lc.socks| > 0 && forall i | 0 <= i < |lc.socks| :: split(lc.socks[i]).Ok?
  {
    if lc.listen != "" && split(lc.listen).Ok? && |lc.socks| > 0 {
      var check := UpstreamCheck(split);
      assert forall i | 0 <= i < |lc.socks| :: check(lc.socks[i]).None? <==> split(lc.socks[i]).Ok?;
    }
  }

  /** Once the address checks pass, the upstream named in the error is the
      first one that does not split, with its position, its address and the
      splitter's error. */
  lemma UpstreamErrorNamesFirst(lc: ListenerConfig, split: Splitter, i: nat, e: string)
    requires lc.listen != "" && split(lc.listen).Ok?
    requires split(lc.listen).value.0 != "" && split(lc.listen).value.1 != ""
    requires i < |lc.socks| && split(lc.socks[i]) == Err(e)
    requires forall j | 0 <= j < i :: split(lc.socks[j]).Ok?
    ensures ListenerError(lc, split) == Some("invalid socks upstream " + NatToDecimal(i) + " (" + lc.socks[i] + "): " + e)
  {
    var check := UpstreamCheck(split);
    assert forall j | 0 <= j < i :: check(lc.socks[j]).None?;
    FirstFailureAt(lc.socks, check, i, e);
  }

  /** The address checks come before the upstream checks: a listener whose
      address is missing, does not split or lacks a host or port is
      rejected with the same error whatever its upstreams are. */
  lemma AddressCheckedFirst(lc: ListenerConfig, socks: seq<string>, split: Splitter)
    requires lc.listen == "" || split(lc.listen).Err? ||
             split(lc.listen).value.0 == "" || split(lc.listen).value.1 == ""
    ensures ListenerError(lc, split).Some?
    ensures ListenerError(ListenerConfig(lc.listen, socks), split) == ListenerError(lc, split)
  {
  }

  // ---------------------------------------------------------------------
  // Config.Validate
  // ---------------------------------------------------------------------

  function ListenerCheck(split: Splitter): ListenerConfig -> Option<string> {
    lc => ListenerError(lc, split)
  }

  /** The specification of `Config.Validate`: no listeners is an error;
      otherwise the first invalid listener's error, prefixed with its
      position. */
  function ConfigError(c: Config, split: Splitter): (r: Option<string>)
    ensures r.None? ==> |c.listeners| > 0
    ensures r.Some? && |c.listeners| > 0 ==> IsPrefix("listener ", r.value)
  {
    if |c.listeners| == 0 then Some("no listeners configured")
    else match FirstFailure(c.listeners, ListenerCheck(split), 0)
      case None => None
      case Some((i, e)) => Some("listener " + NatToDecimal(i) + ": " + e)
  }

  /** `Config.Validate`: validates the listeners in order and stops at the
      first that fails. */
  method Validate(c: Config, split: Splitter) returns (err: Option<string>)
    ensures err == ConfigError(c, split)
  {
    if |c.listeners| == 0 {
      return Some("no listeners configured");
    }
    var i := 0;
    while i < |c.listeners|
      invariant 0 <= i <= |c.listeners|
      invariant FirstFailure(c.listeners, ListenerCheck(split), 0) == FirstFailure(c.listeners, ListenerCheck(split), i)
    {
      var listenerErr := ValidateListener(c.listeners[i], split);
      if listenerErr.Some? {
        return Some("listener " + NatToDecimal(i) + ": " + listenerErr.value);
      }
      i := i + 1;
    }
    return None;
  }

  /** A configuration is valid exactly when it has a listener and every
      listener is valid. */
  lemma ConfigValidIff(c: Config, split: Splitter)
    ensures ConfigError(c, split).None? <==>
              |c.listeners| > 0 && forall i | 0 <= i < |c.listeners| :: ListenerError(c.listeners[i], split).None?
  {
    var check := ListenerCheck(split);
    assert forall i | 0 <= i < |c.listeners| :: check(c.listeners[i]) == ListenerError(c.listeners[i], split);
  }

  /** The listener reported is the first invalid one, by position, with
      its own error wrapped; the listeners after it are never looked at. */
  lemma FirstInvalidListenerReported(c: Config, split: Splitter, i: nat, e: string, later: seq<ListenerConfig>)
    requires i < |c.listeners| && ListenerError(c.listeners[i], split) == Some(e)
    requires forall j | 0 <= j < i :: ListenerError(c.listeners[j], split).None?
    ensures ConfigError(c, split) == Some("listener " + NatToDecimal(i) + ": " + e)
    ensures ConfigError(Config(c.listeners[..i + 1] + later), split) == ConfigError(c, split)
  {
    var check := ListenerCheck(split);
    assert forall j | 0 <= j < i :: check(c.listeners[j]).None?;
    FirstFailureAt(c.listeners, check, i, e);
    var ys := c.listeners[..i + 1] + later;
    assert ys[..i + 1] == c.listeners[..i + 1];
    FirstFailureLooksNoFurther(c.listeners, ys, check, i);
  }
}
