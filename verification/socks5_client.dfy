/** The client half of SOCKS5, used to reach each upstream proxy: the
    no-auth greeting, the CONNECT request built from a target, and the
    judgement of the upstream's replies. `input` is what the upstream sends. */
module Socks5Client {
  import opened Common
  import opened Socks5Protocol
  import Socks5Server

  /** The greeting: version 5, one method, no authentication. */
  const Greeting: seq<byte> := [Version5, 1, MethodNoAuth]

  /** The client's verdict on the upstream's method selection. */
  function CheckMethodReply(input: seq<byte>): (err: Option<string>)
    // Only an exact {5, 0} is accepted; any other method is a hard failure.
    ensures err.None? <==> |input| >= 2 && input[..2] == [Version5, MethodNoAuth]
    ensures |input| >= 2 && input[0] == Version5 && input[1] != MethodNoAuth ==>
              err == Some("unsupported auth method: " + NatToDecimal(input[1] as nat))
  {
    if |input| < 2 then Some("read negotiation response: " + ReadFullError(|input|))
    else if input[0] != Version5 then Some("unsupported version: " + NatToDecimal(input[0] as nat))
    else if input[1] != MethodNoAuth then Some("unsupported auth method: " + NatToDecimal(input[1] as nat))
    else None
  }

  /** Writes the greeting, then reads and judges the two-byte answer.
      `writeErr` is what the connection's `Write` returns (None on success). */
  method ClientNegotiate(input: seq<byte>, writeErr: Option<string>)
    returns (written: seq<byte>, err: Option<string>)
    ensures written == [0x05, 0x01, 0x00]
    // A failed write stops before anything is read.
    ensures writeErr.Some? ==> err == Some("write negotiation: " + writeErr.value)
    ensures writeErr.None? ==> err == CheckMethodReply(input)
  {
    written := [Version5, 1, MethodNoAuth];
    if writeErr.Some? {
      return written, Some("write negotiation: " + writeErr.value);
    }
    if |input| < 2 {
      return written, Some("read negotiation response: " + ReadFullError(|input|));
    }
    var buf := input[..2];
    if buf[0] != Version5 {
      return written, Some("unsupported version: " + NatToDecimal(buf[0] as nat));
    }
    if buf[1] != MethodNoAuth {
      return written, Some("unsupported auth method: " + NatToDecimal(buf[1] as nat));
    }
    err := None;
  }

  /** The server's greeting handling and the client's greeting agree: the
      client's greeting is accepted with {5, 0}, which the client accepts. */
  lemma NegotiationAgreement(rest: seq<byte>)
    ensures Socks5Server.Negotiate(Greeting + rest, None).err.None?
    ensures Socks5Server.Negotiate(Greeting + rest, None).written == [Version5, MethodNoAuth]
    ensures CheckMethodReply(Socks5Server.Negotiate(Greeting + rest, None).written + rest).None?
  {
    var input := Greeting + rest;
    assert Socks5Server.GreetingComplete(input);
    assert Socks5Server.OfferedMethods(input) == [MethodNoAuth];
  }

  /** The CONNECT request for a target, or the error that stops it before
      anything is written. `parseIP` is Go's `net.ParseIP` (not modelled). */
  function EncodeConnect(t: TargetAddress, parseIP: GoString -> Option<seq<byte>>): (r: Result<seq<byte>, string>)
    ensures r.Ok? ==> var req := r.value;
      && |req| >= 6 && req[..4] == [Version5, CmdConnect, 0x00, t.atyp]
      && req[|req| - 2..] == BigEndian16(t.port)
    // A domain is sent with its length byte and verbatim bytes, if it fits.
    ensures t.atyp == AtypDomain ==> (r.Ok? <==> |t.host| <= 255)
    ensures t.atyp == AtypDomain && |t.host| <= 255 ==>
              && |r.value| == |t.host| + 7
              && r.value[4] as int == |t.host| && r.value[5..|r.value| - 2] == StringToBytes(t.host)
    ensures t.atyp == AtypDomain && |t.host| > 255 ==>
              r == Err("domain name too long: " + NatToDecimal(|t.host|))
    // An IP address is sent in the form its type asks for.
    ensures t.atyp == AtypIPv4 ==> (r.Ok? <==> parseIP(t.host).Some?)
    ensures t.atyp == AtypIPv4 && r.Ok? ==> r.value[4..|r.value| - 2] == To4(parseIP(t.host).value)
    ensures t.atyp == AtypIPv6 ==> (r.Ok? <==> parseIP(t.host).Some?)
    ensures t.atyp == AtypIPv6 && r.Ok? ==> r.value[4..|r.value| - 2] == To16(parseIP(t.host).value)
    // Any other type is refused.
    ensures t.atyp !in {AtypIPv4, AtypIPv6, AtypDomain} ==>
              r == Err("unsupported address type: " + NatToDecimal(t.atyp as nat))
  {
    var header := [Version5, CmdConnect, 0x00];
    var port := BigEndian16(t.port);
    if t.atyp == AtypIPv4 then
      match parseIP(t.host)
      case None => Err("invalid IPv4 address: " + t.host)
      case Some(ip) => Ok(header + [AtypIPv4] + To4(ip) + port)
    else if t.atyp == AtypIPv6 then
      match parseIP(t.host)
      case None => Err("invalid IPv6 address: " + t.host)
      case Some(ip) => Ok(header + [AtypIPv6] + To16(ip) + port)
    else if t.atyp == AtypDomain then
      if |t.host| > 255 then Err("domain name too long: " + NatToDecimal(|t.host|))
      else Ok(header + [AtypDomain, |t.host| as byte] + StringToBytes(t.host) + port)
    else Err("unsupported address type: " + NatToDecimal(t.atyp as nat))
  }

  /** The number of bind-address bytes that follow a reply header of the
      given address type (`lenByte` is a domain's length byte). */
  function BindFieldLength(atyp: byte, lenByte: byte): nat {
    if atyp == AtypIPv4 then 6
    else if atyp == AtypIPv6 then 18
    else if atyp == AtypDomain then 1 + lenByte as nat + 2
    else 0
  }

  function Min(a: nat, b: nat): nat {
    if a <= b then a else b
  }

  /** The client's verdict on the CONNECT reply: on success, the number of
      bind-address bytes read and thrown away. Short reads of the discarded
      bytes are ignored, as the source ignores them. */
  function CheckConnectReply(input: seq<byte>): (r: Result<nat, string>)
    ensures r.Ok? ==> |input| >= 4 && input[0] == Version5 && input[1] == RepSuccess && 4 + r.value <= |input|
    // A failure code shows up only in the message text.
    ensures |input| >= 4 && input[0] == Version5 && input[1] != RepSuccess ==>
              r == Err("connection failed: reply code " + NatToDecimal(input[1] as nat))
    ensures |input| >= 4 && input[0] != Version5 ==>
              r == Err("unsupported version: " + NatToDecimal(input[0] as nat))
    // With the whole bind address present, exactly its bytes are discarded.
    ensures |input| >= 5 && input[0] == Version5 && input[1] == RepSuccess
            && |input| >= 4 + BindFieldLength(input[3], input[4]) ==>
              r == Ok(BindFieldLength(input[3], input[4]))
    ensures (|input| >= 4 && input[0] == Version5 && input[1] == RepSuccess
             && input[3] !in {AtypIPv4, AtypIPv6, AtypDomain}) ==> r == Ok(0)
  {
    if |input| < 4 then Err("read reply header: " + ReadFullError(|input|))
    else if input[0] != Version5 then Err("unsupported version: " + NatToDecimal(input[0] as nat))
    else if input[1] != RepSuccess then Err("connection failed: reply code " + NatToDecimal(input[1] as nat))
    else
      var available := |input| - 4;
      var atyp := input[3];
      if atyp == AtypIPv4 then Ok(Min(6, available))
      else if atyp == AtypIPv6 then Ok(Min(18, available))
      else if atyp == AtypDomain then
        (if available < 1 then Err("read bind domain length: " + ReadFullError(0))
         else Ok(1 + Min(input[4] as nat + 2, available - 1)))
      else Ok(0)
  }

  /** Builds the request by successive appends; if it can be built, writes
      it, reads the reply header and discards the bind address. `writeErr`
      is what the connection's `Write` returns (None on success). */
  method ClientConnect(input: seq<byte>, t: TargetAddress, parseIP: GoString -> Option<seq<byte>>,
                       writeErr: Option<string>)
    returns (written: seq<byte>, err: Option<string>, discarded: nat)
    ensures EncodeConnect(t, parseIP).Err? ==> written == [] && err == Some(EncodeConnect(t, parseIP).error)
    ensures EncodeConnect(t, parseIP).Ok? ==> written == EncodeConnect(t, parseIP).value
    // A failed write stops before the reply is read.
    ensures EncodeConnect(t, parseIP).Ok? && writeErr.Some? ==>
              err == Some("write connect request: " + writeErr.value) && discarded == 0
    ensures EncodeConnect(t, parseIP).Ok? && writeErr.None? ==>
              match CheckConnectReply(input)
              case Ok(n) => err.None? && discarded == n
              case Err(e) => err == Some(e)
  {
    written := [];
    discarded := 0;
    var req: seq<byte> := [Version5, CmdConnect, 0x00];
    if t.atyp == AtypIPv4 {
      req := req + [AtypIPv4];
      var ip := parseIP(t.host);
      if ip.None? {
        return written, Some("invalid IPv4 address: " + t.host), discarded;
      }
      req := req + To4(ip.value);
    } else if t.atyp == AtypIPv6 {
      req := req + [AtypIPv6];
      var ip := parseIP(t.host);
      if ip.None? {
        return written, Some("invalid IPv6 address: " + t.host), discarded;
      }
      req := req + To16(ip.value);
    } else if t.atyp == AtypDomain {
      req := req + [AtypDomain];
      if |t.host| > 255 {
        return written, Some("domain name too long: " + NatToDecimal(|t.host|)), discarded;
      }
      req := req + [|t.host| as byte];
      req := req + StringToBytes(t.host);
    } else {
      return written, Some("unsupported address type: " + NatToDecimal(t.atyp as nat)), discarded;
    }
    var portBuf := BigEndian16(t.port);
    req := req + portBuf;
    written := req;
    if writeErr.Some? {
      return written, Some("write connect request: " + writeErr.value), discarded;
    }
    err, discarded := ReadConnectReply(input);
  }

  /** Reads the reply header and discards the bind address. */
  method ReadConnectReply(input: seq<byte>) returns (err: Option<string>, discarded: nat)
    ensures match CheckConnectReply(input)
            case Ok(n) => err.None? && discarded == n
            case Err(e) => err == Some(e) && discarded == 0
  {
    discarded := 0;
    if |input| < 4 {
      return Some("read reply header: " + ReadFullError(|input|)), discarded;
    }
    var reply := input[..4];
    if reply[0] != Version5 {
      return Some("unsupported version: " + NatToDecimal(reply[0] as nat)), discarded;
    }
    if reply[1] != RepSuccess {
      return Some("connection failed: reply code " + NatToDecimal(reply[1] as nat)), discarded;
    }
    var pos := 4;
    var atyp := reply[3];
    if atyp == AtypIPv4 {
      discarded := Min(6, |input| - pos);
    } else if atyp == AtypIPv6 {
      discarded := Min(18, |input| - pos);
    } else if atyp == AtypDomain {
      if |input| < pos + 1 {
        return Some("read bind domain length: " + ReadFullError(|input| - pos)), discarded;
      }
      var lenBuf := input[pos..pos + 1];
      pos := pos + 1;
      discarded := 1 + Min(lenBuf[0] as nat + 2, |input| - pos);
    }
    err := None;
  }

  // ---------------------------------------------------------------------
  // Round trips between the server's decoder and the client's encoder.
  // ---------------------------------------------------------------------

  lemma {:induction false} BytesStringRoundTrip(s: GoString)
    ensures BytesToString(StringToBytes(s)) == s
  {
    var b := StringToBytes(s);
    var r := BytesToString(b);
    assert |r| == |s|;
    forall i | 0 <= i < |s| ensures r[i] == s[i] {
      assert r[i] as int == b[i] as int == s[i] as int;
    }
  }

  lemma BigEndian16Injective(a: uint16, b: uint16)
    requires BigEndian16(a) == BigEndian16(b)
    ensures a == b
  {
  }

  /** A domain target whose raw form is a length byte, the domain's bytes
      and the big-endian port is encoded as the header bytes followed by
      that raw form. */
  lemma DomainRawConnect(t: TargetAddress, parseIP: GoString -> Option<seq<byte>>)
    requires t.atyp == AtypDomain && 4 <= |t.rawRequest| && t.rawRequest[0] == AtypDomain
    requires |t.rawRequest| == t.rawRequest[1] as int + 4
    requires t.host == BytesToString(t.rawRequest[2..|t.rawRequest| - 2])
    requires t.port == Uint16Of(t.rawRequest[|t.rawRequest| - 2], t.rawRequest[|t.rawRequest| - 1])
    ensures EncodeConnect(t, parseIP) == Ok([Version5, CmdConnect, 0x00] + t.rawRequest)
  {
    var raw := t.rawRequest;
    var header: seq<byte> := [Version5, CmdConnect, 0x00];
    var fields := [AtypDomain, |t.host| as byte] + StringToBytes(t.host) + BigEndian16(t.port);
    assert |t.host| == |raw| - 4 <= 255;
    assert EncodeConnect(t, parseIP)
        == Ok(header + [AtypDomain, |t.host| as byte] + StringToBytes(t.host) + BigEndian16(t.port));
    assert header + [AtypDomain, |t.host| as byte] + StringToBytes(t.host) + BigEndian16(t.port) == header + fields;
    assert fields == raw by {
      var n := |raw|;
      var domain := raw[2..n - 2];
      StringBytesRoundTrip(domain);
      assert BigEndian16(t.port) == raw[n - 2..];
      SplitRaw(raw);
    }
  }

  lemma SplitRaw(raw: seq<byte>)
    requires |raw| >= 4
    ensures raw == raw[..2] + raw[2..|raw| - 2] + raw[|raw| - 2..]
    ensures raw[..2] == [raw[0], raw[1]]
  {
  }

  /** For a domain target the server decoded, the client's CONNECT request
      is the three header bytes followed by the raw form the server kept. */
  lemma DomainRawIsRequest(input: seq<byte>, ipText: seq<byte> -> GoString, parseIP: GoString -> Option<seq<byte>>)
    requires Socks5Server.DecodeRequest(input, ipText).Ok?
    requires Socks5Server.DecodeRequest(input, ipText).value.atyp == AtypDomain
    ensures EncodeConnect(Socks5Server.DecodeRequest(input, ipText).value, parseIP)
            == Ok([Version5, CmdConnect, 0x00] + Socks5Server.DecodeRequest(input, ipText).value.rawRequest)
  {
    Socks5Server.DecodedRequestShape(input, ipText);
    DomainRawConnect(Socks5Server.DecodeRequest(input, ipText).value, parseIP);
  }

  /** A domain target that fits in a request survives encoding by the client
      and decoding by the server: same type, host and port, and the raw form
      is the request after its header. */
  lemma DomainConnectRoundTrip(t: TargetAddress, ipText: seq<byte> -> GoString, parseIP: GoString -> Option<seq<byte>>)
    requires t.atyp == AtypDomain && |t.host| <= 255
    ensures EncodeConnect(t, parseIP).Ok?
    ensures var req := EncodeConnect(t, parseIP).value;
      Socks5Server.DecodeRequest(req, ipText) == Ok(TargetAddress(AtypDomain, t.host, t.port, req[3..]))
  {
    var req := EncodeConnect(t, parseIP).value;
    var hostBytes := StringToBytes(t.host);
    var n := |req|;
    assert req == [Version5, CmdConnect, 0x00, AtypDomain, |t.host| as byte] + hostBytes + BigEndian16(t.port);
    assert req[5..5 + |t.host|] == hostBytes;
    BytesStringRoundTrip(t.host);
    var domainEnd := 5 + |t.host|;
    assert req[4] as int == |t.host| && domainEnd + 2 == n;
    assert BytesToString(req[5..domainEnd]) == t.host;
    var p := Uint16Of(req[n - 2], req[n - 1]);
    assert BigEndian16(p) == [req[n - 2], req[n - 1]] == BigEndian16(t.port);
    BigEndian16Injective(p, t.port);
    assert req[3] == AtypDomain && req[3..domainEnd + 2] == req[3..];
    assert Socks5Server.DecodePort(req, domainEnd, t.host) == Ok(TargetAddress(AtypDomain, t.host, t.port, req[3..]));
  }

  /** An IP target whose parsed address has the byte form its type asks for
      decodes back to the same type and port, with the host the server's
      address text gives for those bytes; the host itself comes back when
      that text is the original host. */
  lemma IPConnectRoundTrip(t: TargetAddress, ipText: seq<byte> -> GoString, parseIP: GoString -> Option<seq<byte>>)
    requires t.atyp == AtypIPv4 || t.atyp == AtypIPv6
    requires parseIP(t.host).Some?
    requires t.atyp == AtypIPv4 ==> |To4(parseIP(t.host).value)| == 4
    requires t.atyp == AtypIPv6 ==> |To16(parseIP(t.host).value)| == 16
    ensures EncodeConnect(t, parseIP).Ok?
    ensures var req := EncodeConnect(t, parseIP).value;
      var ip := parseIP(t.host).value;
      var address := if t.atyp == AtypIPv4 then To4(ip) else To16(ip);
      Socks5Server.DecodeRequest(req, ipText) == Ok(TargetAddress(t.atyp, ipText(address), t.port, req[3..]))
  {
    var req := EncodeConnect(t, parseIP).value;
    var ip := parseIP(t.host).value;
    var address := if t.atyp == AtypIPv4 then To4(ip) else To16(ip);
    var n := |req|;
    assert req == [Version5, CmdConnect, 0x00, t.atyp] + address + BigEndian16(t.port);
    assert req[4..4 + |address|] == address;
    var at := 4 + |address|;
    assert at + 2 == n && req[3] == t.atyp && req[3..at + 2] == req[3..];
    var p := Uint16Of(req[n - 2], req[n - 1]);
    assert BigEndian16(p) == [req[n - 2], req[n - 1]] == BigEndian16(t.port);
    BigEndian16Injective(p, t.port);
    assert Socks5Server.DecodePort(req, at, ipText(address)) == Ok(TargetAddress(t.atyp, ipText(address), t.port, req[3..]));
  }
}
