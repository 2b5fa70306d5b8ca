/** The server half of SOCKS5: method negotiation, CONNECT request parsing
    and reply encoding. A connection is modelled by the bytes the client
    sends (`input`, read front to back) and the bytes the server writes. */
module Socks5Server {
  import opened Common
  import opened Socks5Protocol

  // ---------------------------------------------------------------------
  // Method negotiation (RFC 1928 section 3)
  // ---------------------------------------------------------------------

  /** The outcome of negotiation: an error text (None on success) and the
      bytes written back to the client. */
  datatype Negotiation = Negotiation(err: Option<string>, written: seq<byte>)

  /** The client's greeting is complete: version 5, at least one method and
      all the announced method bytes present. */
  predicate GreetingComplete(input: seq<byte>) {
    |input| >= 2 && input[0] == Version5 && input[1] != 0 && |input| >= 2 + input[1] as int
  }

  /** The methods the client offers, once its greeting is complete. */
  function OfferedMethods(input: seq<byte>): seq<byte>
    requires GreetingComplete(input)
  {
    input[2..2 + input[1] as int]
  }

  /** The specification of `HandleNegotiation`. `writeErr` is what the
      connection's `Write` of the chosen method returns (None on success). */
  function Negotiate(input: seq<byte>, writeErr: Option<string>): (n: Negotiation)
    // The only replies ever written are the two of the RFC.
    ensures n.written in {[], [Version5, MethodNoAuth], [Version5, MethodNoAcceptable]}
    // A bad version or an empty method list fails before anything is written.
    ensures |input| >= 2 && input[0] != Version5 ==> n.err.Some? && n.written == []
    ensures |input| >= 2 && input[0] == Version5 && input[1] == 0 ==>
              n.err == Some("no methods provided") && n.written == []
    // A complete greeting is answered, and accepted iff it offers no-auth;
    // the acceptance reports its write error, the rejection never does.
    ensures GreetingComplete(input) ==>
              if MethodNoAuth in OfferedMethods(input)
              then n == Negotiation(writeErr, [Version5, MethodNoAuth])
              else n == Negotiation(Some("no acceptable methods"), [Version5, MethodNoAcceptable])
    // Success happens only on a complete greeting offering no-auth whose
    // answer was written.
    ensures n.err.None? <==>
              GreetingComplete(input) && MethodNoAuth in OfferedMethods(input) && writeErr.None?
  {
    if |input| < 2 then
      Negotiation(Some("read version and nmethods: " + ReadFullError(|input|)), [])
    else if input[0] != Version5 then
      Negotiation(Some("unsupported version: " + NatToDecimal(input[0] as nat)), [])
    else if input[1] == 0 then
      Negotiation(Some("no methods provided"), [])
    else if |input| < 2 + input[1] as int then
      Negotiation(Some("read methods: " + ReadFullError(|input| - 2)), [])
    else if MethodNoAuth in OfferedMethods(input) then
      Negotiation(writeErr, [Version5, MethodNoAuth])
    else
      Negotiation(Some("no acceptable methods"), [Version5, MethodNoAcceptable])
  }

  /** Reads the greeting, scans the offered methods for no-auth and writes
      the chosen method. */
  method HandleNegotiation(input: seq<byte>, writeErr: Option<string>)
    returns (err: Option<string>, written: seq<byte>)
    ensures Negotiation(err, written) == Negotiate(input, writeErr)
  {
    written := [];
    if |input| < 2 {
      return Some("read version and nmethods: " + ReadFullError(|input|)), written;
    }
    var version, nmethods := input[0], input[1];
    if version != Version5 {
      return Some("unsupported version: " + NatToDecimal(version as nat)), written;
    }
    if nmethods == 0 {
      return Some("no methods provided"), written;
    }
    if |input| < 2 + nmethods as int {
      return Some("read methods: " + ReadFullError(|input| - 2)), written;
    }
    var methods := input[2..2 + nmethods as int];
    var hasNoAuth := false;
    var i := 0;
    while i < nmethods as int
      invariant 0 <= i <= |methods|
      invariant !hasNoAuth && MethodNoAuth !in methods[..i]
    {
      if methods[i] == MethodNoAuth {
        hasNoAuth := true;
        break;
      }
      i := i + 1;
    }
    assert !hasNoAuth ==> methods[..i] == methods;
    if !hasNoAuth {
      // The write error of the rejection is dropped.
      written := written + [Version5, MethodNoAcceptable];
      return Some("no acceptable methods"), written;
    }
    written := written + [Version5, MethodNoAuth];
    if writeErr.Some? {
      return writeErr, written;
    }
    err := None;
  }

  // ---------------------------------------------------------------------
  // CONNECT request (RFC 1928 sections 4 and 5)
  // ---------------------------------------------------------------------

  /** The length of the address field that follows the address type byte at
      index 3, including a domain's length byte; None for an unknown type.
      `lenByte` is the byte at index 4. */
  function AddressFieldLength(atyp: byte, lenByte: byte): Option<nat> {
    if atyp == AtypIPv4 then Some(4)
    else if atyp == AtypIPv6 then Some(16)
    else if atyp == AtypDomain then Some(1 + lenByte as nat)
    else None
  }

  /** The specification of `ParseRequest`. IP addresses are turned into host
      text by `ipText` (Go's `net.IP.String`, not modelled). */
  function DecodeRequest(input: seq<byte>, ipText: seq<byte> -> GoString): (r: Result<TargetAddress, string>)
    // Accepted exactly when the header is version 5 and CONNECT with a known
    // address type, and the whole request is present.
    ensures r.Ok? <==>
              |input| >= 5 && input[0] == Version5 && input[1] == CmdConnect
              && AddressFieldLength(input[3], input[4]).Some?
              && |input| >= 6 + AddressFieldLength(input[3], input[4]).value
    ensures |input| >= 4 && input[0] != Version5 ==> r == Err("unsupported version: " + NatToDecimal(input[0] as nat))
    ensures |input| >= 4 && input[0] == Version5 && input[1] != CmdConnect ==>
              r == Err("unsupported command: " + NatToDecimal(input[1] as nat))
    ensures |input| >= 4 && input[0] == Version5 && input[1] == CmdConnect
            && input[3] !in {AtypIPv4, AtypIPv6, AtypDomain} ==>
              r == Err("unsupported address type: " + NatToDecimal(input[3] as nat))
  {
    if |input| < 4 then Err("read request header: " + ReadFullError(|input|))
    else
      var version, cmd := input[0], input[1];
      if version != Version5 then Err("unsupported version: " + NatToDecimal(version as nat))
      else if cmd != CmdConnect then Err("unsupported command: " + NatToDecimal(cmd as nat))
      else DecodeTarget(input, ipText)
  }

  /** The part of `DecodeRequest` after the header: the address, by its
      type, and then the port. */
  function DecodeTarget(input: seq<byte>, ipText: seq<byte> -> GoString): Result<TargetAddress, string>
    requires |input| >= 4
  {
    var atyp := input[3];
    if atyp == AtypIPv4 then
      (if |input| < 8 then Err("read IPv4 address: " + ReadFullError(|input| - 4))
       else DecodePort(input, 8, ipText(input[4..8])))
    else if atyp == AtypIPv6 then
      (if |input| < 20 then Err("read IPv6 address: " + ReadFullError(|input| - 4))
       else DecodePort(input, 20, ipText(input[4..20])))
    else if atyp == AtypDomain then
      (if |input| < 5 then Err("read domain length: " + ReadFullError(0))
       else
         var domainEnd := 5 + input[4] as int;
         if |input| < domainEnd then Err("read domain: " + ReadFullError(|input| - 5))
         else DecodePort(input, domainEnd, BytesToString(input[5..domainEnd])))
    else Err("unsupported address type: " + NatToDecimal(atyp as nat))
  }

  lemma SliceOfSlice(s: seq<byte>, i: nat, j: nat, k: nat, l: nat)
    requires i <= j <= |s| && k <= l <= j - i
    ensures s[i..j][k..l] == s[i + k..i + l]
  {
    assert |s[i..j][k..l]| == |s[i + k..i + l]|;
    forall m | 0 <= m < l - k
      ensures s[i..j][k..l][m] == s[i + k..i + l][m]
    {
      assert s[i..j][k..l][m] == s[i..j][k + m] == s[i + k + m];
    }
  }

  /** An accepted request keeps, as its raw form, the address type, the
      address field and the port exactly as they stand on the wire after
      the three header bytes; the host and the port are read from them. */
  lemma DecodedRequestShape(input: seq<byte>, ipText: seq<byte> -> GoString)
    requires DecodeRequest(input, ipText).Ok?
    ensures var t := DecodeRequest(input, ipText).value;
      && 4 <= |t.rawRequest| && 3 + |t.rawRequest| <= |input|
      && t.rawRequest == input[3..3 + |t.rawRequest|]
      && t.atyp == t.rawRequest[0] == input[3]
      && (t.atyp == AtypIPv4 ==> |t.rawRequest| == 7 && t.host == ipText(t.rawRequest[1..5]))
      && (t.atyp == AtypIPv6 ==> |t.rawRequest| == 19 && t.host == ipText(t.rawRequest[1..17]))
      && (t.atyp == AtypDomain ==>
            |t.rawRequest| == t.rawRequest[1] as int + 4
            && t.host == BytesToString(t.rawRequest[2..|t.rawRequest| - 2]))
      // The port is the big-endian value of the last two bytes.
      && t.port == Uint16Of(t.rawRequest[|t.rawRequest| - 2], t.rawRequest[|t.rawRequest| - 1])
  {
    var atyp := input[3];
    var t := DecodeRequest(input, ipText).value;
    if atyp == AtypIPv4 {
      assert t == TargetAddress(atyp, ipText(input[4..8]), Uint16Of(input[8], input[9]), input[3..10]);
      SliceOfSlice(input, 3, 10, 1, 5);
    } else if atyp == AtypIPv6 {
      assert t == TargetAddress(atyp, ipText(input[4..20]), Uint16Of(input[20], input[21]), input[3..22]);
      SliceOfSlice(input, 3, 22, 1, 17);
    } else {
      var at := 5 + input[4] as int;
      assert t == TargetAddress(atyp, BytesToString(input[5..at]), Uint16Of(input[at], input[at + 1]), input[3..at + 2]);
      SliceOfSlice(input, 3, at + 2, 2, at - 3);
    }
  }

  /** The last step of the request: the two port bytes at `at`. */
  function DecodePort(input: seq<byte>, at: nat, host: GoString): (r: Result<TargetAddress, string>)
    requires 4 <= at <= |input|
    ensures r.Ok? <==> |input| >= at + 2
    ensures r.Ok? ==> r.value == TargetAddress(input[3], host, Uint16Of(input[at], input[at + 1]), input[3..at + 2])
  {
    if |input| < at + 2 then Err("read port: " + ReadFullError(|input| - at))
    else Ok(TargetAddress(input[3], host, Uint16Of(input[at], input[at + 1]), input[3..at + 2]))
  }

  /** The reserved byte of the request header is never looked at. */
  lemma ReservedByteIgnored(input: seq<byte>, b: byte, ipText: seq<byte> -> GoString)
    requires |input| >= 3
    ensures DecodeRequest(input[2 := b], ipText) == DecodeRequest(input, ipText)
  {
    var other := input[2 := b];
    assert other[3..] == input[3..];
    assert forall i, j | 3 <= i <= j <= |input| :: other[i..j] == input[i..j];
  }

  /** Reads the request header, the address and the port step by step,
      copying every byte from the address type on into the raw buffer. */
  method ParseRequest(input: seq<byte>, ipText: seq<byte> -> GoString) returns (r: Result<TargetAddress, string>)
    ensures r == DecodeRequest(input, ipText)
  {
    if |input| < 4 {
      return Err("read request header: " + ReadFullError(|input|));
    }
    var version, cmd := input[0], input[1];
    if version != Version5 {
      return Err("unsupported version: " + NatToDecimal(version as nat));
    }
    if cmd != CmdConnect {
      return Err("unsupported command: " + NatToDecimal(cmd as nat));
    }
    r := ReadTarget(input, ipText);
  }

  /** The rest of `ParseRequest`: reads the address by its type, then the
      port, keeping every byte from the address type on as the raw
      request. */
  method ReadTarget(input: seq<byte>, ipText: seq<byte> -> GoString) returns (r: Result<TargetAddress, string>)
    requires |input| >= 4
    ensures r == DecodeTarget(input, ipText)
  {
    var atyp := input[3];
    var pos := 4;
    var rawBuffer: seq<byte> := [atyp];
    var host: GoString;
    if atyp == AtypIPv4 {
      if |input| < pos + 4 {
        return Err("read IPv4 address: " + ReadFullError(|input| - pos));
      }
      var addr := input[pos..pos + 4];
      pos := pos + 4;
      rawBuffer := rawBuffer + addr;
      host := ipText(addr);
      assert rawBuffer == input[3..pos];
    } else if atyp == AtypIPv6 {
      if |input| < pos + 16 {
        return Err("read IPv6 address: " + ReadFullError(|input| - pos));
      }
      var addr := input[pos..pos + 16];
      pos := pos + 16;
      rawBuffer := rawBuffer + addr;
      host := ipText(addr);
      assert rawBuffer == input[3..pos];
    } else if atyp == AtypDomain {
      if |input| < pos + 1 {
        return Err("read domain length: " + ReadFullError(|input| - pos));
      }
      var lenBuf := input[pos..pos + 1];
      pos := pos + 1;
      rawBuffer := rawBuffer + lenBuf;
      var domainLen := lenBuf[0] as int;
      if |input| < pos + domainLen {
        return Err("read domain: " + ReadFullError(|input| - pos));
      }
      var domain := input[pos..pos + domainLen];
      pos := pos + domainLen;
      rawBuffer := rawBuffer + domain;
      host := BytesToString(domain);
      assert rawBuffer == input[3..pos];
    } else {
      return Err("unsupported address type: " + NatToDecimal(atyp as nat));
    }
    assert DecodeTarget(input, ipText) == DecodePort(input, pos, host);
    if |input| < pos + 2 {
      return Err("read port: " + ReadFullError(|input| - pos));
    }
    var portBuf := input[pos..pos + 2];
    rawBuffer := rawBuffer + portBuf;
    assert rawBuffer == input[3..pos + 2];
    var port := Uint16Of(portBuf[0], portBuf[1]);
    r := Ok(TargetAddress(atyp, host, port, rawBuffer));
  }

  // ---------------------------------------------------------------------
  // Reply (RFC 1928 section 6)
  // ---------------------------------------------------------------------

  /** The bound address handed to `SendReply`: none, an address that is not
      TCP, or a TCP address with its IP bytes (4 or 16, or any other length
      Go allows) and its port. */
  datatype BindAddr = NoBindAddr | NonTcpAddr | TcpAddr(ip: seq<byte>, port: int)

  /** `uint16(port)`: Go's conversion keeps the low 16 bits. */
  function TruncatePort(port: int): uint16 {
    port % 0x1_0000
  }

  /** The specification of `SendReply`. */
  function EncodeReply(status: byte, bind: BindAddr): (reply: seq<byte>)
    ensures |reply| >= 6 && reply[..3] == [Version5, status, 0x00]
    // Without a TCP address: an all-zero IPv4 bind address and port.
    ensures !bind.TcpAddr? ==> reply == [Version5, status, 0x00, AtypIPv4, 0, 0, 0, 0, 0, 0]
    // An IPv4-mappable TCP address: the IPv4 form, ten bytes in all.
    ensures bind.TcpAddr? && To4(bind.ip) != [] ==>
              |reply| == 10 && reply[3] == AtypIPv4 && reply[4..8] == To4(bind.ip)
    // Any other TCP address: the IPv6 form, 22 bytes for a 16-byte address.
    ensures bind.TcpAddr? && To4(bind.ip) == [] ==>
              reply[3] == AtypIPv6 && reply[4..|reply| - 2] == To16(bind.ip)
    ensures bind.TcpAddr? && To4(bind.ip) == [] && |bind.ip| == 16 ==> |reply| == 22
    // The port is big-endian and last.
    ensures bind.TcpAddr? ==> reply[|reply| - 2..] == BigEndian16(TruncatePort(bind.port))
  {
    match bind
    case TcpAddr(ip, port) =>
      var address := if To4(ip) != [] then [AtypIPv4] + To4(ip) else [AtypIPv6] + To16(ip);
      [Version5, status, 0x00] + address + BigEndian16(TruncatePort(port))
    case _ =>
      [Version5, status, 0x00, AtypIPv4, 0, 0, 0, 0, 0, 0]
  }

  /** Builds the reply, writes it and returns the bytes written with the
      write's error (`writeErr`, None on success). */
  method SendReply(status: byte, bind: BindAddr, writeErr: Option<string>)
    returns (reply: seq<byte>, err: Option<string>)
    ensures reply == EncodeReply(status, bind)
    ensures err == writeErr
  {
    reply := BuildReply(status, bind);
    err := writeErr;
  }

  /** The reply, built by successive appends. */
  method BuildReply(status: byte, bind: BindAddr) returns (reply: seq<byte>)
    ensures reply == EncodeReply(status, bind)
  {
    reply := [Version5, status, 0x00];
    if bind.NoBindAddr? {
      reply := reply + [AtypIPv4];
      reply := reply + [0, 0, 0, 0];
      reply := reply + [0, 0];
    } else if bind.NonTcpAddr? {
      reply := reply + [AtypIPv4];
      reply := reply + [0, 0, 0, 0];
      reply := reply + [0, 0];
    } else {
      var ip4 := To4(bind.ip);
      if ip4 != [] {
        reply := reply + [AtypIPv4];
        reply := reply + ip4;
      } else {
        reply := reply + [AtypIPv6];
        reply := reply + To16(bind.ip);
      }
      var portBuf := BigEndian16(TruncatePort(bind.port));
      reply := reply + portBuf;
    }
  }
}
