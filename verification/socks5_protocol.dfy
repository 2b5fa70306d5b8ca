/** SOCKS version 5 wire constants (RFC 1928), the protocol error value and
    the decoded CONNECT target. */
module Socks5Protocol {
  import opened Common

  const Version5: byte := 0x05

  const MethodNoAuth: byte := 0x00
  const MethodNoAcceptable: byte := 0xFF

  const CmdConnect: byte := 0x01

  const AtypIPv4: byte := 0x01
  const AtypDomain: byte := 0x03
  const AtypIPv6: byte := 0x04

  const RepSuccess: byte := 0x00
  const RepGeneralFailure: byte := 0x01
  const RepConnectionNotAllowed: byte := 0x02
  const RepNetworkUnreachable: byte := 0x03
  const RepHostUnreachable: byte := 0x04
  const RepConnectionRefused: byte := 0x05
  const RepTTLExpired: byte := 0x06
  const RepCommandNotSupported: byte := 0x07
  const RepAddressTypeNotSupported: byte := 0x08

  /** The reply codes of RFC 1928 section 6, in code order. */
  const ReplyCodes: seq<byte> := [
    RepSuccess, RepGeneralFailure, RepConnectionNotAllowed, RepNetworkUnreachable,
    RepHostUnreachable, RepConnectionRefused, RepTTLExpired, RepCommandNotSupported,
    RepAddressTypeNotSupported
  ]

  /** A failure reported by a SOCKS5 peer: its reply code and a message. */
  datatype Socks5Error = Socks5Error(replyCode: byte, message: string) {
    /** The error text is the message alone; the code is not rendered. */
    function Error(): (s: string)
      ensures s == message
    {
      message
    }
  }

  /** The destination of a CONNECT request. `rawRequest` holds the bytes the
      client sent from the address type through the port, so that they can
      be forwarded unchanged. */
  datatype TargetAddress = TargetAddress(atyp: byte, host: GoString, port: uint16, rawRequest: seq<byte>) {

    /** Always a TCP destination. */
    function Network(): (s: string)
      ensures s == "tcp"
    {
      "tcp"
    }

    /** `net.JoinHostPort(host, strconv.Itoa(port))`. */
    function String(): (s: string)
      ensures IsPrefix(if ':' in host then "[" + host + "]:" else host + ":", s)
    {
      JoinHostPort(host, NatToDecimal(port))
    }
  }

  /** `net.JoinHostPort`: a host holding a colon (an IPv6 literal) is bracketed. */
  function JoinHostPort(host: string, port: string): string {
    if ':' in host then "[" + host + "]:" + port else host + ":" + port
  }

  /** The index of the last occurrence of `c` in `s`. */
  function LastIndexOf(s: string, c: char): (r: Option<nat>)
    ensures r.Some? ==> r.value < |s| && s[r.value] == c
  {
    if s == [] then None
    else if s[|s| - 1] == c then Some(|s| - 1)
    else LastIndexOf(s[..|s| - 1], c)
  }

  lemma {:induction false} LastIndexAfterPrefix(a: string, c: char, b: string)
    requires c !in b
    ensures LastIndexOf(a + [c] + b, c) == Some(|a|)
    decreases |b|
  {
    var s := a + [c] + b;
    if b == [] {
    } else {
      assert s[|s| - 1] == b[|b| - 1] != c;
      assert s[..|s| - 1] == a + [c] + b[..|b| - 1];
      LastIndexAfterPrefix(a, c, b[..|b| - 1]);
    }
  }

  /** The text of a target splits back at its last colon: before it the host
      (bracketed when it holds a colon), after it the decimal port, which
      `strconv.Atoi` reads back as the port. */
  lemma TargetStringRoundTrip(t: TargetAddress)
    ensures var s := t.String();
      var hostPart := if ':' in t.host then "[" + t.host + "]" else t.host;
      && LastIndexOf(s, ':') == Some(|hostPart|)
      && s[..|hostPart|] == hostPart
      && ParseInt(s[|hostPart| + 1..], 10) == Some(t.port as int)
  {
    var hostPart := if ':' in t.host then "[" + t.host + "]" else t.host;
    var d := NatToDecimal(t.port);
    var s := t.String();
    assert s == hostPart + [':'] + d;
    assert ':' !in d by {
      forall i | 0 <= i < |d| ensures d[i] != ':' { assert IsDigit(d[i]); }
    }
    LastIndexAfterPrefix(hostPart, ':', d);
    assert s[|hostPart| + 1..] == d;
    DecimalRoundTrip(t.port);
  }

  // ---------------------------------------------------------------------
  // The byte forms of an IP address (net.IP.To4 and net.IP.To16); the empty
  // sequence stands for Go's nil.
  // ---------------------------------------------------------------------

  const V4InV6Prefix: seq<byte> := [0, 0, 0, 0, 0, 0, 0, 0, 0, 0, 0xFF, 0xFF]

  /** `net.IP.To4`: the 4-byte form, or nil when the address is not IPv4. */
  function To4(ip: seq<byte>): (r: seq<byte>)
    ensures |r| == 0 || |r| == 4
  {
    if |ip| == 4 then ip
    else if |ip| == 16 && ip[..12] == V4InV6Prefix then ip[12..]
    else []
  }

  /** `net.IP.To16`: the 16-byte form, or nil for a malformed address. */
  function To16(ip: seq<byte>): (r: seq<byte>)
    ensures |r| == 0 || |r| == 16
  {
    if |ip| == 4 then V4InV6Prefix + ip
    else if |ip| == 16 then ip
    else []
  }

  /** To4 and To16 are inverse between a 4-byte address and its IPv4-mapped
      16-byte form, and a 16-byte address is IPv4-mappable exactly when it
      carries the mapping prefix. */
  lemma IPFormsRoundTrip(ip: seq<byte>)
    ensures |ip| == 4 ==> To4(To16(ip)) == ip
    ensures |ip| == 16 ==> (To4(ip) != [] <==> ip[..12] == V4InV6Prefix)
    ensures |ip| == 16 && To4(ip) != [] ==> To16(To4(ip)) == ip
  {
    if |ip| == 4 {
      assert (V4InV6Prefix + ip)[..12] == V4InV6Prefix;
      assert (V4InV6Prefix + ip)[12..] == ip;
    }
    if |ip| == 16 && ip[..12] == V4InV6Prefix {
      assert V4InV6Prefix + ip[12..] == ip[..12] + ip[12..] == ip;
    }
  }
}
