/** Shared value types and the small pieces of Go's `strconv` and `strings`
    packages that the proxy's codecs rely on. */
module Common {

  /** One octet on the wire. */
  newtype byte = b: int | 0 <= b < 256

  type uint16 = x: int | 0 <= x < 0x1_0000

  datatype Option<+T> = None | Some(value: T)

  datatype Result<+T, +E> = Ok(value: T) | Err(error: E)

  /** A Go string: a sequence of bytes, each held here as the char with that code. */
  predicate IsByteString(s: string) {
    forall i | 0 <= i < |s| :: s[i] as int < 256
  }

  type GoString = s: string | IsByteString(s)

  function ByteToChar(b: byte): char {
    (b as int) as char
  }

  /** Go's `string(b)` conversion. */
  function BytesToString(b: seq<byte>): (s: GoString)
    ensures |s| == |b|
    ensures forall i | 0 <= i < |b| :: s[i] as int == b[i] as int
  {
    if b == [] then "" else [ByteToChar(b[0])] + BytesToString(b[1..])
  }

  /** Go's `[]byte(s)` conversion. */
  function StringToBytes(s: GoString): (b: seq<byte>)
    ensures |b| == |s|
    ensures forall i | 0 <= i < |s| :: b[i] as int == s[i] as int
  {
    if s == "" then [] else [s[0] as int as byte] + StringToBytes(s[1..])
  }

  lemma {:induction false} StringBytesRoundTrip(b: seq<byte>)
    ensures StringToBytes(BytesToString(b)) == b
  {
    var s := BytesToString(b);
    var r := StringToBytes(s);
    assert |r| == |b|;
    forall i | 0 <= i < |b| ensures r[i] == b[i] {
      assert r[i] as int == s[i] as int == b[i] as int;
    }
  }

  /** The two errors `io.ReadFull` reports on a stream that ends early. */
  function ReadFullError(available: nat): (e: string)
    ensures e == "EOF" <==> available == 0
  {
    if available == 0 then "EOF" else "unexpected EOF"
  }

  /** Big-endian encoding of a 16-bit value (`binary.BigEndian.PutUint16`). */
  function BigEndian16(v: uint16): (b: seq<byte>)
    ensures |b| == 2 && b[0] as int * 256 + b[1] as int == v
  {
    [(v / 256) as byte, (v % 256) as byte]
  }

  /** `binary.BigEndian.Uint16`. */
  function Uint16Of(hi: byte, lo: byte): (v: uint16)
    ensures BigEndian16(v) == [hi, lo]
  {
    hi as int * 256 + lo as int
  }

  // ---------------------------------------------------------------------
  // Decimal and hexadecimal numerals (strconv.Itoa, Atoi, ParseInt).
  // ---------------------------------------------------------------------

  predicate IsDigit(c: char) {
    '0' <= c <= '9'
  }

  predicate AllDigits(s: string) {
    forall i | 0 <= i < |s| :: IsDigit(s[i])
  }

  function DigitChar(d: nat): (c: char)
    requires d < 10
    ensures IsDigit(c)
  {
    ('0' as int + d) as char
  }

  /** `strconv.Itoa` for a non-negative value: the shortest decimal numeral. */
  function NatToDecimal(n: nat): (s: string)
    ensures |s| >= 1 && AllDigits(s)
    ensures n > 0 ==> s[0] != '0'
    decreases n
  {
    if n < 10 then [DigitChar(n)] else NatToDecimal(n / 10) + [DigitChar(n % 10)]
  }

  /** `strconv.Itoa` and `fmt`'s `%d` for any integer. */
  function IntToDecimal(i: int): (s: string)
    ensures |s| >= 1
    ensures i >= 0 ==> s == NatToDecimal(i)
  {
    if i < 0 then "-" + NatToDecimal(-i) else NatToDecimal(i)
  }

  /** The value of one digit in the given base, as `strconv` reads it
      (letters of either case stand for 10 and up). */
  function DigitValue(c: char, base: nat): (r: Option<nat>)
    ensures r.Some? ==> r.value < base
  {
    var v :=
      if '0' <= c <= '9' then c as int - '0' as int
      else if 'a' <= c <= 'z' then c as int - 'a' as int + 10
      else if 'A' <= c <= 'Z' then c as int - 'A' as int + 10
      else base;
    if v < base then Some(v) else None
  }

  /** The value of a non-empty run of digits in the given base; None when
      the run is empty or holds a character that is not a digit. */
  function DigitsValue(s: string, base: nat): (r: Option<nat>)
    ensures r.Some? ==> |s| >= 1
    decreases |s|
  {
    if |s| == 0 then None
    else if |s| == 1 then DigitValue(s[0], base)
    else
      match DigitsValue(s[..|s| - 1], base)
      case None => None
      case Some(high) =>
        match DigitValue(s[|s| - 1], base)
        case None => None
        case Some(low) => Some(high * base + low)
  }

  const MinInt64: int := -0x8000_0000_0000_0000
  const MaxInt64: int := 0x7FFF_FFFF_FFFF_FFFF

  /** `strconv.ParseInt(s, base, 64)`: an optional sign, then at least one
      digit; the value must fit in an int64. `strconv.Atoi` is the base-10 case. */
  function ParseInt(s: string, base: nat): (r: Option<int>)
    ensures r.Some? ==> MinInt64 <= r.value <= MaxInt64
    ensures r.Some? ==> s != ""
  {
    if s == "" then None
    else
      var signed := s[0] == '+' || s[0] == '-';
      var digits := if signed then s[1..] else s;
      match DigitsValue(digits, base)
      case None => None
      case Some(v) =>
        var x: int := if s[0] == '-' then -(v as int) else v as int;
        if MinInt64 <= x <= MaxInt64 then Some(x) else None
  }

  lemma {:induction false} DecimalDigitsValue(n: nat)
    ensures DigitsValue(NatToDecimal(n), 10) == Some(n)
    decreases n
  {
    if n >= 10 {
      DecimalDigitsValue(n / 10);
      var s := NatToDecimal(n);
      assert s[..|s| - 1] == NatToDecimal(n / 10);
    }
  }

  /** Itoa and Atoi are inverse on the int64 range: the decimal numeral of a
      non-negative value reads back as that value. */
  lemma DecimalRoundTrip(n: nat)
    requires n <= MaxInt64
    ensures ParseInt(NatToDecimal(n), 10) == Some(n)
  {
    DecimalDigitsValue(n);
  }

  // ---------------------------------------------------------------------
  // Text helpers (strings package, on the ASCII range).
  // ---------------------------------------------------------------------

  /** The ASCII white space that `strings.TrimSpace` removes. */
  predicate IsSpace(c: char) {
    c == ' ' || c == '\t' || c == '\n' || c == '\r' || c as int == 0x0B || c as int == 0x0C
  }

  function TrimLeftSpace(s: string): (r: string)
    ensures |r| <= |s|
    ensures r != [] ==> !IsSpace(r[0])
  {
    if s != [] && IsSpace(s[0]) then TrimLeftSpace(s[1..]) else s
  }

  /** Trimming on the left keeps a suffix and drops only white space. */
  lemma {:induction false} TrimLeftSpaceSuffix(s: string)
    ensures TrimLeftSpace(s) == s[|s| - |TrimLeftSpace(s)|..]
    ensures forall i | 0 <= i < |s| - |TrimLeftSpace(s)| :: IsSpace(s[i])
    decreases |s|
  {
    if s != [] && IsSpace(s[0]) {
      TrimLeftSpaceSuffix(s[1..]);
      assert forall i | 1 <= i < |s| :: s[i] == s[1..][i - 1];
    }
  }

  function TrimRightSpace(s: string): (r: string)
    ensures |r| <= |s|
    ensures r != [] ==> !IsSpace(r[|r| - 1])
  {
    if s != [] && IsSpace(s[|s| - 1]) then TrimRightSpace(s[..|s| - 1]) else s
  }

  /** Trimming on the right keeps a prefix and drops only white space. */
  lemma {:induction false} TrimRightSpacePrefix(s: string)
    ensures TrimRightSpace(s) == s[..|TrimRightSpace(s)|]
    ensures forall i | |TrimRightSpace(s)| <= i < |s| :: IsSpace(s[i])
    decreases |s|
  {
    if s != [] && IsSpace(s[|s| - 1]) {
      TrimRightSpacePrefix(s[..|s| - 1]);
    }
  }

  /** `strings.TrimSpace`. */
  function TrimSpace(s: string): (r: string)
    ensures |r| <= |s|
    ensures r != [] ==> !IsSpace(r[0]) && !IsSpace(r[|r| - 1])
  {
    var t := TrimLeftSpace(s);
    TrimRightSpacePrefix(t);
    TrimRightSpace(t)
  }

  /** `s` is `r` with `k` white space characters in front of it and only
      white space after it. */
  predicate SpaceAround(s: string, k: nat, r: string) {
    && k + |r| <= |s| && s[k..k + |r|] == r
    && (forall i | 0 <= i < k :: IsSpace(s[i]))
    && (forall i | k + |r| <= i < |s| :: IsSpace(s[i]))
  }

  /** `TrimSpace` keeps the middle of `s` between a run of white space at
      each end; with its own ensures, the run is as long as it can be. */
  lemma TrimSpaceSurrounded(s: string)
    ensures exists k: nat :: SpaceAround(s, k, TrimSpace(s))
  {
    var t := TrimLeftSpace(s);
    var r := TrimSpace(s);
    var k := |s| - |t|;
    TrimLeftSpaceSuffix(s);
    TrimRightSpacePrefix(t);
    assert r == s[k..k + |r|];
    forall i | k + |r| <= i < |s|
      ensures IsSpace(s[i])
    {
      assert s[i] == t[i - k];
    }
    assert SpaceAround(s, k, r);
  }

  /** `strings.TrimRight(s, "\r\n")`. */
  function TrimRightCRLF(s: string): (r: string)
    ensures |r| <= |s|
    ensures r != [] ==> r[|r| - 1] != '\r' && r[|r| - 1] != '\n'
  {
    if s != [] && (s[|s| - 1] == '\r' || s[|s| - 1] == '\n') then TrimRightCRLF(s[..|s| - 1]) else s
  }

  /** Trimming line breaks keeps a prefix and drops only CR and LF. */
  lemma {:induction false} TrimRightCRLFPrefix(s: string)
    ensures TrimRightCRLF(s) == s[..|TrimRightCRLF(s)|]
    ensures forall i | |TrimRightCRLF(s)| <= i < |s| :: s[i] == '\r' || s[i] == '\n'
    decreases |s|
  {
    if s != [] && (s[|s| - 1] == '\r' || s[|s| - 1] == '\n') {
      TrimRightCRLFPrefix(s[..|s| - 1]);
    }
  }

  /** `strings.IndexByte`: the first index of `c` in `s`. */
  function IndexOf(s: string, c: char): (r: Option<nat>)
    ensures r.Some? ==> r.value < |s| && s[r.value] == c
    decreases |s|
  {
    if s == [] then None
    else if s[0] == c then Some(0)
    else match IndexOf(s[1..], c)
      case None => None
      case Some(k) => Some(k + 1)
  }

  /** The index found is the first occurrence; none is found only when `c`
      does not occur. */
  lemma {:induction false} IndexOfFirst(s: string, c: char)
    ensures IndexOf(s, c).Some? ==> forall j | 0 <= j < IndexOf(s, c).value :: s[j] != c
    ensures IndexOf(s, c).None? <==> forall j | 0 <= j < |s| :: s[j] != c
    decreases |s|
  {
    if s != [] && s[0] != c {
      IndexOfFirst(s[1..], c);
      assert forall j | 1 <= j < |s| :: s[j] == s[1..][j - 1];
    }
  }

  /** `strings.SplitN(s, " ", 3)`: cut at the first two spaces; the third
      part keeps any further spaces. */
  function SplitN3(s: string): (parts: seq<string>)
    ensures 1 <= |parts| <= 3
  {
    match IndexOf(s, ' ')
    case None => [s]
    case Some(i) =>
      var rest := s[i + 1..];
      match IndexOf(rest, ' ')
      case None => [s[..i], rest]
      case Some(j) => [s[..i], rest[..j], rest[j + 1..]]
  }

  /** Cutting at the first space of `s`: the part before it has no space,
      and the two parts rejoin around it. */
  lemma CutAtFirstSpace(s: string) returns (i: nat)
    requires IndexOf(s, ' ').Some?
    ensures i == IndexOf(s, ' ').value
    ensures ' ' !in s[..i] && s == s[..i] + " " + s[i + 1..]
  {
    i := IndexOf(s, ' ').value;
    IndexOfFirst(s, ' ');
    forall k | 0 <= k < i
      ensures s[..i][k] != ' '
    {
    }
    assert s == s[..i] + " " + s[i + 1..];
  }

  /** A string without a space. */
  lemma NoSpace(s: string)
    requires IndexOf(s, ' ').None?
    ensures ' ' !in s
  {
    IndexOfFirst(s, ' ');
  }

  /** The parts rejoin, with a space between each two, to the string they
      were cut from; every part but the last is free of spaces, and one part
      alone means the string has none. */
  lemma SplitN3Rejoins(s: string)
    ensures |SplitN3(s)| == 1 ==> SplitN3(s)[0] == s && ' ' !in s
    ensures |SplitN3(s)| == 2 ==> SplitN3(s)[0] + " " + SplitN3(s)[1] == s
    ensures |SplitN3(s)| == 3 ==> SplitN3(s)[0] + " " + SplitN3(s)[1] + " " + SplitN3(s)[2] == s
    ensures |SplitN3(s)| >= 2 ==> ' ' !in SplitN3(s)[0] && ' ' !in SplitN3(s)[1]
  {
    if IndexOf(s, ' ').None? {
      NoSpace(s);
    } else {
      var i := CutAtFirstSpace(s);
      var rest := s[i + 1..];
      if IndexOf(rest, ' ').None? {
        NoSpace(rest);
      } else {
        var j := CutAtFirstSpace(rest);
        SplitThree(s[..i], rest[..j], rest[j + 1..]);
      }
    }
  }

  /** Concatenation regroups. */
  lemma SplitThree(a: string, b: string, c: string)
    ensures a + " " + b + " " + c == a + " " + (b + " " + c)
  {
  }

  /** `strings.ToLower` on the ASCII letters. */
  function ToLowerAscii(s: string): (r: string)
    ensures |r| == |s|
  {
    if s == [] then []
    else
      var c := s[0];
      var lc := if 'A' <= c <= 'Z' then (c as int + 32) as char else c;
      [lc] + ToLowerAscii(s[1..])
  }

  predicate IsPrefix(p: string, s: string) {
    |p| <= |s| && s[..|p|] == p
  }

  /** `strings.Contains`. */
  predicate Contains(s: string, sub: string)
    decreases |s|
  {
    IsPrefix(sub, s) || (s != [] && Contains(s[1..], sub))
  }

  /** `strings.Join`. */
  function Join(parts: seq<string>, sep: string): string {
    if parts == [] then ""
    else if |parts| == 1 then parts[0]
    else parts[0] + sep + Join(parts[1..], sep)
  }
}
