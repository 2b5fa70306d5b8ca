/** Chunked transfer coding as a sender writes it (section 4.1 of RFC 7230):
    each chunk is its size in hexadecimal, CRLF, its data and CRLF; a zero
    size line and an empty trailer end the body. `readChunkedBody` decodes
    every such encoding back to the concatenated data, and reads exactly its
    bytes, whatever the chunks contain and whatever follows. */
module HttpChunked {
  import opened Common
  import opened Stream
  import opened HttpTypes
  import opened HttpParser

  predicate IsHexChar(c: char) {
    '0' <= c <= '9' || 'a' <= c <= 'f'
  }

  function HexChar(d: nat): char
    requires d < 16
  {
    if d < 10 then ('0' as int + d) as char else ('a' as int + d - 10) as char
  }

  /** A hexadecimal digit is read back as its value. */
  lemma HexCharValue(d: nat)
    requires d < 16
    ensures IsHexChar(HexChar(d)) && DigitValue(HexChar(d), 16) == Some(d)
  {
  }

  /** The lower-case hexadecimal numeral of `n`, without leading zeros. */
  function NatToHex(n: nat): (s: string)
    ensures |s| >= 1
    decreases n
  {
    if n < 16 then [HexChar(n)] else NatToHex(n / 16) + [HexChar(n % 16)]
  }

  lemma {:induction false} NatToHexChars(n: nat)
    ensures forall i | 0 <= i < |NatToHex(n)| :: IsHexChar(NatToHex(n)[i])
    decreases n
  {
    if n < 16 {
      HexCharValue(n);
    } else {
      NatToHexChars(n / 16);
      HexCharValue(n % 16);
    }
  }

  lemma {:induction false} HexDigitsValue(n: nat)
    ensures DigitsValue(NatToHex(n), 16) == Some(n)
    decreases n
  {
    if n < 16 {
      HexCharValue(n);
    } else {
      HexDigitsValue(n / 16);
      HexCharValue(n % 16);
      var s := NatToHex(n);
      assert s[..|s| - 1] == NatToHex(n / 16);
    }
  }

  /** One chunk on the wire. */
  function ChunkText(c: string): string {
    NatToHex(|c|) + "\r\n" + c + "\r\n"
  }

  /** A chunked body on the wire: the chunks, then the last chunk and an
      empty trailer. */
  function Encoding(chunks: seq<string>): string
    decreases |chunks|
  {
    if chunks == [] then "0\r\n\r\n" else ChunkText(chunks[0]) + Encoding(chunks[1..])
  }

  function Concat(chunks: seq<string>): string
    decreases |chunks|
  {
    if chunks == [] then "" else chunks[0] + Concat(chunks[1..])
  }

  /** Chunks a sender can write: none is empty (an empty one would end the
      body) and every size is one the reader can allocate. */
  predicate Sendable(chunks: seq<string>) {
    forall i | 0 <= i < |chunks| :: 0 < |chunks[i]| <= MaxAlloc
  }

  // ---------------------------------------------------------------------
  // Reading one encoded line
  // ---------------------------------------------------------------------

  /** `data` holds `t` from `pos` on. */
  predicate At(data: string, pos: nat, t: string) {
    pos + |t| <= |data| && data[pos..pos + |t|] == t
  }

  lemma AtSplit(data: string, pos: nat, a: string, b: string)
    requires At(data, pos, a + b)
    ensures At(data, pos, a) && At(data, pos + |a|, b)
  {
    var ab := a + b;
    assert data[pos..pos + |a|] == ab[..|a|] == a;
    assert data[pos + |a|..pos + |ab|] == ab[|a|..] == b;
  }

  /** `data` holds `text` and CRLF at `pos`, and `text` has no newline: the
      line read from `pos` is exactly that. */
  lemma CrlfLineAt(data: string, pos: nat, text: string)
    requires At(data, pos, text + "\r\n")
    requires forall i | 0 <= i < |text| :: text[i] != '\n'
    ensures ReadLine(data, pos) == Ok((text + "\r\n", pos + |text| + 2))
    ensures SkipLine(data, pos) == pos + |text| + 2
  {
    var k := pos + |text| + 1;
    assert data[k] == data[pos..pos + |text| + 2][|text| + 1];
    forall j | pos <= j < k
      ensures data[j] != '\n'
    {
      assert data[j] == data[pos..pos + |text| + 2][j - pos];
    }
    ReadLineAt(data, pos, k);
    SkipLineEndsLine(data, pos);
  }

  lemma TrimRightSpaceCrlf(s: string)
    requires s != [] && !IsSpace(s[|s| - 1])
    ensures TrimRightSpace(s + "\r\n") == s
  {
    var t := s + "\r\n";
    var u := s + "\r";
    assert TrimRightSpace(s) == s;
    assert u[..|u| - 1] == s;
    assert TrimRightSpace(u) == s;
    assert t[..|t| - 1] == u;
  }

  /** A hexadecimal size line, trimmed, is its digits, which read back as
      the size. */
  lemma SizeLineParses(n: nat)
    requires 0 < n <= MaxInt64
    ensures TrimSpace(NatToHex(n) + "\r\n") == NatToHex(n)
    ensures ParseInt(NatToHex(n), 16) == Some(n)
  {
    var hex := NatToHex(n);
    NatToHexChars(n);
    var line := hex + "\r\n";
    assert line[0] == hex[0];
    assert TrimLeftSpace(line) == line;
    TrimRightSpaceCrlf(hex);
    HexDigitsValue(n);
  }

  /** A hexadecimal size line announces that size. */
  lemma SizeLineHeader(n: nat)
    requires 0 < n <= MaxAlloc
    ensures ChunkHeaderOf(NatToHex(n) + "\r\n") == Chunk(n)
  {
    SizeLineParses(n);
  }

  /** A well-formed size line above `MaxAlloc`: as written, `make` panics on
      it; corrected, the body fails with the size. */
  lemma OversizeChunkPanics(n: nat)
    requires MaxAlloc < n <= MaxInt64
    ensures ChunkHeaderAsWritten(NatToHex(n) + "\r\n") == MakeSlicePanic(n)
    ensures ChunkHeaderOf(NatToHex(n) + "\r\n") == Invalid(TooLarge(n))
  {
    SizeLineParses(n);
  }

  lemma LastLineHeader()
    ensures ChunkHeaderOf("0" + "\r\n") == LastChunk
  {
    var line := "0" + "\r\n";
    assert line[0] == '0';
    assert TrimLeftSpace(line) == line;
    TrimRightSpaceCrlf("0");
    assert TrimSpace(line) == "0";
    assert DigitsValue("0", 16) == Some(0);
  }

  // ---------------------------------------------------------------------
  // One round
  // ---------------------------------------------------------------------

  /** A size line announcing the size of `c`, then `c` and a line break: one
      round that yields `c`. */
  lemma ChunkRoundFrom(data: string, pos: nat, line: string, next: nat, c: string)
    requires pos <= |data| && ReadLine(data, pos) == Ok((line, next))
    requires 0 < |c| && ChunkHeaderOf(line) == Chunk(|c|)
    requires next + |c| <= |data| && data[next..next + |c|] == c
    requires SkipLine(data, next + |c|) == next + |c| + 2
    ensures ChunkStepAt(data, pos) == StepChunk(c, next + |c| + 2)
  {
  }

  /** A zero size line, then a line that ends at `end`: the round that ends
      the body there. */
  lemma LastRoundFrom(data: string, pos: nat, line: string, next: nat, end: nat)
    requires pos <= |data| && ReadLine(data, pos) == Ok((line, next))
    requires ChunkHeaderOf(line) == LastChunk && SkipLine(data, next) == end
    ensures ChunkStepAt(data, pos) == StepDone(end)
  {
  }

  // ---------------------------------------------------------------------
  // The whole body
  // ---------------------------------------------------------------------

  lemma ChunkedAfterDone(data: string, pos: nat, body: string, end: nat)
    requires pos <= |data| && ChunkStepAt(data, pos) == StepDone(end)
    ensures ChunkedFrom(data, pos, body) == Ok((body, end))
  {
  }

  lemma ChunkedAfterChunk(data: string, pos: nat, body: string, c: string, next: nat)
    requires pos <= |data| && ChunkStepAt(data, pos) == StepChunk(c, next)
    ensures ChunkedFrom(data, pos, body) == ChunkedFrom(data, next, body + c)
  {
  }

  lemma ConcatStep(body: string, chunks: seq<string>)
    requires chunks != []
    ensures body + chunks[0] + Concat(chunks[1..]) == body + Concat(chunks)
    ensures |Encoding(chunks)| == |ChunkText(chunks[0])| + |Encoding(chunks[1..])|
  {
    assert Concat(chunks) == chunks[0] + Concat(chunks[1..]);
  }

  /** From `pos`, `data` holds the text of each chunk in turn, then the
      last chunk and an empty trailer. */
  predicate EncodedAt(data: string, pos: nat, chunks: seq<string>)
    decreases |chunks|
  {
    if chunks == [] then At(data, pos, "0\r\n\r\n")
    else At(data, pos, ChunkText(chunks[0])) && EncodedAt(data, pos + |ChunkText(chunks[0])|, chunks[1..])
  }

  lemma {:induction false} EncodingEncodedAt(data: string, pos: nat, chunks: seq<string>)
    requires At(data, pos, Encoding(chunks))
    ensures EncodedAt(data, pos, chunks)
    decreases |chunks|
  {
    if chunks != [] {
      var t := ChunkText(chunks[0]);
      AtSplit(data, pos, t, Encoding(chunks[1..]));
      EncodingEncodedAt(data, pos + |t|, chunks[1..]);
    }
  }

  /** Where the text of each chunk starts when the encoding starts at `pos`;
      the last entry is where the last chunk starts. */
  function Offsets(pos: nat, chunks: seq<string>): (ps: seq<nat>)
    ensures |ps| == |chunks| + 1 && ps[0] == pos
    decreases |chunks|
  {
    if chunks == [] then [pos] else [pos] + Offsets(pos + |ChunkText(chunks[0])|, chunks[1..])
  }

  lemma {:induction false} OffsetsNext(pos: nat, chunks: seq<string>, i: nat)
    requires i < |chunks|
    ensures Offsets(pos, chunks)[i + 1] == Offsets(pos, chunks)[i] + |ChunkText(chunks[i])|
    decreases |chunks|
  {
    if i > 0 {
      OffsetsNext(pos + |ChunkText(chunks[0])|, chunks[1..], i - 1);
    }
  }

  /** The encoding ends five bytes after the last chunk starts. */
  lemma {:induction false} OffsetsEnd(pos: nat, chunks: seq<string>)
    ensures Offsets(pos, chunks)[|chunks|] + 5 == pos + |Encoding(chunks)|
    decreases |chunks|
  {
    if chunks != [] {
      var t := ChunkText(chunks[0]);
      var tail := chunks[1..];
      OffsetsEnd(pos + |t|, tail);
      assert Offsets(pos, chunks)[|chunks|] == Offsets(pos + |t|, tail)[|tail|];
      assert Encoding(chunks) == t + Encoding(tail);
    }
  }

  /** `data` holds the text of chunk `i` at its position in `ps`, or, for
      `i` equal to the number of chunks, the last chunk and an empty trailer. */
  predicate PartAt(data: string, ps: seq<nat>, chunks: seq<string>, i: nat)
    requires |ps| == |chunks| + 1 && i <= |chunks|
  {
    if i < |chunks| then At(data, ps[i], ChunkText(chunks[i]))
    else At(data, ps[i], "0\r\n\r\n")
  }

  lemma {:induction false} EncodedParts(data: string, pos: nat, chunks: seq<string>)
    requires EncodedAt(data, pos, chunks)
    ensures forall i | 0 <= i <= |chunks| :: PartAt(data, Offsets(pos, chunks), chunks, i)
    decreases |chunks|
  {
    if chunks != [] {
      var next := pos + |ChunkText(chunks[0])|;
      var tail := chunks[1..];
      var ps := Offsets(pos, chunks);
      EncodedParts(data, next, tail);
      forall i | 0 <= i <= |chunks|
        ensures PartAt(data, ps, chunks, i)
      {
        if i > 0 {
          assert PartAt(data, Offsets(next, tail), tail, i - 1);
          assert ps[i] == Offsets(next, tail)[i - 1];
          if i < |chunks| {
            assert chunks[i] == tail[i - 1];
          }
        }
      }
    }
  }

  /** The round at position `i` yields chunk `i` and moves to the next
      position, or, past the last chunk, ends the body after the last chunk
      and the empty trailer. */
  predicate RoundAt(data: string, ps: seq<nat>, chunks: seq<string>, i: nat)
    requires |ps| == |chunks| + 1 && i <= |chunks|
  {
    ps[i] <= |data| &&
    ChunkStepAt(data, ps[i]) == if i < |chunks| then StepChunk(chunks[i], ps[i + 1]) else StepDone(ps[i] + 5)
  }

  predicate Rounds(data: string, ps: seq<nat>, chunks: seq<string>)
    requires |ps| == |chunks| + 1
  {
    forall i | 0 <= i <= |chunks| :: RoundAt(data, ps, chunks, i)
  }

  /** The size of `c` in hexadecimal, as the text of `c` starts with it;
      handed back without revealing its digits. */
  lemma SizeDigits(c: string) returns (hex: string)
    requires 0 < |c| <= MaxAlloc
    ensures ChunkText(c) == hex + "\r\n" + c + "\r\n"
    ensures forall i | 0 <= i < |hex| :: hex[i] != '\n'
    ensures ChunkHeaderOf(hex + "\r\n") == Chunk(|c|)
  {
    hex := NatToHex(|c|);
    NatToHexChars(|c|);
    SizeLineHeader(|c|);
  }

  /** `data` holds, at `o`, a size line with the digits `hex`, then `c` and
      a line break: the reader sees that line, then `c`, then the break. */
  lemma SizedChunkRead(data: string, o: nat, hex: string, c: string)
    requires At(data, o, hex + "\r\n" + c + "\r\n")
    requires forall i | 0 <= i < |hex| :: hex[i] != '\n'
    ensures var line := hex + "\r\n";
            var next := o + |line|;
            o <= |data| && ReadLine(data, o) == Ok((line, next))
            && next + |c| <= |data| && data[next..next + |c|] == c
            && SkipLine(data, next + |c|) == next + |c| + 2
  {
    var line := hex + "\r\n";
    var next := o + |line|;
    assert At(data, o, line) && At(data, next, c) && At(data, next + |c|, "" + "\r\n") by {
      assert |line + c| == |line| + |c|;
      AtSplit(data, o, line + c, "\r\n");
      AtSplit(data, o, line, c);
      assert "\r\n" == "" + "\r\n";
    }
    CrlfLineAt(data, o, hex);
    CrlfLineAt(data, next + |c|, "");
  }

  /** The size line of chunk `i`, as the reader sees it at the chunk's
      position; the line is handed back without revealing its text. */
  lemma ChunkLineAt(data: string, ps: seq<nat>, chunks: seq<string>, i: nat) returns (line: string)
    requires |ps| == |chunks| + 1 && i < |chunks| && 0 < |chunks[i]| <= MaxAlloc
    requires forall j | 0 <= j <= |chunks| :: PartAt(data, ps, chunks, j)
    ensures var o := ps[i];
            var next := o + |line|;
            var c := chunks[i];
            o <= |data| && ReadLine(data, o) == Ok((line, next)) && ChunkHeaderOf(line) == Chunk(|c|)
            && next + |c| <= |data| && data[next..next + |c|] == c
            && SkipLine(data, next + |c|) == next + |c| + 2
            && |line| + |c| + 2 == |ChunkText(c)|
  {
    var c := chunks[i];
    var hex := SizeDigits(c);
    line := hex + "\r\n";
    assert At(data, ps[i], hex + "\r\n" + c + "\r\n") by {
      assert PartAt(data, ps, chunks, i);
    }
    SizedChunkRead(data, ps[i], hex, c);
  }

  /** The zero size line at the last position, handed back the same way. */
  lemma LastLineAt(data: string, ps: seq<nat>, chunks: seq<string>) returns (line: string)
    requires |ps| == |chunks| + 1 && forall j | 0 <= j <= |chunks| :: PartAt(data, ps, chunks, j)
    ensures var o := ps[|chunks|];
            o <= |data| && ReadLine(data, o) == Ok((line, o + |line|)) && ChunkHeaderOf(line) == LastChunk
            && SkipLine(data, o + |line|) == o + 5
  {
    var o := ps[|chunks|];
    line := "0" + "\r\n";
    assert At(data, o, line) && At(data, o + 3, "" + "\r\n") by {
      assert PartAt(data, ps, chunks, |chunks|);
      assert "0\r\n\r\n" == line + ("" + "\r\n");
      AtSplit(data, o, line, "" + "\r\n");
    }
    CrlfLineAt(data, o, "0");
    CrlfLineAt(data, o + 3, "");
    assert ChunkHeaderOf(line) == LastChunk by {
      LastLineHeader();
    }
  }

  /** The part at position `i` of an encoding of sendable chunks is read
      as its round. */
  lemma PartRound(data: string, pos: nat, chunks: seq<string>, i: nat)
    requires Sendable(chunks) && i <= |chunks|
    requires forall j | 0 <= j <= |chunks| :: PartAt(data, Offsets(pos, chunks), chunks, j)
    ensures RoundAt(data, Offsets(pos, chunks), chunks, i)
  {
    if i < |chunks| {
      DataPartRound(data, pos, chunks, i);
    } else {
      LastPartRound(data, pos, chunks);
    }
  }

  lemma DataPartRound(data: string, pos: nat, chunks: seq<string>, i: nat)
    requires Sendable(chunks) && i < |chunks|
    requires forall j | 0 <= j <= |chunks| :: PartAt(data, Offsets(pos, chunks), chunks, j)
    ensures RoundAt(data, Offsets(pos, chunks), chunks, i)
  {
    var ps := Offsets(pos, chunks);
    OffsetsNext(pos, chunks, i);
    var line := ChunkLineAt(data, ps, chunks, i);
    ChunkRoundFrom(data, ps[i], line, ps[i] + |line|, chunks[i]);
  }

  lemma LastPartRound(data: string, pos: nat, chunks: seq<string>)
    requires forall j | 0 <= j <= |chunks| :: PartAt(data, Offsets(pos, chunks), chunks, j)
    ensures RoundAt(data, Offsets(pos, chunks), chunks, |chunks|)
  {
    var ps := Offsets(pos, chunks);
    var line := LastLineAt(data, ps, chunks);
    LastRoundFrom(data, ps[|chunks|], line, ps[|chunks|] + |line|, ps[|chunks|] + 5);
  }

  /** Every part of an encoding of sendable chunks, laid out in `data`
      from `pos` on, is read as its round. */
  lemma EncodingRounds(data: string, pos: nat, chunks: seq<string>)
    requires Sendable(chunks) && At(data, pos, Encoding(chunks))
    ensures Rounds(data, Offsets(pos, chunks), chunks)
  {
    EncodingEncodedAt(data, pos, chunks);
    EncodedParts(data, pos, chunks);
    forall i | 0 <= i <= |chunks|
      ensures RoundAt(data, Offsets(pos, chunks), chunks, i)
    {
      PartRound(data, pos, chunks, i);
    }
  }

  /** Such rounds, from chunk `i` on, decode to the data of the remaining
      chunks appended to `body`, and end after the last chunk. */
  lemma {:induction false} DecodeRounds(data: string, ps: seq<nat>, chunks: seq<string>, i: nat, body: string)
    requires |ps| == |chunks| + 1 && i <= |chunks| && ps[i] <= |data| && Rounds(data, ps, chunks)
    ensures ChunkedFrom(data, ps[i], body) == Ok((body + Concat(chunks[i..]), ps[|chunks|] + 5))
    decreases |chunks| - i
  {
    var o := ps[i];
    if i == |chunks| {
      assert ChunkStepAt(data, o) == StepDone(o + 5) by {
        assert RoundAt(data, ps, chunks, i);
      }
      ChunkedAfterDone(data, o, body, o + 5);
      assert body + Concat(chunks[i..]) == body;
    } else {
      var next := ps[i + 1];
      assert next <= |data| && ChunkStepAt(data, o) == StepChunk(chunks[i], next) by {
        assert RoundAt(data, ps, chunks, i);
        assert RoundAt(data, ps, chunks, i + 1);
      }
      ChunkedAfterChunk(data, o, body, chunks[i], next);
      DecodeRounds(data, ps, chunks, i + 1, body + chunks[i]);
      assert chunks[i..][1..] == chunks[i + 1..];
      ConcatStep(body, chunks[i..]);
    }
  }

  /** Rounds laid out from the start of `data` decode the whole body. */
  lemma DecodeFromStart(data: string, ps: seq<nat>, chunks: seq<string>, end: nat)
    requires |ps| == |chunks| + 1 && ps[0] == 0 && Rounds(data, ps, chunks) && end == ps[|chunks|] + 5
    ensures ChunkedFrom(data, 0, "") == Ok((Concat(chunks), end))
  {
    DecodeRounds(data, ps, chunks, 0, "");
    assert chunks[0..] == chunks;
    assert "" + Concat(chunks) == Concat(chunks);
  }

  /** Decoding the encoding of sendable chunks, with anything after it,
      yields the data of the chunks and stops right after the encoding. */
  lemma DecodeEncoding(chunks: seq<string>, rest: string)
    requires Sendable(chunks)
    ensures ChunkedFrom(Encoding(chunks) + rest, 0, "") == Ok((Concat(chunks), |Encoding(chunks)|))
  {
    var e := Encoding(chunks);
    var data := e + rest;
    assert At(data, 0, e) by {
      assert data[0..|e|] == e;
    }
    EncodingRounds(data, 0, chunks);
    OffsetsEnd(0, chunks);
    DecodeFromStart(data, Offsets(0, chunks), chunks, |e|);
  }

  /** A chunked message body, sent as the encoding of its chunks and followed
      by anything, is read back as their data, to the end of the encoding;
      Content-Length, if any, plays no part. */
  lemma ChunkedBodyRoundTrip(chunks: seq<string>, rest: string, h: Headers, httpMethod: string)
    requires Sendable(chunks) && IsChunked(h)
    requires httpMethod == "" || ShouldHaveBody(0, httpMethod)
    ensures BodyFrom(Encoding(chunks) + rest, 0, h, httpMethod) == Ok((Concat(chunks), |Encoding(chunks)|))
  {
    DecodeEncoding(chunks, rest);
  }

  /** The body "5\r\nhello\r\n0\r\n\r\n" decodes to "hello", all of it read. */
  lemma HelloExample()
    ensures ChunkedFrom("5\r\nhello\r\n0\r\n\r\n", 0, "") == Ok(("hello", 15))
  {
    var chunks := ["hello"];
    assert Sendable(chunks);
    assert NatToHex(5) == "5";
    assert Encoding(chunks[1..]) == "0\r\n\r\n";
    var e := Encoding(chunks);
    assert e == "5\r\nhello\r\n0\r\n\r\n";
    assert Concat(chunks) == "hello";
    DecodeEncoding(chunks, "");
    assert e + "" == "5\r\nhello\r\n0\r\n\r\n";
  }
}
