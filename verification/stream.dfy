/** A buffered reader over everything a peer sends before it closes the
    connection (`bufio.Reader` over a `net.Conn`), with the tee buffer that
    the HTTP parser records each message's bytes into. A stream byte is held
    as the char with the same code. */
module Stream {
  import opened Common

  /** The two ways a read can hit the end of the stream. */
  datatype IoError = EOF | UnexpectedEOF {
    function Text(): (s: string)
      ensures s == ReadFullError(if this == EOF then 0 else 1)
    {
      if this == EOF then "EOF" else "unexpected EOF"
    }
  }

  /** What `io.ReadFull` reports when only `available` bytes remain. */
  function ReadFullFailure(available: nat): (e: IoError)
    ensures e == EOF <==> available == 0
  {
    if available == 0 then EOF else UnexpectedEOF
  }

  /** The position of the first newline at or after `pos`, if there is one. */
  function NewlineFrom(data: string, pos: nat): (r: Option<nat>)
    requires pos <= |data|
    ensures r.Some? ==> pos <= r.value < |data| && data[r.value] == '\n'
    decreases |data| - pos
  {
    if pos == |data| then None
    else if data[pos] == '\n' then Some(pos)
    else NewlineFrom(data, pos + 1)
  }

  /** No newline lies between `pos` and the one found, and none is found
      exactly when none remains. */
  lemma {:induction false} NewlineFirst(data: string, pos: nat)
    requires pos <= |data|
    ensures NewlineFrom(data, pos).Some? ==> forall j | pos <= j < NewlineFrom(data, pos).value :: data[j] != '\n'
    ensures NewlineFrom(data, pos).None? <==> forall j | pos <= j < |data| :: data[j] != '\n'
    decreases |data| - pos
  {
    if pos < |data| && data[pos] != '\n' {
      NewlineFirst(data, pos + 1);
    }
  }

  /** `ReadString('\n')` from position `pos`: the line through its newline and
      the position after it, or EOF when no newline remains. */
  function ReadLine(data: string, pos: nat): (r: Result<(string, nat), IoError>)
    requires pos <= |data|
    ensures r.Ok? ==> pos < r.value.1 <= |data| && r.value.0 == data[pos..r.value.1]
    ensures r.Ok? ==> data[r.value.1 - 1] == '\n'
    ensures r.Err? ==> r.error == EOF
  {
    match NewlineFrom(data, pos)
    case None => Err(EOF)
    case Some(k) => Ok((data[pos..k + 1], k + 1))
  }

  /** The line read ends at the first newline from `pos` on, and reading
      fails exactly when no newline remains. */
  lemma ReadLineStops(data: string, pos: nat)
    requires pos <= |data|
    ensures ReadLine(data, pos).Ok? ==> forall j | pos <= j < ReadLine(data, pos).value.1 - 1 :: data[j] != '\n'
    ensures ReadLine(data, pos).Err? <==> forall j | pos <= j < |data| :: data[j] != '\n'
  {
    NewlineFirst(data, pos);
  }

  /** `ReadString('\n')` whose result is dropped: the position after the next
      newline, or the end of the stream when there is none. */
  function SkipLine(data: string, pos: nat): (next: nat)
    requires pos <= |data|
    ensures pos <= next <= |data|
  {
    match NewlineFrom(data, pos)
    case None => |data|
    case Some(k) => k + 1
  }

  /** Skipping a line ends where reading it would. */
  lemma SkipLineEndsLine(data: string, pos: nat)
    requires pos <= |data|
    ensures ReadLine(data, pos).Ok? ==> SkipLine(data, pos) == ReadLine(data, pos).value.1
    ensures ReadLine(data, pos).Err? ==> SkipLine(data, pos) == |data|
  {
  }

  lemma SliceConcat(data: string, i: nat, j: nat, k: nat)
    requires i <= j <= k <= |data|
    ensures data[i..j] + data[j..k] == data[i..k]
  {
  }

  /** Cutting the stream at `e` leaves the bytes before `e` in place. */
  lemma PrefixSlice(data: string, e: nat, i: nat, j: nat)
    requires i <= j <= e <= |data|
    ensures data[..e][i..j] == data[i..j]
  {
  }

  lemma PrefixFromStart(data: string, e: nat)
    requires e <= |data|
    ensures data[..e] == data[0..e]
  {
  }

  /** The line read from `pos` ends at the first newline from there on. */
  lemma ReadLineAt(data: string, pos: nat, k: nat)
    requires pos <= k < |data| && data[k] == '\n'
    requires forall j | pos <= j < k :: data[j] != '\n'
    ensures ReadLine(data, pos) == Ok((data[pos..k + 1], k + 1))
  {
    ReadLineStops(data, pos);
    var r := ReadLine(data, pos);
    assert r.Ok?;
    var m := r.value.1;
    assert !(m - 1 < k);
    assert !(m - 1 > k);
  }

  /** Dropping a line that ends by `e` and cutting the stream at `e` commute. */
  lemma SkipLinePrefix(data: string, e: nat, pos: nat)
    requires pos <= e <= |data| && SkipLine(data, pos) <= e
    ensures SkipLine(data[..e], pos) == SkipLine(data, pos)
  {
    SkipLineEndsLine(data, pos);
    if ReadLine(data, pos).Ok? {
      ReadLinePrefix(data, e, pos);
    } else {
      assert data[..e] == data;
    }
  }

  /** A line that ends by `e` is read the same from the stream cut at `e`. */
  lemma ReadLinePrefix(data: string, e: nat, pos: nat)
    requires pos <= e <= |data|
    requires ReadLine(data, pos).Ok? && ReadLine(data, pos).value.1 <= e
    ensures ReadLine(data[..e], pos) == ReadLine(data, pos)
    ensures SkipLine(data[..e], pos) == SkipLine(data, pos)
  {
    var n := ReadLine(data, pos).value.1;
    ReadLineStops(data, pos);
    ReadLineStops(data[..e], pos);
    assert data[..e][n - 1] == '\n';
    assert forall j | pos <= j < n - 1 :: data[..e][j] != '\n';
    assert data[..e][pos..n] == data[pos..n];
  }

  /** The reader: `data` is every byte the peer sends, `pos` how many have
      been consumed, and `raw` the tee buffer, which holds the bytes consumed
      since the tee was started. */
  class Reader {
    const data: string
    var pos: nat
    var raw: string

    ghost predicate Valid()
      reads this
    {
      pos <= |data| && |raw| <= pos && raw == data[pos - |raw|..pos]
    }

    constructor (data: string)
      ensures Valid() && this.data == data && pos == 0 && raw == ""
    {
      this.data := data;
      pos := 0;
      raw := "";
    }

    /** Starts recording: the tee buffer is emptied. */
    method StartTee()
      requires Valid()
      modifies this
      ensures Valid() && pos == old(pos) && raw == ""
    {
      raw := "";
    }

    /** `ReadString('\n')`: on success the line through the newline; at the
        end of the stream the partial line and EOF, with everything consumed. */
    method ReadString() returns (line: string, err: Option<IoError>)
      requires Valid()
      modifies this
      ensures Valid() && |raw| == old(|raw|) + (pos - old(pos))
      ensures match ReadLine(data, old(pos))
        case Ok((l, next)) => err == None && line == l && pos == next
        case Err(e) => err == Some(e) && line == data[old(pos)..] && pos == |data|
      ensures pos == SkipLine(data, old(pos))
    {
      var i := pos;
      while i < |data| && data[i] != '\n'
        invariant pos <= i <= |data|
        invariant forall j | pos <= j < i :: data[j] != '\n'
      {
        i := i + 1;
      }
      if i == |data| {
        line, err := data[pos..], Some(EOF);
      } else {
        line, err := data[pos..i + 1], None;
        i := i + 1;
      }
      SliceConcat(data, pos - |raw|, pos, i);
      ReadLineStops(data, pos);
      SkipLineEndsLine(data, pos);
      raw, pos := raw + data[pos..i], i;
    }

    /** `io.ReadFull` into a buffer of `n` bytes: the next `n` bytes, or an
        error with everything consumed when fewer remain. */
    method ReadFull(n: nat) returns (chunk: string, err: Option<IoError>)
      requires Valid()
      modifies this
      ensures Valid() && |raw| == old(|raw|) + (pos - old(pos))
      ensures old(pos) + n <= |data| ==> err == None && chunk == data[old(pos)..old(pos) + n] && pos == old(pos) + n
      ensures old(pos) + n > |data| ==> err == Some(ReadFullFailure(|data| - old(pos))) && pos == |data|
    {
      var end := if pos + n <= |data| then pos + n else |data|;
      chunk := data[pos..end];
      err := if pos + n <= |data| then None else Some(ReadFullFailure(|data| - pos));
      SliceConcat(data, pos - |raw|, pos, end);
      raw, pos := raw + chunk, end;
    }

    /** `Peek(n)`: the next `n` bytes without consuming them; when fewer
        remain, the ones there are and EOF. */
    method Peek(n: nat) returns (peeked: string, err: Option<IoError>)
      requires Valid()
      ensures pos + n <= |data| ==> err == None && peeked == data[pos..pos + n]
      ensures pos + n > |data| ==> err == Some(EOF) && peeked == data[pos..]
    {
      if pos + n <= |data| {
        peeked, err := data[pos..pos + n], None;
      } else {
        peeked, err := data[pos..], Some(EOF);
      }
    }
  }

  /** A reader whose tee was started at `start` holds exactly the bytes
      consumed since. */
  lemma TeeHoldsConsumed(r: Reader, start: nat)
    requires r.Valid() && start <= r.pos && |r.raw| == r.pos - start
    ensures r.raw == r.data[start..r.pos]
  {
  }
}
