/** bufio.Reader over a stream of bytes, with just the operations that chunked bodies use. How much of the stream is
    buffered at any time, how much one Read of the stream brings, and with which error the stream ends, is left open. */
module Bufio {
  import opened GoBytes
  import opened Options

  datatype ReadError =
    | EOF | UnexpectedEOF | LineTooLong | EmptySize | InvalidSize | SizeTooLarge | TooMuchOverhead | Malformed
    | TrailerEOF | TrailerError | ReadAfterClose | Broken(code: nat)

  /** What a Reader reads from: the size of its buffer, and the error behind the last byte of its stream, be
      it io.EOF or whatever broke the stream there. */
  datatype Source = Source(size: nat, ending: ReadError)
  {
    /** The ending where more bytes are due. */
    function Short(): (e: ReadError)
      ensures e != EOF
    {
      if ending == EOF then UnexpectedEOF else ending
    }
  }

  /** minReadBufferSize */
  const MIN_SIZE := 16

  const CRLF: Bytes := "\r\n"

  /** bytes.IndexByte(s, '\n'), -1 when there is none. */
  function NewlineAt(s: Bytes): (i: int)
    ensures -1 <= i < |s|
  {
    if s == [] then -1
    else if s[0] == '\n' then 0
    else
      var i := NewlineAt(s[1..]);
      if i < 0 then -1 else i + 1
  }

  class Reader {
    const source: Source
    /** What the stream still holds, and how much of it is in the buffer already. */
    var rest: Bytes
    var buffered: nat

    ghost predicate Valid()
      reads this
    {
      source.size >= MIN_SIZE && buffered <= |rest|
    }

    constructor (source: Source, stream: Bytes)
      requires source.size >= MIN_SIZE
      ensures Valid() && rest == stream && this.source == source
    {
      this.source, rest, buffered := source, stream, 0;
    }

    /** Takes k bytes off the front; if they were not all buffered, any amount of what follows may now be. */
    method Take(k: nat) returns (bytes: Bytes)
      requires Valid() && k <= |rest|
      modifies this
      ensures Valid() && bytes == old(rest[..k]) && rest == old(rest[k..])
      ensures k <= old(buffered) ==> buffered == old(buffered) - k
    {
      bytes := rest[..k];
      rest := rest[k..];
      if k <= buffered {
        buffered := buffered - k;
      } else {
        var more :| 0 <= more <= |rest|;
        buffered := more;
      }
    }

    /** ReadSlice('\n'), with the errors as readChunkLine passes them on. */
    method ReadLine() returns (line: Bytes, err: Option<ReadError>)
      requires Valid()
      modifies this
      ensures Valid()
      ensures var i := old(NewlineAt(rest));
        if i >= 0 && i < source.size then err == None && line == old(rest[..i + 1]) && rest == old(rest[i + 1..])
        else err == Some(if i < 0 && |old(rest)| < source.size then source.Short() else LineTooLong)
    {
      var i := NewlineAt(rest);
      if i >= 0 && i < source.size {
        line := Take(i + 1);
        return line, None;
      }
      if i < 0 && |rest| < source.size {
        return [], Some(source.Short());
      }
      return [], Some(LineTooLong);
    }

    /** Read(b[from..from + max]): at least one byte unless the stream has ended. */
    method Read(b: array<Byte>, from: nat, max: nat) returns (n: nat, err: Option<ReadError>)
      requires Valid() && 0 < max && from + max <= b.Length
      modifies this, b
      ensures Valid() && n <= max
      ensures b[..from] == old(b[..from])
      ensures if old(rest) == [] then n == 0 && err == Some(source.ending) && rest == []
        else 0 < n <= |old(rest)| && err == None && rest == old(rest[n..]) && b[from..from + n] == old(rest[..n])
    {
      if rest == [] {
        return 0, Some(source.ending);
      }
      var avail := if buffered > 0 then buffered else |rest|;
      n := if avail < max then avail else max;
      if buffered == 0 {
        var some :| 0 < some <= n;
        n := some;
      }
      var bytes := Take(n);
      for i := 0 to n
        invariant b[..from] == old(b[..from])
        invariant b[from..from + i] == bytes[..i]
        invariant Valid() && rest == old(rest[n..])
      {
        b[from + i] := bytes[i];
        assert b[from..from + i + 1] == b[from..from + i] + [bytes[i]];
      }
      assert bytes[..n] == bytes;
      return n, None;
    }
  }
}
