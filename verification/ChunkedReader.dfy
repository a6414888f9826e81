/** The resumable reader of chunked bodies (http/internal/chunked.go): whatever the buffer sizes of its callers and
    whatever the stream has buffered, it reads what the wire text means, in order and without loss. */
module ChunkedReaderClass {
  import opened GoBytes
  import opened Options
  import opened Bufio
  import opened Chunked

  /** A reader at `rest` gets this line and is left at `after`. */
  ghost predicate HeaderRead(rest: Bytes, source: Source, line: Bytes, after: Bytes) {
    var i := NewlineAt(rest); 0 <= i < source.size && line == rest[..i + 1] && after == rest[i + 1..]
  }

  ghost predicate NoHeaderRead(rest: Bytes, source: Source, e: ReadError) {
    var i := NewlineAt(rest);
    (i < 0 || source.size <= i) && e == if i < 0 && |rest| < source.size then source.Short() else LineTooLong
  }

  /** What a wire text means where a chunk header is due and the reader gets no line, wherever that leaves it. */
  lemma NoHeaderMeaning(excess: int, rest: Bytes, source: Source, e: ReadError, after: Bytes)
    requires NoHeaderRead(rest, source, e)
    ensures Meaning(State(0, false, excess, None), rest, source)
      == Meaning(State(0, false, excess, Some(e)), after, source)
  {
  }

  lemma HeaderMeaning(excess: int, rest: Bytes, source: Source, line: Bytes, after: Bytes)
    requires HeaderRead(rest, source, line, after)
    ensures Meaning(State(0, false, excess, None), rest, source) == AfterHeader(HeaderOf(line, excess), after, source)
    ensures |after| < |rest|
  {
  }

  lemma PrependTwice(whole: Yield, a: Bytes, more: Yield, b: Bytes, last: Yield)
    requires whole == Prepend(a, more) && more == Prepend(b, last)
    ensures whole == Prepend(a + b, last)
  {
    Regroup(a, b, last.data);
  }

  class ChunkedReader {
    const r: Reader
    var n: nat
    var err: Option<ReadError>
    var checkEnd: bool
    var excess: int

    function Now(): (t: State)
      reads this
    {
      State(n, checkEnd, excess, err)
    }

    ghost predicate Valid()
      reads this, r
    {
      r.Valid() && (checkEnd ==> n == 0)
    }

    /** Everything this reader will still read. */
    ghost function Left(): (y: Yield)
      reads this, r
    {
      Meaning(Now(), r.rest, r.source)
    }

    constructor (r: Reader)
      requires r.Valid()
      ensures Valid() && this.r == r && Now() == START
    {
      this.r := r;
      n, err, checkEnd, excess := 0, None, false, 0;
    }

    /** trimTrailingWhitespace */
    static method TrimTrailingWhitespace(b: Bytes) returns (t: Bytes)
      ensures t == Trim(b)
    {
      t := b;
      while |t| > 0 && IsSpace(t[|t| - 1])
        invariant Trim(t) == Trim(b)
        decreases |t|
      {
        t := t[..|t| - 1];
      }
    }

    /** parseHexUint */
    static method ParseHexUint(v: Bytes) returns (r: Size)
      ensures r == HexUint(v)
    {
      if |v| == 0 {
        return BadSize(EmptySize);
      }
      var n: nat := 0;
      for i := 0 to |v|
        invariant HexUintFrom(v, i, n) == HexUintFrom(v, 0, 0)
      {
        if !IsHex(v[i]) {
          return BadSize(InvalidSize);
        }
        if i == 16 {
          return BadSize(SizeTooLarge);
        }
        n := n * 16 + UnHex(v[i]);
      }
      return Size(n);
    }

    /** beginChunk on the header line that was read. */
    method ParseHeader(line: Bytes)
      requires Valid() && err == None && !checkEnd && n == 0
      modifies this
      ensures Valid() && !checkEnd
      ensures Left() == AfterHeader(HeaderOf(line, old(excess)), r.rest, r.source)
      ensures err == None ==> n > 0
    {
      if |line| >= MAX_LINE {
        err := Some(LineTooLong);
        return;
      }
      excess := Wrap64(excess + |line| + 2);
      var trimmed := TrimTrailingWhitespace(line);
      var size := ParseHexUint(BeforeSemicolon(trimmed));
      if size.BadSize? {
        n, err := 0, Some(size.error);
        return;
      }
      n := size.n;
      excess := Wrap64(excess - (16 + 2 * n));
      excess := Max(excess, 0);
      if excess > MAX_EXCESS {
        err := Some(TooMuchOverhead);
      }
      if n == 0 {
        err := Some(EOF);
      }
    }

    /** readChunkLine */
    method ReadChunkLine() returns (line: Bytes)
      requires Valid() && Now() == State(0, false, excess, None)
      modifies this`err, r
      ensures Valid()
      ensures err == None ==> HeaderRead(old(r.rest), r.source, line, r.rest)
      ensures err.Some? ==> NoHeaderRead(old(r.rest), r.source, err.value)
    {
      line, err := r.ReadLine();
    }

    method BeginChunk()
      requires Valid() && Now() == State(0, false, excess, None)
      modifies this, r
      ensures Valid() && Left() == old(Left())
      ensures err == None ==> |r.rest| < |old(r.rest)| && n > 0 && !checkEnd
    {
      ghost var rest, before := r.rest, excess;
      var line := ReadChunkLine();
      if err == None {
        HeaderMeaning(before, rest, r.source, line, r.rest);
        ParseHeader(line);
      } else {
        NoHeaderMeaning(before, rest, r.source, err.value, r.rest);
      }
    }

    /** The check for the CRLF behind a chunk. */
    method ReadEnd()
      requires Valid() && err == None && checkEnd
      modifies this, r
      ensures Valid() && Left() == old(Left())
      ensures err == None ==> |r.rest| < |old(r.rest)| && !checkEnd && n == 0
    {
      if |r.rest| < 2 {
        err := Some(r.source.Short());
        return;
      }
      var two := r.Take(2);
      if two != CRLF {
        err := Some(Malformed);
        return;
      }
      checkEnd := false;
    }

    /** Reads data of the current chunk into b from position `from` on. */
    method ReadData(b: array<Byte>, from: nat) returns (n0: nat)
      requires Valid() && err == None && !checkEnd && n > 0 && from < b.Length
      modifies this, r, b
      ensures Valid() && from + n0 <= b.Length
      ensures b[..from] == old(b[..from])
      ensures old(Left()) == Prepend(b[from..from + n0], Left())
      ensures err == None ==> n0 > 0 && |r.rest| < |old(r.rest)|
    {
      var max := if b.Length - from > n then n else b.Length - from;
      ghost var before := Now();
      ghost var rest := r.rest;
      var readErr;
      n0, readErr := r.Read(b, from, max);
      if readErr == None {
        ReadInPieces(before, n0, rest, r.source);
      } else {
        assert b[from..from + n0] == [];
      }
      n := n - n0;
      err := readErr;
      if n == 0 && err == None {
        checkEnd := true;
      } else if err == Some(EOF) {
        err := Some(UnexpectedEOF);
      }
    }

    method ChunkHeaderAvailable() returns (yes: bool)
      requires Valid()
      ensures yes <==> r.buffered > 0 && '\n' in r.rest[..r.buffered]
    {
      return r.buffered > 0 && '\n' in r.rest[..r.buffered];
    }

    /** A turn of the loop of Read before it reads data: false when Read has to stop. */
    method Prepare(count: nat) returns (on: bool)
      requires Valid() && err == None
      modifies this, r
      ensures Valid() && Left() == old(Left())
      ensures !on ==> err.Some? || count > 0
      ensures on && err == None ==> !checkEnd && n > 0 && |r.rest| <= |old(r.rest)|
    {
      if checkEnd {
        if count > 0 && r.buffered < 2 {
          return false;
        }
        ReadEnd();
        if err.Some? {
          return false;
        }
      }
      if n == 0 {
        if count > 0 {
          var available := ChunkHeaderAvailable();
          if !available {
            return false;
          }
        }
        BeginChunk();
      }
      return true;
    }

    /** A turn of the loop of Read. */
    method ReadMore(b: array<Byte>, count: nat) returns (on: bool, n0: nat)
      requires Valid() && err == None && count <= b.Length
      modifies this, r, b
      ensures Valid() && count + n0 <= b.Length && b[..count] == old(b[..count])
      ensures old(Left()) == Prepend(b[count..count + n0], Left())
      ensures !on ==> err.Some? || count + n0 > 0 || b.Length == 0
      ensures on && err == None ==> |r.rest| < |old(r.rest)|
    {
      on := Prepare(count);
      if !on || err.Some? || count == b.Length {
        on, n0 := false, 0;
        assert b[count..count] == [] && Prepend([], Left()) == Left();
        return;
      }
      n0 := ReadData(b, count);
    }

    /** Read: fills b, in as many steps as there are chunks, but stops early rather than wait once it has some data. */
    method Read(b: array<Byte>) returns (count: nat)
      requires Valid()
      modifies this, r, b
      ensures Valid() && count <= b.Length
      ensures old(Left()) == Prepend(b[..count], Left())
      ensures old(err).Some? ==> count == 0 && err == old(err)
      ensures err == None && b.Length > 0 ==> count > 0
    {
      ghost var whole, got := Left(), [];
      count := 0;
      assert Prepend([], Left()) == Left();
      var on := true;
      while err == None && on
        invariant Valid() && count <= b.Length && got == b[..count]
        invariant whole == Prepend(got, Left())
        invariant old(err).Some? ==> count == 0 && err == old(err)
        invariant !on ==> err.Some? || count > 0 || b.Length == 0
        decreases err == None, on, |r.rest|
      {
        ghost var left := Left();
        var n0: nat;
        on, n0 := ReadMore(b, count);
        PrependTwice(whole, got, left, b[count..count + n0], Left());
        got := got + b[count..count + n0];
        count := count + n0;
      }
    }
  }
}
