/** HTTP's "chunked" transfer encoding (http/internal/chunked.go): what a wire text means, and that the writer's text
    means the data written. */
module Chunked {
  import opened GoBytes
  import opened Options
  import opened Bufio

  const MAX_LINE := 4096
  const MAX_EXCESS := 16 * 1024

  // ---- chunk headers ----

  predicate IsSpace(c: Byte) {
    c == ' ' || c == '\t' || c == '\n' || c == '\r'
  }

  /** trimTrailingWhitespace */
  function Trim(b: Bytes): (text: Bytes) {
    if b != [] && IsSpace(b[|b| - 1]) then Trim(b[..|b| - 1]) else b
  }

  /** removeChunkExtension */
  function BeforeSemicolon(b: Bytes): (text: Bytes) {
    if b == [] || b[0] == ';' then [] else [b[0]] + BeforeSemicolon(b[1..])
  }

  datatype Size = Size(n: nat) | BadSize(error: ReadError)

  /** The loop of parseHexUint from digit i on. */
  function HexUintFrom(v: Bytes, i: nat, n: nat): (r: Size)
    requires i <= |v|
    ensures r.BadSize? ==> r.error != EOF
    decreases |v| - i
  {
    if i == |v| then Size(n)
    else if !IsHex(v[i]) then BadSize(InvalidSize)
    else if i == 16 then BadSize(SizeTooLarge)
    else HexUintFrom(v, i + 1, n * 16 + UnHex(v[i]))
  }

  function HexUint(v: Bytes): (r: Size) {
    if v == [] then BadSize(EmptySize) else HexUintFrom(v, 0, 0)
  }

  /** An int64 after an operation that may overflow. */
  function Wrap64(x: int): (w: int)
    ensures -0x8000_0000_0000_0000 <= w < 0x8000_0000_0000_0000
  {
    (x + 0x8000_0000_0000_0000) % 0x1_0000_0000_0000_0000 - 0x8000_0000_0000_0000
  }

  function Max(a: int, b: int): (n: int) {
    if a < b then b else a
  }

  /** The excess after a header line for a chunk of n bytes. */
  function ExcessAfter(excess: int, line: nat, n: nat): (count: int) {
    Max(Wrap64(Wrap64(excess + line + 2) - (16 + 2 * n)), 0)
  }

  datatype Header = Chunk(n: nat, excess: int) | Last | NoChunk(error: ReadError)

  /** beginChunk on a header line. */
  function HeaderOf(line: Bytes, excess: int): (r: Header)
    ensures r.NoChunk? ==> r.error != EOF
  {
    if |line| >= MAX_LINE then NoChunk(LineTooLong)
    else
      match HexUint(BeforeSemicolon(Trim(line)))
      case BadSize(e) => NoChunk(e)
      case Size(n) =>
        if n == 0 then Last
        else if ExcessAfter(excess, |line|, n) > MAX_EXCESS then NoChunk(TooMuchOverhead)
        else Chunk(n, ExcessAfter(excess, |line|, n))
  }

  // ---- what a wire text means ----

  /** The state of a chunkedReader. */
  datatype State = State(n: nat, checkEnd: bool, excess: int, err: Option<ReadError>)

  const START := State(0, false, 0, None)

  /** Everything that can still be read: the data, the error that ends it, and, for io.EOF, what follows on the wire. */
  datatype Yield = Yield(data: Bytes, end: ReadError, after: Bytes)

  function Prepend(data: Bytes, y: Yield): (left: Yield) {
    y.(data := data + y.data)
  }

  function Ended(e: ReadError, after: Bytes): (y: Yield) {
    Yield([], e, if e == EOF then after else [])
  }

  /** The meaning of a wire text, read all at once from a reader of this source. */
  function Meaning(s: State, rest: Bytes, source: Source): (y: Yield)
    decreases |rest|, 0
  {
    if s.err.Some? then Ended(s.err.value, rest)
    else if s.checkEnd then
      if |rest| < 2 then Ended(source.Short(), [])
      else if rest[..2] != CRLF then Ended(Malformed, [])
      else Meaning(s.(checkEnd := false), rest[2..], source)
    else if s.n == 0 then
      var i := NewlineAt(rest);
      if !(0 <= i < source.size) then Ended(if i < 0 && |rest| < source.size then source.Short() else LineTooLong, [])
      else AfterHeader(HeaderOf(rest[..i + 1], s.excess), rest[i + 1..], source)
    else if |rest| < s.n then Yield(rest, source.Short(), [])
    else Prepend(rest[..s.n], Meaning(State(0, true, s.excess, None), rest[s.n..], source))
  }

  function AfterHeader(h: Header, rest: Bytes, source: Source): (y: Yield)
    decreases |rest|, 1
  {
    match h
    case NoChunk(e) => Ended(e, [])
    case Last => Ended(EOF, rest)
    case Chunk(n, excess) => Meaning(State(n, false, excess, None), rest, source)
  }

  /** The state after k data bytes of the chunk. */
  function Advanced(s: State, k: nat): (t: State)
    requires k <= s.n
  {
    State(s.n - k, s.n == k, s.excess, None)
  }

  lemma SplitData(rest: Bytes, k: nat, n: nat)
    requires k <= n <= |rest|
    ensures rest[k..][..n - k] == rest[k..n] && rest[k..][n - k..] == rest[n..] && rest[..n] == rest[..k] + rest[k..n]
  {
  }

  /** A chunk's data may be read in any number of pieces. */
  lemma ReadInPieces(s: State, k: nat, rest: Bytes, source: Source)
    requires s.err == None && !s.checkEnd && 0 < k <= s.n && k <= |rest|
    ensures Meaning(s, rest, source) == Prepend(rest[..k], Meaning(Advanced(s, k), rest[k..], source))
  {
    if k < s.n {
      if |rest| < s.n {
        SplitData(rest, k, |rest|);
        assert rest[k..][..|rest| - k] == rest[k..] && rest[..|rest|] == rest;
      } else {
        SplitData(rest, k, s.n);
        Regroup(rest[..k], rest[k..s.n], Meaning(State(0, true, s.excess, None), rest[s.n..], source).data);
      }
    }
  }

  // ---- the writer ----

  function LowerHex(d: nat): (c: Byte)
    requires d < 16
    ensures IsHex(c) && UnHex(c) == d && c != ';' && !IsSpace(c)
  {
    if d < 10 then (d + '0' as int) as char else (d - 10 + 'a' as int) as char
  }

  /** The verb %x */
  function HexText(n: nat): (t: Bytes)
    ensures |t| >= 1
  {
    if n < 16 then [LowerHex(n)] else HexText(n / 16) + [LowerHex(n % 16)]
  }

  /** One chunk on the wire. */
  function ChunkText(data: Bytes): (text: Bytes) {
    if data == [] then [] else HexText(|data|) + CRLF + data + CRLF
  }

  function ChunksText(writes: seq<Bytes>): (text: Bytes) {
    if writes == [] then [] else ChunkText(writes[0]) + ChunksText(writes[1..])
  }

  function Concat(writes: seq<Bytes>): (text: Bytes) {
    if writes == [] then [] else writes[0] + Concat(writes[1..])
  }

  const LAST_CHUNK: Bytes := "0\r\n"

  /** An io.Writer that may fail at any time, having taken some of the bytes; it takes all of them or reports
      an error. */
  class Wire {
    var text: Bytes
    /** Some write failed. */
    ghost var broke: bool

    constructor ()
      ensures text == [] && !broke
    {
      text, broke := [], false;
    }

    method Write(data: Bytes) returns (n: nat, failed: bool)
      modifies this
      ensures n <= |data| && text == old(text) + data[..n] && (n < |data| ==> failed)
      ensures broke == (old(broke) || failed)
    {
      n :| 0 <= n <= |data|;
      failed :| n < |data| ==> failed;
      text := text + data[..n];
      broke := broke || failed;
    }
  }

  /** chunkedWriter. */
  class ChunkedWriter {
    const wire: Wire
    ghost var writes: seq<Bytes>

    /** Nothing failed so far: the wire has the text of all writes behind what was there before. */
    ghost predicate Valid(before: Bytes)
      reads this, wire
    {
      wire.text == before + ChunksText(writes)
    }

    constructor (wire: Wire)
      ensures this.wire == wire && writes == []
    {
      this.wire, writes := wire, [];
    }

    /** Write; it never sends an empty chunk, which would end the stream. When it fails, the wire has the
        beginning of the chunk. */
    method Write(data: Bytes, ghost before: Bytes) returns (n: nat, failed: bool)
      requires Valid(before)
      modifies this, wire
      ensures writes == old(writes) + [data] && n <= |data|
      ensures !failed ==> Valid(before) && n == |data|
      ensures before <= wire.text <= before + ChunksText(writes)
      ensures wire.broke == (old(wire.broke) || failed)
    {
      ghost var start := wire.text;
      ChunksSnoc(writes, data);
      Regroup(before, ChunksText(writes), ChunkText(data));
      writes := writes + [data];
      if |data| == 0 {
        return 0, false;
      }
      n, failed := WriteChunk(data, start);
      assert before <= start <= wire.text;
    }

    method WriteChunk(data: Bytes, ghost start: Bytes) returns (n: nat, failed: bool)
      requires wire.text == start && data != []
      modifies wire
      ensures n <= |data| && (!failed ==> n == |data| && wire.text == start + ChunkText(data))
      ensures start <= wire.text <= start + ChunkText(data)
      ensures wire.broke == (old(wire.broke) || failed)
    {
      ghost var size := HexText(|data|) + CRLF;
      InParts(size, data);
      assert start + [] == start;
      failed := Emit(HexText(|data|) + CRLF, start, [], data + CRLF);
      if failed {
        return 0, true;
      }
      n, failed := wire.Write(data);
      PartOfText(start, size, data, CRLF, n);
      if failed {
        return n, true;
      }
      failed := Emit("\r\n", start, size + data, []);
    }

    /** One write of a part of a text, of which `done` is out already. */
    method Emit(part: Bytes, ghost start: Bytes, ghost done: Bytes, ghost rest: Bytes) returns (failed: bool)
      requires wire.text == start + done
      modifies wire
      ensures !failed ==> wire.text == start + (done + part)
      ensures start <= wire.text <= start + (done + part + rest)
      ensures wire.broke == (old(wire.broke) || failed)
    {
      var taken: nat;
      taken, failed := wire.Write(part);
      PartOfText(start, done, part, rest, taken);
    }

    /** Close */
    method Close(ghost before: Bytes) returns (failed: bool)
      requires Valid(before)
      modifies wire
      ensures !failed ==> wire.text == before + ChunksText(writes) + LAST_CHUNK
      ensures before <= wire.text <= before + ChunksText(writes) + LAST_CHUNK
      ensures wire.broke == (old(wire.broke) || failed)
    {
      var taken: nat;
      taken, failed := wire.Write("0\r\n");
    }
  }

  lemma InParts(size: Bytes, data: Bytes)
    ensures [] + size == size && [] + size + (data + CRLF) == size + data + CRLF
      && (size + data) + CRLF + [] == size + data + CRLF
  {
  }

  lemma PartOfText(start: Bytes, done: Bytes, part: Bytes, rest: Bytes, n: nat)
    requires n <= |part|
    ensures start <= (start + done) + part[..n] <= start + (done + part + rest)
    ensures n == |part| ==> (start + done) + part[..n] == start + (done + part)
  {
    var text := (start + done) + part[..n];
    var all := start + (done + part + rest);
    assert all[..|text|] == text;
    assert text[..|start|] == start;
  }

  lemma {:induction false} ChunksSnoc(writes: seq<Bytes>, data: Bytes)
    ensures ChunksText(writes + [data]) == ChunksText(writes) + ChunkText(data)
    ensures Concat(writes + [data]) == Concat(writes) + data
  {
    if writes == [] {
      assert writes + [data] == [data];
      assert ChunkText(data) + [] == ChunkText(data) && [] + ChunkText(data) == ChunkText(data) && data + [] == data;
    } else {
      assert (writes + [data])[1..] == writes[1..] + [data];
      ChunksSnoc(writes[1..], data);
      Regroup(ChunkText(writes[0]), ChunksText(writes[1..]), ChunkText(data));
      Regroup(writes[0], Concat(writes[1..]), data);
    }
  }

  // ---- reading what the writer wrote ----

  lemma {:induction false} HexUintSnoc(v: Bytes, d: Byte, i: nat, n: nat)
    requires i <= |v| < 16 && HexUintFrom(v, i, n).Size? && IsHex(d)
    ensures HexUintFrom(v + [d], i, n) == Size(HexUintFrom(v, i, n).n * 16 + UnHex(d))
    decreases |v| - i
  {
    if i < |v| {
      assert (v + [d])[i] == v[i];
      HexUintSnoc(v, d, i + 1, n * 16 + UnHex(v[i]));
    } else {
      assert (v + [d])[i] == d;
    }
  }

  function Pow16(k: nat): (n: nat) {
    if k == 0 then 1 else 16 * Pow16(k - 1)
  }

  /** %x writes at most k digits for a number below 16^k, and never a separator. */
  lemma {:induction false} HexLength(n: nat, k: nat)
    requires k >= 1 && n < Pow16(k)
    ensures |HexText(n)| <= k && |HexText(n)| <= n + 1
    ensures forall i :: 0 <= i < |HexText(n)| ==>
      IsHex(HexText(n)[i]) && HexText(n)[i] != ';' && !IsSpace(HexText(n)[i])
  {
    if n >= 16 {
      HexLength(n / 16, k - 1);
    }
  }

  lemma Pow16Of16()
    ensures Pow16(16) == 0x1_0000_0000_0000_0000 && Pow16(15) == 0x1000_0000_0000_0000
  {
    assert Pow16(4) == 0x1_0000 by { assert Pow16(2) == 0x100; }
    assert Pow16(8) == 0x1_0000_0000 by { assert Pow16(6) == 0x100_0000; }
    assert Pow16(12) == 0x1_0000_0000_0000 by { assert Pow16(10) == 0x100_0000_0000; }
    assert Pow16(14) == 0x100_0000_0000_0000;
  }

  /** parseHexUint reads what %x writes. */
  lemma {:induction false} HexIsRead(n: nat, k: nat)
    requires 1 <= k <= 16 && n < Pow16(k)
    ensures HexUintFrom(HexText(n), 0, 0) == Size(n)
  {
    if n < 16 {
      assert HexUintFrom([LowerHex(n)], 1, n) == Size(n);
    } else {
      HexIsRead(n / 16, k - 1);
      HexLength(n / 16, k - 1);
      HexUintSnoc(HexText(n / 16), LowerHex(n % 16), 0, 0);
    }
  }

  lemma {:induction false} NoSemicolon(b: Bytes)
    requires ';' !in b
    ensures BeforeSemicolon(b) == b
  {
    if b != [] {
      NoSemicolon(b[1..]);
      assert b == [b[0]] + b[1..];
    }
  }

  lemma TrimLine(b: Bytes)
    requires b != [] && !IsSpace(b[|b| - 1])
    ensures Trim(b + CRLF) == b
  {
    var line, more := b + CRLF, b + ['\r'];
    assert line[|line| - 1] == '\n' && line[..|line| - 1] == more;
    assert more[|more| - 1] == '\r' && more[..|more| - 1] == b;
    assert Trim(line) == Trim(more);
    assert Trim(more) == Trim(b);
    assert Trim(b) == b;
  }

  lemma {:induction false} HexIsLong(n: nat, k: nat)
    requires k >= 1 && n >= Pow16(k - 1)
    ensures |HexText(n)| >= k
  {
    if k > 1 {
      HexIsLong(n / 16, k - 1);
    }
  }

  /** The largest write whose header adds no excess: for longer ones the product 2 * n in beginChunk overflows. */
  const MAX_WRITE := 0x4000_0000_0000_0002

  lemma ShortWriteAddsNothing(d: nat, n: nat)
    requires 0 < n <= MAX_WRITE && d <= 16 && d <= n + 1 && (n >= 0x1000_0000_0000_0000 ==> d == 16)
    ensures ExcessAfter(0, d + 2, n) == 0
  {
  }

  lemma LongWriteAddsSome(n: nat)
    requires MAX_WRITE < n < 0x8000_0000_0000_0000
    ensures ExcessAfter(0, 18, n) > 0
  {
    var x := 20 - (16 + 2 * n);
    assert Wrap64(x) == Wrap64(x + 0x1_0000_0000_0000_0000) == x + 0x1_0000_0000_0000_0000;
  }

  lemma ExcessStaysZeroExactly(n: nat)
    requires 0 < n < 0x8000_0000_0000_0000
    ensures ExcessAfter(0, |HexText(n)| + 2, n) == 0 <==> n <= MAX_WRITE
  {
    Pow16Of16();
    HexLength(n, 16);
    if n >= 0x1000_0000_0000_0000 {
      HexIsLong(n, 16);
    }
    if n <= MAX_WRITE {
      ShortWriteAddsNothing(|HexText(n)|, n);
    } else {
      LongWriteAddsSome(n);
    }
  }

  lemma HeaderIsRead(n: nat)
    requires 0 < n <= MAX_WRITE
    ensures |HexText(n) + CRLF| <= 18 && HeaderOf(HexText(n) + CRLF, 0) == Chunk(n, 0)
  {
    Pow16Of16();
    HexLength(n, 16);
    HexIsRead(n, 16);
    TrimLine(HexText(n));
    NoSemicolon(HexText(n));
    ExcessStaysZeroExactly(n);
  }

  lemma {:induction false} NewlineIs(s: Bytes, n: nat)
    requires n < |s| && s[n] == '\n' && forall k :: 0 <= k < n ==> s[k] != '\n'
    ensures NewlineAt(s) == n
  {
    if n > 0 {
      NewlineIs(s[1..], n - 1);
    }
  }

  lemma NewlineAfter(line: Bytes, rest: Bytes)
    requires '\n' !in line
    ensures NewlineAt(line + CRLF + rest) == |line| + 1
    ensures (line + CRLF + rest)[..|line| + 2] == line + CRLF && (line + CRLF + rest)[|line| + 2..] == rest
  {
    var s := line + CRLF + rest;
    assert forall k :: 0 <= k < |line| ==> s[k] == line[k];
    assert s[|line|] == '\r' && s[|line| + 1] == '\n';
    NewlineIs(s, |line| + 1);
  }

  lemma HexHasNoNewline(n: nat)
    requires n < 0x1_0000_0000_0000_0000
    ensures '\n' !in HexText(n)
  {
    Pow16Of16();
    HexLength(n, 16);
  }

  lemma DataIsRead(data: Bytes, rest: Bytes, source: Source)
    requires data != []
    ensures Meaning(State(|data|, false, 0, None), data + CRLF + rest, source)
      == Prepend(data, Meaning(START, rest, source))
  {
    var s := data + CRLF + rest;
    assert s[..|data|] == data && s[|data|..] == CRLF + rest;
    assert (CRLF + rest)[..2] == CRLF && (CRLF + rest)[2..] == rest;
  }

  /** A write whose chunk header adds no excess and fits in the reader's buffer; eighteen bytes of buffer are enough. */
  predicate Fits(data: Bytes, source: Source) {
    |data| <= MAX_WRITE && |HexText(|data|) + CRLF| <= source.size
  }

  ghost predicate AllFit(writes: seq<Bytes>, source: Source) {
    forall i :: 0 <= i < |writes| ==> Fits(writes[i], source)
  }

  /** One chunk, as written, means its data. */
  lemma ChunkIsRead(data: Bytes, rest: Bytes, source: Source)
    requires Fits(data, source)
    ensures Meaning(START, ChunkText(data) + rest, source) == Prepend(data, Meaning(START, rest, source))
  {
    if data == [] {
      assert [] + rest == rest;
      assert [] + Meaning(START, rest, source).data == Meaning(START, rest, source).data;
    } else {
      var hex := HexText(|data|);
      HeaderIsRead(|data|);
      HexHasNoNewline(|data|);
      assert ChunkText(data) + rest == hex + CRLF + (data + CRLF + rest);
      NewlineAfter(hex, data + CRLF + rest);
      DataIsRead(data, rest, source);
    }
  }

  lemma LastIsRead(rest: Bytes, source: Source)
    requires source.size >= MIN_SIZE
    ensures Meaning(START, LAST_CHUNK + rest, source) == Yield([], EOF, rest)
  {
    var zero: Bytes := "0";
    assert LAST_CHUNK + rest == zero + CRLF + rest;
    NewlineAfter(zero, rest);
    TrimLine(zero);
    NoSemicolon(zero);
    assert HexUintFrom(zero, 1, 0) == Size(0);
  }

  /** Whatever is written in whatever pieces, the text of the writer and its Close mean exactly the data, then io.EOF,
      and end where the last chunk ends. */
  lemma {:induction false} WrittenIsRead(writes: seq<Bytes>, rest: Bytes, source: Source)
    requires source.size >= MIN_SIZE && AllFit(writes, source)
    ensures Meaning(START, ChunksText(writes) + (LAST_CHUNK + rest), source) == Yield(Concat(writes), EOF, rest)
  {
    if writes == [] {
      assert [] + (LAST_CHUNK + rest) == LAST_CHUNK + rest;
      LastIsRead(rest, source);
    } else {
      WrittenIsRead(writes[1..], rest, source);
      ChunkIsRead(writes[0], ChunksText(writes[1..]) + (LAST_CHUNK + rest), source);
      Regroup(ChunkText(writes[0]), ChunksText(writes[1..]), LAST_CHUNK + rest);
    }
  }

  // ---- how much overhead a sender can get past the reader ----

  /** The chunk sizes of a run of header lines that beginChunk accepts one after the other; None when it refuses one,
      or one is the last. */
  function Accepted(lines: seq<Bytes>, excess: int): (r: Option<seq<nat>>) {
    if lines == [] then Some([])
    else
      match HeaderOf(lines[0], excess)
      case Chunk(n, more) =>
        (match Accepted(lines[1..], more)
         case None => None
         case Some(sizes) => Some([n] + sizes))
      case _ => None
  }

  function Sum(sizes: seq<nat>): (n: nat) {
    if sizes == [] then 0 else sizes[0] + Sum(sizes[1..])
  }

  /** The bytes of the run that are not data: the header lines and a CRLF after every chunk. */
  function Overhead(lines: seq<Bytes>): (n: nat) {
    if lines == [] then 0 else |lines[0]| + 2 + Overhead(lines[1..])
  }

  lemma {:induction false} WrapIsNoLess(x: int)
    requires x < 0x8000_0000_0000_0000
    ensures Wrap64(x) >= x
    decreases if x < 0 then -x else x + 1
  {
    if x < -0x8000_0000_0000_0000 {
      WrapIsNoLess(x + 0x1_0000_0000_0000_0000);
    }
  }

  lemma ExcessIsNoLess(excess: int, line: nat, n: nat)
    requires 0 <= excess <= MAX_EXCESS && line < MAX_LINE
    ensures ExcessAfter(excess, line, n) >= excess + line + 2 - (16 + 2 * n)
    ensures ExcessAfter(excess, line, n) >= 0
  {
    WrapIsNoLess(excess + line + 2 - (16 + 2 * n));
  }

  /** For chunks of any sizes, even those whose accounting overflows, the overhead that gets past the reader is bounded
      by sixteen bytes a chunk, twice the data, and a constant. */
  lemma {:induction false} OverheadIsBounded(lines: seq<Bytes>, excess: int)
    requires 0 <= excess <= MAX_EXCESS && Accepted(lines, excess).Some?
    ensures var sizes := Accepted(lines, excess).value;
      |sizes| == |lines| && excess + Overhead(lines) <= MAX_EXCESS + 16 * |lines| + 2 * Sum(sizes)
  {
    if lines != [] {
      var h := HeaderOf(lines[0], excess);
      ExcessIsNoLess(excess, |lines[0]|, h.n);
      OverheadIsBounded(lines[1..], h.excess);
      var sizes := Accepted(lines, excess).value;
      assert sizes[1..] == Accepted(lines[1..], h.excess).value;
    }
  }
}
