/** Message bodies (http/transfer.go): reading a body up to its end, and not a byte further, in both framings. */
module MessageBody {
  import opened GoBytes
  import opened Options
  import opened Bufio
  import opened Chunked
  import opened ChunkedReaderClass

  /** The end of the first CRLF CRLF that ends at n or later and within the bound. */
  function DoubleCrlfFrom(s: Bytes, bound: nat, n: nat): (end: Option<nat>)
    requires bound <= |s| && n >= 4
    ensures end.Some? ==> n <= end.value <= bound
    decreases bound - n
  {
    if n > bound then None
    else if s[n - 4..n] == CRLF + CRLF then Some(n)
    else DoubleCrlfFrom(s, bound, n + 1)
  }

  /** The end of the first CRLF CRLF that a buffer of this size can show. */
  function DoubleCrlf(s: Bytes, size: nat): (end: Option<nat>)
    ensures end.Some? ==> 4 <= end.value <= size && end.value <= |s|
  {
    DoubleCrlfFrom(s, if |s| < size then |s| else size, 4)
  }

  /** A line, with its end, that has nothing else. */
  predicate Blank(line: Bytes) {
    |line| == 1 || (|line| == 2 && line[0] == '\r')
  }

  /** What follows the lines of a header up to and including its first blank line, if there is one. */
  function BehindHeader(s: Bytes): (rest: Option<Bytes>) {
    var i := NewlineAt(s);
    if i < 0 then None
    else if i == 0 || (i == 1 && s[0] == '\r') then Some(s[i + 1..])
    else BehindHeader(s[i + 1..])
  }

  /** A blank line, behind another line or at the very beginning, ends here. */
  predicate ShowsEnd(s: Bytes, end: nat) {
    2 <= end <= |s| && s[end - 2] == '\r' && s[end - 1] == '\n' && (end == 2 || s[end - 3] == '\n')
  }

  lemma {:induction false} NewlineNotBehind(s: Bytes, k: nat)
    requires k < |s| && s[k] == '\n'
    ensures 0 <= NewlineAt(s) <= k && s[NewlineAt(s)] == '\n'
  {
    if s[0] != '\n' {
      NewlineNotBehind(s[1..], k - 1);
    }
  }

  lemma BlankLineFirst(s: Bytes)
    requires |s| >= 2 && s[..2] == CRLF
    ensures BehindHeader(s) == Some(s[2..])
  {
    assert s[0] == s[..2][0] && s[1] == s[..2][1];
    NewlineNotBehind(s, 1);
  }

  lemma {:induction false} DoubleCrlfShowsEnd(s: Bytes, bound: nat, n: nat)
    requires bound <= |s| && n >= 4 && DoubleCrlfFrom(s, bound, n).Some?
    ensures ShowsEnd(s, DoubleCrlfFrom(s, bound, n).value)
    decreases bound - n
  {
    if s[n - 4..n] == CRLF + CRLF {
      var shown := s[n - 4..n];
      assert shown[1] == '\n' && shown[2] == '\r' && shown[3] == '\n';
    } else {
      DoubleCrlfShowsEnd(s, bound, n + 1);
    }
  }

  /** A header that ends somewhere has another line, which is the blank one or leaves that end where it was. */
  lemma LineIsRead(s: Bytes, line: Bytes, rest: Bytes)
    requires BehindHeader(s).Some?
    ensures 0 <= NewlineAt(s)
    ensures line == s[..NewlineAt(s) + 1] && rest == s[NewlineAt(s) + 1..] ==>
      BehindHeader(s) == (if Blank(line) then Some(rest) else BehindHeader(rest))
  {
  }

  /** The loop of readMIMEHeader over the lines of a header that ends somewhere; it may find any of them malformed. */
  method ReadHeaderLines(r: Reader) returns (wellFormed: bool)
    requires r.Valid() && BehindHeader(r.rest).Some?
    modifies r
    ensures r.Valid() && (wellFormed ==> BehindHeader(old(r.rest)) == Some(r.rest))
  {
    ghost var end := BehindHeader(r.rest);
    wellFormed := true;
    while wellFormed
      invariant r.Valid() && BehindHeader(r.rest) == end
      decreases |r.rest|, wellFormed
    {
      ghost var rest := r.rest;
      LineIsRead(rest, [], []);
      var line := r.Take(NewlineAt(r.rest) + 1);
      LineIsRead(rest, line, r.rest);
      if Blank(line) {
        return;
      }
      wellFormed :| true;
    }
  }

  /** With the end in sight the header ends there or before. */
  lemma {:induction false} HeaderEndsInSight(s: Bytes, end: nat)
    requires ShowsEnd(s, end)
    ensures BehindHeader(s).Some? && |s| - end <= |BehindHeader(s).value| < |s|
    decreases |s|
  {
    var i := NewlineAt(s);
    NewlineNotBehind(s, if end == 2 then 1 else end - 3);
    if i != 0 && !(i == 1 && s[0] == '\r') {
      HeaderEndsInSight(s[i + 1..], end - (i + 1));
    }
  }

  /** body. Its source is a chunkedReader over r, or, without one, a LimitedReader with `limit` bytes to go. */
  class Body {
    const r: Reader
    const src: ChunkedReader?
    var limit: nat
    /** hdr is set: a trailer may follow. */
    var hdr: bool
    var sawEOF: bool
    var closed: bool

    ghost predicate Valid()
      reads this, r, src
    {
      && r.Valid() && (src != null ==> src.r == r && src.Valid())
      && (src == null ==> !hdr)
    }

    /** Everything the body will still read. */
    ghost function Left(): (y: Yield)
      reads this, r, src
      requires Valid()
    {
      if sawEOF then Yield([], EOF, r.rest)
      else if src != null then src.Left()
      else if |r.rest| < limit then Yield(r.rest, r.source.Short(), [])
      else Yield(r.rest[..limit], EOF, r.rest[limit..])
    }

    constructor Chunked(r: Reader)
      requires r.Valid()
      ensures Valid() && this.r == r && src != null && fresh(src) && hdr && !sawEOF && !closed && src.Now() == START
    {
      this.r := r;
      src := new ChunkedReader(r);
      limit, hdr, sawEOF, closed := 0, true, false, false;
    }

    constructor Limited(r: Reader, length: nat)
      requires r.Valid()
      ensures Valid() && this.r == r && src == null && limit == length && !sawEOF && !closed
    {
      this.r := r;
      src := null;
      limit, hdr, sawEOF, closed := length, false, false, false;
    }

    /** readTrailer. Without a trailer exactly the last CRLF is taken; with one, the buffer must show its
        end, and unless it is malformed exactly its lines are taken, up to the first blank one. Which fields it has is
        left open. */
    method ReadTrailer() returns (err: Option<ReadError>)
      requires Valid()
      modifies r
      ensures Valid()
      ensures |old(r.rest)| < 2 <==> err == Some(TrailerEOF)
      ensures err in {None, Some(TrailerEOF), Some(TrailerError)}
      ensures |old(r.rest)| >= 2 && old(r.rest)[..2] == CRLF ==> err == None && r.rest == old(r.rest[2..])
      ensures |old(r.rest)| >= 2 && old(r.rest)[..2] != CRLF && DoubleCrlf(old(r.rest), r.source.size) == None ==>
        err == Some(TrailerError) && r.rest == old(r.rest)
      ensures err == None ==> BehindHeader(old(r.rest)) == Some(r.rest)
    {
      if |r.rest| >= 2 && r.rest[..2] == CRLF {
        BlankLineFirst(r.rest);
        var _ := r.Take(2);
        return None;
      }
      if |r.rest| < 2 {
        return Some(TrailerEOF);
      }
      var end := SeeUpcomingDoubleCRLF();
      if end == None {
        return Some(TrailerError);
      }
      DoubleCrlfShowsEnd(r.rest, if |r.rest| < r.source.size then |r.rest| else r.source.size, 4);
      HeaderEndsInSight(r.rest, end.value);
      var wellFormed := ReadHeaderLines(r);
      return if wellFormed then None else Some(TrailerError);
    }

    /** The loop of seeUpcomingDoubleCRLF: it peeks further and further, up to the size of the buffer. */
    method SeeUpcomingDoubleCRLF() returns (end: Option<nat>)
      requires Valid()
      ensures end == DoubleCrlf(r.rest, r.source.size)
    {
      var bound := if |r.rest| < r.source.size then |r.rest| else r.source.size;
      var peekSize := 4;
      while peekSize <= bound
        invariant 4 <= peekSize
        invariant DoubleCrlfFrom(r.rest, bound, 4) == DoubleCrlfFrom(r.rest, bound, peekSize)
        decreases bound - peekSize
      {
        if r.rest[peekSize - 4..peekSize] == CRLF + CRLF {
          return Some(peekSize);
        }
        peekSize := peekSize + 1;
      }
      return None;
    }

    /** LimitedReader.Read */
    method ReadLimited(p: array<Byte>) returns (n: nat, err: Option<ReadError>)
      requires Valid() && src == null && !sawEOF && p.Length > 0
      modifies r, this`limit, p
      ensures Valid() && n <= p.Length && n <= old(limit) && limit == old(limit) - n
      ensures if old(limit) == 0 then err == Some(EOF) && n == 0 && r.rest == old(r.rest)
        else if old(r.rest) == [] then err == Some(r.source.ending) && n == 0 && r.rest == []
        else err == None && 0 < n <= |old(r.rest)| && p[..n] == old(r.rest[..n]) && r.rest == old(r.rest[n..])
    {
      if limit == 0 {
        return 0, Some(EOF);
      }
      n, err := r.Read(p, 0, if p.Length > limit then limit else p.Length);
      assert p[0..n] == p[..n];
      limit := limit - n;
    }

    /** readLocked on a body with a Content-Length. */
    method ReadLockedLimited(p: array<Byte>) returns (n: nat, err: Option<ReadError>)
      requires Valid() && src == null && !closed && !sawEOF && p.Length > 0
      modifies r, this`limit, this`sawEOF, p
      ensures Valid() && n <= p.Length
      ensures match err
        case None => n > 0 && !sawEOF && old(Left()) == Prepend(p[..n], Left())
        case Some(e) =>
          && (sawEOF <==> e == EOF || r.source.ending == EOF)
          && old(Left()) == Yield(p[..n], e, if e == EOF then r.rest else [])
    {
      ghost var rest, length := r.rest, limit;
      n, err := ReadLimited(p);
      if err == Some(EOF) {
        sawEOF := true;
        assert p[..0] == [];
        if limit > 0 {
          err := Some(UnexpectedEOF);
        }
      }
      if err == None {
        SplitLimited(rest, n, length);
        if n > 0 && limit == 0 {
          err := Some(EOF);
          sawEOF := true;
        }
      }
    }

    /** readLocked on a chunked body. */
    method ReadLockedChunked(p: array<Byte>) returns (n: nat, err: Option<ReadError>)
      requires Valid() && src != null && !closed && !sawEOF && p.Length > 0
      modifies r, src, this`hdr, this`sawEOF, this`closed, p
      ensures Valid() && n <= p.Length
      ensures err == None ==> n > 0 && !sawEOF && !closed && hdr == old(hdr) && old(Left()) == Prepend(p[..n], Left())
      ensures old(Left()).end != EOF && err.Some? ==> !sawEOF && old(Left()) == Yield(p[..n], err.value, [])
      ensures old(Left()).end == EOF && err.Some? ==>
        var after := old(Left()).after;
        && old(Left()).data == p[..n]
        && (if !old(hdr) then err == Some(EOF) && sawEOF && r.rest == after
            else if |after| < 2 then err == Some(TrailerEOF) && closed
            else if after[..2] == CRLF then err == Some(EOF) && sawEOF && !closed && r.rest == after[2..]
            else if err == Some(EOF) then sawEOF && !closed && BehindHeader(after) == Some(r.rest)
            else err == Some(TrailerError) && closed && !sawEOF)
    {
      n := src.Read(p);
      err := src.err;
      if err == Some(EOF) {
        sawEOF := true;
        if hdr {
          var e := ReadTrailer();
          if e.Some? {
            err := e;
            sawEOF := false;
            closed := true;
          }
          hdr := false;
        }
      }
    }

    /** Read */
    method Read(p: array<Byte>) returns (n: nat, err: Option<ReadError>)
      requires Valid() && p.Length > 0
      modifies this, r, src, p
      ensures Valid() && n <= p.Length
      ensures old(closed) ==> n == 0 && err == Some(ReadAfterClose) && r.rest == old(r.rest)
      ensures !old(closed) && old(sawEOF) ==> n == 0 && err == Some(EOF) && r.rest == old(r.rest)
      ensures !old(closed) && !old(sawEOF) && err == None ==> n > 0 && !sawEOF && old(Left()) == Prepend(p[..n], Left())
      ensures !old(closed) && !old(sawEOF) && err == Some(EOF) ==>
        sawEOF && old(Left()).end == EOF && old(Left()).data == p[..n]
    {
      if closed {
        return 0, Some(ReadAfterClose);
      }
      if sawEOF {
        return 0, Some(EOF);
      }
      if src == null {
        n, err := ReadLockedLimited(p);
      } else {
        n, err := ReadLockedChunked(p);
      }
    }
  }

  lemma SplitLimited(rest: Bytes, n: nat, length: nat)
    requires n <= |rest| && n <= length
    ensures |rest| < length ==> rest == rest[..n] + rest[n..] && |rest[n..]| < length - n
    ensures length <= |rest| ==> rest[n..][..length - n] == rest[n..length] && rest[n..][length - n..] == rest[length..]
    ensures length <= |rest| ==> rest[..length] == rest[..n] + rest[n..length]
  {
  }

  // ---- from one end of a connection to the other ----

  /** What an io.LimitReader lets through; -1 is no limit. */
  function Upto(data: Bytes, limit: int): (text: Bytes) {
    if 0 <= limit < |data| then data[..limit] else data
  }

  /** What is to go over the wire for a body that its reader hands out in these pieces. */
  function BodyText(pieces: seq<Bytes>, isChunked: bool, contentLength: int, trailer: Bytes): (text: Bytes) {
    if isChunked then ChunksText(pieces) + LAST_CHUNK + trailer + CRLF else Upto(Concat(pieces), contentLength)
  }

  /** transferWriter: the fields that decide how the body is written. No body is a nil one. */
  datatype TransferWriter = TransferWriter(body: Option<seq<Bytes>>, toHEAD: bool, isChunked: bool, contentLength: int)
  {
    /** What is to go over the wire behind the head of the message. */
    function Text(trailer: Bytes): (text: Bytes) {
      match body
      case Some(pieces) => BodyText(pieces, isChunked, contentLength, trailer)
      case None => if isChunked then trailer + CRLF else []
    }

    /** The body has another length than the message announces. */
    predicate Mismatch() {
      !toHEAD && contentLength != -1 && contentLength != |if body.Some? then Concat(body.value) else []|
    }
  }

  /** newTransferWriter, from the fields of the message: a response to HEAD loses its body but stays chunked. */
  function NewTransferWriter(body: Option<seq<Bytes>>, toHEAD: bool, atLeastHTTP11: bool, chunked: bool,
    contentLength: int): (t: TransferWriter)
    requires contentLength >= -1
    ensures t.contentLength >= -1 && (t.isChunked ==> t.contentLength == -1)
    ensures t.body.None? <==> toHEAD || body.None?
  {
    if toHEAD then TransferWriter(None, true, chunked, if chunked then -1 else contentLength)
    else
      var stays := chunked && atLeastHTTP11 && body.Some?;
      TransferWriter(body, false, stays, if stays then -1 else if body.None? then 0 else contentLength)
  }

  /** Behind the head of a message without a body the next message begins at the next byte, unless the message is a
      chunked response to HEAD: then the trailer and a CRLF are in between. */
  lemma BodilessIsEmptyExactly(body: Option<seq<Bytes>>, toHEAD: bool, atLeastHTTP11: bool, chunked: bool,
    contentLength: int, trailer: Bytes, next: Bytes)
    requires contentLength >= -1 && (toHEAD || body.None?)
    ensures var t := NewTransferWriter(body, toHEAD, atLeastHTTP11, chunked, contentLength);
      t.Text(trailer) + next == next <==> !(toHEAD && chunked)
  {
    var t := NewTransferWriter(body, toHEAD, atLeastHTTP11, chunked, contentLength);
    assert |trailer + CRLF + next| > |next|;
    assert [] + next == next;
  }

  /** A HEAD request answered by a response with the chunked encoding: the client finds an empty line where the next
      response should begin. */
  lemma ChunkedReplyToHEADLeavesALine(pieces: seq<Bytes>, next: Bytes)
    ensures NewTransferWriter(Some(pieces), true, true, true, -1).Text([]) + next == CRLF + next != next
  {
    assert [] + CRLF == CRLF;
    assert |CRLF + next| > |next|;
  }

  lemma UptoSnoc(a: Bytes, b: Bytes, limit: int)
    requires limit >= -1
    ensures Upto(a + b, limit) == Upto(a, limit) + Upto(b, if limit == -1 then -1 else limit - |Upto(a, limit)|)
  {
  }

  lemma {:induction false} ConcatSplit(pieces: seq<Bytes>, i: nat)
    requires i <= |pieces|
    ensures Concat(pieces) == Concat(pieces[..i]) + Concat(pieces[i..])
    ensures ChunksText(pieces) == ChunksText(pieces[..i]) + ChunksText(pieces[i..])
  {
    if i == 0 {
      assert pieces[0..] == pieces;
    } else {
      ConcatSplit(pieces[1..], i - 1);
      assert pieces[1..][..i - 1] == pieces[..i][1..] && pieces[1..][i - 1..] == pieces[i..];
      Regroup(pieces[0], Concat(pieces[..i][1..]), Concat(pieces[i..]));
      Regroup(ChunkText(pieces[0]), ChunksText(pieces[..i][1..]), ChunksText(pieces[i..]));
    }
  }

  lemma Further(start: Bytes, text: Bytes, more: Bytes, now: Bytes)
    requires start <= now <= start + text
    ensures start <= now <= start + (text + more)
  {
    Regroup(start, text, more);
  }

  /** io.CopyBuffer from the body, through a LimitReader when there is a limit. */
  method CopyBody(w: Wire, pieces: seq<Bytes>, limit: int) returns (failed: bool)
    requires limit >= -1
    modifies w
    ensures old(w.text) <= w.text <= old(w.text) + Upto(Concat(pieces), limit)
    ensures !failed ==> w.text == old(w.text) + Upto(Concat(pieces), limit)
    ensures w.broke == (old(w.broke) || failed)
  {
    ghost var start := w.text;
    var left := limit;
    failed := false;
    for i := 0 to |pieces|
      invariant w.text == start + Upto(Concat(pieces[..i]), limit)
      invariant left == if limit == -1 then -1 else limit - |Upto(Concat(pieces[..i]), limit)|
      invariant w.broke == old(w.broke) && !failed
    {
      ghost var before := Upto(Concat(pieces[..i]), limit);
      var part := Upto(pieces[i], left);
      PieceCopied(pieces, i, limit, left);
      var n: nat;
      n, failed := w.Write(part);
      PartOfText(start, before, part, [], n);
      if failed {
        CopiedSoFar(pieces, i + 1, limit);
        Further(start, before + part, Upto(Concat(pieces), limit)[|before + part|..], w.text);
        return;
      }
      if left != -1 {
        left := left - n;
      }
    }
    assert pieces[..|pieces|] == pieces;
  }

  lemma PieceCopied(pieces: seq<Bytes>, i: nat, limit: int, left: int)
    requires limit >= -1 && i < |pieces|
    requires left == if limit == -1 then -1 else limit - |Upto(Concat(pieces[..i]), limit)|
    ensures Upto(Concat(pieces[..i + 1]), limit) == Upto(Concat(pieces[..i]), limit) + Upto(pieces[i], left)
  {
    assert pieces[..i + 1] == pieces[..i] + [pieces[i]];
    ChunksSnoc(pieces[..i], pieces[i]);
    UptoSnoc(Concat(pieces[..i]), pieces[i], limit);
  }

  lemma CopiedSoFar(pieces: seq<Bytes>, i: nat, limit: int)
    requires limit >= -1 && i <= |pieces|
    ensures Upto(Concat(pieces[..i]), limit) <= Upto(Concat(pieces), limit)
  {
    ConcatSplit(pieces, i);
    UptoSnoc(Concat(pieces[..i]), Concat(pieces[i..]), limit);
  }

  lemma ChunksSoFar(start: Bytes, pieces: seq<Bytes>, i: nat, now: Bytes)
    requires i <= |pieces| && start <= now <= start + ChunksText(pieces[..i])
    ensures start <= now <= start + (ChunksText(pieces) + LAST_CHUNK)
  {
    ConcatSplit(pieces, i);
    Further(start, ChunksText(pieces[..i]), ChunksText(pieces[i..]), now);
    Further(start, ChunksText(pieces), LAST_CHUNK, now);
  }

  /** io.CopyBuffer from the body to a chunkedWriter: every piece of the body as a chunk. */
  method CopyToChunks(cw: ChunkedWriter, pieces: seq<Bytes>, ghost start: Bytes) returns (failed: bool)
    requires cw.Valid(start) && cw.writes == [] && start <= cw.wire.text
    modifies cw, cw.wire
    ensures start <= cw.wire.text <= start + (ChunksText(pieces) + LAST_CHUNK)
    ensures !failed ==> cw.Valid(start) && cw.writes == pieces
    ensures cw.wire.broke == (old(cw.wire.broke) || failed)
  {
    for i := 0 to |pieces|
      invariant cw.Valid(start) && cw.writes == pieces[..i] && start <= cw.wire.text
      invariant cw.wire.broke == old(cw.wire.broke)
    {
      var n: nat;
      n, failed := cw.Write(pieces[i], start);
      assert pieces[..i + 1] == pieces[..i] + [pieces[i]];
      if failed {
        ChunksSoFar(start, pieces, i + 1, cw.wire.text);
        return;
      }
    }
    assert pieces[..|pieces|] == pieces;
    ChunksSoFar(start, pieces, |pieces|, cw.wire.text);
    failed := false;
  }

  /** Every piece of the body as a chunk, and the last chunk. */
  method CopyChunked(w: Wire, pieces: seq<Bytes>) returns (failed: bool)
    modifies w
    ensures old(w.text) <= w.text <= old(w.text) + (ChunksText(pieces) + LAST_CHUNK)
    ensures !failed ==> w.text == old(w.text) + (ChunksText(pieces) + LAST_CHUNK)
    ensures w.broke == (old(w.broke) || failed)
  {
    ghost var start := w.text;
    assert start + [] == start;
    var cw := new ChunkedWriter(w);
    failed := CopyToChunks(cw, pieces, start);
    if !failed {
      Regroup(start, ChunksText(pieces), LAST_CHUNK);
      failed := cw.Close(start);
    }
  }

  /** The copying part of writeBody, for a body that is not nil. */
  method CopyPieces(w: Wire, pieces: seq<Bytes>, isChunked: bool, contentLength: int, ghost trailer: Bytes)
    returns (failed: bool)
    requires contentLength >= -1
    modifies w
    ensures old(w.text) <= w.text <= old(w.text) + BodyText(pieces, isChunked, contentLength, trailer)
    ensures !failed ==>
      w.text == old(w.text) + if isChunked then ChunksText(pieces) + LAST_CHUNK else Upto(Concat(pieces), contentLength)
    ensures w.broke == (old(w.broke) || failed)
  {
    ghost var start := w.text;
    if isChunked {
      failed := CopyChunked(w, pieces);
      Further(start, ChunksText(pieces) + LAST_CHUNK, trailer, w.text);
      Further(start, ChunksText(pieces) + LAST_CHUNK + trailer, CRLF, w.text);
    } else {
      failed := CopyBody(w, pieces, contentLength);
    }
  }

  /** writeBody. The body's reader hands out the pieces and then fails or ends, and its Close may fail. When writeBody
      succeeds, exactly the text of the message is on the wire, cut at no length but the announced one; when
      it fails, the beginning of that text is. */
  method WriteBody(w: Wire, t: TransferWriter, readFails: bool, closeFails: bool, trailer: Bytes) returns (failed: bool)
    requires t.contentLength >= -1 && (t.isChunked ==> t.contentLength == -1)
    modifies w
    ensures old(w.text) <= w.text <= old(w.text) + t.Text(trailer)
    ensures !failed ==> w.text == old(w.text) + t.Text(trailer)
    ensures !old(w.broke) ==> (failed <==> w.broke || (readFails && t.body.Some?) || closeFails || t.Mismatch())
  {
    ghost var start := w.text;
    ghost var done := [];
    assert start + [] == start;
    if t.body.Some? {
      failed := CopyPieces(w, t.body.value, t.isChunked, t.contentLength, trailer);
      if failed || readFails {
        return true;
      }
      done := if t.isChunked then ChunksText(t.body.value) + LAST_CHUNK else t.Text(trailer);
    }
    if closeFails {
      return true;
    }
    if t.Mismatch() {
      return true;
    }
    failed := false;
    if t.isChunked {
      failed := WriteEnd(w, start, done, trailer);
      assert [] + trailer + CRLF == trailer + CRLF;
    }
  }

  /** The trailer and the CRLF behind it. */
  method WriteEnd(w: Wire, ghost start: Bytes, ghost done: Bytes, trailer: Bytes) returns (failed: bool)
    requires w.text == start + done
    modifies w
    ensures start <= w.text <= start + (done + trailer + CRLF)
    ensures !failed ==> w.text == start + (done + trailer + CRLF)
    ensures w.broke == (old(w.broke) || failed)
  {
    var n: nat;
    n, failed := w.Write(trailer);
    PartOfText(start, done, trailer, CRLF, n);
    if failed {
      return;
    }
    n, failed := w.Write("\r\n");
    PartOfText(start, done + trailer, CRLF, [], n);
    assert done + trailer + CRLF + [] == done + trailer + CRLF;
  }

  /** Reads a chunked body to its end, with buffers of any sizes. */
  method ReadAll(body: Body, ghost all: Bytes, ghost next: Bytes) returns (data: Bytes)
    requires body.Valid() && body.src != null && body.hdr && !body.sawEOF && !body.closed
    requires body.Left() == Yield(all, EOF, CRLF + next)
    modifies body, body.r, body.src
    ensures data == all && body.r.rest == next && body.sawEOF
  {
    data := [];
    var err := None;
    assert (CRLF + next)[..2] == CRLF && (CRLF + next)[2..] == next;
    while err == None
      invariant body.Valid() && !body.closed
      invariant err == None ==> !body.sawEOF && body.hdr && body.Left().end == EOF && body.Left().after == CRLF + next
      invariant err == None ==> data + body.Left().data == all
      invariant err.Some? ==> data == all && body.r.rest == next && body.sawEOF
      decreases err == None, if err == None then |body.Left().data| else 0
    {
      var length :| length > 0;
      var p := new Byte[length];
      ghost var left := body.Left().data;
      var n: nat;
      n, err := body.ReadLockedChunked(p);
      if err == None {
        Regroup(data, p[..n], body.Left().data);
      }
      data := data + p[..n];
    }
  }

  /** Whatever the pieces, the buffer sizes of the reader and its caller, and the schedule of the stream: unless writing
      failed, the reader of a chunked message gets exactly the bytes of its body, and the next message starts at the
      reader's next byte. */
  method Transfer(pieces: seq<Bytes>, next: Bytes, source: Source) returns (failed: bool, data: Bytes, rest: Bytes)
    requires source.size >= MIN_SIZE && AllFit(pieces, source)
    ensures !failed ==> data == Concat(pieces) && rest == next
  {
    var w := new Wire();
    failed := WriteBody(w, NewTransferWriter(Some(pieces), false, true, true, -1), false, false, []);
    data, rest := [], [];
    if failed {
      return;
    }
    assert w.text == ChunksText(pieces) + LAST_CHUNK + CRLF by {
      assert ChunksText(pieces) + LAST_CHUNK + [] == ChunksText(pieces) + LAST_CHUNK;
      assert [] + BodyText(pieces, true, -1, []) == BodyText(pieces, true, -1, []);
    }
    var r := new Reader(source, w.text + next);
    var body := new Body.Chunked(r);
    WireInParts(ChunksText(pieces), next);
    WrittenIsRead(pieces, CRLF + next, source);
    data := ReadAll(body, Concat(pieces), next);
    rest := r.rest;
  }

  /** Reads a body with a Content-Length to its end, with buffers of any sizes. */
  method ReadAllLimited(body: Body, ghost all: Bytes, ghost next: Bytes) returns (data: Bytes)
    requires body.Valid() && body.src == null && !body.sawEOF && !body.closed
    requires body.Left() == Yield(all, EOF, next)
    modifies body, body.r
    ensures data == all && body.r.rest == next && body.sawEOF
  {
    data := [];
    var err := None;
    assert [] + all == all;
    while err == None
      invariant body.Valid() && !body.closed
      invariant err == None ==> !body.sawEOF && body.Left().end == EOF && body.Left().after == next
      invariant err == None ==> data + body.Left().data == all
      invariant err.Some? ==> data == all && body.r.rest == next && body.sawEOF
      decreases err == None, if err == None then |body.Left().data| else 0
    {
      var length :| length > 0;
      var p := new Byte[length];
      ghost var left := body.Left().data;
      var n: nat;
      n, err := body.ReadLockedLimited(p);
      if err == None {
        Regroup(data, p[..n], body.Left().data);
      }
      data := data + p[..n];
    }
  }

  /** The same with a Content-Length: unless writing failed, which it does for every length but that of the body, the
      reader gets exactly the bytes of the body, and the next message starts at the reader's next byte. */
  method TransferLimited(pieces: seq<Bytes>, contentLength: nat, next: Bytes, source: Source)
    returns (failed: bool, data: Bytes, rest: Bytes)
    requires source.size >= MIN_SIZE
    ensures !failed ==> contentLength == |Concat(pieces)| && data == Concat(pieces) && rest == next
  {
    var w := new Wire();
    failed := WriteBody(w, NewTransferWriter(Some(pieces), false, true, false, contentLength), false, false, []);
    data, rest := [], [];
    if failed {
      return;
    }
    assert w.text == Concat(pieces) by {
      assert [] + Concat(pieces) == Concat(pieces);
    }
    var r := new Reader(source, w.text + next);
    var body := new Body.Limited(r, contentLength);
    assert r.rest[..contentLength] == Concat(pieces) && r.rest[contentLength..] == next;
    data := ReadAllLimited(body, Concat(pieces), next);
    rest := r.rest;
  }

  lemma WireInParts(chunks: Bytes, next: Bytes)
    ensures chunks + LAST_CHUNK + CRLF + next == chunks + (LAST_CHUNK + (CRLF + next))
  {
    Regroup(chunks + LAST_CHUNK, CRLF, next);
    Regroup(chunks, LAST_CHUNK, CRLF + next);
  }
}
