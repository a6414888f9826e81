/** How a server delimits its replies (http/server.go): the response and its chunkWriter as a value, for any order of
    header changes, writes and flushes by the handler. */
module ResponseFraming {
  import opened GoBytes
  import opened Options
  import opened Bufio
  import opened Chunked
  import opened HeaderFields

  /** Protocol version of the request. */
  datatype Proto = Http09 | Http10 | Http11

  datatype Request = Request(isHEAD: bool, proto: Proto, wants10KeepAlive: bool, wantsClose: bool, keepAlives: bool)
  {
    predicate Valid() {
      wants10KeepAlive ==> proto == Http10
    }
  }

  datatype WriteError = BodyNotAllowed | TooLong

  predicate BodyAllowed(status: int) {
    !(100 <= status <= 199 || status == 204 || status == 304)
  }

  /** chunkWriter. `header` is the snapshot of the headers. The last three are never read: the header on which
      the head was decided, whether the server added a length of its own, and the pieces that were written. */
  datatype ChunkWriter = ChunkWriter(
    header: Option<HeaderMap>, wroteHeader: bool, chunking: bool, sent: seq<Field>, wire: Bytes,
    announced: HeaderMap, lengthSet: bool, pieces: seq<Bytes>)

  /** response. `pending` is the buffer w.w in front of the chunkWriter; `accepted`, all the bytes that
      Write accepted, is never read. */
  datatype Reply = Reply(
    handlerHeader: HeaderMap, calledHeader: bool, wroteHeader: bool, status: int, contentLength: int, written: nat,
    closeAfterReply: bool, handlerDone: bool, pending: Bytes, accepted: Bytes, cw: ChunkWriter)

  const IDLE := ChunkWriter(None, false, false, [], [], [], false, [])

  const FRESH := Reply([], false, false, 0, -1, 0, false, false, [], [], IDLE)

  // ---- what handlers do ----

  /** Header */
  function CallHeader(s: Reply): (t: Reply) {
    s.(cw := if s.cw.header == None && s.wroteHeader && !s.cw.wroteHeader then s.cw.(header := Some(s.handlerHeader))
             else s.cw,
       calledHeader := true)
  }

  /** requestTooLarge */
  function TooLarge(s: Reply): (t: Reply) {
    if s.wroteHeader then s.(closeAfterReply := true)
    else
      var t := CallHeader(s);
      t.(closeAfterReply := true, handlerHeader := Put(t.handlerHeader, "Connection", "close"))
  }

  /** WriteHeader; informational codes leave the reply itself alone. */
  function WriteHeader(s: Reply, code: int): (t: Reply) {
    if s.wroteHeader || (100 <= code <= 199 && code != 101) then s
    else
      s.(wroteHeader := true, status := code,
         cw := if s.calledHeader && s.cw.header == None then s.cw.(header := Some(s.handlerHeader)) else s.cw,
         contentLength := if LengthOf(s.handlerHeader) >= 0 then LengthOf(s.handlerHeader) else s.contentLength,
         handlerHeader := if Get(s.handlerHeader, LENGTH) != [] && LengthOf(s.handlerHeader) < 0
                          then Del(s.handlerHeader, LENGTH) else s.handlerHeader)
  }

  /** What write, FlushError and finishRequest begin with. */
  function Begun(s: Reply): (t: Reply) {
    if s.wroteHeader then s else WriteHeader(s, 200)
  }

  /** write behind its implicit WriteHeader */
  function Accept(s: Reply, data: Bytes): (r: (Reply, Option<WriteError>)) {
    if data == [] then (s, None)
    else if !BodyAllowed(s.status) then (s, Some(BodyNotAllowed))
    else
      var written := s.written + |data|;
      if s.contentLength != -1 && written > s.contentLength then (s.(written := written), Some(TooLong))
      else (s.(written := written, pending := s.pending + data, accepted := s.accepted + data), None)
  }

  /** write */
  function Write(s: Reply, data: Bytes): (r: (Reply, Option<WriteError>)) {
    Accept(Begun(s), data)
  }

  // ---- the chunkWriter ----

  predicate HasTrailers(h: HeaderMap) {
    exists i :: 0 <= i < |h| && ("Trailer:" <= h[i].key || (h[i].key == "Trailer" && h[i].values != []))
  }

  /** The header that writeHeader decides on. */
  function Deciding(s: Reply): (header: HeaderMap) {
    if s.cw.header.Some? then s.cw.header.value else s.handlerHeader
  }

  /** A handler that is done without having set a length gets one, when p is the whole body. */
  predicate SetsLength(q: Request, s: Reply, p: Bytes) {
    && s.handlerDone && !(s.cw.header.Some? && HasTrailers(s.cw.header.value)) && Get(Deciding(s), ENCODING) == []
    && BodyAllowed(s.status) && !Has(Deciding(s), LENGTH) && (!q.isHEAD || |p| > 0)
  }

  /** A Transfer-Encoding that overrides the length. */
  predicate Overrides(te: Bytes) {
    te != [] && te != "identity"
  }

  predicate HasBody(q: Request, status: int) {
    !q.isHEAD && BodyAllowed(status)
  }

  /** Whether to close the connection after this reply, as far as it does not depend on the framing. */
  predicate ClosesAnyway(q: Request, s: Reply, contentLength: int, mustClose: bool) {
    var header := Deciding(s);
    var kept := q.wants10KeepAlive && q.keepAlives && Get(header, LENGTH) != []
      && Get(header, "Connection") == "keep-alive";
    var offers := q.wants10KeepAlive && (q.isHEAD || contentLength != -1 || !BodyAllowed(s.status));
    || (s.closeAfterReply && !kept)
    || (!offers && (q.proto != Http11 || q.wantsClose))
    || Get(header, "Connection") == "close" || !q.keepAlives || mustClose
  }

  /** The header without what must not be sent beside the framing chosen. */
  function Trimmed(q: Request, header: HeaderMap, status: int, contentLength: int, chunking: bool)
    : (h: HeaderMap)
  {
    var te := Get(header, ENCODING);
    var h1 := if !BodyAllowed(status) then Del(Del(header, LENGTH), ENCODING) else header;
    var h2 := if contentLength != -1 && Overrides(te) then Del(h1, LENGTH) else h1;
    var h3 := if !chunking || te == "chunked" then Del(h2, ENCODING) else h2;
    if chunking then Del(h3, LENGTH) else h3
  }

  /** writeHeader with p as the first piece of the body. mustClose says that the request's body makes the server close
      the connection: an unread rest too large to skip, an error, or an expectation that was never met. */
  function CwWriteHeader(q: Request, s: Reply, p: Bytes, mustClose: bool): (t: Reply) {
    var header := Deciding(s);
    var te := Get(header, ENCODING);
    var lengthSet := SetsLength(q, s, p);
    var contentLength := if lengthSet then |p| else s.contentLength;
    var hasCL := contentLength != -1 && !Overrides(te);
    var unknown := HasBody(q, s.status) && !hasCL;
    var chunking := unknown && q.proto == Http11 && te != "identity";
    var fields := if s.cw.header.Some? then Written(Trimmed(q, header, s.status, contentLength, chunking)) else [];
    s.(contentLength := contentLength,
       closeAfterReply := ClosesAnyway(q, s, contentLength, mustClose) || (unknown && !chunking),
       cw := ChunkWriter(
         if s.cw.header.Some? then Some(Trimmed(q, header, s.status, contentLength, chunking)) else None,
         true, chunking,
         if q.proto == Http09 then [] else
           fields + (if lengthSet then [Field(LENGTH, Itoa(|p|))] else [])
             + (if chunking then [Field(ENCODING, "chunked")] else []),
         s.cw.wire, header, lengthSet, s.cw.pieces))
  }

  /** chunkWriter.Write on the first k pending bytes. */
  function CwWrite(q: Request, s: Reply, k: nat, mustClose: bool): (t: Reply)
    requires k <= |s.pending|
  {
    SendPiece(q, if s.cw.wroteHeader then s else CwWriteHeader(q, s, s.pending[..k], mustClose), k)
  }

  function SendPiece(q: Request, s: Reply, k: nat): (t: Reply)
    requires k <= |s.pending|
  {
    var p := s.pending[..k];
    s.(pending := s.pending[k..], cw := s.cw.(pieces := s.cw.pieces + [p],
       wire := if q.isHEAD then s.cw.wire else s.cw.wire + if s.cw.chunking then HexText(|p|) + CRLF + p + CRLF else p))
  }

  /** The Flush of w.w. */
  function Emptied(q: Request, s: Reply, mustClose: bool): (t: Reply) {
    if s.pending != [] then CwWrite(q, s, |s.pending|, mustClose) else s
  }

  /** FlushError */
  function Flush(q: Request, s: Reply, mustClose: bool): (t: Reply) {
    var t := Emptied(q, Begun(s), mustClose);
    if t.cw.wroteHeader then t else CwWriteHeader(q, t, [], mustClose)
  }

  /** chunkWriter.close behind the head: the end of the chunks, with the text of the trailers. */
  function Ended(s: Reply, trailers: Bytes): (t: Reply) {
    if s.cw.chunking then s.(cw := s.cw.(wire := s.cw.wire + LAST_CHUNK + trailers + CRLF)) else s
  }

  /** finishRequest */
  function Finish(q: Request, s: Reply, trailers: Bytes, mustClose: bool): (t: Reply) {
    Ended(Flush(q, s.(handlerDone := true), mustClose), trailers)
  }

  /** shouldReuseConnection; failed says that writing to the connection failed or the request's body was
      closed early. */
  predicate ShouldReuse(q: Request, s: Reply, failed: bool) {
    !s.closeAfterReply && !(HasBody(q, s.status) && s.contentLength != -1 && s.contentLength != s.written) && !failed
  }

  // ---- runs ----

  datatype Event =
    | HeaderCalled
    | HeaderChanged(h: HeaderMap)                    // a change to the map that Header returned
    | RequestTooLarge
    | HeaderWritten(code: int)
    | DataWritten(data: Bytes)
    | Spilled(k: nat, mustClose: bool)            // the buffer passes bytes on, when it is full or a write is large
    | Flushed(mustClose: bool)

  /** A handler gets its map from Header; the codes are those that checkWriteHeaderCode lets through; written is
      an int64. */
  predicate Enabled(s: Reply, e: Event) {
    match e
    case HeaderChanged(h) => s.calledHeader && IsMap(h)
    case HeaderWritten(code) => 100 <= code <= 999
    case DataWritten(data) => s.written + |data| < INT64_LIMIT
    case Spilled(k, _) => 0 < k <= |s.pending|
    case _ => true
  }

  function Step(q: Request, s: Reply, e: Event): (t: Reply) {
    if !Enabled(s, e) then s
    else match e
      case HeaderCalled => CallHeader(s)
      case HeaderChanged(h) => s.(handlerHeader := h)
      case RequestTooLarge => TooLarge(s)
      case HeaderWritten(code) => WriteHeader(s, code)
      case DataWritten(data) => Write(s, data).0
      case Spilled(k, mustClose) => CwWrite(q, s, k, mustClose)
      case Flushed(mustClose) => Flush(q, s, mustClose)
  }

  function Run(q: Request, events: seq<Event>): (t: Reply) {
    if events == [] then FRESH
    else Step(q, Run(q, events[..|events| - 1]), events[|events| - 1])
  }

  // ---- what holds along a run ----

  /** Before the head is on the wire. */
  predicate NothingSent(s: Reply) {
    && s.cw.wire == [] && s.cw.pieces == [] && !s.cw.chunking
    && (!s.wroteHeader ==> s.contentLength == -1 && s.written == 0 && s.pending == [] && s.cw.header == None)
    && (!s.calledHeader ==> s.handlerHeader == [])
    && (s.cw.header == None ==> s.contentLength == -1 && (s.wroteHeader ==> !s.calledHeader))
    && (s.cw.header.Some? ==> s.contentLength == LengthOf(s.cw.header.value))
  }

  /** The Content-Length that the head announces is not the header's own. */
  predicate DropsLength(s: Reply) {
    s.cw.chunking || !BodyAllowed(s.status) || (s.contentLength != -1 && Overrides(Get(s.cw.announced, ENCODING)))
  }

  /** The lengths that a client finds in the head. */
  function SentLengths(s: Reply): (list: seq<Bytes>) {
    Spellings(s.cw.announced, LENGTH, !DropsLength(s))
      + if s.cw.lengthSet && s.contentLength >= 0 then [Itoa(s.contentLength)] else []
  }

  /** The encodings that a client finds in the head. */
  function SentEncodings(s: Reply): (list: seq<Bytes>) {
    if s.cw.chunking then Spellings(s.cw.announced, ENCODING, Get(s.cw.announced, ENCODING) != "chunked") + ["chunked"]
    else Spellings(s.cw.announced, ENCODING, false)
  }

  /** What the head on the wire says, and that it fits the form decided on, or that the connection will be closed. */
  predicate HeadSent(q: Request, s: Reply) {
    && s.cw.wroteHeader && s.wroteHeader
    && (s.cw.chunking ==> HasBody(q, s.status) && q.proto == Http11 && Get(s.cw.announced, ENCODING) != "identity")
    && (q.proto == Http09 ==> s.closeAfterReply)
    && (q.proto != Http09 ==>
      Named(s.cw.sent, LENGTH) == SentLengths(s) && Named(s.cw.sent, ENCODING) == SentEncodings(s))
    && (s.cw.lengthSet ==> 0 <= s.contentLength < INT64_LIMIT && !Has(s.cw.announced, LENGTH))
    && (!s.cw.lengthSet ==> s.contentLength == LengthOf(s.cw.announced))
    && (!s.cw.chunking && HasBody(q, s.status) && !s.closeAfterReply ==>
      s.contentLength >= 0 && !Overrides(Get(s.cw.announced, ENCODING)))
  }

  predicate BodySent(q: Request, s: Reply) {
    s.cw.wire == if q.isHEAD then [] else if s.cw.chunking then ChunksText(s.cw.pieces) else Concat(s.cw.pieces)
  }

  predicate Inv(q: Request, s: Reply) {
    && s.contentLength >= -1 && s.written < INT64_LIMIT
    && (if s.cw.wroteHeader then HeadSent(q, s) && BodySent(q, s) else NothingSent(s))
    && Concat(s.cw.pieces) + s.pending == s.accepted
    && (s.wroteHeader && !BodyAllowed(s.status) ==> s.accepted == [])
    && |s.accepted| <= s.written
    && (s.contentLength == -1 || s.written <= s.contentLength ==> |s.accepted| == s.written)
  }

  lemma TrimmedLengths(q: Request, header: HeaderMap, status: int, contentLength: int, chunking: bool)
    ensures Spellings(Trimmed(q, header, status, contentLength, chunking), LENGTH, true) == Spellings(header, LENGTH,
      !(chunking || !BodyAllowed(status) || (contentLength != -1 && Overrides(Get(header, ENCODING)))))
  {
    var te := Get(header, ENCODING);
    var h0 := Del(header, LENGTH);
    var h1 := if !BodyAllowed(status) then Del(h0, ENCODING) else header;
    var h2 := if contentLength != -1 && Overrides(te) then Del(h1, LENGTH) else h1;
    var h3 := if !chunking || te == "chunked" then Del(h2, ENCODING) else h2;
    forall own
      ensures Spellings(h0, LENGTH, own) == Spellings(header, LENGTH, false) { DeletedSpellings(header, LENGTH, own); }
    DeletedOther(h0, LENGTH, ENCODING, true);
    DeletedOther(h0, LENGTH, ENCODING, false);
    DeletedSpellings(h1, LENGTH, true);
    DeletedSpellings(h1, LENGTH, false);
    DeletedOther(h2, LENGTH, ENCODING, true);
    DeletedOther(h2, LENGTH, ENCODING, false);
    DeletedSpellings(h3, LENGTH, true);
  }

  lemma TrimmedEncodings(q: Request, header: HeaderMap, status: int, contentLength: int, chunking: bool)
    requires chunking ==> BodyAllowed(status)
    ensures Spellings(Trimmed(q, header, status, contentLength, chunking), ENCODING, true)
      == Spellings(header, ENCODING, chunking && Get(header, ENCODING) != "chunked")
  {
    var te := Get(header, ENCODING);
    var h1 := if !BodyAllowed(status) then Del(Del(header, LENGTH), ENCODING) else header;
    var h2 := if contentLength != -1 && Overrides(te) then Del(h1, LENGTH) else h1;
    var h3 := if !chunking || te == "chunked" then Del(h2, ENCODING) else h2;
    forall own ensures !BodyAllowed(status) ==> Spellings(h1, ENCODING, own) == Spellings(header, ENCODING, false) {
      DeletedSpellings(Del(header, LENGTH), ENCODING, own);
      DeletedOther(header, ENCODING, LENGTH, false);
    }
    DeletedOther(h1, ENCODING, LENGTH, true);
    DeletedOther(h1, ENCODING, LENGTH, false);
    DeletedSpellings(h2, ENCODING, true);
    DeletedOther(h3, ENCODING, LENGTH, true);
  }

  /** What a client finds in the head is what the header and the decisions make of it. */
  lemma HeadIsNamed(q: Request, s: Reply, p: Bytes, mustClose: bool)
    requires q.proto != Http09 && NothingSent(s) && s.wroteHeader
    ensures var t := CwWriteHeader(q, s, p, mustClose);
      Named(t.cw.sent, LENGTH) == SentLengths(t) && Named(t.cw.sent, ENCODING) == SentEncodings(t)
  {
    var t := CwWriteHeader(q, s, p, mustClose);
    var header := t.cw.announced;
    var left := Trimmed(q, header, s.status, t.contentLength, t.cw.chunking);
    var fields := if s.cw.header.Some? then Written(left) else [];
    var own := if t.cw.lengthSet then [Field(LENGTH, Itoa(|p|))] else [];
    var chunked := if t.cw.chunking then [Field(ENCODING, "chunked")] else [];
    if s.cw.header.Some? {
      WrittenIsNamed(left, LENGTH);
      WrittenIsNamed(left, ENCODING);
      TrimmedLengths(q, header, s.status, t.contentLength, t.cw.chunking);
      TrimmedEncodings(q, header, s.status, t.contentLength, t.cw.chunking);
    }
    NamedConcat(fields + own, chunked, LENGTH);
    NamedConcat(fields, own, LENGTH);
    NamedConcat(fields + own, chunked, ENCODING);
    NamedConcat(fields, own, ENCODING);
    OwnFields(t.cw.lengthSet, Itoa(|p|), t.cw.chunking);
  }

  lemma OwnFields(lengthSet: bool, n: Bytes, chunking: bool)
    ensures var own := if lengthSet then [Field(LENGTH, n)] else [];
      var chunked := if chunking then [Field(ENCODING, "chunked")] else [];
      && Named(own, LENGTH) == (if lengthSet then [n] else []) && Named(own, ENCODING) == []
      && Named(chunked, ENCODING) == (if chunking then ["chunked"] else []) && Named(chunked, LENGTH) == []
  {
    assert EqualFold(LENGTH, LENGTH) && EqualFold(ENCODING, ENCODING);
    assert !EqualFold(LENGTH, ENCODING) && !EqualFold(ENCODING, LENGTH);
  }

  lemma CwWriteHeaderKeeps(q: Request, s: Reply, p: Bytes, mustClose: bool)
    requires q.Valid() && Inv(q, s) && !s.cw.wroteHeader && s.wroteHeader && (s.handlerDone ==> p == s.pending)
    ensures Inv(q, CwWriteHeader(q, s, p, mustClose))
  {
    if q.proto != Http09 { HeadIsNamed(q, s, p, mustClose); }
    if SetsLength(q, s, p) { NotThere(Deciding(s), LENGTH); }
    assert Concat([]) == [] && ChunksText([]) == [];
    assert s.pending == [] + s.pending == s.accepted;
  }

  lemma SendPieceKeeps(q: Request, s: Reply, k: nat)
    requires Inv(q, s) && s.cw.wroteHeader && k <= |s.pending| && 0 < k
    ensures Inv(q, SendPiece(q, s, k))
  {
    var p := s.pending[..k];
    assert s.pending == p + s.pending[k..];
    ChunksSnoc(s.cw.pieces, p);
    Regroup(Concat(s.cw.pieces), p, s.pending[k..]);
  }

  lemma CwWriteKeeps(q: Request, s: Reply, k: nat, mustClose: bool)
    requires q.Valid() && Inv(q, s) && s.wroteHeader && 0 < k <= |s.pending| && (s.handlerDone ==> k == |s.pending|)
    ensures Inv(q, CwWrite(q, s, k, mustClose)) && CwWrite(q, s, k, mustClose).cw.wroteHeader
  {
    assert k == |s.pending| ==> s.pending[..k] == s.pending;
    if s.cw.wroteHeader {
      SendPieceKeeps(q, s, k);
    } else {
      CwWriteHeaderKeeps(q, s, s.pending[..k], mustClose);
      SendPieceKeeps(q, CwWriteHeader(q, s, s.pending[..k], mustClose), k);
    }
  }

  lemma BegunKeeps(q: Request, s: Reply)
    requires Inv(q, s)
    ensures Inv(q, Begun(s)) && Begun(s).wroteHeader && Begun(s).handlerDone == s.handlerDone
    ensures Begun(s).accepted == s.accepted
  {
    WriteHeaderKeeps(q, s, 200);
  }

  lemma WriteHeaderKeeps(q: Request, s: Reply, code: int)
    requires Inv(q, s) && 100 <= code <= 999
    ensures Inv(q, WriteHeader(s, code))
  {
    assert Concat([]) == [];
  }

  lemma AcceptKeeps(q: Request, s: Reply, data: Bytes)
    requires Inv(q, s) && s.wroteHeader && s.written + |data| < INT64_LIMIT
    ensures Inv(q, Accept(s, data).0) && Accept(s, data).0.handlerDone == s.handlerDone
  {
    var written := s.written + |data|;
    if s.contentLength != -1 && written > s.contentLength {
    } else {
      Regroup(Concat(s.cw.pieces), s.pending, data);
    }
  }

  lemma WriteKeeps(q: Request, s: Reply, data: Bytes)
    requires Inv(q, s) && s.written + |data| < INT64_LIMIT
    ensures Inv(q, Write(s, data).0) && Write(s, data).0.handlerDone == s.handlerDone
  {
    BegunKeeps(q, s);
    WrittenStays(s);
    AcceptKeeps(q, Begun(s), data);
  }

  lemma WrittenStays(s: Reply)
    ensures Begun(s).written == s.written
  {
  }

  lemma EmptiedKeeps(q: Request, s: Reply, mustClose: bool)
    requires q.Valid() && Inv(q, s) && s.wroteHeader
    ensures var t := Emptied(q, s, mustClose);
      Inv(q, t) && t.wroteHeader && t.pending == [] && t.handlerDone == s.handlerDone && t.accepted == s.accepted
  {
    if s.pending != [] {
      CwWriteKeeps(q, s, |s.pending|, mustClose);
      assert s.pending[|s.pending|..] == [];
    }
  }

  lemma FlushKeeps(q: Request, s: Reply, mustClose: bool)
    requires q.Valid() && Inv(q, s)
    ensures var t := Flush(q, s, mustClose);
      Inv(q, t) && t.cw.wroteHeader && t.pending == [] && t.handlerDone == s.handlerDone && t.accepted == s.accepted
  {
    BegunKeeps(q, s);
    EmptiedKeeps(q, Begun(s), mustClose);
    var t := Emptied(q, Begun(s), mustClose);
    if !t.cw.wroteHeader { CwWriteHeaderKeeps(q, t, [], mustClose); }
  }

  lemma HeaderKeeps(q: Request, s: Reply, e: Event)
    requires Inv(q, s) && Enabled(s, e) && (e.HeaderCalled? || e.HeaderChanged? || e.RequestTooLarge?)
    ensures Inv(q, Step(q, s, e)) && Step(q, s, e).handlerDone == s.handlerDone
  {
  }

  lemma StepKeeps(q: Request, s: Reply, e: Event)
    requires q.Valid() && Inv(q, s) && !s.handlerDone
    ensures Inv(q, Step(q, s, e)) && !Step(q, s, e).handlerDone
  {
    if Enabled(s, e) {
      match e
      case HeaderWritten(code) => WriteHeaderKeeps(q, s, code);
      case DataWritten(data) => WriteKeeps(q, s, data);
      case Spilled(k, mustClose) => SpillBegins(q, s); CwWriteKeeps(q, s, k, mustClose);
      case Flushed(mustClose) => FlushKeeps(q, s, mustClose);
      case _ => HeaderKeeps(q, s, e);
    }
  }

  lemma SpillBegins(q: Request, s: Reply)
    requires Inv(q, s) && s.pending != []
    ensures s.wroteHeader
  {
  }

  lemma {:induction false} RunKeeps(q: Request, events: seq<Event>)
    requires q.Valid()
    ensures Inv(q, Run(q, events)) && !Run(q, events).handlerDone
    decreases |events|
  {
    if events != [] {
      RunKeeps(q, events[..|events| - 1]);
      StepKeeps(q, Run(q, events[..|events| - 1]), events[|events| - 1]);
    }
  }

  /** What the first WriteHeader fixed, and what the head on the wire announced, no later event changes. */
  predicate FixedBy(s: Reply, t: Reply) {
    && (s.wroteHeader ==> t.wroteHeader && t.status == s.status)
    && (s.wroteHeader && s.cw.header.Some? ==> t.cw.header.Some?)
    && (s.wroteHeader && s.cw.header.Some? && !t.cw.wroteHeader ==>
      t.cw.header == s.cw.header && t.contentLength == s.contentLength)
    && (s.cw.wroteHeader ==> t.cw.wroteHeader && t.cw.header == s.cw.header && t.contentLength == s.contentLength)
    && (s.cw.wroteHeader ==> t.cw.sent == s.cw.sent && t.cw.chunking == s.cw.chunking)
    && (s.cw.wroteHeader ==> t.cw.announced == s.cw.announced && t.cw.lengthSet == s.cw.lengthSet)
  }

  lemma FlushFixes(q: Request, s: Reply, mustClose: bool)
    requires s.cw.wroteHeader ==> s.wroteHeader
    ensures FixedBy(s, Flush(q, s, mustClose))
  {
    var t := Emptied(q, Begun(s), mustClose);
    assert FixedBy(s, Begun(s));
  }

  lemma FixedOnce(q: Request, s: Reply, e: Event)
    requires q.Valid() && Inv(q, s)
    ensures FixedBy(s, Step(q, s, e))
  {
    if Enabled(s, e) && e.Flushed? { FlushFixes(q, s, e.mustClose); }
  }

  // ---- after the request ----

  /** What is known of a finished reply. */
  predicate Finished(q: Request, s: Reply, trailers: Bytes) {
    && HeadSent(q, s) && Concat(s.cw.pieces) == s.accepted
    && s.cw.wire == (if q.isHEAD then []
      else if s.cw.chunking then ChunksText(s.cw.pieces) + LAST_CHUNK + trailers + CRLF else s.accepted)
    && (BodyAllowed(s.status) || s.accepted == [])
    && (s.contentLength == -1 || s.written <= s.contentLength ==> |s.accepted| == s.written)
  }

  /** Everything that was accepted is on the wire, and chunks are ended. */
  lemma FinishSendsAll(q: Request, s: Reply, trailers: Bytes, mustClose: bool)
    requires q.Valid() && Inv(q, s)
    ensures Finished(q, Finish(q, s, trailers, mustClose), trailers)
    ensures Finish(q, s, trailers, mustClose).accepted == s.accepted
  {
    var done := s.(handlerDone := true);
    DoneKeeps(q, s);
    FlushKeeps(q, done, mustClose);
    EndedIsFinished(q, Flush(q, done, mustClose), trailers);
  }

  lemma EndedIsFinished(q: Request, s: Reply, trailers: Bytes)
    requires Inv(q, s) && s.cw.wroteHeader && s.pending == []
    ensures Finished(q, Ended(s, trailers), trailers) && Ended(s, trailers).accepted == s.accepted
  {
    assert Concat(s.cw.pieces) + [] == Concat(s.cw.pieces);
  }

  lemma DoneKeeps(q: Request, s: Reply)
    requires Inv(q, s)
    ensures Inv(q, s.(handlerDone := true))
  {
  }

  /** How the repository's own client reads the head. */
  function ClientFraming(q: Request, s: Reply): (r: Framing) {
    ReadFraming(s.cw.sent, q.proto == Http11, !HasBody(q, s.status))
  }

  /** The client can tell from the head where the body ends, and it is there, whole. */
  predicate SelfDelimiting(q: Request, s: Reply, trailers: Bytes) {
    match ClientFraming(q, s)
    case NoBody => s.cw.wire == []
    case Chunks => s.cw.wire == ChunksText(s.cw.pieces) + LAST_CHUNK + trailers + CRLF
      && Concat(s.cw.pieces) == s.accepted
    case Length(n) => |s.cw.wire| == n && s.cw.wire == s.accepted
    case UntilClose => false
    case Refused => false
  }

  /** All these texts are one and the same number without a sign. */
  predicate OneNumber(lengths: seq<Bytes>) {
    AllSame(lengths) && (lengths == [] || ParseUint(lengths[0]).Some?)
  }

  /** The framing headers that the handler set leave no doubt: all lengths that stay beside the server's own,
      in any spelling of the key, are one number in digits, and no encoding stays but the server's own "chunked". */
  predicate Unambiguous(q: Request, s: Reply) {
    var te := Get(s.cw.announced, ENCODING);
    && OneNumber(SentLengths(s))
    && (q.proto == Http11 ==>
         var others := Spellings(s.cw.announced, ENCODING, s.cw.chunking && te != "chunked");
         others == [] || (!HasBody(q, s.status) && |others| == 1 && EqualFold(others[0], "chunked")))
  }

  lemma {:induction false} ChunksAreLonger(pieces: seq<Bytes>)
    ensures |ChunksText(pieces)| >= |Concat(pieces)|
  {
    if pieces != [] {
      ChunksAreLonger(pieces[1..]);
    }
  }

  /** A reply with a length: every length in the head is the one the body has, if they agree at all. */
  lemma LengthIsAnnounced(q: Request, s: Reply)
    requires HeadSent(q, s) && !s.cw.chunking && HasBody(q, s.status) && !s.closeAfterReply
    ensures SentLengths(s) != []
    ensures OneNumber(SentLengths(s)) ==> ParseUint(SentLengths(s)[0]) == Some(s.contentLength)
  {
    var lengths := SentLengths(s);
    if s.cw.lengthSet {
      ItoaIsRead(s.contentLength);
      assert lengths[|lengths| - 1] == Itoa(s.contentLength);
    } else {
      var own := Get(s.cw.announced, LENGTH);
      NumberIsClean(own);
      OwnIsSpelled(s.cw.announced, LENGTH);
      assert own in lengths;
      var i :| 0 <= i < |lengths| && lengths[i] == own;
    }
  }

  /** A head with the server's own "chunked" behind other encodings. */
  lemma ReadChunked(fields: seq<Field>, others: seq<Bytes>)
    requires Named(fields, ENCODING) == others + ["chunked"]
    ensures ReadFraming(fields, true, false)
      == if others == [] && OneNumber(Named(fields, LENGTH)) then Chunks else Refused
  {
    var encodings := Named(fields, ENCODING);
    assert |encodings| == |others| + 1;
    if others == [] {
      assert encodings[0] == "chunked";
      assert EqualFold("chunked", "chunked");
    }
  }

  lemma ChunksDelimit(q: Request, s: Reply, trailers: Bytes)
    requires Finished(q, s, trailers) && s.cw.chunking
    ensures SelfDelimiting(q, s, trailers) <==> Unambiguous(q, s)
  {
    ReadChunked(s.cw.sent, Spellings(s.cw.announced, ENCODING, Get(s.cw.announced, ENCODING) != "chunked"));
  }

  lemma LengthDelimits(q: Request, s: Reply, trailers: Bytes, failed: bool)
    requires Finished(q, s, trailers) && ShouldReuse(q, s, failed) && !s.cw.chunking && HasBody(q, s.status)
    ensures SelfDelimiting(q, s, trailers) <==> Unambiguous(q, s)
  {
    ChunksAreLonger(s.cw.pieces);
    LengthIsAnnounced(q, s);
    assert q.proto != Http09;
  }

  lemma NothingToDelimit(q: Request, s: Reply, trailers: Bytes, failed: bool)
    requires Finished(q, s, trailers) && ShouldReuse(q, s, failed) && !HasBody(q, s.status)
    ensures SelfDelimiting(q, s, trailers) <==> Unambiguous(q, s)
  {
    assert q.proto != Http09 && !s.cw.chunking;
  }

  /** A connection is reused after a reply that the client can delimit, exactly when the headers the handler
      set leave no doubt about it. */
  lemma SelfDelimitingExactly(q: Request, s: Reply, trailers: Bytes, failed: bool)
    requires Finished(q, s, trailers) && ShouldReuse(q, s, failed)
    ensures SelfDelimiting(q, s, trailers) <==> Unambiguous(q, s)
  {
    if !HasBody(q, s.status) {
      NothingToDelimit(q, s, trailers, failed);
    } else if s.cw.chunking {
      ChunksDelimit(q, s, trailers);
    } else {
      LengthDelimits(q, s, trailers, failed);
    }
  }

  /** For every order of header changes, writes and flushes: a reply after which the connection is
      reused delimits itself exactly when the headers that the handler set leave no doubt about its end. */
  lemma ReusedOnlyWhenDelimited(q: Request, events: seq<Event>, trailers: Bytes, mustClose: bool, failed: bool)
    requires q.Valid()
    ensures var s := Finish(q, Run(q, events), trailers, mustClose);
      ShouldReuse(q, s, failed) ==> (SelfDelimiting(q, s, trailers) <==> Unambiguous(q, s))
  {
    RunKeeps(q, events);
    FinishSendsAll(q, Run(q, events), trailers, mustClose);
    var s := Finish(q, Run(q, events), trailers, mustClose);
    if ShouldReuse(q, s, failed) { SelfDelimitingExactly(q, s, trailers, failed); }
  }

  /** Headers as the documentation has them: one spelling of each key, at most one length, in digits, and
      no encoding but "chunked" or "identity". */
  predicate Simple(h: HeaderMap) {
    && Spellings(h, LENGTH, false) == [] && Spellings(h, ENCODING, false) == []
    && |Spellings(h, LENGTH, true)| <= 1 && OneNumber(Spellings(h, LENGTH, true))
    && (Spellings(h, ENCODING, true) == [] || Get(h, ENCODING) == "chunked" || Get(h, ENCODING) == "identity")
  }

  lemma SimpleLengths(h: HeaderMap, own: bool, n: Option<nat>)
    requires Simple(h) && (n.Some? ==> n.value < INT64_LIMIT && !Has(h, LENGTH))
    ensures OneNumber(Spellings(h, LENGTH, own) + if n.Some? then [Itoa(n.value)] else [])
  {
    if n.Some? {
      ItoaIsRead(n.value);
      NoneOfItsOwn(h, LENGTH);
    }
  }

  /** Such headers leave no doubt, whatever the handler writes. */
  lemma SimpleIsUnambiguous(q: Request, s: Reply)
    requires HeadSent(q, s) && Simple(s.cw.announced)
    ensures Unambiguous(q, s)
  {
    SimpleLengths(s.cw.announced, !DropsLength(s), if s.cw.lengthSet then Some(s.contentLength) else None);
  }

  lemma DelStaysSimple(h: HeaderMap)
    requires Simple(h)
    ensures Simple(Del(h, LENGTH))
  {
    assert LENGTH[0] != ENCODING[0];
    DeletedSpellings(h, LENGTH, false);
    DeletedSpellings(h, LENGTH, true);
    DeletedOther(h, ENCODING, LENGTH, false);
    DeletedOther(h, ENCODING, LENGTH, true);
    ValuesOther(h, ENCODING, LENGTH);
  }

  lemma PutStaysSimple(h: HeaderMap)
    requires Simple(h)
    ensures Simple(Put(h, "Connection", "close"))
  {
    var key: Bytes := "Connection";
    var less := Del(h, key);
    var e := Entry(key, ["close"]);
    assert |key| == 10 && |LENGTH| == 14 && |ENCODING| == 17;
    forall name, own | name == LENGTH || name == ENCODING
      ensures Spellings(less + [e], name, own) == Spellings(h, name, own) && Values(less + [e], name) == Values(h, name)
    {
      DeletedOther(h, name, key, own);
      ValuesOther(h, name, key);
      AppendedOther(less, e, name, own);
    }
  }

  /** All headers of the reply are simple, before and after the head was decided. */
  predicate AllSimple(s: Reply) {
    && Simple(s.handlerHeader)
    && (if s.cw.wroteHeader then Simple(s.cw.announced) else s.cw.header.Some? ==> Simple(s.cw.header.value))
  }

  lemma WriteHeaderStaysSimple(s: Reply, code: int)
    requires AllSimple(s)
    ensures AllSimple(WriteHeader(s, code))
  {
    DelStaysSimple(s.handlerHeader);
  }

  lemma WriteStaysSimple(s: Reply, data: Bytes)
    requires AllSimple(s)
    ensures AllSimple(Write(s, data).0)
  {
    WriteHeaderStaysSimple(s, 200);
    AcceptKeepsHeaders(Begun(s), data);
  }

  lemma AcceptKeepsHeaders(s: Reply, data: Bytes)
    ensures Accept(s, data).0.handlerHeader == s.handlerHeader && Accept(s, data).0.cw == s.cw
  {
  }

  lemma CwWriteStaysSimple(q: Request, s: Reply, k: nat, mustClose: bool)
    requires AllSimple(s) && k <= |s.pending|
    ensures AllSimple(CwWrite(q, s, k, mustClose))
  {
  }

  lemma FlushStaysSimple(q: Request, s: Reply, mustClose: bool)
    requires AllSimple(s)
    ensures AllSimple(Flush(q, s, mustClose))
  {
    WriteHeaderStaysSimple(s, 200);
    var t := Begun(s);
    if t.pending != [] { CwWriteStaysSimple(q, t, |t.pending|, mustClose); }
  }

  lemma HeaderStaysSimple(s: Reply)
    requires AllSimple(s)
    ensures AllSimple(CallHeader(s)) && AllSimple(TooLarge(s))
  {
    PutStaysSimple(s.handlerHeader);
  }

  lemma StepStaysSimple(q: Request, s: Reply, e: Event)
    requires AllSimple(s) && (e.HeaderChanged? ==> Simple(e.h))
    ensures AllSimple(Step(q, s, e))
  {
    if Enabled(s, e) {
      match e
      case HeaderCalled => HeaderStaysSimple(s);
      case RequestTooLarge => HeaderStaysSimple(s);
      case HeaderWritten(code) => WriteHeaderStaysSimple(s, code);
      case DataWritten(data) => WriteStaysSimple(s, data);
      case Spilled(k, mustClose) => CwWriteStaysSimple(q, s, k, mustClose);
      case Flushed(mustClose) => FlushStaysSimple(q, s, mustClose);
      case HeaderChanged(_) =>
    }
  }

  lemma {:induction false} RunStaysSimple(q: Request, events: seq<Event>)
    requires forall i :: 0 <= i < |events| && events[i].HeaderChanged? ==> Simple(events[i].h)
    ensures AllSimple(Run(q, events))
    decreases |events|
  {
    if events != [] {
      RunStaysSimple(q, events[..|events| - 1]);
      StepStaysSimple(q, Run(q, events[..|events| - 1]), events[|events| - 1]);
    }
  }

  /** A handler that only ever sets simple headers, whatever else it does: a connection is reused only after
      a reply that the client can delimit. */
  lemma SimpleHeadersDelimit(q: Request, events: seq<Event>, trailers: Bytes, mustClose: bool, failed: bool)
    requires q.Valid() && forall i :: 0 <= i < |events| && events[i].HeaderChanged? ==> Simple(events[i].h)
    ensures var s := Finish(q, Run(q, events), trailers, mustClose);
      ShouldReuse(q, s, failed) ==> SelfDelimiting(q, s, trailers)
  {
    var s := Run(q, events);
    RunKeeps(q, events);
    RunStaysSimple(q, events);
    FinishSendsAll(q, s, trailers, mustClose);
    FlushStaysSimple(q, s.(handlerDone := true), mustClose);
    var t := Finish(q, s, trailers, mustClose);
    SimpleIsUnambiguous(q, t);
    if ShouldReuse(q, t, failed) { SelfDelimitingExactly(q, t, trailers, failed); }
  }

  /** A client's chunked reader gets exactly what the handler wrote, and stops at the trailers. */
  lemma ChunkedReplyIsRead(q: Request, s: Reply, trailers: Bytes, next: Bytes, source: Source)
    requires Finished(q, s, trailers) && s.cw.chunking
    requires source.size >= MIN_SIZE && AllFit(s.cw.pieces, source)
    ensures Meaning(START, s.cw.wire + next, source) == Yield(s.accepted, EOF, trailers + CRLF + next)
  {
    WrittenIsRead(s.cw.pieces, trailers + CRLF + next, source);
    WireInFour(ChunksText(s.cw.pieces), trailers, next);
  }

  lemma WireInFour(chunks: Bytes, trailers: Bytes, next: Bytes)
    ensures chunks + LAST_CHUNK + trailers + CRLF + next == chunks + (LAST_CHUNK + (trailers + CRLF + next))
  {
    Regroup(chunks + LAST_CHUNK, trailers, CRLF);
    Regroup(chunks + LAST_CHUNK, trailers + CRLF, next);
    Regroup(chunks, LAST_CHUNK, trailers + CRLF + next);
  }

  // ---- headers that leave a doubt ----

  const PLAIN := Request(false, Http11, false, false, true)

  /** A handler that sets a header and writes five bytes. */
  function HelloWith(h: HeaderMap): (list: seq<Event>) {
    [HeaderCalled, HeaderChanged(h), DataWritten("hello")]
  }

  function After(h: HeaderMap): (t: Reply) {
    Finish(PLAIN, Run(PLAIN, HelloWith(h)), [], false)
  }

  /** Headers whose first length is five or missing, with no Connection, no trailers and no "identity". */
  predicate Greets(h: HeaderMap) {
    && IsMap(h) && LengthOf(h) in {-1, 5} && (Get(h, LENGTH) != [] ==> LengthOf(h) == 5)
    && Get(h, "Connection") == [] && Get(h, ENCODING) != "identity" && !HasTrailers(h)
  }

  lemma HelloIsPending(h: HeaderMap)
    requires IsMap(h) && LengthOf(h) in {-1, 5} && (Get(h, LENGTH) != [] ==> LengthOf(h) == 5)
    ensures Run(PLAIN, HelloWith(h))
      == FRESH.(handlerHeader := h, calledHeader := true, wroteHeader := true, status := 200,
      contentLength := LengthOf(h), written := 5, pending := "hello", accepted := "hello",
        cw := IDLE.(header := Some(h)))
  {
    var events := HelloWith(h);
    assert events[..2] == [HeaderCalled, HeaderChanged(h)] && events[..2][..1] == [HeaderCalled];
    assert Run(PLAIN, []) == FRESH && [HeaderCalled][..0] == [];
    var s1 := FRESH.(calledHeader := true);
    assert Run(PLAIN, [HeaderCalled]) == s1;
    var s2 := s1.(handlerHeader := h);
    assert Run(PLAIN, events[..2]) == s2;
    assert s2.pending + "hello" == "hello" && s2.accepted + "hello" == "hello";
  }

  /** What the reply to such a handler is like. */
  lemma HelloIsReused(h: HeaderMap)
    requires Greets(h)
    ensures var s := After(h);
      && Finished(PLAIN, s, []) && ShouldReuse(PLAIN, s, false) && s.cw.announced == h && HasBody(PLAIN, s.status)
      && (s.cw.chunking <==> Get(h, ENCODING) != [] || (LengthOf(h) == -1 && Has(h, LENGTH)))
      && (s.cw.lengthSet <==> Get(h, ENCODING) == [] && !Has(h, LENGTH))
      && (s.cw.lengthSet || LengthOf(h) == 5 ==> s.contentLength == 5)
  {
    var s := Run(PLAIN, HelloWith(h));
    HelloIsPending(h);
    RunKeeps(PLAIN, HelloWith(h));
    FinishSendsAll(PLAIN, s, [], false);
    var done := s.(handlerDone := true);
    assert done.pending[..5] == "hello";
    var t := CwWriteHeader(PLAIN, done, "hello", false);
    assert CwWrite(PLAIN, done, 5, false) == SendPiece(PLAIN, t, 5);
    assert !t.closeAfterReply;
  }

  /** A header that leaves a doubt, and still the connection is reused. */
  predicate Misleads(h: HeaderMap) {
    ShouldReuse(PLAIN, After(h), false) && !SelfDelimiting(PLAIN, After(h), [])
  }

  lemma SingleEntry(key: Bytes, values: seq<Bytes>)
    requires values != []
    ensures var h := [Entry(key, values)];
      && IsMap(h) && Values(h, key) == values && Get(h, key) == values[0]
        && (forall k :: k != key ==> Values(h, k) == [] && !Has(h, k))
      && Has(h, key)
      && (forall name, own :: EqualFold(key, name) && (own || key != name) ==>
        Spellings(h, name, own) == CleanAll(values))
  {
    var h := [Entry(key, values)];
    assert h[1..] == [] && h[0].key == key;
    forall name, own | EqualFold(key, name) && (own || key != name)
      ensures Spellings(h, name, own) == CleanAll(values)
    {
      assert Spellings([], name, own) == [];
      assert CleanAll(values) + [] == CleanAll(values);
    }
  }

  lemma LengthsMislead(h: HeaderMap)
    requires Greets(h) && Get(h, ENCODING) == [] && (Has(h, LENGTH) ==> LengthOf(h) == 5)
    requires !OneNumber(Spellings(h, LENGTH, true) + if Has(h, LENGTH) then [] else [Itoa(5)])
    ensures Misleads(h)
  {
    HelloIsReused(h);
    SelfDelimitingExactly(PLAIN, After(h), [], false);
  }

  lemma EncodingMisleads(h: HeaderMap)
    requires Greets(h) && Get(h, ENCODING) !in ["", "chunked"]
    ensures Misleads(h)
  {
    HelloIsReused(h);
    OwnIsSpelled(h, ENCODING);
    SelfDelimitingExactly(PLAIN, After(h), [], false);
  }

  lemma DigitIsNumber(v: Bytes)
    requires |v| == 1 && '0' <= v[0] <= '9'
    ensures ParseInt(v) == Some(v[0] as int - '0' as int) && Clean(v) == v
  {
    assert v[0] != '+' && v[0] != '-' && Digits(v);
    assert Decimal(v[..|v| - 1]) == 0;
    assert Decimal(v) == v[0] as int - '0' as int;
    NumberIsClean(v);
  }

  lemma SignedFive()
    ensures var v: Bytes := "+5"; ParseInt(v) == Some(5) && Clean(v) == v && !Digits(v)
  {
    var v: Bytes, five: Bytes := "+5", "5";
    assert v[1..] == five && v[0] == '+';
    DigitIsNumber(five);
    NumberIsClean(v);
  }

  lemma NoTrailersIn(key: Bytes, values: seq<Bytes>)
    requires |key| > 3 && key[3] != 'i'
    ensures !HasTrailers([Entry(key, values)])
  {
    var prefix: Bytes, trailer: Bytes := "Trailer:", "Trailer";
    assert prefix[3] == 'i' && trailer[3] == 'i';
  }

  lemma SingleGreets(key: Bytes, values: seq<Bytes>)
    requires values != [] && |key| > 3 && key[3] != 'i' && key != "Connection"
    requires (key == LENGTH ==> ParseInt(values[0]) == Some(5)) && (key == ENCODING ==> values[0] != "identity")
    ensures var h := [Entry(key, values)];
      && Greets(h) && (Has(h, LENGTH) <==> key == LENGTH) && (key == LENGTH ==> LengthOf(h) == 5)
      && Get(h, ENCODING) == if key == ENCODING then values[0] else []
  {
    SingleEntry(key, values);
    NoTrailersIn(key, values);
    assert ENCODING[0] != LENGTH[0];
  }

  /** A length in a spelling of the key, and what else the client finds. */
  lemma SpelledMisleads(key: Bytes, values: seq<Bytes>)
    requires values != [] && |key| > 3 && key[3] != 'i' && key != "Connection" && key != ENCODING
      && EqualFold(key, LENGTH)
    requires key == LENGTH ==> ParseInt(values[0]) == Some(5)
    requires !OneNumber(CleanAll(values) + if key == LENGTH then [] else [Itoa(5)])
    ensures Misleads([Entry(key, values)])
  {
    SingleGreets(key, values);
    SingleEntry(key, values);
    LengthsMislead([Entry(key, values)]);
  }

  lemma KeysDiffer()
    ensures LENGTH != ENCODING && LENGTH != "Connection" && ENCODING != "Connection"
    ensures |LENGTH| > 3 && LENGTH[3] != 'i' && |ENCODING| > 3 && ENCODING[3] != 'i' && EqualFold(LENGTH, LENGTH)
  {
    var connection: Bytes := "Connection";
    assert LENGTH[3] == 't' && ENCODING[3] == 'n' && connection[3] == 'n' && connection[0] == 'C' && ENCODING[0] == 'T';
  }

  lemma TwoDiffer(vs: seq<Bytes>)
    requires |vs| == 2 && vs[0] == "5" && vs[1] == "7"
    ensures !OneNumber(vs + [])
  {
    assert vs + [] == vs;
    assert vs[0][0] != vs[1][0];
  }

  /** get reads the first value only, and writeSubset writes all of them. */
  lemma TwoLengthsMislead()
    ensures Misleads([Entry(LENGTH, ["5", "7"])])
  {
    var values: seq<Bytes> := ["5", "7"];
    KeysDiffer();
    DigitIsNumber("5");
    DigitIsNumber("7");
    TwoDiffer(CleanAll(values));
    SpelledMisleads(LENGTH, values);
  }

  /** ParseInt takes a sign, and the value is written as it is. */
  lemma SignedLengthMisleads()
    ensures Misleads([Entry(LENGTH, ["+5"])])
  {
    var values: seq<Bytes> := ["+5"];
    KeysDiffer();
    SignedFive();
    assert CleanAll(values)[0] == "+5";
    SpelledMisleads(LENGTH, values);
  }

  lemma LowerKeyDiffers()
    ensures var key: Bytes := "content-length";
      |key| > 3 && key[3] != 'i' && key != LENGTH && key != ENCODING && key != "Connection" && EqualFold(key, LENGTH)
  {
    var key: Bytes, connection: Bytes := "content-length", "Connection";
    assert key[0] == 'c' && LENGTH[0] == 'C' && ENCODING[0] == 'T' && connection[0] == 'C' && key[3] == 't';
  }

  /** get, has and Del see one spelling of a key, and a client sees all. */
  lemma OtherSpellingMisleads()
    ensures Misleads([Entry("content-length", ["7"])])
  {
    var values: seq<Bytes> := ["7"];
    LowerKeyDiffers();
    DigitIsNumber("7");
    SevenIsNotFive(CleanAll(values));
    SpelledMisleads("content-length", values);
  }

  lemma SevenIsNotFive(vs: seq<Bytes>)
    requires |vs| == 1 && vs[0] == "7"
    ensures !OneNumber(vs + [Itoa(5)])
  {
    var lengths := vs + [Itoa(5)];
    assert lengths[0] == "7" && lengths[1] == ['5'];
    assert lengths[0][0] != lengths[1][0];
  }

  /** Only "chunked" itself is taken for the server's own encoding. */
  lemma OtherChunkedMisleads()
    ensures Misleads([Entry(ENCODING, ["Chunked"])])
  {
    var values: seq<Bytes>, te: Bytes := ["Chunked"], "Chunked";
    KeysDiffer();
    assert te[0] == 'C';
    SingleGreets(ENCODING, values);
    EncodingMisleads([Entry(ENCODING, values)]);
  }
}
