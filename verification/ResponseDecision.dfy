/** Which headers leave a doubt about the end of a reply, told from what the server has before it writes the head: the
    handler's headers, the status, the first piece of the body, and whether the handler is done. */
module ResponseDecision {
  import opened GoBytes
  import opened Options
  import opened HeaderFields
  import opened ResponseFraming

  /** What writeHeader of the chunkWriter decides on. */
  datatype Decision = Decision(header: HeaderMap, status: int, done: bool, piece: Bytes)
  {
    function Encoding(): (text: Bytes) {
      Get(header, ENCODING)
    }

    /** The handler is done, the piece is the whole body, and nothing in the headers speaks of its length. */
    predicate AddsLength(q: Request) {
      done && !HasTrailers(header) && Encoding() == [] && BodyAllowed(status) && !Has(header, LENGTH)
        && (!q.isHEAD || piece != [])
    }

    predicate KnowsLength(q: Request) {
      AddsLength(q) || LengthOf(header) != -1
    }

    predicate Chunks(q: Request) {
      HasBody(q, status) && q.proto == Http11 && Encoding() != "identity" && (!KnowsLength(q) || Overrides(Encoding()))
    }

    /** The header's own length stays in the head. */
    predicate KeepsLength(q: Request) {
      BodyAllowed(status) && !Chunks(q) && !(KnowsLength(q) && Overrides(Encoding()))
    }

    /** All lengths that will be in the head, in any spelling of the key. */
    function Lengths(q: Request): (list: seq<Bytes>) {
      Spellings(header, LENGTH, KeepsLength(q)) + if AddsLength(q) then [Itoa(|piece|)] else []
    }

    /** All encodings that will be in the head beside the server's own "chunked". */
    function OtherEncodings(q: Request): (list: seq<Bytes>) {
      Spellings(header, ENCODING, Chunks(q) && Encoding() != "chunked")
    }

    /** The lengths are one number in digits; and no other encoding stays, except that a reply without a body may name
        "chunked". */
    predicate Clear(q: Request) {
      && OneNumber(Lengths(q))
      && (q.proto == Http11 ==>
           || OtherEncodings(q) == []
           || (!HasBody(q, status) && |OtherEncodings(q)| == 1 && EqualFold(OtherEncodings(q)[0], "chunked")))
    }
  }

  function DecisionOn(s: Reply, p: Bytes): (r: Decision) {
    Decision(Deciding(s), s.status, s.handlerDone, p)
  }

  /** The head that is written leaves no doubt exactly when what it was decided on is clear. */
  lemma ClearExactly(q: Request, s: Reply, p: Bytes, mustClose: bool)
    requires NothingSent(s) && s.wroteHeader
    ensures Unambiguous(q, CwWriteHeader(q, s, p, mustClose)) <==> DecisionOn(s, p).Clear(q)
  {
    var d, t := DecisionOn(s, p), CwWriteHeader(q, s, p, mustClose);
    assert s.contentLength == LengthOf(d.header);
    assert d.AddsLength(q) <==> SetsLength(q, s, p);
    assert d.Chunks(q) <==> t.cw.chunking;
    assert d.KeepsLength(q) <==> !DropsLength(t);
  }

  /** What the head is decided on when this event makes the server write it. */
  function StepDecides(s: Reply, e: Event): (r: Option<Decision>) {
    if s.cw.wroteHeader || !Enabled(s, e) then None
    else match e
      case Spilled(k, _) => Some(DecisionOn(s, s.pending[..k]))
      case Flushed(_) => Some(DecisionOn(Begun(s), Begun(s).pending))
      case _ => None
  }

  /** What the head was decided on, if it is written already. */
  function Decided(q: Request, events: seq<Event>): (r: Option<Decision>) {
    if events == [] then None
    else
      var n := |events| - 1;
      var earlier := Decided(q, events[..n]);
      if earlier.Some? then earlier else StepDecides(Run(q, events[..n]), events[n])
  }

  /** What the head of the finished reply was decided on: at the latest, the end of the handler makes the server
      write it. */
  function FinallyDecided(q: Request, events: seq<Event>): (r: Decision) {
    var last := Begun(Run(q, events).(handlerDone := true));
    match Decided(q, events)
    case Some(d) => d
    case None => DecisionOn(last, last.pending)
  }

  lemma DoubtStays(q: Request, s: Reply, t: Reply)
    requires s.cw.wroteHeader && s.wroteHeader && FixedBy(s, t)
    ensures t.cw.wroteHeader && (Unambiguous(q, t) <==> Unambiguous(q, s))
  {
  }

  lemma SpillDecides(q: Request, s: Reply, k: nat, mustClose: bool)
    requires NothingSent(s) && s.wroteHeader && !s.cw.wroteHeader && k <= |s.pending|
    ensures var t := CwWrite(q, s, k, mustClose);
      t.cw.wroteHeader && (Unambiguous(q, t) <==> DecisionOn(s, s.pending[..k]).Clear(q))
  {
    var t := CwWriteHeader(q, s, s.pending[..k], mustClose);
    ClearExactly(q, s, s.pending[..k], mustClose);
    assert FixedBy(t, SendPiece(q, t, k));
    DoubtStays(q, t, SendPiece(q, t, k));
  }

  lemma FlushDecides(q: Request, s: Reply, mustClose: bool)
    requires q.Valid() && Inv(q, s) && !s.cw.wroteHeader
    ensures var t := Flush(q, s, mustClose);
      t.cw.wroteHeader && (Unambiguous(q, t) <==> DecisionOn(Begun(s), Begun(s).pending).Clear(q))
  {
    var b := Begun(s);
    BegunKeeps(q, s);
    if b.pending != [] {
      SpillDecides(q, b, |b.pending|, mustClose);
      assert b.pending[..|b.pending|] == b.pending;
    } else {
      ClearExactly(q, b, [], mustClose);
    }
  }

  lemma StepDecidesClear(q: Request, s: Reply, e: Event)
    requires q.Valid() && Inv(q, s) && !s.cw.wroteHeader
    ensures match StepDecides(s, e)
      case Some(d) => Step(q, s, e).cw.wroteHeader && (Unambiguous(q, Step(q, s, e)) <==> d.Clear(q))
      case None => !Step(q, s, e).cw.wroteHeader
  {
    if Enabled(s, e) {
      match e
      case Spilled(k, mustClose) => SpillDecides(q, s, k, mustClose);
      case Flushed(mustClose) => FlushDecides(q, s, mustClose);
      case _ =>
    }
  }

  lemma {:induction false} RunDecides(q: Request, events: seq<Event>)
    requires q.Valid()
    ensures match Decided(q, events)
      case Some(d) => Run(q, events).cw.wroteHeader && (Unambiguous(q, Run(q, events)) <==> d.Clear(q))
      case None => !Run(q, events).cw.wroteHeader
    decreases |events|
  {
    if events != [] {
      var n := |events| - 1;
      var s := Run(q, events[..n]);
      RunDecides(q, events[..n]);
      RunKeeps(q, events[..n]);
      if s.cw.wroteHeader {
        FixedOnce(q, s, events[n]);
        DoubtStays(q, s, Run(q, events));
      } else {
        StepDecidesClear(q, s, events[n]);
      }
    }
  }

  lemma LastFlushDecides(q: Request, events: seq<Event>, mustClose: bool)
    requires q.Valid()
    ensures var t := Flush(q, Run(q, events).(handlerDone := true), mustClose);
      t.cw.wroteHeader && t.wroteHeader && (Unambiguous(q, t) <==> FinallyDecided(q, events).Clear(q))
  {
    var done := Run(q, events).(handlerDone := true);
    RunKeeps(q, events);
    RunDecides(q, events);
    DoneKeeps(q, Run(q, events));
    FlushKeeps(q, done, mustClose);
    if done.cw.wroteHeader {
      FlushFixes(q, done, mustClose);
      DoubtStays(q, Run(q, events), done);
      DoubtStays(q, done, Flush(q, done, mustClose));
    } else {
      FlushDecides(q, done, mustClose);
    }
  }

  lemma FinishDecides(q: Request, events: seq<Event>, trailers: Bytes, mustClose: bool)
    requires q.Valid()
    ensures Unambiguous(q, Finish(q, Run(q, events), trailers, mustClose)) <==> FinallyDecided(q, events).Clear(q)
  {
    var t := Flush(q, Run(q, events).(handlerDone := true), mustClose);
    LastFlushDecides(q, events, mustClose);
    DoubtStays(q, t, Ended(t, trailers));
  }

  /** For every order of header changes, writes and flushes: a reply after which the connection is
      reused delimits itself exactly when the headers, at the moment the server decided on the head, were clear. */
  lemma DelimitedExactlyWhenClear(q: Request, events: seq<Event>, trailers: Bytes, mustClose: bool, failed: bool)
    requires q.Valid()
    ensures var s := Finish(q, Run(q, events), trailers, mustClose);
      ShouldReuse(q, s, failed) ==> (SelfDelimiting(q, s, trailers) <==> FinallyDecided(q, events).Clear(q))
  {
    ReusedOnlyWhenDelimited(q, events, trailers, mustClose, failed);
    FinishDecides(q, events, trailers, mustClose);
  }
}
