/** connReader (http/server.go): a connection's reader that may have a one-byte read pending in the
    background. The steps are its lock-protected sections and the socket reads between them, in every interleaving. */
module ConnReader {
  import opened GoBytes
  import opened Options

  /** The error of a passed deadline, or any other. */
  datatype SocketError = TimedOut | Broken

  /** What a socket read brings: any number of bytes, with or without an error. */
  datatype Result = Result(bytes: Bytes, error: Option<SocketError>)

  /** A goroutine inside a socket read: not there, waiting in the read, or back from it before it takes the
      lock again. */
  datatype Call = NoCall | InSocket(limit: nat) | Returned(result: Result)

  datatype Reader = Reader(
    hasByte: Option<Byte>, inRead: bool, aborted: bool, remain: int,
    /** The read deadline of the socket is in the past. */
    deadlinePassed: bool,
    /** backgroundRead, and Read past its first section. */
    background: Call, foreground: Call,
    /** Goroutines waiting in abortPendingRead. */
    waiters: nat,
    /** Bytes the socket gave, and bytes the callers of Read got. */
    taken: Bytes, delivered: Bytes,
    /** The panic for a second read at the same time. */
    panicked: bool)

  function Start(remain: nat): (t: Reader) {
    Reader(None, false, false, remain, false, NoCall, NoCall, 0, [], [], false)
  }

  datatype Step =
    | StartBackgroundRead
    | SocketReturns(background: bool, result: Result)
    | BackgroundReadEnds
    | AbortPendingRead
    | AbortReturns
    | ReadBegins(length: nat)
    | ReadEnds
    | SetReadLimit(remain: nat)

  function CallOf(s: Reader, background: bool): (r: Call) {
    if background then s.background else s.foreground
  }

  predicate Enabled(s: Reader, step: Step) {
    match step
    case SocketReturns(b, result) =>
      && CallOf(s, b).InSocket?
      && |result.bytes| <= CallOf(s, b).limit
      && (result.error == Some(TimedOut) ==> s.deadlinePassed)
    case BackgroundReadEnds => s.background.Returned?
    case ReadEnds => s.foreground.Returned?
    case AbortReturns => s.waiters > 0 && !s.inRead
    case _ => true
  }

  function BytesOf(call: Call): (text: Bytes) {
    match call
    case Returned(result) => result.bytes
    case _ => []
  }

  function Next(s: Reader, step: Step): (t: Reader) {
    match step
    case StartBackgroundRead =>
      if s.inRead then s.(panicked := true)
      else if s.hasByte.Some? then s
      else s.(inRead := true, deadlinePassed := false, background := InSocket(1))
    case SocketReturns(b, result) =>
      var t := s.(taken := s.taken + result.bytes);
      if b then t.(background := Returned(result)) else t.(foreground := Returned(result))
    case BackgroundReadEnds =>
      var b := BytesOf(s.background);
      s.(hasByte := if |b| == 1 then Some(b[0]) else s.hasByte, aborted := false, inRead := false, background := NoCall)
    case AbortPendingRead =>
      if !s.inRead then s else s.(aborted := true, deadlinePassed := true, waiters := s.waiters + 1)
    case AbortReturns =>
      if s.waiters > 0 then s.(deadlinePassed := false, waiters := s.waiters - 1) else s
    case ReadBegins(length) =>
      if s.inRead then s.(panicked := true)
      else if s.remain <= 0 || length == 0 then s
      else if s.hasByte.Some? then s.(delivered := s.delivered + [s.hasByte.value], hasByte := None)
      else s.(inRead := true, foreground := InSocket(if length > s.remain then s.remain else length))
    case ReadEnds =>
      var b := BytesOf(s.foreground);
      s.(inRead := false, foreground := NoCall, remain := s.remain - |b|, delivered := s.delivered + b)
    case SetReadLimit(remain) => s.(remain := remain)
  }

  function Run(remain: nat, steps: seq<Step>): (t: Reader) {
    if steps == [] then Start(remain)
    else
      var s, step := Run(remain, steps[..|steps| - 1]), steps[|steps| - 1];
      if Enabled(s, step) then Next(s, step) else s
  }

  function Held(s: Reader): (text: Bytes) {
    match s.hasByte
    case None => []
    case Some(b) => [b]
  }

  /** Calls in progress and the flag agree, and every byte the socket gave is delivered, held, or on its way,
      in order. */
  predicate Inv(s: Reader) {
    && (s.inRead <==> s.background != NoCall || s.foreground != NoCall)
    && (s.background == NoCall || s.foreground == NoCall)
    && (s.background.InSocket? ==> s.background.limit == 1)
    && |BytesOf(s.background)| <= 1
    && (s.inRead ==> s.hasByte == None)
    && s.taken == s.delivered + Held(s) + BytesOf(s.background) + BytesOf(s.foreground)
  }

  lemma NothingAdded(a: Bytes)
    ensures a + [] == a && a + [] + [] == a && a + [] + [] + [] == a
  {
  }

  lemma SocketKeeps(s: Reader, b: bool, result: Result)
    requires Inv(s) && Enabled(s, SocketReturns(b, result))
    ensures Inv(Next(s, SocketReturns(b, result)))
  {
    NothingAdded(s.delivered);
    NothingAdded(s.delivered + result.bytes);
  }

  lemma StepKeeps(s: Reader, step: Step)
    requires Inv(s) && Enabled(s, step)
    ensures Inv(Next(s, step))
  {
    NothingAdded(s.delivered);
    match step
    case SocketReturns(b, result) => SocketKeeps(s, b, result);
    case BackgroundReadEnds =>
      var b := BytesOf(s.background);
      assert |b| == 1 ==> b == [b[0]];
      NothingAdded(s.delivered + b);
    case ReadBegins(_) =>
      NothingAdded(s.delivered + Held(s));
    case ReadEnds =>
      NothingAdded(s.delivered + BytesOf(s.foreground));
    case _ =>
  }

  lemma {:induction false} RunKeeps(remain: nat, steps: seq<Step>)
    ensures Inv(Run(remain, steps))
    decreases |steps|
  {
    if steps != [] {
      RunKeeps(remain, steps[..|steps| - 1]);
      var s, step := Run(remain, steps[..|steps| - 1]), steps[|steps| - 1];
      if Enabled(s, step) { StepKeeps(s, step); }
    }
  }

  /** At most one goroutine is reading from the socket at any time. */
  lemma OneSocketRead(remain: nat, steps: seq<Step>)
    ensures var s := Run(remain, steps); !(s.background.InSocket? && s.foreground.InSocket?)
  {
    RunKeeps(remain, steps);
  }

  /** Between reads, the bytes delivered and the held byte, if there is one, are exactly the bytes taken
      from the socket, in order: none is lost, repeated or reordered. */
  lemma NothingLost(remain: nat, steps: seq<Step>)
    ensures var s := Run(remain, steps);
      && s.delivered <= s.taken
      && (!s.inRead ==> s.taken == s.delivered + Held(s))
      && |s.taken| <= |s.delivered| + 1 + |BytesOf(s.foreground)|
  {
    RunKeeps(remain, steps);
    var s := Run(remain, steps);
    NothingAdded(s.delivered + Held(s));
    var more := Held(s) + BytesOf(s.background) + BytesOf(s.foreground);
    Regroup(s.delivered, Held(s), BytesOf(s.background));
    Regroup(s.delivered, Held(s) + BytesOf(s.background), BytesOf(s.foreground));
    assert s.taken == s.delivered + more;
  }

  /** When abortPendingRead returns, no socket read is in progress. */
  lemma AbortEndsReads(remain: nat, steps: seq<Step>)
    requires Enabled(Run(remain, steps), AbortReturns)
    ensures var s := Run(remain, steps);
      !s.background.InSocket? && !s.foreground.InSocket? && !Next(s, AbortReturns).inRead
  {
    RunKeeps(remain, steps);
  }

  // ---- the read limit ----

  /** No new limit is set. */
  predicate LimitStands(steps: seq<Step>) {
    forall i :: 0 <= i < |steps| ==> !steps[i].SetReadLimit?
  }

  /** The server starts background reads only while there is no limit (lines 910 and 1884-1886). */
  predicate NoBackgroundStart(steps: seq<Step>) {
    forall i :: 0 <= i < |steps| ==> !steps[i].StartBackgroundRead?
  }

  lemma RunOneMore(remain: nat, steps: seq<Step>, step: Step)
    ensures var s := Run(remain, steps); Run(remain, steps + [step]) == if Enabled(s, step) then Next(s, step) else s
  {
    assert (steps + [step])[..|steps|] == steps;
  }

  /** The bytes that background reads brought in the last steps of a run. */
  function FromBackground(remain: nat, before: seq<Step>, after: seq<Step>): (n: nat)
    decreases |after|
  {
    if after == [] then 0
    else
      var earlier, step := after[..|after| - 1], after[|after| - 1];
      FromBackground(remain, before, earlier) +
        if step.SocketReturns? && step.background && Enabled(Run(remain, before + earlier), step)
          then |step.result.bytes| else 0
  }

  /** What a background read has brought and no caller has got. */
  function Waiting(s: Reader): (n: nat) {
    |Held(s)| + |BytesOf(s.background)|
  }

  /** Every step but a new limit keeps this sum, except for what a background read brings. */
  function Balance(s: Reader): (n: int) {
    |s.delivered| + s.remain + Waiting(s)
  }

  lemma BalanceStep(s: Reader, step: Step)
    requires Inv(s) && Enabled(s, step) && !step.SetReadLimit?
    ensures Balance(Next(s, step))
      == Balance(s) + if step.SocketReturns? && step.background then |step.result.bytes| else 0
  {
  }

  /** While a limit stands, the bytes delivered are those it was charged for and those that came from the background:
      the latter are free of charge. */
  lemma {:induction false} LimitBalance(remain: nat, before: seq<Step>, after: seq<Step>)
    requires LimitStands(after)
    ensures var s, t := Run(remain, before), Run(remain, before + after);
      |t.delivered| - |s.delivered|
        == (s.remain - t.remain) + Waiting(s) + FromBackground(remain, before, after) - Waiting(t)
    decreases |after|
  {
    if after == [] {
      assert before + after == before;
    } else {
      var n := |after| - 1;
      var m := Run(remain, before + after[..n]);
      LimitBalance(remain, before, after[..n]);
      assert before + after == before + after[..n] + [after[n]];
      RunOneMore(remain, before + after[..n], after[n]);
      RunKeeps(remain, before + after[..n]);
      if Enabled(m, after[n]) { BalanceStep(m, after[n]); }
      assert Balance(Run(remain, before)) + FromBackground(remain, before, after)
        == Balance(Run(remain, before + after));
    }
  }

  /** A background read holds a byte already, or may still bring one. */
  predicate ByteMayCome(s: Reader) {
    s.hasByte.Some? || s.background.InSocket? || BytesOf(s.background) != []
  }

  /** The most that a Read already past its first section may deliver. */
  function InFlight(s: Reader): (n: nat) {
    match s.foreground
    case NoCall => 0
    case InSocket(limit) => limit
    case Returned(result) => |result.bytes|
  }

  /** What keeps a limit: nothing comes from the background, and what may still be read is within what remains. */
  predicate WithinLimit(s: Reader) {
    !ByteMayCome(s) && InFlight(s) <= s.remain
  }

  lemma WithinLimitStays(s: Reader, step: Step)
    requires Inv(s) && WithinLimit(s) && Enabled(s, step) && !step.SetReadLimit? && !step.StartBackgroundRead?
    ensures var t := Next(s, step); WithinLimit(t) && |t.delivered| + t.remain == |s.delivered| + s.remain
  {
  }

  /** Once nothing can come from the background, the bytes delivered and the rest of the limit add up. */
  lemma {:induction false} KeptFromThere(remain: nat, before: seq<Step>, after: seq<Step>)
    requires LimitStands(after) && NoBackgroundStart(after) && WithinLimit(Run(remain, before))
    ensures var s, t := Run(remain, before), Run(remain, before + after);
      WithinLimit(t) && |t.delivered| - |s.delivered| + t.remain == s.remain
    decreases |after|
  {
    if after == [] {
      assert before + after == before;
    } else {
      var n := |after| - 1;
      KeptFromThere(remain, before, after[..n]);
      assert before + after == before + after[..n] + [after[n]];
      assert !after[n].SetReadLimit? && !after[n].StartBackgroundRead?;
      RunOneMore(remain, before + after[..n], after[n]);
      RunKeeps(remain, before + after[..n]);
      var m := Run(remain, before + after[..n]);
      if Enabled(m, after[n]) { WithinLimitStays(m, after[n]); }
    }
  }

  lemma ZeroStays(s: Reader, step: Step)
    requires s.remain <= 0 && InFlight(s) == 0 && Enabled(s, step) && !step.SetReadLimit?
    ensures var t := Next(s, step); t.delivered == s.delivered && t.remain <= 0 && InFlight(t) == 0
  {
    NothingAdded(s.delivered);
  }

  /** Under a limit of zero nothing is delivered. */
  lemma {:induction false} NothingUnderZero(remain: nat, before: seq<Step>, after: seq<Step>)
    requires LimitStands(after) && Run(remain, before).remain <= 0 && InFlight(Run(remain, before)) == 0
    ensures var s, t := Run(remain, before), Run(remain, before + after);
      t.delivered == s.delivered && t.remain <= 0 && InFlight(t) == 0
    decreases |after|
  {
    if after == [] {
      assert before + after == before;
    } else {
      var n := |after| - 1;
      NothingUnderZero(remain, before, after[..n]);
      assert before + after == before + after[..n] + [after[n]];
      assert !after[n].SetReadLimit?;
      RunOneMore(remain, before + after[..n], after[n]);
      var m := Run(remain, before + after[..n]);
      if Enabled(m, after[n]) { ZeroStays(m, after[n]); }
    }
  }

  function Fill(n: nat): (b: Bytes)
    ensures |b| == n
  {
    seq(n, _ => 'x')
  }

  /** The steps after which a Read delivers n more bytes from the socket. */
  function ReadSteps(n: nat): (list: seq<Step>) {
    [ReadBegins(n), SocketReturns(false, Result(Fill(n), None)), ReadEnds]
  }

  lemma RunThree(remain: nat, before: seq<Step>, a: Step, b: Step, c: Step)
    ensures var s := Run(remain, before);
      var s1 := if Enabled(s, a) then Next(s, a) else s;
      var s2 := if Enabled(s1, b) then Next(s1, b) else s1;
      Run(remain, before + [a, b, c]) == if Enabled(s2, c) then Next(s2, c) else s2
  {
    RunOneMore(remain, before, a);
    RunOneMore(remain, before + [a], b);
    RunOneMore(remain, before + [a] + [b], c);
    assert before + [a] + [b] + [c] == before + [a, b, c];
  }

  lemma ReadDelivers(remain: nat, before: seq<Step>, n: nat)
    requires var s := Run(remain, before); !s.inRead && s.hasByte == None && 0 < n <= s.remain
    ensures |Run(remain, before + ReadSteps(n)).delivered| == |Run(remain, before).delivered| + n
  {
    RunThree(remain, before, ReadBegins(n), SocketReturns(false, Result(Fill(n), None)), ReadEnds);
  }

  /** The steps that bring the byte of the background read to where Read finds it. */
  function ByteArrives(s: Reader): (list: seq<Step>) {
    if s.hasByte.Some? then []
    else (if s.background.InSocket? then [SocketReturns(true, Result("x", None))] else []) + [BackgroundReadEnds]
  }

  lemma ByteIsHeld(remain: nat, before: seq<Step>)
    requires var s := Run(remain, before); ByteMayCome(s)
    ensures var s := Run(remain, before); var t := Run(remain, before + ByteArrives(s));
      t.hasByte.Some? && !t.inRead && t.remain == s.remain && t.delivered == s.delivered
  {
    RunKeeps(remain, before);
    var s := Run(remain, before);
    if s.hasByte.Some? {
      assert before + ByteArrives(s) == before;
    } else if s.background.InSocket? {
      RunOneMore(remain, before, SocketReturns(true, Result("x", None)));
      RunOneMore(remain, before + [SocketReturns(true, Result("x", None))], BackgroundReadEnds);
      assert before + [SocketReturns(true, Result("x", None))] + [BackgroundReadEnds] == before + ByteArrives(s);
    } else {
      RunOneMore(remain, before, BackgroundReadEnds);
      assert before + ByteArrives(s) == before + [BackgroundReadEnds];
    }
  }

  /** The bytes delivered while the last limit stood. */
  function DeliveredUnder(remain: nat, before: seq<Step>, limit: nat, after: seq<Step>): (n: int) {
    |Run(remain, before + [SetReadLimit(limit)] + after).delivered| - |Run(remain, before).delivered|
  }

  /** A held byte goes out, and then as many bytes as the limit allows. */
  lemma ByteAboveLimit(remain: nat, before: seq<Step>, limit: nat) returns (after: seq<Step>)
    requires limit > 0 && ByteMayCome(Run(remain, before))
    ensures LimitStands(after) && NoBackgroundStart(after) && DeliveredUnder(remain, before, limit, after) == limit + 1
  {
    var limited := before + [SetReadLimit(limit)];
    RunOneMore(remain, before, SetReadLimit(limit));
    var arrives := ByteArrives(Run(remain, limited));
    ByteIsHeld(remain, limited);
    HeldByteIsRead(remain, limited + arrives);
    ReadDelivers(remain, limited + arrives + [ReadBegins(1)], limit);
    after := arrives + ([ReadBegins(1)] + ReadSteps(limit));
    InFour(limited, arrives, [ReadBegins(1)], ReadSteps(limit));
  }

  lemma HeldByteIsRead(remain: nat, before: seq<Step>)
    requires var s := Run(remain, before); s.hasByte.Some? && !s.inRead && s.remain > 0
    ensures var s, t := Run(remain, before), Run(remain, before + [ReadBegins(1)]);
      t.hasByte == None && !t.inRead && t.remain == s.remain && |t.delivered| == |s.delivered| + 1
  {
    RunOneMore(remain, before, ReadBegins(1));
  }

  lemma InFour(a: seq<Step>, b: seq<Step>, c: seq<Step>, d: seq<Step>)
    ensures a + b + c + d == a + (b + (c + d))
  {
  }

  /** A Read that was in the socket when the limit was set brings more than the limit. */
  lemma ReadAboveLimit(remain: nat, before: seq<Step>, limit: nat) returns (after: seq<Step>)
    requires InFlight(Run(remain, before)) > limit
    ensures LimitStands(after) && NoBackgroundStart(after) && DeliveredUnder(remain, before, limit, after) > limit
  {
    var limited := before + [SetReadLimit(limit)];
    RunOneMore(remain, before, SetReadLimit(limit));
    var s := Run(remain, limited);
    if s.foreground.InSocket? {
      var result := Result(Fill(s.foreground.limit), None);
      after := [SocketReturns(false, result), ReadEnds];
      RunOneMore(remain, limited, SocketReturns(false, result));
      RunOneMore(remain, limited + [SocketReturns(false, result)], ReadEnds);
      assert limited + [SocketReturns(false, result)] + [ReadEnds] == limited + after;
    } else {
      after := [ReadEnds];
      RunOneMore(remain, limited, ReadEnds);
    }
  }

  /** A limit is kept, whatever follows, exactly when no byte from the background is held or on its way at the moment it
      is set (or the limit is zero) and no Read that began before brings more than the limit. */
  lemma LimitKeptExactly(remain: nat, before: seq<Step>, limit: nat)
    ensures var s := Run(remain, before);
      (forall after :: LimitStands(after) && NoBackgroundStart(after) ==>
        DeliveredUnder(remain, before, limit, after) <= limit)
      <==> InFlight(s) <= limit && (limit == 0 || !ByteMayCome(s))
  {
    var s := Run(remain, before);
    var limited := before + [SetReadLimit(limit)];
    RunOneMore(remain, before, SetReadLimit(limit));
    if InFlight(s) > limit {
      var after := ReadAboveLimit(remain, before, limit);
    } else if limit > 0 && ByteMayCome(s) {
      var after := ByteAboveLimit(remain, before, limit);
    } else {
      forall after | LimitStands(after) && NoBackgroundStart(after)
        ensures DeliveredUnder(remain, before, limit, after) <= limit
      {
        if limit == 0 { NothingUnderZero(remain, limited, after); } else { KeptFromThere(remain, limited, after); }
      }
    }
  }

  /** One byte read in the background while a handler ran, and then a request: the limit for its header is exceeded. */
  lemma OneByteAboveLimit(limit: nat)
    requires limit > 0
    ensures DeliveredUnder(0, [StartBackgroundRead, SocketReturns(true, Result("x", None)), BackgroundReadEnds],
      limit, [ReadBegins(1)] + ReadSteps(limit)) == limit + 1
  {
    var before := [StartBackgroundRead, SocketReturns(true, Result("x", None)), BackgroundReadEnds];
    RunThree(0, [], before[0], before[1], before[2]);
    assert [] + before == before;
    RunOneMore(0, before, SetReadLimit(limit));
    var limited := before + [SetReadLimit(limit)];
    RunOneMore(0, limited, ReadBegins(1));
    ReadDelivers(0, limited + [ReadBegins(1)], limit);
    assert limited + [ReadBegins(1)] + ReadSteps(limit) == limited + ([ReadBegins(1)] + ReadSteps(limit));
  }

  /** A byte comes from the background, and a Read takes it. */
  function Round(): (list: seq<Step>) {
    [StartBackgroundRead, SocketReturns(true, Result("x", None)), BackgroundReadEnds] + [ReadBegins(1)]
  }

  function Rounds(n: nat): (list: seq<Step>) {
    if n == 0 then [] else Rounds(n - 1) + Round()
  }

  lemma RoundDelivers(remain: nat, before: seq<Step>)
    requires var s := Run(remain, before); !s.inRead && s.hasByte == None && s.remain > 0
    ensures var s, t := Run(remain, before), Run(remain, before + Round());
      |t.delivered| == |s.delivered| + 1 && t.remain == s.remain && !t.inRead && t.hasByte == None
  {
    var arrives := [StartBackgroundRead, SocketReturns(true, Result("x", None)), BackgroundReadEnds];
    RunThree(remain, before, arrives[0], arrives[1], arrives[2]);
    var t := Run(remain, before + arrives);
    assert t.hasByte == Some('x') && !t.inRead && t.remain == Run(remain, before).remain;
    RunOneMore(remain, before + arrives, ReadBegins(1));
    assert before + arrives + [ReadBegins(1)] == before + Round();
  }

  /** If background reads were started under a limit, any positive limit would let any number of bytes through. */
  lemma {:induction false} BackgroundBytesAreFree(limit: nat, n: nat)
    requires limit > 0
    ensures LimitStands(Rounds(n))
    ensures var s := Run(limit, Rounds(n)); |s.delivered| == n && s.remain == limit && !s.inRead && s.hasByte == None
  {
    if n > 0 {
      BackgroundBytesAreFree(limit, n - 1);
      RoundDelivers(limit, Rounds(n - 1));
    }
  }
}
