/** The race of two dialers in dialParallel (dial.go): every interleaving of the select loop, the two racers and
    the timer. */
module DialRace {
  import opened Options

  type Conn = nat
  type DialError = nat

  /** What dialSerial brought back: a connection or an error. */
  datatype Outcome = Connected(conn: Conn) | Failed(error: DialError)

  /** One racer: not started, in dialSerial, at its select with the outcome in hand, or gone. */
  datatype Racer = Waiting | Dialing | Offering(outcome: Outcome) | Gone

  /** The fallback timer: running, fired with its value in the channel, or neither. */
  datatype Timer = Armed | Pending | Idle

  /** The select loop of dialParallel, or what it returned; the channel `returned` is closed from then on. */
  datatype Main = Looping | ReturnedConn(conn: Conn) | ReturnedError(error: DialError)

  datatype Race = Race(primary: Racer, fallback: Racer, timer: Timer, main: Main,
    /** The errors received from the racers: the fields of primary and fallback with done set. */
    primaryError: Option<DialError>, fallbackError: Option<DialError>,
    /** Every connection the racers established, those closed again, and the starts of the fallback racer. */
    established: set<Conn>, closed: set<Conn>, fallbackStarts: nat)

  const START := Race(Dialing, Waiting, Armed, Looping, None, None, {}, {}, 0)

  datatype Step =
    | TimerFires
    | StartFallback
    | Finish(primary: bool, outcome: Outcome)
    | Deliver(primary: bool)
    | GiveUp(primary: bool)

  function RacerOf(s: Race, primary: bool): (r: Racer) {
    if primary then s.primary else s.fallback
  }

  function WithRacer(s: Race, primary: bool, r: Racer): (t: Race) {
    if primary then s.(primary := r) else s.(fallback := r)
  }

  predicate Enabled(s: Race, step: Step) {
    match step
    case TimerFires => s.timer == Armed
    case StartFallback => s.main.Looping? && s.timer == Pending
    case Finish(p, outcome) => RacerOf(s, p) == Dialing && (outcome.Connected? ==> outcome.conn !in s.established)
    case Deliver(p) => s.main.Looping? && RacerOf(s, p).Offering?
    case GiveUp(p) => !s.main.Looping? && RacerOf(s, p).Offering?
  }

  /** The case of the select loop that receives a result. */
  function Receive(s: Race, p: bool, outcome: Outcome): (t: Race) {
    match outcome
    case Connected(c) => s.(main := ReturnedConn(c))
    case Failed(e) =>
      var t := if p then s.(primaryError := Some(e)) else s.(fallbackError := Some(e));
      if t.primaryError.Some? && t.fallbackError.Some? then t.(main := ReturnedError(t.primaryError.value))
      // Stop succeeds only while the timer runs; Reset then lets it run again, to fire at once.
      else t
  }

  function Next(s: Race, step: Step): (t: Race) {
    match step
    case TimerFires => s.(timer := Pending)
    case StartFallback => s.(timer := Idle, fallback := Dialing, fallbackStarts := s.fallbackStarts + 1)
    case Finish(p, outcome) =>
      var t := WithRacer(s, p, Offering(outcome));
      if outcome.Connected? then t.(established := t.established + {outcome.conn}) else t
    case Deliver(p) =>
      (match RacerOf(s, p)
       case Offering(outcome) => Receive(WithRacer(s, p, Gone), p, outcome)
       case _ => s)
    case GiveUp(p) =>
      (match RacerOf(s, p)
       case Offering(Connected(c)) => WithRacer(s, p, Gone).(closed := s.closed + {c})
       case _ => WithRacer(s, p, Gone))
  }

  /** The state after a run; a step that is not enabled does nothing. */
  function Run(steps: seq<Step>): (t: Race) {
    if steps == [] then START
    else
      var s, step := Run(steps[..|steps| - 1]), steps[|steps| - 1];
      if Enabled(s, step) then Next(s, step) else s
  }

  // ---- what every reachable state satisfies ----

  function Held(r: Racer): (found: set<Conn>) {
    match r
    case Offering(Connected(c)) => {c}
    case _ => {}
  }

  function Handed(m: Main): (found: set<Conn>) {
    match m
    case ReturnedConn(c) => {c}
    case _ => {}
  }

  /** Every connection is held by one racer, handed to the caller, or closed, and by no two of these. */
  predicate Accounted(s: Race) {
    && s.established == Held(s.primary) + Held(s.fallback) + Handed(s.main) + s.closed
    && Held(s.primary) !! Held(s.fallback) !! Handed(s.main) !! s.closed
  }

  predicate Inv(s: Race) {
    && Accounted(s)
    && s.primary != Waiting
    && (s.fallback == Waiting <==> s.timer != Idle)
    && s.fallbackStarts == (if s.fallback == Waiting then 0 else 1)
    && (s.primaryError.Some? ==> s.primary == Gone)
    && (s.fallbackError.Some? ==> s.fallback == Gone)
    && (s.main.Looping? ==>
          && (s.primary == Gone <==> s.primaryError.Some?)
          && (s.fallback == Gone <==> s.fallbackError.Some?)
          && !(s.primaryError.Some? && s.fallbackError.Some?)
          && s.closed == {})
    && (s.main.ReturnedError? ==> s.primaryError == Some(s.main.error) && s.fallbackError.Some?)
  }

  lemma StepKeeps(s: Race, step: Step)
    requires Inv(s) && Enabled(s, step)
    ensures Inv(Next(s, step))
  {
  }

  lemma {:induction false} RunKeeps(steps: seq<Step>)
    ensures Inv(Run(steps))
    decreases |steps|
  {
    if steps != [] {
      RunKeeps(steps[..|steps| - 1]);
      var s, step := Run(steps[..|steps| - 1]), steps[|steps| - 1];
      if Enabled(s, step) { StepKeeps(s, step); }
    }
  }

  /** The fallback racer starts at most once in any run. */
  lemma FallbackStartsOnce(steps: seq<Step>)
    ensures Run(steps).fallbackStarts <= 1
  {
    RunKeeps(steps);
  }

  /** An error is returned only after both racers failed, and it is the primary's. */
  lemma ErrorIsPrimarys(steps: seq<Step>)
    requires Run(steps).main.ReturnedError?
    ensures var s := Run(steps);
      s.primaryError == Some(s.main.error) && s.fallbackError.Some? && s.fallbackStarts == 1
        && s.established == s.closed
  {
    RunKeeps(steps);
  }

  /** Nothing can happen any more. */
  ghost predicate AtRest(s: Race) {
    !s.main.Looping? && !s.primary.Dialing? && !s.fallback.Dialing? && !s.primary.Offering? && !s.fallback.Offering?
  }

  /** When the race is over, the returned connection is open and every other one that was established is closed. */
  lemma OneConnectionSurvives(steps: seq<Step>)
    requires AtRest(Run(steps))
    ensures var s := Run(steps); s.established - s.closed == Handed(s.main)
  {
    RunKeeps(steps);
  }

  /** As long as the race is not over, something can happen: no racer is left at its select, and a primary that failed
      early does not leave the loop waiting for a fallback that nobody starts. */
  lemma NeverStuck(steps: seq<Step>)
    requires !AtRest(Run(steps))
    ensures exists step :: Enabled(Run(steps), step)
  {
    RunKeeps(steps);
    var s := Run(steps);
    if s.primary.Dialing? {
      assert Enabled(s, Finish(true, Failed(0)));
    } else if s.fallback.Dialing? {
      assert Enabled(s, Finish(false, Failed(0)));
    } else if s.primary.Offering? {
      assert Enabled(s, if s.main.Looping? then Deliver(true) else GiveUp(true));
    } else if s.fallback.Offering? {
      assert Enabled(s, if s.main.Looping? then Deliver(false) else GiveUp(false));
    } else if s.timer == Armed {
      assert Enabled(s, TimerFires);
    } else {
      assert Enabled(s, StartFallback);
    }
  }

  function Effort(r: Racer): (n: nat) {
    match r
    case Waiting => 3
    case Dialing => 2
    case Offering(_) => 1
    case Gone => 0
  }

  function Rank(s: Race): (n: nat) {
    Effort(s.primary) + Effort(s.fallback) + match s.timer case Armed => 2 case Pending => 1 case Idle => 0
  }

  lemma StepsCount(s: Race, step: Step)
    requires Inv(s) && Enabled(s, step)
    ensures Rank(Next(s, step)) < Rank(s)
  {
  }

  /** Steps that are taken one after the other, each enabled where it is taken. */
  predicate Taken(steps: seq<Step>) {
    steps == [] || (Taken(steps[..|steps| - 1]) && Enabled(Run(steps[..|steps| - 1]), steps[|steps| - 1]))
  }

  /** Every race is over after at most seven steps. */
  lemma {:induction false} RaceEnds(steps: seq<Step>)
    requires Taken(steps)
    ensures |steps| + Rank(Run(steps)) <= 7
    decreases |steps|
  {
    if steps != [] {
      RaceEnds(steps[..|steps| - 1]);
      RunKeeps(steps[..|steps| - 1]);
      StepsCount(Run(steps[..|steps| - 1]), steps[|steps| - 1]);
    }
  }
}
