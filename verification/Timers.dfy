/**
 The timer (src/translib/timer.cpp, include/translib/timer.h): a libevent timeout event, a round
 counter, and handlers that may re-enter the timer. Time is virtual, in microseconds. libevent
 enters through these facts: `event_new` and `event_add` may fail; a pending event fires when
 it is due; a persistent event is then due again one period later and any other event is no
 longer pending.
 */
module Timers {
  import opened Define

  // ----- Timeouts --------------------------------------------------------------------------

  datatype Timeval = Timeval(sec: nat, usec: nat)

  /** How `startRounds` splits an interval in milliseconds. */
  function TimevalOf(interval: uint32): Timeval {
    Timeval(interval / 1000, interval % 1000 * 1000)
  }

  function Micros(tv: Timeval): nat {
    tv.sec * 1_000_000 + tv.usec
  }

  /** The split is normalised and exact. */
  lemma {:induction false} SplitIsExact(interval: uint32)
    ensures TimevalOf(interval).usec < 1_000_000
    ensures Micros(TimevalOf(interval)) == interval * 1000
  {
  }

  // ----- The timer as a value --------------------------------------------------------------

  datatype Handler =
    | NoHandler
    | User(tag: nat)                                              // user code
    | After(interval: uint32, round: uint64, handler: Handler)    // the closure of `startAfter`
    | WithCallback                                                // the closure of `startCB`

  datatype Event = Event(due: nat, period: nat, persist: bool, pending: bool)

  datatype Outcome = NewFails | AddFails | Starts

  /** A call made on a timer. */
  datatype Command =
    | Stop
    | StartRounds(outcome: Outcome, interval: uint32, round: uint64, handler: Handler)
    | StartOnce(outcome: Outcome, interval: uint32, handler: Handler)
    | StartForever(outcome: Outcome, interval: uint32, handler: Handler)
    | StartAfter(outcome: Outcome, after: uint32, interval: uint32, round: uint64, handler: Handler)
    | StartCB(outcome: Outcome, interval: uint32, callback: nat)

  /**
   What happens outside the code while a handler runs: the calls that user code makes on the
   timer, what a callback returns, and how a start made by the closure of `startAfter` goes.
   */
  datatype Response = Response(commands: seq<Command>, result: int, outcome: Outcome)

  /** A handler call: what it runs, the callback if it is for one, when, and what `isFinished` says. */
  datatype Call = Call(handler: Handler, callback: Option<nat>, time: nat, finished: bool)

  const FOREVER: uint64 := 0xFFFF_FFFF

  datatype Timer = Timer(
    event: Option<Event>,
    interval: uint32,
    round: uint64,
    curRound: uint64,
    handler: Handler,
    callback: nat)
  {
    predicate IsFinished() {
      curRound >= round
    }

    function Reset(): Timer {
      if event.Some? then this.(event := None, curRound := (round + 1) % TWO_TO_THE_64) else this
    }

    function WithRounds(now: nat, outcome: Outcome, interval: uint32, round: uint64, handler: Handler): (Timer, bool) {
      if event.Some? || outcome == NewFails then
        (this, false)
      else
        var period := Micros(TimevalOf(interval));
        var e := Event(now + period, period, round > 1, true);
        if outcome == AddFails then
          (this.(event := Some(e)).Reset(), false)
        else
          (Timer(Some(e), interval, round, 0, handler, callback), true)
    }

    function Do(now: nat, c: Command): Timer {
      match c
      case Stop => Reset()
      case StartRounds(outcome, interval, round, handler) =>
        WithRounds(now, outcome, interval, round, handler).0
      case StartOnce(outcome, interval, handler) =>
        WithRounds(now, outcome, interval, 1, handler).0
      case StartForever(outcome, interval, handler) =>
        WithRounds(now, outcome, interval, FOREVER, handler).0
      case StartAfter(outcome, after, interval, round, handler) =>
        WithRounds(now, outcome, after, 1, After(interval, round, handler)).0
      case StartCB(outcome, interval, callback) =>
        this.(callback := callback).WithRounds(now, outcome, interval, FOREVER, WithCallback).0
    }

    function DoAll(now: nat, cs: seq<Command>): Timer
      decreases |cs|
    {
      if cs == [] then this else Do(now, cs[0]).DoAll(now, cs[1..])
    }

    /** The body of a handler, run after the timer has been updated. */
    function Handle(now: nat, h: Handler, r: Response): Timer {
      match h
      case NoHandler => this
      case User(_) => DoAll(now, r.commands)
      case After(interval, round, handler) => WithRounds(now, r.outcome, interval, round, handler).0
      case WithCallback =>
        var after := DoAll(now, r.commands);
        if r.result == -1 then after.Reset() else after
    }

    /** The timer when a firing calls its handler. */
    function Fired(): Timer
      requires event.Some?
    {
      var e := event.value;
      var cur := (curRound + 1) % TWO_TO_THE_64;
      var counted := this.(curRound := cur,
                           event := Some(if e.persist then e.(due := e.due + e.period) else e.(pending := false)));
      if cur >= round then counted.Reset() else counted
    }

    /** `eventHandler`: the handler is copied before the timer is updated. */
    function Fire(r: Response): (Timer, Call)
      requires event.Some? && event.value.pending
    {
      var now := event.value.due;
      (Fired().Handle(now, handler, r),
       Call(handler, if handler == WithCallback then Some(callback) else None, now, Fired().IsFinished()))
    }
  }

  const NEW_TIMER := Timer(None, 0, 1, 0, NoHandler, 0)

  // ----- The timer as an object ------------------------------------------------------------

  class TimerObject {
    var event: Option<Event>
    var interval: uint32
    var round: uint64
    var curRound: uint64
    var handler: Handler
    var callback: nat

    ghost function State(): Timer
      reads this
    {
      Timer(event, interval, round, curRound, handler, callback)
    }

    constructor ()
      ensures State() == NEW_TIMER
    {
      event, interval, round, curRound, handler, callback := None, 0, 1, 0, NoHandler, 0;
    }

    method IsFinished() returns (finished: bool)
      ensures finished == State().IsFinished()
    {
      return curRound >= round;
    }

    method StartRounds(now: nat, outcome: Outcome, interval: uint32, round: uint64, handler: Handler) returns (ok: bool)
      modifies this
      ensures (State(), ok) == old(State()).WithRounds(now, outcome, interval, round, handler)
    {
      if event.Some? {
        return false;
      }
      if outcome == NewFails {
        return false;
      }
      var sec, usec := interval / 1000, interval % 1000 * 1000;
      var period := sec * 1_000_000 + usec;
      event := Some(Event(now + period, period, round > 1, true));
      if outcome == AddFails {
        Reset();
        return false;
      }
      this.interval := interval;
      this.round := round;
      curRound := 0;
      this.handler := handler;
      return true;
    }

    method StartOnce(now: nat, outcome: Outcome, interval: uint32, handler: Handler) returns (ok: bool)
      modifies this
      ensures (State(), ok) == old(State()).WithRounds(now, outcome, interval, 1, handler)
    {
      ok := StartRounds(now, outcome, interval, 1, handler);
    }

    method StartForever(now: nat, outcome: Outcome, interval: uint32, handler: Handler) returns (ok: bool)
      modifies this
      ensures (State(), ok) == old(State()).WithRounds(now, outcome, interval, FOREVER, handler)
    {
      ok := StartRounds(now, outcome, interval, FOREVER, handler);
    }

    method StartAfter(now: nat, outcome: Outcome, after: uint32, interval: uint32, round: uint64, handler: Handler)
      returns (ok: bool)
      modifies this
      ensures (State(), ok) == old(State()).WithRounds(now, outcome, after, 1, After(interval, round, handler))
    {
      ok := StartOnce(now, outcome, after, After(interval, round, handler));
    }

    method StartCB(now: nat, outcome: Outcome, interval: uint32, callback: nat) returns (ok: bool)
      modifies this
      ensures (State(), ok) ==
              old(State()).(callback := callback).WithRounds(now, outcome, interval, FOREVER, WithCallback)
    {
      this.callback := callback;
      ok := StartForever(now, outcome, interval, WithCallback);
    }

    method Stop()
      modifies this
      ensures State() == old(State()).Reset()
    {
      Reset();
    }

    method Reset()
      modifies this
      ensures State() == old(State()).Reset()
    {
      if event.Some? {
        event := None;
        curRound := (round + 1) % TWO_TO_THE_64;
      }
    }

    method Do(now: nat, c: Command)
      modifies this
      ensures State() == old(State()).Do(now, c)
    {
      match c {
        case Stop => Stop();
        case StartRounds(outcome, interval, round, handler) =>
          var _ := StartRounds(now, outcome, interval, round, handler);
        case StartOnce(outcome, interval, handler) =>
          var _ := StartOnce(now, outcome, interval, handler);
        case StartForever(outcome, interval, handler) =>
          var _ := StartForever(now, outcome, interval, handler);
        case StartAfter(outcome, after, interval, round, handler) =>
          var _ := StartAfter(now, outcome, after, interval, round, handler);
        case StartCB(outcome, interval, callback) =>
          var _ := StartCB(now, outcome, interval, callback);
      }
    }

    /** User code that makes the listed calls on this timer. */
    method UserCode(now: nat, commands: seq<Command>)
      modifies this
      ensures State() == old(State()).DoAll(now, commands)
    {
      var rest := commands;
      while rest != []
        invariant State().DoAll(now, rest) == old(State()).DoAll(now, commands)
        decreases |rest|
      {
        Do(now, rest[0]);
        rest := rest[1..];
      }
    }

    /** The event loop has found the event due. */
    method EventHandler(r: Response) returns (call: Call)
      requires event.Some? && event.value.pending
      modifies this
      ensures (State(), call) == old(State()).Fire(r)
    {
      var e := event.value;
      event := Some(if e.persist then e.(due := e.due + e.period) else e.(pending := false));

      var copy := handler;
      curRound := (curRound + 1) % TWO_TO_THE_64;
      if curRound >= round {
        Reset();
      }
      var finished := IsFinished();
      call := Call(copy, if copy == WithCallback then Some(callback) else None, e.due, finished);
      match copy {
        case NoHandler =>
        case User(_) =>
          UserCode(e.due, r.commands);
        case After(interval, round, handler) =>
          var _ := StartRounds(e.due, r.outcome, interval, round, handler);
        case WithCallback =>
          UserCode(e.due, r.commands);
          if r.result == -1 {
            Stop();
          }
      }
    }
  }

  // ----- The invariant of a timer ----------------------------------------------------------

  /** Never started with success, nor with a failing `event_add`. */
  predicate Untouched(t: Timer) {
    t.event.None? && t.round == 1 && t.curRound == 0
  }

  /**
   A set event is pending and has rounds left; a cleared one leaves the counter just past the
   last round, modulo 2^64, unless the timer was never started.
   */
  ghost predicate TimerInv(t: Timer) {
    match t.event
    case Some(e) =>
      && e.pending
      && e.persist == (t.round > 1)
      && e.period == t.interval * 1000
      && t.curRound < Max(1, t.round)
    case None =>
      Untouched(t) || t.curRound == (t.round + 1) % TWO_TO_THE_64
  }

  lemma {:induction false} DoKeepsInv(t: Timer, now: nat, c: Command)
    requires TimerInv(t)
    ensures TimerInv(t.Do(now, c))
  {
    hide TimevalOf, Micros;
    forall interval: uint32 ensures Micros(TimevalOf(interval)) == interval * 1000 {
      SplitIsExact(interval);
    }
  }

  lemma {:induction false} DoAllKeepsInv(t: Timer, now: nat, cs: seq<Command>)
    requires TimerInv(t)
    ensures TimerInv(t.DoAll(now, cs))
    decreases |cs|
  {
    if cs == [] {
    } else {
      DoKeepsInv(t, now, cs[0]);
      DoAllKeepsInv(t.Do(now, cs[0]), now, cs[1..]);
    }
  }

  lemma {:induction false} FireKeepsInv(t: Timer, r: Response)
    requires TimerInv(t) && t.event.Some?
    ensures TimerInv(t.Fired()) && TimerInv(t.Fire(r).0)
  {
    hide TimevalOf, Micros;
    forall interval: uint32 ensures Micros(TimevalOf(interval)) == interval * 1000 {
      SplitIsExact(interval);
    }
    assert TimerInv(t.Fired());
    DoAllKeepsInv(t.Fired(), t.event.value.due, r.commands);
  }

  datatype Step = Calling(now: nat, c: Command) | Firing(r: Response)

  predicate Fires(t: Timer, s: Step) {
    s.Firing? && t.event.Some? && t.event.value.pending
  }

  /** A firing of a timer that has no pending event does not happen. */
  function AfterStep(t: Timer, s: Step): Timer {
    match s
    case Calling(now, c) => t.Do(now, c)
    case Firing(r) => if Fires(t, s) then t.Fire(r).0 else t
  }

  function Run(t: Timer, steps: seq<Step>): Timer
    decreases |steps|
  {
    if steps == [] then t else Run(AfterStep(t, steps[0]), steps[1..])
  }

  /**
   The invariant holds after every run of starts that succeed or fail, stops, firings, and
   handlers that do any of these to their own timer.
   */
  lemma {:induction false} EveryRunKeepsInv(t: Timer, steps: seq<Step>)
    requires TimerInv(t)
    ensures TimerInv(Run(t, steps))
    decreases |steps|
  {
    if steps == [] {
    } else {
      match steps[0] {
        case Calling(now, c) => DoKeepsInv(t, now, c);
        case Firing(r) =>
          if t.event.Some? {
            FireKeepsInv(t, r);
          }
      }
      EveryRunKeepsInv(AfterStep(t, steps[0]), steps[1..]);
    }
  }

  /**
   What `isFinished` tells, for every number of rounds. It means "was started and has no event"
   except for 0 rounds, which counts as finished while its one firing is still pending, and for
   2^64 - 1 rounds, whose counter wraps to 0 and never counts as finished.
   */
  lemma {:induction false} FinishedExactly(steps: seq<Step>)
    ensures var t := Run(NEW_TIMER, steps);
            t.IsFinished() <==>
            if t.event.Some? then t.round == 0 else !Untouched(t) && t.round != TWO_TO_THE_64 - 1
  {
    EveryRunKeepsInv(NEW_TIMER, steps);
  }

  // ----- How often a handler is called -----------------------------------------------------

  /** The handler calls of a run. */
  function Calls(t: Timer, steps: seq<Step>): seq<Call>
    decreases |steps|
  {
    if steps == [] then
      []
    else
      var later := Calls(AfterStep(t, steps[0]), steps[1..]);
      if Fires(t, steps[0]) then [t.Fire(steps[0].r).1] + later else later
  }

  /** What is outside the code in each firing of a run. */
  function Responses(steps: seq<Step>): seq<Response> {
    if steps == [] then []
    else if steps[0].Firing? then [steps[0].r] + Responses(steps[1..])
    else Responses(steps[1..])
  }

  /** The call neither stops nor starts anything: a stop without an event, or a refused start. */
  predicate Idle(t: Timer, c: Command) {
    c.Stop? <==> t.event.None?
  }

  predicate AllIdle(t: Timer, cs: seq<Command>) {
    forall i | 0 <= i < |cs| :: Idle(t, cs[i])
  }

  /** Neither is done by this step, from outside or from the handler. */
  predicate IdleStep(t: Timer, s: Step) {
    match s
    case Calling(_, c) => Idle(t, c)
    case Firing(r) => Fires(t, s) ==> AllIdle(t.Fired(), r.commands)
  }

  /**
   In the whole run no stop meets a set event and no start meets a cleared one, whoever calls
   them; except that the closure of `startCB` stops the timer, and that of `startAfter` starts it.
   */
  predicate Undisturbed(t: Timer, steps: seq<Step>)
    decreases |steps|
  {
    steps != [] ==> IdleStep(t, steps[0]) && Undisturbed(AfterStep(t, steps[0]), steps[1..])
  }

  predicate MakesNoCalls(s: Step) {
    s.Firing? && s.r.commands == []
  }

  /** A timer that is only fired, and whose handler makes no calls, is undisturbed. */
  lemma {:induction false} LeftAloneIsUndisturbed(t: Timer, steps: seq<Step>)
    requires forall i | 0 <= i < |steps| :: MakesNoCalls(steps[i])
    ensures Undisturbed(t, steps)
    decreases |steps|
  {
    if steps == [] {
    } else {
      LeftAloneIsUndisturbed(AfterStep(t, steps[0]), steps[1..]);
    }
  }

  /** Idle calls change at most the callback. */
  lemma {:induction false} IdleCalls(t: Timer, now: nat, cs: seq<Command>)
    requires AllIdle(t, cs)
    ensures t.DoAll(now, cs) == t.(callback := t.DoAll(now, cs).callback)
    ensures NoStartCB(cs) ==> t.DoAll(now, cs) == t
    decreases |cs|
  {
    if cs == [] {
    } else {
      IdleCalls(t.Do(now, cs[0]), now, cs[1..]);
    }
  }

  predicate NoStartCB(cs: seq<Command>) {
    forall i | 0 <= i < |cs| :: !cs[i].StartCB?
  }

  /** `startCB` is called neither from outside nor from the handler. */
  predicate NeverStartCB(steps: seq<Step>) {
    forall i | 0 <= i < |steps| ::
      match steps[i]
      case Calling(_, c) => !c.StartCB?
      case Firing(r) => NoStartCB(r.commands)
  }

  lemma {:induction false} NeverStartCBTail(steps: seq<Step>)
    requires steps != []
    ensures NeverStartCB(steps) ==> NeverStartCB(steps[1..])
  {
    assert forall i | 0 <= i < |steps[1..]| :: steps[1..][i] == steps[i + 1];
  }

  /** Nothing more is called once the event is gone. */
  lemma {:induction false} NoMoreCalls(t: Timer, steps: seq<Step>)
    requires t.event.None? && Undisturbed(t, steps)
    ensures Calls(t, steps) == [] && Run(t, steps) == t
    decreases |steps|
  {
    if steps == [] {
    } else {
      NoMoreCalls(t, steps[1..]);
    }
  }

  /** The timer has just been started, or has fired `c` of its rounds. */
  ghost predicate HasFired(t: Timer, start: nat, c: nat) {
    && TimerInv(t) && t.event.Some?
    && t.curRound == c
    && t.event.value.due == start + (c + 1) * (t.interval * 1000)
  }

  /** The calls of rounds c + 1, c + 2, ... of a timer of `round` rounds started at `start`. */
  ghost predicate CallsOnTime(calls: seq<Call>, h: Handler, start: nat, interval: uint32, round: uint64, c: nat) {
    forall k | 0 <= k < |calls| ::
      && calls[k].handler == h
      && calls[k].time == start + (c + k + 1) * (interval * 1000)
      && (calls[k].finished <==> c + k + 1 >= round && round != TWO_TO_THE_64 - 1)
  }

  ghost predicate CallsTo(calls: seq<Call>, callback: Option<nat>) {
    forall k | 0 <= k < |calls| :: calls[k].callback == callback
  }

  /** One more call in front. */
  lemma {:induction false} CallFirst(
      call: Call, later: seq<Call>, h: Handler, start: nat, interval: uint32, round: uint64, c: nat)
    requires CallsOnTime(later, h, start, interval, round, c + 1)
    requires call.handler == h && call.time == start + (c + 1) * (interval * 1000)
    requires call.finished <==> c + 1 >= round && round != TWO_TO_THE_64 - 1
    ensures CallsOnTime([call] + later, h, start, interval, round, c)
    ensures forall callback | CallsTo(later, callback) && call.callback == callback :: CallsTo([call] + later, callback)
  {
    var calls := [call] + later;
    assert forall k | 1 <= k < |calls| :: calls[k] == later[k - 1];
  }

  lemma {:induction false} NoCalls(h: Handler, start: nat, interval: uint32, round: uint64, c: nat)
    ensures CallsOnTime([], h, start, interval, round, c)
    ensures forall callback :: CallsTo([], callback)
  {
  }

  lemma {:induction false} HasRoundsLeft(t: Timer, start: nat, c: nat)
    requires HasFired(t, start, c)
    ensures t.event.Some? && t.event.value.pending && c < Max(1, t.round)
  {
  }

  /** An idle call from outside leaves the rounds as they are. */
  lemma {:induction false} IdleCalling(t: Timer, start: nat, c: nat, s: Step)
    requires HasFired(t, start, c) && s.Calling? && IdleStep(t, s)
    ensures var next := AfterStep(t, s);
            && HasFired(next, start, c)
            && next == t.(callback := next.callback)
            && (!s.c.StartCB? ==> next == t)
  {
  }

  lemma {:induction false} UserFire(t: Timer, start: nat, c: nat, r: Response)
    requires HasFired(t, start, c) && (t.handler.User? || t.handler.NoHandler?) && IdleStep(t, Firing(r))
    ensures var (next, call) := t.Fire(r);
            && call == Call(t.handler, None, start + (c + 1) * (t.interval * 1000),
                            c + 1 >= t.round && t.round != TWO_TO_THE_64 - 1)
            && (if c + 1 < Max(1, t.round)
                then HasFired(next, start, c + 1) &&
                     next == t.(event := next.event, curRound := next.curRound, callback := next.callback)
                else next.event.None?)
  {
    hide TimevalOf, Micros;
    FireKeepsInv(t, r);
    IdleCalls(t.Fired(), t.event.value.due, r.commands);
    NextDue(start, c, t.interval * 1000);
  }

  lemma {:induction false} NextDue(start: nat, c: nat, period: nat)
    ensures start + (c + 1) * period + period == start + (c + 1 + 1) * period
  {
  }

  predicate SameStart(t: Timer, u: Timer) {
    u.handler == t.handler && u.interval == t.interval && u.round == t.round
  }

  lemma {:induction false} UserRun(t: Timer, start: nat, c: nat, steps: seq<Step>)
    requires HasFired(t, start, c) && t.handler.User? && Undisturbed(t, steps)
    ensures var calls, n := Calls(t, steps), |Responses(steps)|;
            && |calls| == Min(n, Max(1, t.round) - c)
            && CallsOnTime(calls, t.handler, start, t.interval, t.round, c)
            && (Run(t, steps).event.None? <==> Max(1, t.round) - c <= n)
            && (c + n < Max(1, t.round) ==>
                  HasFired(Run(t, steps), start, c + n) && SameStart(t, Run(t, steps)))
    decreases |steps|
  {
    hide TimerInv, HasFired, TimevalOf, Micros, IdleStep, Timer.Fire, Timer.Do, CallsOnTime;
    HasRoundsLeft(t, start, c);
    NoCalls(t.handler, start, t.interval, t.round, c);
    NoCalls(t.handler, start, t.interval, t.round, c + 1);
    if steps == [] {
    } else if steps[0].Calling? {
      IdleCalling(t, start, c, steps[0]);
      UserRun(AfterStep(t, steps[0]), start, c, steps[1..]);
    } else {
      UserFire(t, start, c, steps[0].r);
      var next := t.Fire(steps[0].r).0;
      if c + 1 < Max(1, t.round) {
        UserRun(next, start, c + 1, steps[1..]);
      } else {
        NoMoreCalls(next, steps[1..]);
      }
      CallFirst(t.Fire(steps[0].r).1, Calls(next, steps[1..]), t.handler, start, t.interval, t.round, c);
    }
  }

  /**
   Exact firing count: started with any number of rounds, a timer calls its handler exactly
   max(1, rounds) times, the k-th time k intervals after the start, and then has no event.
   `isFinished` is false in every call but the last, where it is true (below 2^64 - 1 rounds).
   Starts that are refused meanwhile, from outside or from the handler, make no difference.
   */
  lemma {:induction false} FiresExactlyItsRounds(
      t: Timer, now: nat, interval: uint32, round: uint64, tag: nat, steps: seq<Step>)
    requires TimerInv(t) && t.event.None?
    requires Undisturbed(t.WithRounds(now, Starts, interval, round, User(tag)).0, steps)
    ensures var (started, ok) := t.WithRounds(now, Starts, interval, round, User(tag));
            var calls, n := Calls(started, steps), |Responses(steps)|;
            && ok
            && |calls| == Min(n, Max(1, round))
            && CallsOnTime(calls, User(tag), now, interval, round, 0)
            && (Run(started, steps).event.None? <==> Max(1, round) <= n)
  {
    hide TimevalOf, Micros;
    SplitIsExact(interval);
    var started := t.WithRounds(now, Starts, interval, round, User(tag)).0;
    UserRun(started, now, 0, steps);
  }

  /**
   The same for each way of starting: `startOnce` makes one call, and `startForever` makes
   2^32 - 1 of them and then stops.
   */
  lemma {:induction false} EveryStartFiresExactly(t: Timer, now: nat, c: Command, tag: nat, steps: seq<Step>)
    requires c.StartRounds? || c.StartOnce? || c.StartForever?
    requires c.outcome == Starts && c.handler == User(tag)
    requires TimerInv(t) && t.event.None? && Undisturbed(t.Do(now, c), steps)
    ensures var calls, n := Calls(t.Do(now, c), steps), |Responses(steps)|;
            var rounds := if c.StartOnce? then 1 else if c.StartForever? then 0xFFFF_FFFF else c.round;
            && |calls| == Min(n, Max(1, rounds))
            && CallsOnTime(calls, User(tag), now, c.interval, rounds, 0)
            && (Run(t.Do(now, c), steps).event.None? <==> Max(1, rounds) <= n)
  {
    hide TimevalOf, Micros, Undisturbed, Calls, Responses, CallsOnTime;
    match c {
      case StartRounds(_, interval, round, _) => FiresExactlyItsRounds(t, now, interval, round, tag, steps);
      case StartOnce(_, interval, _) => FiresExactlyItsRounds(t, now, interval, 1, tag, steps);
      case StartForever(_, interval, _) => FiresExactlyItsRounds(t, now, interval, 0xFFFF_FFFF, tag, steps);
    }
  }

  // ----- Handlers that stop or restart their timer -----------------------------------------

  lemma {:induction false} RunJoins(t: Timer, a: seq<Step>, b: seq<Step>)
    ensures Run(t, a + b) == Run(Run(t, a), b)
    ensures Calls(t, a + b) == Calls(t, a) + Calls(Run(t, a), b)
    decreases |a|
  {
    hide AfterStep, Fires;
    if a == [] {
      assert a + b == b;
    } else {
      assert (a + b)[0] == a[0] && (a + b)[1..] == a[1..] + b;
      RunJoins(AfterStep(t, a[0]), a[1..], b);
    }
  }

  lemma {:induction false} DoAllJoins(t: Timer, now: nat, a: seq<Command>, b: seq<Command>)
    ensures t.DoAll(now, a + b) == t.DoAll(now, a).DoAll(now, b)
    decreases |a|
  {
    if a == [] {
      assert a + b == b;
    } else {
      assert (a + b)[0] == a[0] && (a + b)[1..] == a[1..] + b;
      DoAllJoins(t.Do(now, a[0]), now, a[1..], b);
    }
  }

  predicate OnlyStops(cs: seq<Command>) {
    forall i | 0 <= i < |cs| :: cs[i].Stop?
  }

  predicate NoStops(cs: seq<Command>) {
    forall i | 0 <= i < |cs| :: !cs[i].Stop?
  }

  /** Nobody starts the timer from outside. */
  predicate NeverStarted(steps: seq<Step>) {
    forall i | 0 <= i < |steps| :: steps[i].Calling? ==> steps[i].c.Stop?
  }

  lemma {:induction false} StoppedIsUndisturbed(t: Timer, steps: seq<Step>)
    requires t.event.None? && NeverStarted(steps)
    ensures Undisturbed(t, steps)
    decreases |steps|
  {
    if steps == [] {
    } else {
      assert forall i | 0 <= i < |steps[1..]| :: steps[1..][i] == steps[i + 1];
      StoppedIsUndisturbed(AfterStep(t, steps[0]), steps[1..]);
    }
  }

  /** A stop from outside ends the calls, whatever the timer was doing. */
  lemma {:induction false} StopEndsCalls(t: Timer, before: seq<Step>, now: nat, rest: seq<Step>)
    requires NeverStarted(rest)
    ensures var steps := before + ([Calling(now, Stop)] + rest);
            Calls(t, steps) == Calls(t, before) && Run(t, steps).event.None?
  {
    var stop: Step := Calling(now, Stop);
    var u := AfterStep(Run(t, before), stop);
    RunJoins(t, before, [stop] + rest);
    assert ([stop] + rest)[1..] == rest;
    StoppedIsUndisturbed(u, rest);
    NoMoreCalls(u, rest);
  }

  /** The handler calls `stop` and nothing after it, or it is a callback that returns -1. */
  predicate EndsIt(h: Handler, r: Response) {
    || ((h.User? || h == WithCallback) && r.commands != [] && r.commands[|r.commands| - 1].Stop?)
    || (h == WithCallback && r.result == -1)
  }

  lemma {:induction false} FireEndsIt(t: Timer, r: Response)
    requires Fires(t, Firing(r)) && EndsIt(t.handler, r)
    ensures AfterStep(t, Firing(r)).event.None?
  {
    if r.commands != [] {
      var cs, last := r.commands[..|r.commands| - 1], r.commands[|r.commands| - 1];
      assert r.commands == cs + [last] && [last][1..] == [];
      DoAllJoins(t.Fired(), t.event.value.due, cs, [last]);
    }
  }

  /**
   A handler that ends by stopping its timer is called this one more time and never again,
   whatever it and everybody else did before; and so is a callback that returns -1.
   */
  lemma {:induction false} StopInHandlerEndsCalls(t: Timer, before: seq<Step>, r: Response, rest: seq<Step>)
    requires Fires(Run(t, before), Firing(r)) && EndsIt(Run(t, before).handler, r) && NeverStarted(rest)
    ensures var steps := before + ([Firing(r)] + rest);
            && |Calls(t, steps)| == |Calls(t, before)| + 1
            && Calls(t, before) <= Calls(t, steps)
            && Run(t, steps).event.None?
  {
    var u := Run(t, before);
    var fire: Step := Firing(r);
    RunJoins(t, before, [fire] + rest);
    assert ([fire] + rest)[0] == fire && ([fire] + rest)[1..] == rest;
    FireEndsIt(u, r);
    StoppedIsUndisturbed(AfterStep(u, fire), rest);
    NoMoreCalls(AfterStep(u, fire), rest);
  }

  /**
   So a timer of any number of rounds whose handler first stops it in its j-th call, at most the
   last, calls it exactly j times, each on time.
   */
  lemma {:induction false} StoppedInItsCall(
      t: Timer, now: nat, interval: uint32, round: uint64, tag: nat, before: seq<Step>, r: Response, rest: seq<Step>)
    requires TimerInv(t) && t.event.None? && NeverStarted(rest)
    requires var started := t.Do(now, StartRounds(Starts, interval, round, User(tag)));
             Undisturbed(started, before) && |Responses(before)| < Max(1, round)
    requires EndsIt(User(tag), r)
    ensures var started := t.Do(now, StartRounds(Starts, interval, round, User(tag)));
            var steps := before + ([Firing(r)] + rest);
            && |Calls(started, steps)| == |Responses(before)| + 1
            && CallsOnTime(Calls(started, steps), User(tag), now, interval, round, 0)
            && Run(started, steps).event.None?
  {
    hide TimerInv, HasFired, TimevalOf, Micros, Undisturbed, EndsIt, NeverStarted;
    var started := t.Do(now, StartRounds(Starts, interval, round, User(tag)));
    var fire: Step := Firing(r);
    ThenFires(t, now, interval, round, tag, before, r);
    RunJoins(started, before, [fire]);
    assert [fire][1..] == [];
    var next := AfterStep(Run(started, before), fire);
    FireEndsIt(Run(started, before), r);
    StoppedIsUndisturbed(next, rest);
    NoMoreCalls(next, rest);
    RunJoins(started, before + [fire], rest);
    assert (before + [fire]) + rest == before + ([fire] + rest);
  }

  /** The next call of an undisturbed timer comes on time, whatever the handler will do in it. */
  lemma {:induction false} ThenFires(
      t: Timer, now: nat, interval: uint32, round: uint64, tag: nat, before: seq<Step>, r: Response)
    requires TimerInv(t) && t.event.None?
    requires var started := t.Do(now, StartRounds(Starts, interval, round, User(tag)));
             Undisturbed(started, before) && |Responses(before)| < Max(1, round)
    ensures var started := t.Do(now, StartRounds(Starts, interval, round, User(tag)));
            var u, calls, j := Run(started, before), Calls(started, before + [Firing(r)]), |Responses(before)|;
            && HasFired(u, now, j) && Fires(u, Firing(r))
            && u.handler == User(tag) && u.interval == interval && u.round == round
            && |calls| == j + 1
            && CallsOnTime(calls, User(tag), now, interval, round, 0)
  {
    hide TimevalOf, Micros, Undisturbed, TimerInv;
    var started := t.Do(now, StartRounds(Starts, interval, round, User(tag)));
    StartedState(t, now, interval, round, tag);
    UserRun(started, now, 0, before);
    var u := Run(started, before);
    var fire: Step := Firing(r);
    RunJoins(started, before, [fire]);
    assert [fire][1..] == [];
    HasRoundsLeft(u, now, |Responses(before)|);
    CallOnTime(u, now, |Responses(before)|, r);
    assert Calls(u, [fire]) == [u.Fire(r).1];
  }

  lemma {:induction false} StartedState(t: Timer, now: nat, interval: uint32, round: uint64, tag: nat)
    requires TimerInv(t) && t.event.None?
    ensures var started := t.Do(now, StartRounds(Starts, interval, round, User(tag)));
            && HasFired(started, now, 0)
            && started.handler == User(tag) && started.interval == interval && started.round == round
  {
    hide TimevalOf, Micros;
    SplitIsExact(interval);
  }

  lemma {:induction false} CallOnTime(t: Timer, start: nat, c: nat, r: Response)
    requires HasFired(t, start, c) && Fires(t, Firing(r))
    ensures var call := t.Fire(r).1;
            && call.handler == t.handler
            && call.time == start + (c + 1) * (t.interval * 1000)
            && (call.finished <==> c + 1 >= t.round && t.round != TWO_TO_THE_64 - 1)
  {
  }

  /** `k` intervals after `start`. */
  function Later(start: nat, k: nat, interval: uint32): nat {
    start + k * (interval * 1000)
  }

  /**
   A handler that starts its timer again, in the last call or in any call after stopping it, has
   the new start take effect from that moment on: the calls that were due go away, and exactly
   max(1, new rounds) calls of the new handler follow, each on time.
   */
  lemma {:induction false} RestartInHandlerTakesEffect(
      t: Timer, now: nat, interval: uint32, round: uint64, tag: nat, before: seq<Step>, r: Response,
      cs: seq<Command>, interval2: uint32, round2: uint64, tag2: nat, ds: seq<Command>, rest: seq<Step>)
    requires TimerInv(t) && t.event.None?
    requires r.commands == cs + ([StartRounds(Starts, interval2, round2, User(tag2))] + ds)
    requires var started := t.Do(now, StartRounds(Starts, interval, round, User(tag)));
             var j := |Responses(before)| + 1;
             && Undisturbed(started, before) && j <= Max(1, round)
             && (if j == Max(1, round) && OnlyStops(cs) then true else cs != [] && cs[|cs| - 1].Stop?)
             && NoStops(ds) && Undisturbed(Run(started, before + [Firing(r)]), rest)
    ensures var started := t.Do(now, StartRounds(Starts, interval, round, User(tag)));
            var steps := before + [Firing(r)] + rest;
            var calls, j, n := Calls(started, steps), |Responses(before)| + 1, |Responses(rest)|;
            && |calls| == j + Min(n, Max(1, round2))
            && CallsOnTime(calls[..j], User(tag), now, interval, round, 0)
            && CallsOnTime(calls[j..], User(tag2), Later(now, j, interval), interval2, round2, 0)
            && (Run(started, steps).event.None? <==> Max(1, round2) <= n)
  {
    hide TimerInv, HasFired, CallsOnTime, TimevalOf, Micros, Undisturbed;
    var started := t.Do(now, StartRounds(Starts, interval, round, User(tag)));
    var fire: Step := Firing(r);
    var u, j := Run(started, before), |Responses(before)| + 1;
    ThenFires(t, now, interval, round, tag, before, r);
    RunJoins(started, before, [fire]);
    assert [fire][1..] == [];
    var next := AfterStep(u, fire);
    assert Run(started, before + [fire]) == next;
    RestartedState(u, now, j - 1, r, cs, interval2, round2, tag2, ds);
    UserRun(next, Later(now, j, interval), 0, rest);
    RunJoins(started, before + [fire], rest);
  }

  lemma {:induction false} RestartedState(
      t: Timer, start: nat, c: nat, r: Response,
      cs: seq<Command>, interval: uint32, round: uint64, tag: nat, ds: seq<Command>)
    requires HasFired(t, start, c) && Fires(t, Firing(r)) && t.handler.User?
    requires r.commands == cs + ([StartRounds(Starts, interval, round, User(tag))] + ds) && NoStops(ds)
    requires if c + 1 == Max(1, t.round) && OnlyStops(cs) then true else cs != [] && cs[|cs| - 1].Stop?
    ensures var next := AfterStep(t, Firing(r));
            && HasFired(next, Later(start, c + 1, t.interval), 0)
            && next.handler == User(tag) && next.interval == interval && next.round == round
  {
    hide TimevalOf, Micros;
    var now, start2 := t.event.value.due, StartRounds(Starts, interval, round, User(tag));
    var fired := t.Fired();
    FireKeepsInv(t, r);
    DoAllKeepsInv(fired, now, cs);
    var cleared := fired.DoAll(now, cs);
    DoAllJoins(fired, now, cs, [start2] + ds);
    DoAllJoins(cleared, now, [start2], ds);
    assert [start2][1..] == [];
    ClearedBy(fired, now, cs);
    StartedState(cleared, now, interval, round, tag);
    var again := cleared.Do(now, start2);
    IdleCalls(again, now, ds);
  }

  /** Nothing but stops leaves a timer without event as it is, and a stop at the end clears any. */
  lemma {:induction false} ClearedBy(t: Timer, now: nat, cs: seq<Command>)
    requires (t.event.None? && OnlyStops(cs)) || (cs != [] && cs[|cs| - 1].Stop?)
    ensures t.DoAll(now, cs).event.None?
  {
    if cs != [] && cs[|cs| - 1].Stop? {
      var init, last := cs[..|cs| - 1], cs[|cs| - 1];
      assert cs == init + [last] && [last][1..] == [];
      DoAllJoins(t, now, init, [last]);
    }
  }

  /** A start returns true exactly when it sets the event, which needs that none was set. */
  lemma {:induction false} StartReturnsWhetherItRuns(
      t: Timer, now: nat, outcome: Outcome, interval: uint32, round: uint64, h: Handler)
    ensures var (next, ok) := t.WithRounds(now, outcome, interval, round, h);
            && (ok <==> t.event.None? && next.event.Some?)
            && (ok <==> t.event.None? && outcome == Starts)
            && (!ok ==> next.event == t.event)
  {
  }

  /**
   `startAfter` fires its own closure once, `after` milliseconds later, and then behaves as a
   timer of `round` rounds started at that moment: the handler is copied and the timer reset
   before the closure starts it again.
   */
  lemma {:induction false} StartAfterIsDelayThenRounds(
      t: Timer, now: nat, after: uint32, interval: uint32, round: uint64, tag: nat, r: Response, steps: seq<Step>)
    requires TimerInv(t) && t.event.None? && r.outcome == Starts
    requires Undisturbed(AfterStep(t.Do(now, StartAfter(Starts, after, interval, round, User(tag))), Firing(r)), steps)
    ensures var begin, n := now + after * 1000, |Responses(steps)|;
            var started := t.Do(now, StartAfter(Starts, after, interval, round, User(tag)));
            var calls := Calls(started, [Firing(r)] + steps);
            && |calls| == 1 + Min(n, Max(1, round))
            && calls[0] == Call(After(interval, round, User(tag)), None, begin, true)
            && CallsOnTime(calls[1..], User(tag), begin, interval, round, 0)
            && (Run(started, [Firing(r)] + steps).event.None? <==> Max(1, round) <= n)
  {
    hide TimerInv, CallsOnTime, TimevalOf, Micros, Undisturbed, Responses;
    ClosureRestarts(t, now, after, interval, round, User(tag), r);
    var fired := t.Do(now, StartAfter(Starts, after, interval, round, User(tag))).Fired();
    FiresExactlyItsRounds(fired, now + after * 1000, interval, round, tag, steps);
    assert ([Firing(r)] + steps)[1..] == steps;
  }

  /** If the start that the closure makes fails, the closure is the only call. */
  lemma {:induction false} StartAfterMayFail(
      t: Timer, now: nat, after: uint32, interval: uint32, round: uint64, h: Handler, r: Response, steps: seq<Step>)
    requires TimerInv(t) && t.event.None? && r.outcome != Starts && NeverStarted(steps)
    ensures var started := t.Do(now, StartAfter(Starts, after, interval, round, h));
            && Calls(started, [Firing(r)] + steps) == [Call(After(interval, round, h), None, now + after * 1000, true)]
            && Run(started, [Firing(r)] + steps).event.None?
  {
    hide TimevalOf, Micros;
    SplitIsExact(after);
    var started := t.Do(now, StartAfter(Starts, after, interval, round, h));
    var fire: Step := Firing(r);
    assert ([fire] + steps)[0] == fire && ([fire] + steps)[1..] == steps;
    var next := AfterStep(started, fire);
    StoppedIsUndisturbed(next, steps);
    NoMoreCalls(next, steps);
  }

  lemma {:induction false} ClosureRestarts(
      t: Timer, now: nat, after: uint32, interval: uint32, round: uint64, h: Handler, r: Response)
    requires TimerInv(t) && t.event.None? && r.outcome == Starts
    ensures var begin := now + after * 1000;
            var started := t.Do(now, StartAfter(Starts, after, interval, round, h));
            && started.event.Some? && started.event.value.pending
            && TimerInv(started.Fired()) && started.Fired().event.None?
            && started.Fire(r) == (started.Fired().WithRounds(begin, Starts, interval, round, h).0,
                                       Call(After(interval, round, h), None, begin, true))
  {
    hide TimevalOf, Micros;
    SplitIsExact(after);
  }

  /**
   A start made by the handler, whatever it starts, succeeds exactly in the last call as long as
   the handler has not stopped the timer, and in every call once it has.
   */
  lemma {:induction false} RestartOnlyFromLastCall(
      t: Timer, start: nat, c: nat, interval: uint32, round: uint64, h: Handler)
    requires HasFired(t, start, c)
    ensures var now := t.event.value.due;
            && (t.Fired().WithRounds(now, Starts, interval, round, h).1 <==> c + 1 == Max(1, t.round))
            && t.Fired().Do(now, Stop).WithRounds(now, Starts, interval, round, h).1
  {
  }

  /** How many calls a callback with these results gets: up to the first -1. */
  function CallbackCalls(rs: seq<Response>): (n: nat)
    ensures n <= |rs|
  {
    if rs == [] then 0 else if rs[0].result == -1 then 1 else 1 + CallbackCalls(rs[1..])
  }

  lemma {:induction false} CallbackFire(t: Timer, start: nat, c: nat, r: Response)
    requires HasFired(t, start, c) && t.handler == WithCallback && t.round == FOREVER && IdleStep(t, Firing(r))
    ensures var (next, call) := t.Fire(r);
            && call == Call(WithCallback, Some(t.callback), start + (c + 1) * (t.interval * 1000), c + 1 >= FOREVER)
            && (if c + 1 < FOREVER && r.result != -1
                then HasFired(next, start, c + 1) &&
                     next == t.(event := next.event, curRound := next.curRound, callback := next.callback)
                else next.event.None?)
            && (NoStartCB(r.commands) ==> next.callback == t.callback)
  {
    hide TimevalOf, Micros;
    FireKeepsInv(t, r);
    IdleCalls(t.Fired(), t.event.value.due, r.commands);
    NextDue(start, c, t.interval * 1000);
  }

  predicate NeverMinusOne(rs: seq<Response>) {
    forall i | 0 <= i < |rs| :: rs[i].result != -1
  }

  lemma {:induction false} FirstResult(rs: seq<Response>)
    requires rs != []
    ensures NeverMinusOne(rs) <==> rs[0].result != -1 && NeverMinusOne(rs[1..])
  {
    assert forall i | 1 <= i < |rs| :: rs[i] == rs[1..][i - 1];
  }

  lemma {:induction false} CallbackRun(t: Timer, start: nat, c: nat, steps: seq<Step>)
    requires HasFired(t, start, c) && t.handler == WithCallback && t.round == FOREVER && Undisturbed(t, steps)
    ensures var calls, rs := Calls(t, steps), Responses(steps);
            && |calls| == Min(CallbackCalls(rs), FOREVER - c)
            && CallsOnTime(calls, WithCallback, start, t.interval, FOREVER, c)
            && (NeverStartCB(steps) ==> CallsTo(calls, Some(t.callback)))
            && (Run(t, steps).event.Some? <==> c + |rs| < FOREVER && NeverMinusOne(rs))
    decreases |steps|
  {
    hide TimerInv, HasFired, TimevalOf, Micros, IdleStep, NeverStartCB, Timer.Fire, Timer.Do, CallsOnTime, CallsTo;
    HasRoundsLeft(t, start, c);
    NoCalls(WithCallback, start, t.interval, FOREVER, c);
    NoCalls(WithCallback, start, t.interval, FOREVER, c + 1);
    if steps == [] {
    } else {
      NeverStartCBTail(steps);
      FirstStep(steps);
      if steps[0].Calling? {
        IdleCalling(t, start, c, steps[0]);
        CallbackRun(AfterStep(t, steps[0]), start, c, steps[1..]);
      } else {
        var next := t.Fire(steps[0].r).0;
        CallbackFire(t, start, c, steps[0].r);
        FirstResult(Responses(steps));
        if c + 1 < FOREVER && steps[0].r.result != -1 {
          CallbackRun(next, start, c + 1, steps[1..]);
        } else {
          NoMoreCalls(next, steps[1..]);
        }
        CallFirst(t.Fire(steps[0].r).1, Calls(next, steps[1..]), WithCallback, start, t.interval, FOREVER, c);
      }
    }
  }

  lemma {:induction false} FirstStep(steps: seq<Step>)
    requires steps != []
    ensures NeverStartCB(steps) && steps[0].Calling? ==> !steps[0].c.StartCB?
    ensures NeverStartCB(steps) && steps[0].Firing? ==> NoStartCB(steps[0].r.commands)
  {
  }

  /**
   `startCB` calls its callback once every interval, up to and including the first time it
   returns -1 and never again. If it never does, the timer stops after 2^32 - 1 calls: "forever"
   is that many rounds. Refused starts make no difference, except that a refused `startCB` may
   change the callback.
   */
  lemma {:induction false} CallbackUntilMinusOne(
      t: Timer, now: nat, interval: uint32, callback: nat, steps: seq<Step>)
    requires TimerInv(t) && t.event.None?
    requires Undisturbed(t.Do(now, StartCB(Starts, interval, callback)), steps)
    ensures var started := t.Do(now, StartCB(Starts, interval, callback));
            var calls, rs := Calls(started, steps), Responses(steps);
            && |calls| == Min(CallbackCalls(rs), 0xFFFF_FFFF)
            && CallsOnTime(calls, WithCallback, now, interval, 0xFFFF_FFFF, 0)
            && (NeverStartCB(steps) ==> CallsTo(calls, Some(callback)))
            && (Run(started, steps).event.Some? <==> |rs| < 0xFFFF_FFFF && NeverMinusOne(rs))
  {
    hide TimevalOf, Micros, Undisturbed, Calls, Responses, NeverStartCB;
    SplitIsExact(interval);
    CallbackRun(t.Do(now, StartCB(Starts, interval, callback)), now, 0, steps);
  }

  /**
   A start that fails, because an event is set or because `event_new` or `event_add` fails,
   leaves a set event and its rounds as they were; but `startCB` replaces the callback all the same.
   */
  lemma {:induction false} FailedStartKeepsTimer(t: Timer, now: nat, c: Command)
    requires !c.Stop? && (t.event.Some? || c.outcome != Starts)
    ensures var callback := if c.StartCB? then c.callback else t.callback;
            t.Do(now, c) ==
            if t.event.None? && c.outcome == AddFails
            then t.(callback := callback, curRound := (t.round + 1) % TWO_TO_THE_64)
            else t.(callback := callback)
  {
  }

  /** What an undisturbed step does does not depend on the callback. */
  lemma {:induction false} CallbackIsApart(t: Timer, u: Timer, s: Step)
    requires u == t.(callback := u.callback) && IdleStep(t, s)
    ensures IdleStep(u, s)
    ensures AfterStep(u, s) == AfterStep(t, s).(callback := AfterStep(u, s).callback)
  {
    if Fires(t, s) {
      IdleCalls(t.Fired(), t.event.value.due, s.r.commands);
      IdleCalls(u.Fired(), t.event.value.due, s.r.commands);
    }
  }

  lemma {:induction false} UndisturbedApart(t: Timer, u: Timer, steps: seq<Step>)
    requires u == t.(callback := u.callback) && Undisturbed(t, steps)
    ensures Undisturbed(u, steps)
    decreases |steps|
  {
    hide IdleStep, AfterStep;
    if steps == [] {
    } else {
      CallbackIsApart(t, u, steps[0]);
      UndisturbedApart(AfterStep(t, steps[0]), AfterStep(u, steps[0]), steps[1..]);
    }
  }

  /**
   So a `startCB` refused because the timer is running an earlier one redirects that one: in any
   run as many calls are made as without it, and at the same times, but they all go to the new
   callback.
   */
  lemma {:induction false} RefusedStartCBRedirects(
      t: Timer, start: nat, c: nat, now: nat, outcome: Outcome, interval: uint32, callback: nat, steps: seq<Step>)
    requires HasFired(t, start, c) && t.handler == WithCallback && t.round == 0xFFFF_FFFF
    requires Undisturbed(t, steps) && NeverStartCB(steps)
    ensures var calls := Calls(t, steps);
            var redirected := Calls(t, [Calling(now, StartCB(outcome, interval, callback))] + steps);
            && |calls| == |redirected|
            && CallsOnTime(calls, WithCallback, start, t.interval, 0xFFFF_FFFF, c)
            && CallsOnTime(redirected, WithCallback, start, t.interval, 0xFFFF_FFFF, c)
            && CallsTo(calls, Some(t.callback)) && CallsTo(redirected, Some(callback))
  {
    hide CallsOnTime, CallsTo, Undisturbed, NeverStartCB, Responses;
    var again := Calling(now, StartCB(outcome, interval, callback));
    var after := t.(callback := callback);
    FailedStartKeepsTimer(t, now, StartCB(outcome, interval, callback));
    UndisturbedApart(t, after, steps);
    CallbackRun(t, start, c, steps);
    CallbackRun(after, start, c, steps);
    assert ([again] + steps)[0] == again && ([again] + steps)[1..] == steps;
    assert AfterStep(t, again) == after;
  }
}
