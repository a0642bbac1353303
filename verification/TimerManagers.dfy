/**
 The timer manager (src/translib/timerManager.cpp, include/translib/timerManager.h): a map from
 ids to shared timers, and an audit that sweeps the finished ones. A timer lives as long as the
 map or a pointer handed out by `getTimer` owns it; its destructor cancels its event.

 Timers are named by the order of their creation, 0, 1, 2, ...
 */
module TimerManagers {
  import opened Define
  import opened Timers

  /** The value of an `atomic<int>` after `k` increments from 0. */
  function Int32(k: nat): int {
    var low := k % TWO_TO_THE_32;
    if low < 0x8000_0000 then low else low - TWO_TO_THE_32
  }

  // ----- The manager as a value ------------------------------------------------------------

  datatype Manager = Manager(
    uniqueID: int,
    created: nat,               // how many timers `getTimer` has created
    tMap: map<int, nat>,
    held: set<nat>,             // timers a user still has a pointer to
    timers: map<nat, Timer>)    // the timers that exist
  {
    /** Whether the map owns the timer. */
    predicate Filed(ref: nat) {
      exists id :: id in tMap && tMap[id] == ref
    }

    /** Whether somebody owns the timer. */
    predicate Owned(ref: nat) {
      ref in held || Filed(ref)
    }

    /** The map holds no dangling pointers. */
    predicate Closed() {
      forall id | id in tMap :: tMap[id] in timers
    }

    /** Timers that lost their last owner are destroyed. */
    function Collected(): Manager {
      this.(timers := map ref | ref in timers && Owned(ref) :: timers[ref])
    }

    /** `emplace` keeps an entry that is already there. */
    function AfterGet(): Manager {
      Manager(Int32(created + 1),
              created + 1,
              if uniqueID in tMap then tMap else tMap[uniqueID := created],
              held + {created},
              timers[created := NEW_TIMER])
    }

    function AfterRelease(ref: nat): Manager {
      this.(held := held - {ref}).Collected()
    }

    function AfterKill(id: int): Manager {
      this.(tMap := tMap - {id}).Collected()
    }

    /** The ids that an audit erases. */
    function Swept(): set<int>
      requires Closed()
    {
      set id | id in tMap && timers[tMap[id]].IsFinished()
    }

    function AfterAudit(): Manager
      requires Closed()
    {
      this.(tMap := tMap - Swept()).Collected()
    }

    function AfterTimer(ref: nat, s: Timers.Step): Manager {
      if ref in timers then this.(timers := timers[ref := AfterStep(timers[ref], s)]) else this
    }
  }

  const EMPTY := Manager(0, 0, map[], {}, map[])

  /** The timers of the map exist and existing timers are exactly the owned ones. */
  ghost predicate Ownership(m: Manager) {
    && (forall ref | ref in m.timers :: m.Owned(ref))
    && m.held <= m.timers.Keys
    && m.Closed()
  }

  ghost predicate Inv(m: Manager) {
    && m.uniqueID == Int32(m.created)
    && Ownership(m)
    && (forall ref | ref in m.timers :: ref < m.created && TimerInv(m.timers[ref]))
    && (forall id | id in m.tMap :: id == Int32(m.tMap[id]))
  }

  // ----- The manager as an object ----------------------------------------------------------

  class TimerManager {
    var uniqueID: int
    var created: nat
    var tMap: map<int, nat>
    var held: set<nat>
    var timers: map<nat, Timer>

    ghost function State(): Manager
      reads this
    {
      Manager(uniqueID, created, tMap, held, timers)
    }

    constructor ()
      ensures State() == EMPTY
    {
      uniqueID, created, tMap, held, timers := 0, 0, map[], {}, map[];
    }

    method GetTimer() returns (id: int, ref: nat)
      requires Inv(State())
      modifies this
      ensures State() == old(State()).AfterGet()
      ensures id == old(uniqueID) && ref == old(created)
    {
      id := uniqueID;
      uniqueID := if uniqueID == 0x7FFF_FFFF then -0x8000_0000 else uniqueID + 1;
      ref := created;
      created := created + 1;
      timers := timers[ref := NEW_TIMER];
      if id !in tMap {
        tMap := tMap[id := ref];
      }
      held := held + {ref};
    }

    /** A user drops the last pointer to a timer. */
    method Release(ref: nat)
      modifies this
      ensures State() == old(State()).AfterRelease(ref)
    {
      held := held - {ref};
      Collect();
    }

    method KillTimer(id: int)
      modifies this
      ensures State() == old(State()).AfterKill(id)
    {
      tMap := tMap - {id};
      Collect();
    }

    method Collect()
      modifies this
      ensures State() == old(State()).Collected()
    {
      timers := map ref | ref in timers && (ref in held || exists id :: id in tMap && tMap[id] == ref) :: timers[ref];
    }

    /**
     Walks over the map and erases finished timers on the way. The map is unordered: `order`
     lists its ids in the order in which the walk happens to meet them.
     */
    method AuditTimer(order: seq<int>)
      requires State().Closed()
      requires forall id :: id in order <==> id in tMap
      modifies this
      ensures State() == old(State()).AfterAudit()
    {
      ghost var swept := State().Swept();
      for i := 0 to |order|
        invariant forall id :: id in tMap <==> id in old(tMap) && !(id in order[..i] && id in swept)
        invariant forall id | id in tMap :: tMap[id] == old(tMap)[id]
        invariant State() == old(State()).(tMap := tMap)
      {
        var id := order[i];
        assert order[..i + 1] == order[..i] + [id];
        if id in tMap && timers[tMap[id]].IsFinished() {
          tMap := tMap - {id};
        }
      }
      assert order[..|order|] == order;
      ghost var kept := old(tMap) - swept;
      assert forall id :: id in tMap <==> id in kept;
      assert forall id | id in tMap :: tMap[id] == kept[id];
      assert tMap == kept;
      Collect();
    }

    /** Something happens to a timer: a call through a pointer, or its event fires. */
    method OnTimer(ref: nat, s: Timers.Step)
      modifies this
      ensures State() == old(State()).AfterTimer(ref, s)
    {
      if ref in timers {
        timers := timers[ref := AfterStep(timers[ref], s)];
      }
    }
  }

  // ----- Runs ------------------------------------------------------------------------------

  datatype Event =
    | Get
    | Release(ref: nat)
    | Kill(id: int)
    | Audit
    | OnTimer(ref: nat, s: Timers.Step)

  function Step(m: Manager, e: Event): Manager
    requires m.Closed()
  {
    match e
    case Get => m.AfterGet()
    case Release(ref) => m.AfterRelease(ref)
    case Kill(id) => m.AfterKill(id)
    case Audit => m.AfterAudit()
    case OnTimer(ref, s) => m.AfterTimer(ref, s)
  }

  function Run(m: Manager, es: seq<Event>): (r: Manager)
    requires Inv(m)
    ensures Inv(r)
    decreases |es|
  {
    if es == [] then
      m
    else
      StepKeepsInv(m, es[0]);
      Run(Step(m, es[0]), es[1..])
  }

  lemma {:induction false} CollectKeepsInv(m: Manager)
    requires m.uniqueID == Int32(m.created)
    requires forall ref | ref in m.timers :: ref < m.created && TimerInv(m.timers[ref])
    requires forall id | id in m.tMap :: id == Int32(m.tMap[id])
    requires m.held <= m.timers.Keys && m.Closed()
    ensures Inv(m.Collected())
  {
  }

  lemma {:induction false} FewerEntries(m: Manager, ids: set<int>)
    requires Inv(m)
    ensures Inv(m.(tMap := m.tMap - ids).Collected())
  {
    CollectKeepsInv(m.(tMap := m.tMap - ids));
  }

  lemma {:induction false} GetKeepsInv(m: Manager)
    requires Inv(m)
    ensures Inv(m.AfterGet())
  {
    var next := m.AfterGet();
    forall ref | ref in next.timers ensures next.Owned(ref) {
      if ref != m.created && ref !in m.held {
        assert m.Owned(ref);
        var id :| id in m.tMap && m.tMap[id] == ref;
        assert id in next.tMap && next.tMap[id] == ref;
      }
    }
  }

  lemma {:induction false} StepKeepsInv(m: Manager, e: Event)
    requires Inv(m)
    ensures Inv(Step(m, e))
  {
    match e {
      case Get => GetKeepsInv(m);
      case Release(ref) => CollectKeepsInv(m.(held := m.held - {ref}));
      case Kill(id) => FewerEntries(m, {id});
      case Audit => FewerEntries(m, m.Swept());
      case OnTimer(ref, s) =>
        if ref in m.timers {
          EveryRunKeepsInv(m.timers[ref], [s]);
          assert Timers.Run(m.timers[ref], [s]) == AfterStep(m.timers[ref], s) by {
            assert [s][1..] == [];
          }
        }
    }
  }

  lemma {:induction false} EmptyInv()
    ensures Inv(EMPTY)
  {
  }

  /**
   Ownership over every run: a timer exists, and so can fire, exactly while the map or a user
   owns it, and the map files each timer under the id it was created with.
   */
  lemma {:induction false} EveryRunKeepsOwnership(es: seq<Event>)
    ensures var m := (EmptyInv(); Run(EMPTY, es));
            && (forall ref :: ref in m.timers <==> m.Owned(ref))
            && (forall id | id in m.tMap :: m.tMap[id] < m.created && Int32(m.tMap[id]) == id)
            && (forall ref | ref in m.timers :: TimerInv(m.timers[ref]))
  {
    EmptyInv();
  }

  /** The ids are those of a signed 32-bit counter: from 2^31 calls on they are negative. */
  lemma {:induction false} IdsAreSigned(es: seq<Event>)
    ensures var id := (EmptyInv(); Run(EMPTY, es)).uniqueID;
            -0x8000_0000 <= id < 0x8000_0000 && (Gets(es) - id) % 0x1_0000_0000 == 0
  {
    EmptyInv();
    HeldExactlyUntilReleased(es, 0);
    var k, id := Gets(es), Run(EMPTY, es).uniqueID;
    var q := k / 0x1_0000_0000;
    assert k - id == 0x1_0000_0000 * (if id >= 0 then q else q + 1);
  }

  /** Two calls of `getTimer` yield the same id exactly when they are a multiple of 2^32 apart. */
  lemma {:induction false} IdsRepeatEvery32Bits(a: nat, b: nat)
    requires a <= b
    ensures Int32(a) == Int32(b) <==> (b - a) % 0x1_0000_0000 == 0
  {
    var p, q := a / TWO_TO_THE_32, b / TWO_TO_THE_32;
    var m, n := a % TWO_TO_THE_32, b % TWO_TO_THE_32;
    assert b - a == TWO_TO_THE_32 * (q - p) + (n - m);
  }

  /** So up to 2^32 calls an id, once issued, never names another timer, and a new timer is filed. */
  lemma {:induction false} IdNamesOneTimer(es: seq<Event>, ref: nat)
    requires (EmptyInv(); Run(EMPTY, es).created <= TWO_TO_THE_32) && ref < Run(EMPTY, es).created
    ensures var m := Run(EMPTY, es);
            && (Int32(ref) in m.tMap ==> m.tMap[Int32(ref)] == ref)
            && (m.created < TWO_TO_THE_32 ==> m.AfterGet().tMap == m.tMap[m.uniqueID := m.created])
  {
    var m := Run(EMPTY, es);
    var id := Int32(ref);
    if id in m.tMap {
      SameId(m, id, ref);
    }
    if m.uniqueID in m.tMap && m.created < TWO_TO_THE_32 {
      var other := m.tMap[m.uniqueID];
      IdsRepeatEvery32Bits(other, m.created);
    }
  }

  /**
   With no bound on the calls, a new timer is filed exactly when its id is free. An id that is
   taken goes on naming the timer it named, and nothing but the caller's pointer owns the new one.
   */
  lemma {:induction false} FiledExactlyWhenIdIsFree(es: seq<Event>)
    ensures var m := (EmptyInv(); Run(EMPTY, es)); var next := m.AfterGet();
            && (next.Filed(m.created) <==> m.uniqueID !in m.tMap)
            && (forall id | id in m.tMap :: id in next.tMap && next.tMap[id] == m.tMap[id])
            && m.created in next.timers && m.created in next.held
            && (m.uniqueID in m.tMap ==> m.created !in next.AfterRelease(m.created).timers)
  {
    EmptyInv();
    var m := Run(EMPTY, es);
    var next := m.AfterGet();
    if m.uniqueID !in m.tMap {
      assert next.tMap[m.uniqueID] == m.created;
    }
    forall id | id in m.tMap ensures m.tMap[id] != m.created {
      assert m.tMap[id] in m.timers;
    }
  }

  lemma {:induction false} SameId(m: Manager, id: int, ref: nat)
    requires Inv(m) && m.created <= TWO_TO_THE_32 && ref < m.created && Int32(ref) == id && id in m.tMap
    ensures m.tMap[id] == ref
  {
    var other := m.tMap[id];
    assert other in m.timers;
    IdsRepeatEvery32Bits(if other <= ref then other else ref, if other <= ref then ref else other);
  }

  /**
   `killTimer` silences a timer exactly when the map was its only owner; a timer that a user
   still holds goes on unchanged, and so does every other timer.
   */
  lemma {:induction false} KillSilencesExactlyUnheld(m: Manager, id: int)
    requires Inv(m) && id in m.tMap
    ensures var ref := m.tMap[id]; var after := m.AfterKill(id);
            && (ref in after.timers <==> ref in m.held)
            && (forall other | other in m.timers && other != ref :: other in after.timers)
            && (forall other | other in after.timers :: other in m.timers && after.timers[other] == m.timers[other])
            && id !in after.tMap
  {
    var ref, after := m.tMap[id], m.AfterKill(id);
    assert forall twin | twin in m.tMap && m.tMap[twin] == ref :: twin == Int32(ref) == id;
    forall other | other in m.timers && other != ref ensures other in after.timers {
      assert m.Owned(other);
      if other !in m.held {
        var i :| i in m.tMap && m.tMap[i] == other;
        assert i in after.tMap && after.tMap[i] == other;
      }
    }
  }

  // ----- What a manager does to a timer ----------------------------------------------------

  lemma {:induction false} RunAppend(m: Manager, es: seq<Event>, e: Event)
    requires Inv(m)
    ensures Run(m, es + [e]) == Step(Run(m, es), e)
    decreases |es|
  {
    hide Step, Int32;
    if es == [] {
      StepKeepsInv(m, e);
      assert [e][1..] == [] && es + [e] == [e];
    } else {
      assert (es + [e])[1..] == es[1..] + [e];
      StepKeepsInv(m, es[0]);
      RunAppend(Step(m, es[0]), es[1..], e);
    }
  }

  lemma {:induction false} RunJoins(m: Manager, a: seq<Event>, b: seq<Event>)
    requires Inv(m)
    ensures Run(m, a + b) == Run(Run(m, a), b)
    decreases |a|
  {
    hide Step, Int32;
    if a == [] {
      assert a + b == b;
    } else {
      assert (a + b)[1..] == a[1..] + b && (a + b)[0] == a[0];
      StepKeepsInv(m, a[0]);
      RunJoins(Step(m, a[0]), a[1..], b);
    }
  }

  /** What the events do to the timer of the `ref`-th `getTimer`, when `created` were there before. */
  function StepsOf(created: nat, es: seq<Event>, ref: nat): seq<Timers.Step>
    decreases |es|
  {
    if es == [] then
      []
    else if es[0].Get? then
      StepsOf(created + 1, es[1..], ref)
    else if es[0].OnTimer? && es[0].ref == ref && ref < created then
      [es[0].s] + StepsOf(created, es[1..], ref)
    else
      StepsOf(created, es[1..], ref)
  }

  /**
   Every timer runs as if it were alone: in every run, as long as it exists, it is what its own
   calls and firings make of a new timer, whatever is done with the manager and other timers.
   */
  lemma {:induction false} EveryTimerRunsAlone(es: seq<Event>, ref: nat)
    requires ref in (EmptyInv(); Run(EMPTY, es)).timers
    ensures Run(EMPTY, es).timers[ref] == Timers.Run(NEW_TIMER, StepsOf(0, es, ref))
  {
    EmptyInv();
    RunsAlone(EMPTY, es, ref);
  }

  lemma {:induction false} RunsAlone(m: Manager, es: seq<Event>, ref: nat)
    requires Inv(m) && ref in Run(m, es).timers
    ensures ref < m.created ==> ref in m.timers
    ensures Run(m, es).timers[ref] ==
            Timers.Run(if ref < m.created then m.timers[ref] else NEW_TIMER, StepsOf(m.created, es, ref))
    decreases |es|
  {
    ExistsOnceCreated(m, ref);
    if es == [] {
    } else {
      hide Inv, AfterStep, Int32, Step;
      var e, next := es[0], Step(m, es[0]);
      StepKeepsInv(m, e);
      ExistsOnceCreated(next, ref);
      RunsAlone(next, es[1..], ref);
      StepOnTimer(m, e, ref);
      if e.OnTimer? && e.ref == ref && ref < m.created {
        var later := StepsOf(m.created, es[1..], ref);
        assert ([e.s] + later)[0] == e.s && ([e.s] + later)[1..] == later;
      }
    }
  }

  lemma {:induction false} ExistsOnceCreated(m: Manager, ref: nat)
    requires Inv(m)
    ensures ref in m.timers ==> ref < m.created
  {
  }

  lemma {:induction false} StepOnTimer(m: Manager, e: Event, ref: nat)
    requires Inv(m)
    ensures var next := Step(m, e);
            && next.created == m.created + (if e.Get? then 1 else 0)
            && (ref in next.timers ==>
                  if ref < m.created then
                    && ref in m.timers
                    && next.timers[ref] ==
                       if e.OnTimer? && e.ref == ref then AfterStep(m.timers[ref], e.s) else m.timers[ref]
                  else
                    e.Get? && next.timers[ref] == NEW_TIMER)
  {
    hide AfterStep;
  }

  function Gets(es: seq<Event>): nat {
    if es == [] then 0 else Gets(es[..|es| - 1]) + if es[|es| - 1].Get? then 1 else 0
  }

  /** The `i`-th event hands out the timer `ref`, and no later one drops the pointer again. */
  ghost predicate GotAndKept(es: seq<Event>, i: nat, ref: nat) {
    && i < |es| && es[i].Get? && Gets(es[..i]) == ref
    && forall j | i < j < |es| :: es[j] != Release(ref)
  }

  /** A user holds a timer exactly from the `getTimer` that handed it out until its release. */
  lemma {:induction false} HeldExactlyUntilReleased(es: seq<Event>, ref: nat)
    ensures var m := (EmptyInv(); Run(EMPTY, es));
            && m.created == Gets(es)
            && (ref in m.held <==> exists i: nat :: GotAndKept(es, i, ref))
    decreases |es|
  {
    EmptyInv();
    if es == [] {
      assert forall i: nat :: !GotAndKept(es, i, ref);
    } else {
      hide Inv, Gets;
      var n := |es| - 1;
      var before, e := es[..n], es[n];
      assert es == before + [e];
      RunAppend(EMPTY, before, e);
      HeldExactlyUntilReleased(before, ref);
      StepHolds(Run(EMPTY, before), e, ref);
      GetsOneMore(es);
      if i: nat :| GotAndKept(before, i, ref) {
        assert es[..i] == before[..i];
        assert e != Release(ref) ==> GotAndKept(es, i, ref);
        GotBefore(before, i);
      }
      if e.Get? && Gets(before) == ref {
        assert GotAndKept(es, n, ref);
      }
      if i: nat :| GotAndKept(es, i, ref) {
        if i < n {
          assert es[..i] == before[..i];
          assert GotAndKept(before, i, ref);
          assert es[n] != Release(ref);
        }
      }
    }
  }

  lemma {:induction false} GetsOneMore(es: seq<Event>)
    requires es != []
    ensures Gets(es) == Gets(es[..|es| - 1]) + if es[|es| - 1].Get? then 1 else 0
  {
  }

  lemma {:induction false} GotBefore(es: seq<Event>, i: nat)
    requires i < |es| && es[i].Get?
    ensures Gets(es[..i]) < Gets(es)
    decreases |es|
  {
    var n := |es| - 1;
    if i == n {
    } else {
      assert es[..n][..i] == es[..i];
      GotBefore(es[..n], i);
    }
  }

  lemma {:induction false} StepHolds(m: Manager, e: Event, ref: nat)
    requires Inv(m)
    ensures var next := Step(m, e);
            && next.created == m.created + (if e.Get? then 1 else 0)
            && (ref in next.held <==>
                  (ref in m.held && e != Release(ref)) || (e.Get? && m.created == ref))
  {
    hide AfterStep;
  }

  /** The event neither touches the timer nor kills its id. */
  predicate LeavesAlone(e: Event, ref: nat) {
    (e.OnTimer? ==> e.ref != ref) && (e.Kill? ==> e.id != Int32(ref))
  }

  ghost predicate KeptNew(m: Manager, ref: nat) {
    && ref in m.timers && m.timers[ref].event.None? && !m.timers[ref].IsFinished()
    && Int32(ref) in m.tMap && m.tMap[Int32(ref)] == ref
  }

  /**
   A timer that is never started is kept: in every run in which `getTimer` has been called fewer
   than 2^32 times, the timer it hands out has no event and is not finished, and it stays so and
   filed under its id through all further events, audits included, until somebody touches it or
   kills its id. Dropping the pointer to it makes no difference.
   */
  lemma {:induction false} NewTimerIsKept(es: seq<Event>, more: seq<Event>)
    requires Gets(es) < 0x1_0000_0000
    requires forall i | 0 <= i < |more| :: LeavesAlone(more[i], Gets(es))
    ensures var m := (EmptyInv(); Run(EMPTY, es + ([Get] + more)));
            KeptNew(m, Gets(es)) && KeptNew(m.AfterAudit(), Gets(es))
  {
    hide Int32, Step;
    EmptyInv();
    var ref := Gets(es);
    var m := Run(EMPTY, es);
    var get: Event := Get;
    HeldExactlyUntilReleased(es, ref);
    StepKeepsInv(m, get);
    JustGot(es);
    RunJoins(EMPTY, es, [get] + more);
    assert ([get] + more)[0] == get && ([get] + more)[1..] == more;
    StaysKept(Step(m, get), more, ref);
    var last := Run(Step(m, get), more);
    StepKeepsNew(last, Audit, ref);
    AuditIs(last);
  }

  lemma {:induction false} AuditIs(m: Manager)
    requires Inv(m)
    ensures Step(m, Audit) == m.AfterAudit()
  {
  }

  lemma {:induction false} JustGot(es: seq<Event>)
    requires Gets(es) < 0x1_0000_0000
    ensures var m := (EmptyInv(); Run(EMPTY, es)); KeptNew(Step(m, Get), m.created)
  {
    EmptyInv();
    var m := Run(EMPTY, es);
    HeldExactlyUntilReleased(es, 0);
    if m.uniqueID in m.tMap {
      IdsRepeatEvery32Bits(m.tMap[m.uniqueID], m.created);
    }
  }

  lemma {:induction false} StepKeepsNew(m: Manager, e: Event, ref: nat)
    requires Inv(m) && KeptNew(m, ref) && LeavesAlone(e, ref)
    ensures KeptNew(Step(m, e), ref)
  {
    hide AfterStep, Int32;
    var id, next := Int32(ref), Step(m, e);
    assert id in next.tMap && next.tMap[id] == ref;
  }

  lemma {:induction false} StaysKept(m: Manager, es: seq<Event>, ref: nat)
    requires Inv(m) && KeptNew(m, ref)
    requires forall i | 0 <= i < |es| :: LeavesAlone(es[i], ref)
    ensures KeptNew(Run(m, es), ref)
    decreases |es|
  {
    if es == [] {
    } else {
      hide Inv, KeptNew, LeavesAlone, Step;
      StepKeepsInv(m, es[0]);
      StepKeepsNew(m, es[0], ref);
      assert forall i | 0 <= i < |es[1..]| :: es[1..][i] == es[i + 1];
      StaysKept(Step(m, es[0]), es[1..], ref);
    }
  }

  // ----- The audit -------------------------------------------------------------------------

  /** Handlers and calls that start a timer with at least 1 and fewer than 2^64 - 1 rounds. */
  predicate SoundHandler(h: Handler) {
    h.After? ==> 1 <= h.round < TWO_TO_THE_64 - 1 && SoundHandler(h.handler)
  }

  predicate SoundCommand(c: Command) {
    match c
    case Stop => true
    case StartRounds(_, _, round, h) => 1 <= round < TWO_TO_THE_64 - 1 && SoundHandler(h)
    case StartOnce(_, _, h) => SoundHandler(h)
    case StartForever(_, _, h) => SoundHandler(h)
    case StartAfter(_, _, _, round, h) => 1 <= round < TWO_TO_THE_64 - 1 && SoundHandler(h)
    case StartCB(_, _, _) => true
  }

  predicate SoundEvent(e: Event) {
    e.OnTimer? ==>
      match e.s
      case Calling(_, c) => SoundCommand(c)
      case Firing(r) => forall i | 0 <= i < |r.commands| :: SoundCommand(r.commands[i])
  }

  predicate AllSound(es: seq<Event>) {
    forall i | 0 <= i < |es| :: SoundEvent(es[i])
  }

  predicate SoundTimer(t: Timer) {
    1 <= t.round < TWO_TO_THE_64 - 1 && SoundHandler(t.handler)
  }

  lemma {:induction false} DoAllKeepsSound(t: Timer, now: nat, cs: seq<Command>)
    requires SoundTimer(t) && forall i | 0 <= i < |cs| :: SoundCommand(cs[i])
    ensures SoundTimer(t.DoAll(now, cs))
    decreases |cs|
  {
    if cs == [] {
    } else {
      assert SoundTimer(t.Do(now, cs[0]));
      DoAllKeepsSound(t.Do(now, cs[0]), now, cs[1..]);
    }
  }

  lemma {:induction false} FireKeepsSound(t: Timer, r: Response)
    requires SoundTimer(t) && t.event.Some? && t.event.value.pending
    requires forall i | 0 <= i < |r.commands| :: SoundCommand(r.commands[i])
    ensures SoundTimer(t.Fire(r).0)
  {
    DoAllKeepsSound(t.Fired(), t.event.value.due, r.commands);
  }

  ghost predicate AllTimersSound(m: Manager) {
    forall ref | ref in m.timers :: SoundTimer(m.timers[ref])
  }

  lemma {:induction false} StepKeepsSound(m: Manager, e: Event)
    requires m.Closed() && AllTimersSound(m) && SoundEvent(e)
    ensures AllTimersSound(Step(m, e))
  {
    if e.OnTimer? && e.ref in m.timers {
      var t := m.timers[e.ref];
      match e.s {
        case Calling(now, c) =>
          DoAllKeepsSound(t, now, [c]);
          assert [c][1..] == [] && t.DoAll(now, [c]) == t.Do(now, c);
        case Firing(r) =>
          if t.event.Some? && t.event.value.pending {
            FireKeepsSound(t, r);
          }
      }
      assert SoundTimer(AfterStep(t, e.s));
    }
  }

  lemma {:induction false} RunKeepsSound(m: Manager, es: seq<Event>)
    requires Inv(m) && AllTimersSound(m) && AllSound(es)
    ensures AllTimersSound(Run(m, es))
    decreases |es|
  {
    if es == [] {
    } else {
      hide TimerInv, AllTimersSound, SoundEvent, Step, Int32;
      StepKeepsInv(m, es[0]);
      StepKeepsSound(m, es[0]);
      RunKeepsSound(Step(m, es[0]), es[1..]);
    }
  }

  /** A timer whose work is over: it was started and has no event. */
  predicate Over(t: Timer) {
    t.event.None? && !Untouched(t)
  }

  lemma {:induction false} FinishedIs(t: Timer)
    requires TimerInv(t)
    ensures t.IsFinished() <==>
            (t.event.Some? && t.round == 0) || (Over(t) && t.round != TWO_TO_THE_64 - 1)
  {
  }

  /**
   The audit in every run of sound starts: it erases exactly the timers whose work is over, so
   timers that were never started or have an event are kept as they are, and nothing that is
   destroyed had an event to cancel.
   */
  lemma {:induction false} AuditNeverCancels(es: seq<Event>)
    requires AllSound(es)
    ensures var m := (EmptyInv(); Run(EMPTY, es)); var after := m.AfterAudit();
            && (forall id | id in m.tMap :: id in after.tMap <==> !Over(m.timers[m.tMap[id]]))
            && (forall id | id in after.tMap :: id in m.tMap && after.tMap[id] == m.tMap[id])
            && (forall ref | ref in m.timers && !Over(m.timers[ref]) ::
                  ref in after.timers && after.timers[ref] == m.timers[ref])
            && (forall ref | ref in m.timers && ref !in after.timers :: m.timers[ref].event.None?)
  {
    EmptyInv();
    var m := Run(EMPTY, es);
    RunKeepsSound(EMPTY, es);
    forall id | id in m.tMap
      ensures m.tMap[id] in m.timers && m.timers[m.tMap[id]].IsFinished() == Over(m.timers[m.tMap[id]])
    {
      FinishedIs(m.timers[m.tMap[id]]);
    }
    KeepsUnfinished(m);
  }

  lemma {:induction false} KeepsUnfinished(m: Manager)
    requires Inv(m)
    ensures var after := m.AfterAudit();
            forall ref | ref in m.timers && !m.timers[ref].IsFinished() ::
              ref in after.timers && after.timers[ref] == m.timers[ref]
  {
    var after := m.AfterAudit();
    forall ref | ref in m.timers && !m.timers[ref].IsFinished()
      ensures ref in after.timers && after.timers[ref] == m.timers[ref]
    {
      assert m.Owned(ref);
      if ref !in m.held {
        var id :| id in m.tMap && m.tMap[id] == ref;
        assert id in after.tMap && after.tMap[id] == ref;
      }
    }
  }

  /**
   With no restriction on the rounds, a pending event of an existing timer is cancelled by an
   audit exactly when the timer was started with 0 rounds and the map alone owns it.
   */
  lemma {:induction false} AuditCancelsExactlyZeroRounds(m: Manager, ref: nat)
    requires Inv(m) && ref in m.timers && m.timers[ref].event.Some?
    ensures ref !in m.AfterAudit().timers <==> m.timers[ref].round == 0 && ref !in m.held
  {
    FinishedIs(m.timers[ref]);
    KeepsUnfinished(m);
  }

  lemma {:induction false} RestartLeavesNoGap(t: Timer, r: Response)
    requires TimerInv(t) && SoundTimer(t) && t.event.Some? && t.handler.After? && r.outcome == Starts
    ensures var next := t.Fire(r).0;
            TimerInv(next) && next.event.Some? && next.event.value.pending && !next.IsFinished()
  {
    hide TimevalOf, Micros;
    FireKeepsInv(t, r);
  }

  /**
   No audit sees a timer between the delay of its `startAfter` and its first round. In every run
   of sound starts: once the closure has fired and its start has succeeded, an audit keeps the
   timer as it is, with its event pending, and files it as before.
   */
  lemma {:induction false} AuditSeesNoGap(es: seq<Event>, ref: nat, r: Response)
    requires AllSound(es) && r.outcome == Starts
    requires var m := (EmptyInv(); Run(EMPTY, es));
             ref in m.timers && m.timers[ref].event.Some? && m.timers[ref].handler.After?
    ensures var m := (EmptyInv(); Run(EMPTY, es));
            var fired := Step(m, OnTimer(ref, Firing(r)));
            && fired.Closed()
            && var after := fired.AfterAudit();
            && ref in after.timers
            && after.timers[ref] == fired.timers[ref] == m.timers[ref].Fire(r).0
            && after.timers[ref].event.Some? && after.timers[ref].event.value.pending
            && (forall id | id in m.tMap && m.tMap[id] == ref :: id in after.tMap && after.tMap[id] == ref)
  {
    EmptyInv();
    RunKeepsSound(EMPTY, es);
    var m := Run(EMPTY, es);
    RestartLeavesNoGap(m.timers[ref], r);
    StepKeepsInv(m, OnTimer(ref, Firing(r)));
    KeepsUnfinished(Step(m, OnTimer(ref, Firing(r))));
  }
}
