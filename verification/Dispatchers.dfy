/**
 Sessions and their dispatchers (src/translib/tcpSession.cpp, src/translib/tcpServerDispatcher.cpp):
 a FIFO of actions that a frame tick drains into the session map.
 */
module Dispatchers {
  import opened Define

  type SessionId = uint64

  /** An addition, or a removal when the socket is `SOCKET_FD_INVALID`. */
  datatype Action = Action(id: SessionId, sock: int)

  predicate IsAdd(a: Action) {
    a.sock != SOCKET_FD_INVALID
  }

  function Removal(id: SessionId): Action {
    Action(id, SOCKET_FD_INVALID)
  }

  /**
   What happens outside the code while a session is attached: whether the bufferevent is
   created and enabled, and what `onNewSession` pushes on the same dispatcher.
   */
  datatype Surroundings = Surroundings(created: bool, enabled: bool, pushes: seq<Action>)

  const UNEVENTFUL := Surroundings(true, true, [])

  // ----- A dispatcher as a value -----------------------------------------------------------

  /** A map entry: the id, the dispatcher and the descriptor that the stored session itself carries. */
  datatype Entry = Entry(id: SessionId, dispatcher: nat, sock: int)

  /** An action that has been taken from the queue, and whether its session was attached. */
  datatype Done = Done(action: Action, attached: bool)

  datatype Dispatcher = Dispatcher(
    index: nat,
    sessions: map<SessionId, Entry>,
    actions: seq<Action>,
    pushed: seq<Action>,   // everything ever pushed
    drained: seq<Done>)    // everything ever taken
  {
    function AfterPush(a: Action): Dispatcher {
      this.(actions := actions + [a], pushed := pushed + [a])
    }

    /** One trip through the loop of `onFrame`. */
    function AfterOne(w: Surroundings): Dispatcher
      requires actions != []
    {
      var a := actions[0];
      if IsAdd(a) then
        var ok := w.created && w.enabled;
        var pushes := if ok then w.pushes else [];
        Dispatcher(index,
                   if ok then sessions[a.id := Entry(a.id, index, a.sock)] else sessions,
                   actions[1..] + pushes,
                   pushed + pushes,
                   drained + [Done(a, ok)])
      else
        Dispatcher(index, sessions - {a.id}, actions[1..], pushed, drained + [Done(a, false)])
    }

    /** `onFrame`; the script lists the surroundings of the attachments, then nothing happens. */
    function AfterFrame(script: seq<Surroundings>): Dispatcher
      decreases |script|, |actions|
    {
      if actions == [] then
        this
      else if IsAdd(actions[0]) && script != [] then
        AfterOne(script[0]).AfterFrame(script[1..])
      else
        AfterOne(UNEVENTFUL).AfterFrame(script)
    }
  }

  function Actions(drained: seq<Done>): seq<Action> {
    seq(|drained|, i requires 0 <= i < |drained| => drained[i].action)
  }

  /** The map that the drained actions produce, applied one after another to an empty map. */
  function Fold(index: nat, drained: seq<Done>): map<SessionId, Entry> {
    if drained == [] then
      map[]
    else
      var before, last := Fold(index, drained[..|drained| - 1]), drained[|drained| - 1];
      if IsAdd(last.action) then
        if last.attached then before[last.action.id := Entry(last.action.id, index, last.action.sock)] else before
      else
        before - {last.action.id}
  }

  /** Nothing is lost or reordered, and the map is what the drained actions produce. */
  ghost predicate DispatcherInv(d: Dispatcher) {
    && d.pushed == Actions(d.drained) + d.actions
    && d.sessions == Fold(d.index, d.drained)
  }

  lemma {:induction false} OneKeepsInv(d: Dispatcher, w: Surroundings)
    requires DispatcherInv(d) && d.actions != []
    ensures DispatcherInv(d.AfterOne(w))
    ensures d.pushed <= d.AfterOne(w).pushed && d.drained <= d.AfterOne(w).drained
  {
    hide Fold, Actions;
    var next := d.AfterOne(w);
    var last := next.drained[|d.drained|];
    assert next.drained == d.drained + [last] && last.action == d.actions[0];
    FoldLast(d.index, d.drained, last);
    QueueMoves(d.drained, last, d.actions);
    if IsAdd(last.action) && last.attached {
      assert (Actions(next.drained) + d.actions[1..]) + w.pushes == Actions(next.drained) + (d.actions[1..] + w.pushes);
    } else {
      assert d.actions[1..] + [] == d.actions[1..] && d.pushed + [] == d.pushed;
    }
  }

  lemma {:induction false} FoldLast(index: nat, drained: seq<Done>, last: Done)
    ensures var before, after := Fold(index, drained), Fold(index, drained + [last]);
            after == if !IsAdd(last.action) then before - {last.action.id}
                     else if last.attached then before[last.action.id := Entry(last.action.id, index, last.action.sock)]
                     else before
  {
    assert (drained + [last])[..|drained|] == drained;
  }

  lemma {:induction false} QueueMoves(drained: seq<Done>, last: Done, actions: seq<Action>)
    requires actions != [] && last.action == actions[0]
    ensures Actions(drained) + actions == Actions(drained + [last]) + actions[1..]
  {
    assert Actions(drained + [last]) == Actions(drained) + [actions[0]];
  }

  lemma {:induction false} PushKeepsInv(d: Dispatcher, a: Action)
    requires DispatcherInv(d)
    ensures DispatcherInv(d.AfterPush(a))
  {
    assert Actions(d.drained) + (d.actions + [a]) == (Actions(d.drained) + d.actions) + [a];
  }

  /**
   A frame empties the queue, whatever `onNewSession` pushes meanwhile: the drained actions are
   then exactly those ever pushed, in the order of the pushes, and the map is their outcome.
   */
  lemma {:induction false} FrameDrainsEverything(d: Dispatcher, script: seq<Surroundings>)
    requires DispatcherInv(d)
    ensures var after := d.AfterFrame(script);
            && DispatcherInv(after)
            && after.actions == []
            && Actions(after.drained) == after.pushed
            && after.sessions == Fold(d.index, after.drained)
            && d.pushed <= after.pushed && d.drained <= after.drained
    decreases |script|, |d.actions|
  {
    if d.actions == [] {
      assert Actions(d.drained) + [] == Actions(d.drained);
    } else if IsAdd(d.actions[0]) && script != [] {
      OneKeepsInv(d, script[0]);
      FrameDrainsEverything(d.AfterOne(script[0]), script[1..]);
    } else {
      OneKeepsInv(d, UNEVENTFUL);
      FrameDrainsEverything(d.AfterOne(UNEVENTFUL), script);
    }
  }

  /**
   Whether the `i`-th drained action attached a session under `id` that nothing removed since,
   and no other was attached under it.
   */
  ghost predicate AttachedAndKept(drained: seq<Done>, id: SessionId, i: nat) {
    && i < |drained|
    && drained[i].action.id == id && IsAdd(drained[i].action) && drained[i].attached
    && forall j | i < j < |drained| && drained[j].action.id == id ::
         IsAdd(drained[j].action) && !drained[j].attached
  }

  /**
   What the map means: an id is present exactly when some drained addition attached it and no
   later action removed it, and its entry carries that id, this dispatcher and the socket of
   that addition. So a removal
   works exactly when it is queued behind the addition, and is lost when it overtakes it.
   */
  lemma {:induction false} PresentExactlyWhenAttachedAndKept(index: nat, drained: seq<Done>, id: SessionId)
    ensures id in Fold(index, drained) <==> exists i :: AttachedAndKept(drained, id, i)
    ensures forall i: nat | AttachedAndKept(drained, id, i) ::
              id in Fold(index, drained) && Fold(index, drained)[id] == Entry(id, index, drained[i].action.sock)
  {
    if drained == [] {
    } else {
      var n := |drained| - 1;
      var before, last := drained[..n], drained[n];
      PresentExactlyWhenAttachedAndKept(index, before, id);
      if id in Fold(index, drained) {
        if last.action.id == id && last.attached && IsAdd(last.action) {
          assert AttachedAndKept(drained, id, n);
        } else {
          var i :| AttachedAndKept(before, id, i);
          assert AttachedAndKept(drained, id, i);
        }
      }
      forall i: nat | AttachedAndKept(drained, id, i)
        ensures id in Fold(index, drained) && Fold(index, drained)[id] == Entry(id, index, drained[i].action.sock)
      {
        if i < n {
          assert AttachedAndKept(before, id, i);
        }
      }
    }
  }

  // ----- Sessions and dispatchers as objects -----------------------------------------------

  class TcpSession {
    var id: SessionId
    var dispatcher: TcpServerDispatcher?
    var bev: bool
    var sock: int          // the descriptor of `_bev`
    var enabled: bool      // EV_READ | EV_WRITE
    var socketOpen: bool   // the descriptor is open

    constructor ()
      ensures id == SESSION_ID_INVALID && dispatcher == null && !bev && !enabled && !socketOpen
    {
      id, dispatcher, bev, sock := SESSION_ID_INVALID, null, false, SOCKET_FD_INVALID;
      enabled, socketOpen := false, false;
    }

    /** On success `onNewSession` has run and made its pushes. */
    method Attach(d: TcpServerDispatcher, newId: SessionId, sock: int, w: Surroundings) returns (ok: bool)
      requires !bev
      modifies this, d`actions, d`pushed
      ensures ok == bev == enabled == (sock != SOCKET_FD_INVALID && w.created && w.enabled)
      ensures id == newId && dispatcher == d && socketOpen == (sock != SOCKET_FD_INVALID)
      ensures ok ==> this.sock == sock
      ensures ok ==> d.actions == old(d.actions) + w.pushes && d.pushed == old(d.pushed) + w.pushes
      ensures !ok ==> d.actions == old(d.actions) && d.pushed == old(d.pushed)
    {
      id := newId;
      dispatcher := d;
      enabled, socketOpen := false, sock != SOCKET_FD_INVALID;
      if sock == SOCKET_FD_INVALID {
        return false;
      }
      bev := w.created;
      if !bev {
        return false;
      }
      this.sock := sock;
      if !w.enabled {
        bev := false;
        return false;
      }
      enabled := true;
      d.PushAll(w.pushes);
      return true;
    }

    /**
     The peer is gone: nothing is read or written any more, the descriptor is closed, and once
     `onSessionDisconnected` has run and made its pushes the session asks its own dispatcher to
     remove it.
     */
    method HandleEvent(pushes: seq<Action>)
      requires dispatcher != null && bev
      modifies this`enabled, this`socketOpen, dispatcher`actions, dispatcher`pushed
      ensures !enabled && !socketOpen
      ensures dispatcher.actions == old(dispatcher.actions) + pushes + [Removal(id)]
      ensures dispatcher.pushed == old(dispatcher.pushed) + pushes + [Removal(id)]
    {
      enabled := false;
      socketOpen := false;
      dispatcher.PushAll(pushes);
      dispatcher.RemoveSession(id);
    }
  }

  class TcpServerDispatcher {
    const index: nat
    var sessions: map<SessionId, TcpSession>
    var actions: seq<Action>
    ghost var pushed: seq<Action>
    ghost var drained: seq<Done>

    /** Every stored session belongs to this dispatcher. */
    ghost predicate Valid()
      reads this, sessions.Values
    {
      forall k | k in sessions :: sessions[k].dispatcher == this
    }

    ghost function Entries(): map<SessionId, Entry>
      reads this, sessions.Values
    {
      map k | k in sessions :: Entry(sessions[k].id, index, sessions[k].sock)
    }

    ghost function State(): Dispatcher
      reads this, sessions.Values
    {
      Dispatcher(index, Entries(), actions, pushed, drained)
    }

    constructor (index: nat)
      ensures Valid() && this.index == index && State() == Dispatcher(index, map[], [], [], [])
    {
      this.index := index;
      sessions, actions, pushed, drained := map[], [], [], [];
    }

    method GetSession(id: SessionId) returns (session: TcpSession?)
      requires Valid()
      ensures session != null <==> id in State().sessions
      ensures session != null ==>
                && session == sessions[id] && session.dispatcher == this
                && State().sessions[id] == Entry(session.id, index, session.sock)
    {
      session := if id in sessions then sessions[id] else null;
    }

    method Push(a: Action)
      modifies `actions, `pushed
      ensures actions == old(actions) + [a] && pushed == old(pushed) + [a]
    {
      actions := actions + [a];
      pushed := pushed + [a];
    }

    /** User code that runs inside a call of the session makes these pushes. */
    method PushAll(pushes: seq<Action>)
      modifies `actions, `pushed
      ensures actions == old(actions) + pushes && pushed == old(pushed) + pushes
    {
      for i := 0 to |pushes|
        invariant actions == old(actions) + pushes[..i] && pushed == old(pushed) + pushes[..i]
      {
        assert pushes[..i + 1] == pushes[..i] + [pushes[i]];
        Push(pushes[i]);
      }
      assert pushes[..|pushes|] == pushes;
    }

    method AddSession(id: SessionId, sock: int)
      modifies `actions, `pushed
      ensures actions == old(actions) + [Action(id, sock)] && pushed == old(pushed) + [Action(id, sock)]
    {
      Push(Action(id, sock));
    }

    method RemoveSession(id: SessionId)
      modifies `actions, `pushed
      ensures actions == old(actions) + [Removal(id)] && pushed == old(pushed) + [Removal(id)]
    {
      Push(Removal(id));
    }

    method OnFrame(script: seq<Surroundings>)
      requires Valid()
      modifies this
      ensures Valid()
      ensures State() == old(State()).AfterFrame(script)
    {
      var rest := script;
      while actions != []
        invariant Valid()
        invariant State().AfterFrame(rest) == old(State()).AfterFrame(script)
        decreases |rest|, |actions|
      {
        if IsAdd(actions[0]) && rest != [] {
          DrainOne(rest[0]);
          rest := rest[1..];
        } else {
          DrainOne(UNEVENTFUL);
        }
      }
    }

    /** The branch of the loop for an addition. */
    method CreateSession(action: Action, w: Surroundings) returns (ok: bool)
      requires Valid() && IsAdd(action)
      modifies this
      ensures Valid() && drained == old(drained) && ok == (w.created && w.enabled)
      ensures actions == old(actions) + if ok then w.pushes else []
      ensures pushed == old(pushed) + if ok then w.pushes else []
      ensures Entries() ==
              if ok then old(Entries())[action.id := Entry(action.id, index, action.sock)] else old(Entries())
    {
      var session := new TcpSession();
      ok := session.Attach(this, action.id, action.sock, w);
      if ok {
        sessions := sessions[session.id := session];
      }
    }

    /** The body of the loop. */
    method DrainOne(w: Surroundings)
      requires Valid() && actions != []
      modifies this
      ensures Valid()
      ensures State() == old(State()).AfterOne(w)
    {
      var action := actions[0];
      ghost var entries := Entries();
      ghost var attached := false;
      if action.sock != SOCKET_FD_INVALID {
        attached := CreateSession(action, w);
      } else {
        sessions := sessions - {action.id};
        assert Entries() == entries - {action.id};
      }
      actions := actions[1..];
      drained := drained + [Done(action, attached)];
    }
  }
}
