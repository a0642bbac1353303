/**
 The listening server (src/translib/tcpServer.cpp): it issues session ids, routes each to a
 dispatcher, and the dispatchers run independently. First the whole as a step system, then the
 server as objects that take its steps, and then what every run keeps.
 */
module Servers {
  import opened Arithmetic
  import opened Define
  import opened Dispatchers

  /** The index of the dispatcher of an id: 0 is the master, 1 and up are the slavers. */
  function Route(id: SessionId, slavers: nat): (d: nat)
    ensures d <= slavers
  {
    if slavers == 0 then 0 else 1 + id % slavers
  }

  // ----- The server as a step system -------------------------------------------------------

  datatype Event =
    | Accept(sock: int)                       // the listener accepts a socket
    | Elsewhere                               // another server of the process accepts one
    | Remove(d: nat, id: SessionId)           // anyone calls `removeSession` on a dispatcher
    | DrainOne(d: nat, w: Surroundings)       // one trip through the loop of `onFrame`

  /**
   One server of the process with everything it has ever done; `ds[0]` is the master. All
   servers of the process take their ids from the one generator.
   */
  datatype Server = Server(
    generator: SessionId,
    issued: nat,           // how many ids the generator has issued, to any server
    own: map<SessionId, int>,   // the ids that this server was issued, with the sockets they are for
    accepted: nat,         // how many sockets this server has accepted
    ds: seq<Dispatcher>)

  function Fresh(slavers: nat): Server {
    Server(0, 0, map[], 0, seq(slavers + 1, d requires 0 <= d => Dispatcher(d, map[], [], [], [])))
  }

  /** Accepted sockets are real, and `onNewSession` asks for removals only. */
  predicate Real(e: Event) {
    && (e.Accept? ==> e.sock != SOCKET_FD_INVALID)
    && (e.DrainOne? ==> forall i | 0 <= i < |e.w.pushes| :: !IsAdd(e.w.pushes[i]))
  }

  /** An event that cannot happen in a state leaves it as it is. */
  function Step(s: Server, e: Event): Server
    requires s.ds != []
  {
    match e
    case Accept(sock) =>
      var id := (s.generator + 1) % TWO_TO_THE_64;
      var d := Route(id, |s.ds| - 1);
      Server(id, s.issued + 1, s.own[id := sock], s.accepted + 1, s.ds[d := s.ds[d].AfterPush(Action(id, sock))])
    case Elsewhere =>
      s.(generator := (s.generator + 1) % TWO_TO_THE_64, issued := s.issued + 1)
    case Remove(d, id) =>
      if d < |s.ds| then s.(ds := s.ds[d := s.ds[d].AfterPush(Removal(id))]) else s
    case DrainOne(d, w) =>
      if d < |s.ds| && s.ds[d].actions != [] then s.(ds := s.ds[d := s.ds[d].AfterOne(w)]) else s
  }

  function Run(s: Server, es: seq<Event>): (r: Server)
    requires s.ds != []
    ensures |r.ds| == |s.ds|
    decreases |es|
  {
    if es == [] then s else Run(Step(s, es[0]), es[1..])
  }

  predicate AllReal(es: seq<Event>) {
    forall i | 0 <= i < |es| :: Real(es[i])
  }

  function Accepts(es: seq<Event>): nat {
    if es == [] then 0 else (if es[0].Accept? then 1 else 0) + Accepts(es[1..])
  }

  function Elsewheres(es: seq<Event>): nat {
    if es == [] then 0 else (if es[0].Elsewhere? then 1 else 0) + Elsewheres(es[1..])
  }

  predicate Issues(e: Event) {
    e.Accept? || e.Elsewhere?
  }

  /** How many ids the generator issues. */
  function Ids(es: seq<Event>): nat {
    Accepts(es) + Elsewheres(es)
  }

  lemma {:induction false} FreshAlone()
    ensures Fresh(0).ds[1..] == []
  {
  }

  lemma {:induction false} FreshGrows(slavers: nat)
    ensures Fresh(slavers + 1).ds[1..] == Fresh(slavers).ds[1..] + [Dispatcher(slavers + 1, map[], [], [], [])]
  {
  }

  /** The steps that issue an id, unfolded. */
  lemma {:induction false} StepsThatIssue(s: Server, sock: int)
    requires s.ds != []
    ensures Step(s, Elsewhere) == s.(generator := (s.generator + 1) % TWO_TO_THE_64, issued := s.issued + 1)
    ensures var id := (s.generator + 1) % TWO_TO_THE_64;
            var d := Route(id, |s.ds| - 1);
            Step(s, Accept(sock)) ==
            Server(id, s.issued + 1, s.own[id := sock], s.accepted + 1, s.ds[d := s.ds[d].AfterPush(Action(id, sock))])
  {
  }

  // ----- The server as objects -------------------------------------------------------------

  /** The static `s_sessionIdGenerator`, shared by all servers of the process. */
  class SessionIdGenerator {
    var last: SessionId
    ghost var issued: nat

    constructor ()
      ensures last == 0 && issued == 0
    {
      last, issued := 0, 0;
    }

    method Next() returns (id: SessionId)
      modifies this
      ensures id == last == (old(last) + 1) % TWO_TO_THE_64 && issued == old(issued) + 1
    {
      last, issued := (last + 1) % TWO_TO_THE_64, issued + 1;
      id := last;
    }
  }

  class TcpServer {
    const generator: SessionIdGenerator
    const master: TcpServerDispatcher
    var slavers: seq<TcpServerDispatcher>
    ghost var own: map<SessionId, int>
    ghost var accepted: nat

    ghost function Dispatchers(): (ds: seq<TcpServerDispatcher>)
      reads this
    {
      [master] + slavers
    }

    /** The dispatchers are different objects, since each has its own index. */
    ghost predicate Wired()
      reads this
    {
      forall d | 0 <= d < |Dispatchers()| :: Dispatchers()[d].index == d
    }

    ghost function Sessions(): set<TcpSession>
      reads this, Dispatchers()
    {
      set d, k | d in Dispatchers() && k in d.sessions :: d.sessions[k]
    }

    ghost predicate Valid()
      reads this, Dispatchers(), Sessions()
    {
      && Wired()
      && (forall d | 0 <= d < |Dispatchers()| :: Dispatchers()[d].Valid())
    }

    ghost function States(): (states: seq<Dispatcher>)
      reads this, Dispatchers(), Sessions()
      ensures |states| == |Dispatchers()|
      ensures forall d | 0 <= d < |states| :: states[d] == Dispatchers()[d].State()
    {
      seq(|Dispatchers()|, d requires 0 <= d < |Dispatchers()| reads this, Dispatchers(), Sessions() =>
        Dispatchers()[d].State())
    }

    ghost function State(): Server
      reads this, generator, Dispatchers(), Sessions()
    {
      Server(generator.last, generator.issued, own, accepted, States())
    }

    constructor (generator: SessionIdGenerator, threads: uint16)
      ensures Valid() && this.generator == generator
      ensures State() == Fresh(threads).(generator := generator.last, issued := generator.issued)
    {
      this.generator := generator;
      master := new TcpServerDispatcher(0);
      slavers := [];
      own, accepted := map[], 0;
      new;
      SetThreads(threads);
    }

    method SetThreads(threads: uint16)
      requires Valid()
      modifies this`slavers
      ensures Valid()
      ensures if old(slavers) == [] then |slavers| == threads else slavers == old(slavers)
      ensures State().(ds := []) == old(State()).(ds := [])
      ensures State().ds == old(State()).ds + if old(slavers) == [] then Fresh(threads).ds[1..] else []
    {
      if slavers != [] {
        return;
      }
      hide Fresh;
      FreshAlone();
      for i := 0 to threads
        invariant Valid() && |slavers| == i
        invariant States() == old(States()) + Fresh(i).ds[1..]
      {
        ghost var ds, states := Dispatchers(), States();
        var slaver := new TcpServerDispatcher(i + 1);
        slavers := slavers + [slaver];
        assert Dispatchers() == ds + [slaver];
        FreshGrows(i);
        forall d | 0 <= d < |ds| ensures Dispatchers()[d].State() == states[d] {
          assert Dispatchers()[d] == ds[d];
        }
        assert States() == states + [slaver.State()];
      }
    }

    function GetSessionDispatcher(id: SessionId): (d: TcpServerDispatcher)
      reads this
      ensures d == Dispatchers()[Route(id, |slavers|)]
    {
      if slavers == [] then master else slavers[id % |slavers|]
    }

    function At(d: nat): (dispatcher: TcpServerDispatcher)
      requires d <= |slavers|
      reads this
      ensures dispatcher == Dispatchers()[d]
    {
      if d == 0 then master else slavers[d - 1]
    }

    /** What happens to one dispatcher does not touch the others. */
    twostate lemma OneDispatcher(t: nat)
      requires old(Valid()) && t < |Dispatchers()| && slavers == old(slavers)
      requires forall d | 0 <= d < |Dispatchers()| && d != t :: unchanged(Dispatchers()[d])
      requires forall session | session in old(Sessions()) :: unchanged(session)
      requires Dispatchers()[t].Valid()
      ensures Valid()
      ensures States() == old(States())[t := Dispatchers()[t].State()]
    {
      forall d | 0 <= d < |Dispatchers()| && d != t
        ensures Dispatchers()[d].Valid() && Dispatchers()[d].State() == old(Dispatchers()[d].State())
      {
        var at := Dispatchers()[d];
        assert at in old(Dispatchers()) && old(at.Valid());
        assert forall k | k in at.sessions :: at.sessions[k] in old(Sessions());
        assert forall k | k in at.sessions :: unchanged(at.sessions[k]);
      }
    }

    twostate lemma Untouched()
      requires old(Valid()) && slavers == old(slavers)
      requires forall d | 0 <= d < |Dispatchers()| :: unchanged(Dispatchers()[d])
      requires forall session | session in old(Sessions()) :: unchanged(session)
      ensures Valid() && States() == old(States())
    {
      var d := Dispatchers()[0];
      assert d in old(Dispatchers()) && old(d.Valid());
      assert forall k | k in d.sessions :: d.sessions[k] in old(Sessions());
      OneDispatcher(0);
    }

    twostate lemma OnePush(t: nat)
      requires old(Valid()) && t < |Dispatchers()| && slavers == old(slavers)
      requires forall d | 0 <= d < |Dispatchers()| && d != t :: unchanged(Dispatchers()[d])
      requires forall session | session in old(Sessions()) :: unchanged(session)
      requires var d := Dispatchers()[t];
               && d.sessions == old(d.sessions) && d.drained == old(d.drained)
               && |d.pushed| > |old(d.pushed)|
               && d.actions == old(d.actions) + [d.pushed[|old(d.pushed)|]]
               && d.pushed == old(d.pushed) + [d.pushed[|old(d.pushed)|]]
      ensures Valid()
      ensures var a := Dispatchers()[t].pushed[|old(Dispatchers()[t].pushed)|];
              States() == old(States())[t := old(States())[t].AfterPush(a)]
    {
      var d := Dispatchers()[t];
      assert d in old(Dispatchers()) && old(d.Valid());
      assert forall k | k in d.sessions :: d.sessions[k] in old(Sessions());
      var a := d.pushed[|old(d.pushed)|];
      assert forall k | k in d.sessions :: unchanged(d.sessions[k]);
      assert d.State() == old(d.State()).AfterPush(a);
      OneDispatcher(t);
    }

    /** A connection has been accepted on `sock`. */
    method ListenEventCallback(sock: int)
      requires Valid()
      modifies generator, this`own, this`accepted
      modifies GetSessionDispatcher((generator.last + 1) % TWO_TO_THE_64)`actions
      modifies GetSessionDispatcher((generator.last + 1) % TWO_TO_THE_64)`pushed
      ensures Valid() && State() == Step(old(State()), Accept(sock))
    {
      hide Route, Step;
      StepsThatIssue(State(), sock);
      var id := generator.Next();
      var dispatcher := GetSessionDispatcher(id);
      own, accepted := own[id := sock], accepted + 1;
      dispatcher.AddSession(id, sock);
      OnePush(Route(id, |slavers|));
    }

    /** Whatever may happen to the server is a step of the system. */
    method Happen(e: Event)
      requires Valid()
      modifies generator, this`own, this`accepted, Dispatchers()
      ensures Valid() && State() == Step(old(State()), e)
    {
      match e {
        case Accept(sock) => ListenEventCallback(sock);
        case Elsewhere => var _ := generator.Next();
        case Remove(d, id) =>
          if d <= |slavers| {
            At(d).RemoveSession(id);
            OnePush(d);
          }
        case DrainOne(d, w) =>
          if d <= |slavers| {
            assert Dispatchers()[d].Valid();
            if At(d).actions != [] {
              At(d).DrainOne(w);
              OneDispatcher(d);
            }
          }
      }
    }

    /** So every course of events is a run of it. */
    method HappenAll(es: seq<Event>)
      requires Valid()
      modifies generator, this`own, this`accepted, Dispatchers()
      ensures Valid() && State() == Run(old(State()), es)
    {
      var rest := es;
      while rest != []
        invariant Valid() && slavers == old(slavers)
        invariant Run(State(), rest) == Run(old(State()), es)
        decreases |rest|
      {
        Happen(rest[0]);
        rest := rest[1..];
      }
    }
  }

  /** An accept of one server is an accept elsewhere for any other server of the process. */
  method AcceptBeside(server: TcpServer, other: TcpServer, sock: int)
    requires server.Valid() && other.Valid() && server.generator == other.generator
    requires server != other && forall d | d in server.Dispatchers() :: d !in other.Dispatchers()
    modifies other.generator, other`own, other`accepted, other.Dispatchers()
    ensures server.Valid() && server.State() == Step(old(server.State()), Elsewhere)
    ensures other.Valid() && other.State() == Step(old(other.State()), Accept(sock))
  {
    hide Route, Step;
    StepsThatIssue(server.State(), sock);
    StepsThatIssue(other.State(), sock);
    ghost var target := other.GetSessionDispatcher((other.generator.last + 1) % TWO_TO_THE_64);
    assert target in other.Dispatchers();
    assert forall d | 0 <= d < |server.Dispatchers()| :: server.Dispatchers()[d] in server.Dispatchers();
    other.ListenEventCallback(sock);
    server.Untouched();
  }

  // ----- What every run keeps --------------------------------------------------------------

  /** No two additions among the actions have the same id. */
  ghost predicate AddsDistinct(actions: seq<Action>) {
    forall i, j | 0 <= i < j < |actions| && IsAdd(actions[i]) && IsAdd(actions[j]) ::
      actions[i].id != actions[j].id
  }

  /** Position `i` of the history of a dispatcher is the addition of `id`. */
  predicate AddAt(actions: seq<Action>, id: SessionId, i: nat) {
    i < |actions| && IsAdd(actions[i]) && actions[i].id == id
  }

  ghost predicate HasAdd(actions: seq<Action>, id: SessionId) {
    exists i: nat :: AddAt(actions, id, i)
  }

  lemma {:induction false} HasAddConcat(a: seq<Action>, b: seq<Action>, id: SessionId)
    ensures HasAdd(a + b, id) <==> HasAdd(a, id) || HasAdd(b, id)
    ensures AddsDistinct(a + b) ==> !(HasAdd(a, id) && HasAdd(b, id))
  {
    if i: nat :| AddAt(a, id, i) {
      assert AddAt(a + b, id, i);
    }
    if j: nat :| AddAt(b, id, j) {
      assert AddAt(a + b, id, |a| + j);
    }
    if k: nat :| AddAt(a + b, id, k) {
      assert if k < |a| then AddAt(a, id, k) else AddAt(b, id, k - |a|);
    }
  }

  /** Every addition a dispatcher was ever given is of an id of this server that is routed to it. */
  ghost predicate Routed(s: Server, d: nat)
    requires d < |s.ds|
  {
    forall i | 0 <= i < |s.ds[d].pushed| && IsAdd(s.ds[d].pushed[i]) ::
      && s.ds[d].pushed[i].id in s.own && s.ds[d].pushed[i].sock == s.own[s.ds[d].pushed[i].id]
      && Route(s.ds[d].pushed[i].id, |s.ds| - 1) == d
  }

  ghost predicate DispatcherOk(s: Server, d: nat)
    requires d < |s.ds|
  {
    && s.ds[d].index == d
    && DispatcherInv(s.ds[d])
    && AddsDistinct(s.ds[d].pushed)
    && Routed(s, d)
  }

  /** The dispatcher of the id has been given its addition. */
  ghost predicate Issued(s: Server, id: SessionId)
    requires s.ds != []
  {
    HasAdd(s.ds[Route(id, |s.ds| - 1)].pushed, id)
  }

  ghost predicate Inv(s: Server) {
    && s.ds != []
    && s.generator == s.issued
    && s.accepted <= s.issued
    && (forall d | 0 <= d < |s.ds| :: DispatcherOk(s, d))
    && (forall id | id in s.own :: 0 < id <= s.generator && Issued(s, id))
  }

  /** The addition of a new id suits the dispatcher that the id is routed to. */
  lemma {:induction false} NewAddKeepsDispatcher(s: Server, next: Server, d: nat, a: Action)
    requires d < |s.ds| == |next.ds| && DispatcherOk(s, d) && IsAdd(a)
    requires a.id !in s.own && next.own == s.own[a.id := a.sock] && Route(a.id, |s.ds| - 1) == d
    requires next.ds[d] == s.ds[d].AfterPush(a)
    ensures DispatcherOk(next, d)
  {
    PushKeepsInv(s.ds[d], a);
  }

  lemma {:induction false} AcceptKeepsInv(s: Server, sock: int)
    requires Inv(s) && s.issued < TWO_TO_THE_64 - 1 && sock != SOCKET_FD_INVALID
    ensures Inv(Step(s, Accept(sock)))
  {
    hide AddsDistinct, DispatcherInv, Routed;
    var next := Step(s, Accept(sock));
    var target := Route(next.generator, |s.ds| - 1);
    forall d | 0 <= d < |s.ds| ensures DispatcherOk(next, d) {
      assert DispatcherOk(s, d);
      if d == target {
        NewAddKeepsDispatcher(s, next, d, Action(next.generator, sock));
      } else {
        SameDispatcher(s, next, d);
      }
    }
    AcceptIssues(s, sock);
  }

  lemma {:induction false} AcceptIssues(s: Server, sock: int)
    requires Inv(s) && s.issued < TWO_TO_THE_64 - 1 && sock != SOCKET_FD_INVALID
    ensures var next := Step(s, Accept(sock));
            forall id | id in next.own :: 0 < id <= next.generator && Issued(next, id)
  {
    hide DispatcherOk;
    var next := Step(s, Accept(sock));
    var target := Route(next.generator, |s.ds| - 1);
    forall id | id in next.own ensures 0 < id <= next.generator && Issued(next, id) {
      if id == next.generator {
        assert AddAt(next.ds[target].pushed, id, |s.ds[target].pushed|);
      } else {
        KeepsIssued(s, next, id);
      }
    }
  }

  /** Histories only grow, so an issued id stays issued. */
  lemma {:induction false} KeepsIssued(s: Server, next: Server, id: SessionId)
    requires s.ds != [] && |next.ds| == |s.ds| && Issued(s, id)
    requires forall d | 0 <= d < |s.ds| :: s.ds[d].pushed <= next.ds[d].pushed
    ensures Issued(next, id)
  {
    var d := Route(id, |s.ds| - 1);
    var i: nat :| AddAt(s.ds[d].pushed, id, i);
    assert AddAt(next.ds[d].pushed, id, i);
  }

  lemma {:induction false} AppendNoAdds(a: seq<Action>, b: seq<Action>)
    requires AddsDistinct(a) && forall i | 0 <= i < |b| :: !IsAdd(b[i])
    ensures AddsDistinct(a + b)
  {
  }

  /** A dispatcher whose history grew by no additions is as well off as before. */
  lemma {:induction false} NoAddsKeepDispatcher(s: Server, d: nat, next: Dispatcher, pushes: seq<Action>)
    requires d < |s.ds| && DispatcherOk(s, d)
    requires next.index == d && DispatcherInv(next) && next.pushed == s.ds[d].pushed + pushes
    requires forall i | 0 <= i < |pushes| :: !IsAdd(pushes[i])
    ensures DispatcherOk(s.(ds := s.ds[d := next]), d)
  {
    AppendNoAdds(s.ds[d].pushed, pushes);
  }

  lemma {:induction false} OtherStepKeepsInv(s: Server, e: Event)
    requires Inv(s) && Real(e) && !Issues(e)
    ensures Inv(Step(s, e))
  {
    hide AddsDistinct, DispatcherInv, Routed;
    var next := Step(s, e);
    var d := e.d;
    if d < |s.ds| {
      var at := s.ds[d];
      assert DispatcherOk(s, d);
      if e.Remove? {
        PushKeepsInv(at, Removal(e.id));
        NoAddsKeepDispatcher(s, d, at.AfterPush(Removal(e.id)), [Removal(e.id)]);
      } else if at.actions != [] {
        OneKeepsInv(at, e.w);
        var pushes := at.AfterOne(e.w).pushed[|at.pushed|..];
        NoAddsKeepDispatcher(s, d, at.AfterOne(e.w), pushes);
      }
    }
    forall c | 0 <= c < |s.ds| ensures DispatcherOk(next, c) {
      assert DispatcherOk(s, c);
      if c != d {
        SameDispatcher(s, next, c);
      }
    }
    forall id | id in next.own ensures Issued(next, id) {
      KeepsIssued(s, next, id);
    }
  }

  predicate Extends(own: map<SessionId, int>, next: map<SessionId, int>) {
    forall id | id in own :: id in next && next[id] == own[id]
  }

  lemma {:induction false} SameDispatcher(s: Server, next: Server, c: nat)
    requires c < |s.ds| == |next.ds| && DispatcherOk(s, c)
    requires next.ds[c] == s.ds[c] && Extends(s.own, next.own)
    ensures DispatcherOk(next, c)
  {
  }

  lemma {:induction false} ElsewhereKeepsInv(s: Server)
    requires Inv(s) && s.issued < TWO_TO_THE_64 - 1
    ensures Inv(Step(s, Elsewhere))
  {
    hide AddsDistinct, DispatcherInv, Routed;
    var next := Step(s, Elsewhere);
    forall d | 0 <= d < |s.ds| ensures DispatcherOk(next, d) {
      SameDispatcher(s, next, d);
    }
    forall id | id in next.own ensures Issued(next, id) {
      KeepsIssued(s, next, id);
    }
  }

  lemma {:induction false} StepKeepsInv(s: Server, e: Event)
    requires Inv(s) && Real(e) && (Issues(e) ==> s.issued < TWO_TO_THE_64 - 1)
    ensures Inv(Step(s, e))
  {
    if e.Accept? {
      AcceptKeepsInv(s, e.sock);
    } else if e.Elsewhere? {
      ElsewhereKeepsInv(s);
    } else {
      OtherStepKeepsInv(s, e);
    }
  }

  lemma {:induction false} RunKeepsInv(s: Server, es: seq<Event>)
    requires Inv(s) && AllReal(es) && s.issued + Ids(es) < TWO_TO_THE_64
    ensures Inv(Run(s, es))
    ensures Run(s, es).accepted == s.accepted + Accepts(es)
    ensures Run(s, es).issued == s.issued + Ids(es)
    decreases |es|
  {
    if es == [] {
    } else {
      StepKeepsInv(s, es[0]);
      RunKeepsInv(Step(s, es[0]), es[1..]);
    }
  }

  lemma {:induction false} FreshInv(slavers: nat)
    ensures Inv(Fresh(slavers))
  {
    var s := Fresh(slavers);
    forall d | 0 <= d < |s.ds| ensures DispatcherOk(s, d) {
      assert Actions([]) + [] == [];
    }
  }

  /** The `i`-th event is the accept of `sock` that issues the `id`-th id. */
  predicate IssuedAt(es: seq<Event>, i: nat, id: SessionId, sock: int) {
    i < |es| && es[i] == Accept(sock) && Ids(es[..i + 1]) == id
  }

  ghost predicate IssuedOn(es: seq<Event>, id: SessionId, sock: int) {
    exists i: nat :: IssuedAt(es, i, id, sock)
  }

  lemma {:induction false} IssuedOnAppend(es: seq<Event>, e: Event, id: SessionId, sock: int)
    ensures IssuedOn(es + [e], id, sock) <==>
            IssuedOn(es, id, sock) || (e == Accept(sock) && Ids(es) + 1 == id)
  {
    var all := es + [e];
    assert all[..|all|] == all;
    RunAppend(Fresh(0), es, e);
    if i: nat :| IssuedAt(es, i, id, sock) {
      assert all[..i + 1] == es[..i + 1];
      assert IssuedAt(all, i, id, sock);
    }
    if e == Accept(sock) && Ids(es) + 1 == id {
      assert IssuedAt(all, |es|, id, sock);
    }
    if i: nat :| IssuedAt(all, i, id, sock) {
      if i < |es| {
        assert all[..i + 1] == es[..i + 1];
        assert IssuedAt(es, i, id, sock);
      } else {
        assert all[..i + 1] == all;
      }
    }
  }

  /** The ids of a server are those that its own accepts issued, each for the socket accepted then. */
  lemma {:induction false} OwnIdsAreAccepted(slavers: nat, es: seq<Event>, id: SessionId, sock: int)
    requires AllReal(es) && Ids(es) < TWO_TO_THE_64
    ensures var s := Run(Fresh(slavers), es);
            id in s.own && s.own[id] == sock <==> IssuedOn(es, id, sock)
    decreases |es|
  {
    if es == [] {
      assert forall i: nat :: !IssuedAt(es, i, id, sock);
    } else {
      hide Inv, Fresh, Step, IssuedOn;
      var n := |es| - 1;
      var before, e := es[..n], es[n];
      assert es == before + [e];
      FreshInv(slavers);
      assert Fresh(slavers).ds != [] && Fresh(slavers).issued == 0 by {
        FreshSize(slavers);
      }
      RunAppend(Fresh(slavers), before, e);
      RunKeepsInv(Fresh(slavers), before);
      OwnIdsAreAccepted(slavers, before, id, sock);
      IssuedOnAppend(before, e, id, sock);
      StepOwns(Run(Fresh(slavers), before), e);
    }
  }

  /**
   In every run in which the process issues fewer than 2^64 ids, each dispatcher's map is the
   outcome of its drained actions, its queue is the rest of its history, and ids and shards
   agree: a dispatcher's map or queued addition mentions an id only if the id was issued to this
   server, is not 0 and is routed to it, and the stored session carries the id and the
   dispatcher it is found under. The session, or the addition that is to create it, is on the
   very socket that was accepted when the id was issued.
   */
  lemma {:induction false} EveryRunKeepsHistoryAndShards(slavers: nat, es: seq<Event>, d: nat)
    requires AllReal(es) && Ids(es) < TWO_TO_THE_64 && d <= slavers
    ensures var s := Run(Fresh(slavers), es); var at := s.ds[d];
            && at.pushed == Actions(at.drained) + at.actions
            && at.sessions == Fold(d, at.drained)
            && (forall id | id in at.sessions ::
                  && id != SESSION_ID_INVALID && id in s.own
                  && at.sessions[id].id == id && at.sessions[id].dispatcher == d
                  && IssuedOn(es, id, at.sessions[id].sock)
                  && Route(id, slavers) == d)
            && (forall i | 0 <= i < |at.actions| && IsAdd(at.actions[i]) ::
                  && at.actions[i].id != SESSION_ID_INVALID && at.actions[i].id in s.own
                  && IssuedOn(es, at.actions[i].id, at.actions[i].sock)
                  && Route(at.actions[i].id, slavers) == d)
  {
    hide Inv, Actions, Fold, IssuedOn;
    FreshInv(slavers);
    RunKeepsInv(Fresh(slavers), es);
    var s := Run(Fresh(slavers), es);
    MapAndQueue(s, d);
    forall id | id in s.own ensures IssuedOn(es, id, s.own[id]) {
      OwnIdsAreAccepted(slavers, es, id, s.own[id]);
    }
  }

  lemma {:induction false} MapAndQueue(s: Server, d: nat)
    requires Inv(s) && d < |s.ds|
    ensures var at := s.ds[d];
            && at.pushed == Actions(at.drained) + at.actions
            && at.sessions == Fold(d, at.drained)
            && (forall id | id in at.sessions ::
                  && id != SESSION_ID_INVALID && id in s.own
                  && at.sessions[id] == Entry(id, d, s.own[id])
                  && Route(id, |s.ds| - 1) == d)
            && (forall i | 0 <= i < |at.actions| && IsAdd(at.actions[i]) ::
                  && at.actions[i].id != SESSION_ID_INVALID && at.actions[i].id in s.own
                  && at.actions[i].sock == s.own[at.actions[i].id]
                  && Route(at.actions[i].id, |s.ds| - 1) == d)
  {
    hide Route, Fold, Actions, Issued, AddsDistinct;
    var at := s.ds[d];
    assert DispatcherOk(s, d);
    forall id | id in at.sessions
      ensures id != SESSION_ID_INVALID && id in s.own
      ensures at.sessions[id] == Entry(id, d, s.own[id]) && Route(id, |s.ds| - 1) == d
    {
      MappedIsRouted(s, d, id);
    }
    HistoryLength(s, d);
    forall i | 0 <= i < |at.actions| && IsAdd(at.actions[i])
      ensures at.actions[i].id in s.own && at.actions[i].sock == s.own[at.actions[i].id]
      ensures Route(at.actions[i].id, |s.ds| - 1) == d
    {
      assert at.pushed[|at.drained| + i] == at.actions[i];
    }
  }

  lemma {:induction false} MappedIsRouted(s: Server, d: nat, id: SessionId)
    requires d < |s.ds| && DispatcherOk(s, d) && id in s.ds[d].sessions
    ensures id in s.own && Route(id, |s.ds| - 1) == d
    ensures s.ds[d].sessions[id] == Entry(id, d, s.own[id])
  {
    var at := s.ds[d];
    PresentExactlyWhenAttachedAndKept(d, at.drained, id);
    var i: nat :| AttachedAndKept(at.drained, id, i);
    assert at.pushed[i] == at.drained[i].action;
  }

  /** A session is live somewhere exactly when its own dispatcher finds it. */
  lemma {:induction false} OneLookupSuffices(slavers: nat, es: seq<Event>, id: SessionId)
    requires AllReal(es) && Ids(es) < TWO_TO_THE_64
    ensures var s := Run(Fresh(slavers), es);
            id in s.ds[Route(id, slavers)].sessions <==>
            exists d :: 0 <= d < |s.ds| && id in s.ds[d].sessions
  {
    var s := Run(Fresh(slavers), es);
    if d :| 0 <= d < |s.ds| && id in s.ds[d].sessions {
      EveryRunKeepsHistoryAndShards(slavers, es, d);
    }
  }

  /**
   With no bound on the accepts, the last id issued is the number of accepts of all servers of
   the process modulo 2^64; so ids repeat, and the invalid id 0 is issued, from the 2^64-th on
   and not before.
   */
  lemma {:induction false} IdsWrap(slavers: nat, es: seq<Event>)
    ensures Run(Fresh(slavers), es).generator == Ids(es) % 0x1_0000_0000_0000_0000
  {
    GeneratorAfter(Fresh(slavers), es);
  }

  function Advanced(generator: SessionId, accepts: nat): SessionId {
    (generator + accepts) % TWO_TO_THE_64
  }

  lemma {:induction false} AdvancedTwice(generator: SessionId, a: nat, b: nat)
    ensures Advanced(generator, 0) == generator
    ensures Advanced(Advanced(generator, a), b) == Advanced(generator, a + b)
  {
    var k := generator + a;
    assert k + b == TWO_TO_THE_64 * (k / TWO_TO_THE_64) + (k % TWO_TO_THE_64 + b);
  }

  lemma {:induction false} GeneratorStep(s: Server, e: Event)
    requires s.ds != []
    ensures Step(s, e).generator == Advanced(s.generator, if Issues(e) then 1 else 0)
  {
    hide Route, Adds, Fold;
  }

  lemma {:induction false} GeneratorAfter(s: Server, es: seq<Event>)
    requires s.ds != []
    ensures Run(s, es).generator == Advanced(s.generator, Ids(es))
    decreases |es|
  {
    hide Advanced;
    if es == [] {
      AdvancedTwice(s.generator, 0, 0);
    } else {
      hide Route, Adds, Fold;
      GeneratorStep(s, es[0]);
      GeneratorAfter(Step(s, es[0]), es[1..]);
      AdvancedTwice(s.generator, if Issues(es[0]) then 1 else 0, Ids(es[1..]));
    }
  }

  // ----- Several servers in one process ----------------------------------------------------

  /** The same course of events, seen from two servers: what one accepts the other one does not. */
  predicate Beside(es: seq<Event>, fs: seq<Event>) {
    && |es| == |fs|
    && forall i | 0 <= i < |es| ::
         (Issues(es[i]) <==> Issues(fs[i])) && !(es[i].Accept? && fs[i].Accept?)
  }

  lemma {:induction false} BesideTail(es: seq<Event>, fs: seq<Event>)
    requires Beside(es, fs) && es != []
    ensures Beside(es[1..], fs[1..])
    ensures Issues(es[0]) <==> Issues(fs[0])
    ensures !(es[0].Accept? && fs[0].Accept?)
  {
    assert forall i | 0 <= i < |es[1..]| :: es[1..][i] == es[i + 1] && fs[1..][i] == fs[i + 1];
  }

  lemma {:induction false} BesideIds(es: seq<Event>, fs: seq<Event>)
    requires Beside(es, fs)
    ensures Ids(es) == Ids(fs)
  {
    if es == [] {
    } else {
      BesideTail(es, fs);
      BesideIds(es[1..], fs[1..]);
    }
  }

  /**
   Ids name one session in the whole process: no two servers are ever issued the same one, as
   long as the generator does not wrap.
   */
  lemma {:induction false} ServersShareNoId(m: nat, n: nat, es: seq<Event>, fs: seq<Event>)
    requires AllReal(es) && AllReal(fs) && Beside(es, fs) && Ids(es) < TWO_TO_THE_64
    ensures Run(Fresh(m), es).generator == Run(Fresh(n), fs).generator
    ensures Run(Fresh(m), es).own.Keys !! Run(Fresh(n), fs).own.Keys
  {
    FreshInv(m);
    FreshInv(n);
    OwnIdsDisjoint(Fresh(m), Fresh(n), es, fs);
  }

  lemma {:induction false} OwnIdsDisjoint(s: Server, t: Server, es: seq<Event>, fs: seq<Event>)
    requires Inv(s) && Inv(t) && s.generator == t.generator && s.own.Keys !! t.own.Keys
    requires AllReal(es) && AllReal(fs) && Beside(es, fs) && s.issued + Ids(es) < TWO_TO_THE_64
    ensures Run(s, es).generator == Run(t, fs).generator
    ensures Run(s, es).own.Keys !! Run(t, fs).own.Keys
    decreases |es|
  {
    if es == [] {
    } else {
      hide Inv, Route, Beside;
      BesideTail(es, fs);
      BesideIds(es, fs);
      StepOwns(s, es[0]);
      StepOwns(t, fs[0]);
      StepKeepsInv(s, es[0]);
      StepKeepsInv(t, fs[0]);
      OwnIdsDisjoint(Step(s, es[0]), Step(t, fs[0]), es[1..], fs[1..]);
    }
  }

  lemma {:induction false} StepOwns(s: Server, e: Event)
    requires Inv(s) && (Issues(e) ==> s.issued < TWO_TO_THE_64 - 1)
    ensures s.generator == s.issued && s.ds != []
    ensures Step(s, e).generator == Step(s, e).issued == s.generator + if Issues(e) then 1 else 0
    ensures Step(s, e).own == if e.Accept? then s.own[s.generator + 1 := e.sock] else s.own
    ensures s.generator + 1 !in s.own
  {
  }

  // ----- The life of a session id ----------------------------------------------------------

  datatype Life = Unissued | Queued | Live | AttachFailed | Removed

  /** The outcome of the drained actions for one id. */
  function Outcome(id: SessionId, drained: seq<Done>): Life {
    if drained == [] then
      Queued
    else
      var before, last := Outcome(id, drained[..|drained| - 1]), drained[|drained| - 1];
      if last.action.id != id then before
      else if IsAdd(last.action) then (if last.attached then Live else AttachFailed)
      else if before == Live then Removed
      else before
  }

  function LifeOf(s: Server, id: SessionId): Life
    requires s.ds != []
  {
    if id !in s.own then Unissued
    else Outcome(id, s.ds[Route(id, |s.ds| - 1)].drained)
  }

  /** The moves an id may make. */
  predicate Move(a: Life, b: Life) {
    || a == b
    || (a == Unissued && b == Queued)
    || (a == Queued && (b == Live || b == AttachFailed))
    || (a == Live && b == Removed)
  }

  /** Zero or more moves; nothing follows `AttachFailed` or `Removed`. */
  predicate Leads(a: Life, b: Life) {
    || a == b
    || a == Unissued
    || (a == Queued && b != Unissued)
    || (a == Live && b == Removed)
  }

  lemma {:induction false} OutcomeQueued(id: SessionId, drained: seq<Done>)
    ensures Outcome(id, drained) == Queued <==> !HasAdd(Actions(drained), id)
    ensures Outcome(id, drained) != Unissued
  {
    if drained == [] {
    } else {
      var n := |drained| - 1;
      OutcomeQueued(id, drained[..n]);
      SplitLast(drained);
      HasAddConcat(Actions(drained[..n]), [drained[n].action], id);
      assert IsAdd(drained[n].action) && drained[n].action.id == id ==> AddAt([drained[n].action], id, 0);
    }
  }

  lemma {:induction false} SplitLast(drained: seq<Done>)
    requires drained != []
    ensures Actions(drained) == Actions(drained[..|drained| - 1]) + [drained[|drained| - 1].action]
  {
  }

  lemma {:induction false} FoldHasAdd(index: nat, id: SessionId, drained: seq<Done>)
    ensures id in Fold(index, drained) ==> HasAdd(Actions(drained), id)
  {
    PresentExactlyWhenAttachedAndKept(index, drained, id);
    if i: nat :| AttachedAndKept(drained, id, i) {
      assert AddAt(Actions(drained), id, i);
    }
  }

  /** A drained addition is of an id that nothing drained before it had added. */
  lemma {:induction false} LastAddIsNew(index: nat, drained: seq<Done>)
    requires drained != [] && AddsDistinct(Actions(drained)) && IsAdd(drained[|drained| - 1].action)
    ensures var id := drained[|drained| - 1].action.id;
            var before := drained[..|drained| - 1];
            && !HasAdd(Actions(before), id)
            && id !in Fold(index, before)
            && AddsDistinct(Actions(before))
  {
    var n := |drained| - 1;
    var before, last := drained[..n], drained[n].action;
    SplitLast(drained);
    HasAddConcat(Actions(before), [last], last.id);
    assert AddAt([last], last.id, 0);
    FoldHasAdd(index, last.id, before);
    assert Actions(before) == Actions(drained)[..n];
  }

  lemma {:induction false} OutcomeLive(index: nat, id: SessionId, drained: seq<Done>)
    requires AddsDistinct(Actions(drained))
    ensures Outcome(id, drained) == Live <==> id in Fold(index, drained)
  {
    if drained == [] {
    } else {
      var n := |drained| - 1;
      assert Actions(drained[..n]) == Actions(drained)[..n];
      OutcomeLive(index, id, drained[..n]);
      if IsAdd(drained[n].action) {
        LastAddIsNew(index, drained);
      }
    }
  }

  /** Where an id is: queued or in the map of its dispatcher, as its life says. */
  lemma {:induction false} LifeIsWhereItIs(s: Server, id: SessionId)
    requires Inv(s)
    ensures var at := s.ds[Route(id, |s.ds| - 1)];
            && (LifeOf(s, id) == Live <==> id in at.sessions)
            && (LifeOf(s, id) == Queued <==> HasAdd(at.actions, id))
  {
    var d := Route(id, |s.ds| - 1);
    var at := s.ds[d];
    assert DispatcherOk(s, d);
    var done := Actions(at.drained);
    assert done == at.pushed[..|done|];
    OutcomeLive(d, id, at.drained);
    OutcomeQueued(id, at.drained);
    FoldHasAdd(d, id, at.drained);
    HasAddConcat(done, at.actions, id);
    if id in s.own {
      assert Issued(s, id);
    } else {
      assert forall i: nat :: AddAt(at.pushed, id, i) ==> id in s.own;
    }
  }

  lemma {:induction false} DrainedDistinct(at: Dispatcher, w: Surroundings)
    requires DispatcherInv(at) && AddsDistinct(at.pushed) && at.actions != []
    ensures AddsDistinct(Actions(at.AfterOne(w).drained))
  {
    hide Fold;
    var next := at.AfterOne(w).drained;
    assert Actions(next) == Actions(at.drained) + [at.actions[0]];
    assert Actions(next) == at.pushed[..|next|];
  }

  lemma {:induction false} OutcomeMoves(at: Dispatcher, w: Surroundings, id: SessionId)
    requires DispatcherInv(at) && AddsDistinct(at.pushed) && at.actions != []
    ensures Outcome(id, at.drained) != Unissued && Outcome(id, at.AfterOne(w).drained) != Unissued
    ensures Move(Outcome(id, at.drained), Outcome(id, at.AfterOne(w).drained))
  {
    hide Fold, HasAdd;
    var next := at.AfterOne(w).drained;
    assert next[..|at.drained|] == at.drained;
    OutcomeQueued(id, at.drained);
    OutcomeQueued(id, next);
    DrainedDistinct(at, w);
    if IsAdd(at.actions[0]) {
      hide AddsDistinct, DispatcherInv;
      LastAddIsNew(at.index, next);
    }
  }

  /** One step moves every id along the life cycle. */
  lemma {:induction false} StepMovesLife(s: Server, e: Event, id: SessionId)
    requires Inv(s) && Real(e) && (Issues(e) ==> s.issued < TWO_TO_THE_64 - 1)
    ensures Move(LifeOf(s, id), LifeOf(Step(s, e), id))
  {
    var d := Route(id, |s.ds| - 1);
    var at := s.ds[d];
    assert DispatcherOk(s, d);
    if e.Accept? && id == s.generator + 1 {
      assert !HasAdd(at.pushed, id);
      HasAddConcat(Actions(at.drained), at.actions, id);
      OutcomeQueued(id, at.drained);
    } else if e.DrainOne? && e.d == d && at.actions != [] {
      OutcomeMoves(at, e.w, id);
    }
  }

  /**
   Over any continuation of any run an id only moves forward: it is issued once, a failed
   attachment or a removal is final, and it never becomes live a second time.
   */
  lemma {:induction false} NeverLiveAgain(s: Server, es: seq<Event>, id: SessionId)
    requires Inv(s) && AllReal(es) && s.issued + Ids(es) < TWO_TO_THE_64
    ensures Leads(LifeOf(s, id), LifeOf(Run(s, es), id))
    decreases |es|
  {
    if es == [] {
    } else {
      StepKeepsInv(s, es[0]);
      StepMovesLife(s, es[0], id);
      NeverLiveAgain(Step(s, es[0]), es[1..], id);
    }
  }

  /** Histories grow and positions in them are final. */
  lemma {:induction false} HistoriesGrow(s: Server, es: seq<Event>, d: nat)
    requires Inv(s) && AllReal(es) && s.issued + Ids(es) < TWO_TO_THE_64 && d < |s.ds|
    ensures s.ds[d].pushed <= Run(s, es).ds[d].pushed
    ensures s.ds[d].drained <= Run(s, es).ds[d].drained
    decreases |es|
  {
    if es == [] {
    } else {
      StepKeepsInv(s, es[0]);
      if es[0].DrainOne? && es[0].d == d && s.ds[d].actions != [] {
        assert DispatcherOk(s, d);
        OneKeepsInv(s.ds[d], es[0].w);
      }
      HistoriesGrow(Step(s, es[0]), es[1..], d);
    }
  }

  /**
   In every reachable state, once a dispatcher has drained a removal that was pushed behind the
   addition of the same id, that session is gone for good (or could never be attached).
   */
  lemma {:induction false} RemovalBehindAddIsFinal(s: Server, id: SessionId, i: nat, p: nat)
    requires Inv(s)
    requires var at := s.ds[Route(id, |s.ds| - 1)];
             AddAt(at.pushed, id, i) && i < p < |at.drained| <= |at.pushed| && at.pushed[p] == Removal(id)
    ensures LifeOf(s, id) == Removed || LifeOf(s, id) == AttachFailed
  {
    var d := Route(id, |s.ds| - 1);
    var drained := s.ds[d].drained;
    assert DispatcherOk(s, d);
    assert Actions(drained) == s.ds[d].pushed[..|drained|];
    assert drained[i].action == Actions(drained)[i] && drained[p].action == Actions(drained)[p];
    RemovedBehindAdd(d, drained, id, i, p);
    LifeIsWhereItIs(s, id);
    assert AddAt(Actions(drained), id, i);
    HasAddConcat(Actions(drained), s.ds[d].actions, id);
    assert HasAdd(Actions(drained), id);
    OutcomeQueued(id, drained);
  }

  /**
   A removal asked for through a session cannot overtake its own addition: the session exists
   only once its addition has been taken from the queue, so the removal is behind it, and as
   soon as the dispatcher has drained up to the removal the session is gone for good.
   */
  lemma {:induction false} RemovalThroughSessionWorks(s: Server, id: SessionId, es: seq<Event>)
    requires Inv(s) && LifeOf(s, id) == Live
    requires AllReal(es) && s.issued + Ids(es) < TWO_TO_THE_64
    ensures var d := Route(id, |s.ds| - 1);
            var after := Run(Step(s, Remove(d, id)), es);
            |s.ds[d].pushed| < |after.ds[d].drained| ==> LifeOf(after, id) == Removed
  {
    hide Outcome, Fold, Leads, AddsDistinct, Routed, Issued;
    var d := Route(id, |s.ds| - 1);
    var p := |s.ds[d].pushed|;
    var asked := Step(s, Remove(d, id));
    StepKeepsInv(s, Remove(d, id));
    HistoriesGrow(asked, es, d);
    RunKeepsInv(asked, es);
    var after := Run(asked, es);
    if p < |after.ds[d].drained| {
      assert DispatcherOk(after, d);
      var i := AddedBefore(s, id);
      assert asked.ds[d].pushed[p] == after.ds[d].pushed[p];
      RemovalBehindAddIsFinal(after, id, i, p);
      StaysAttached(asked, es, id);
    }
  }

  lemma {:induction false} AddedBefore(s: Server, id: SessionId) returns (i: nat)
    requires Inv(s) && LifeOf(s, id) == Live
    ensures AddAt(s.ds[Route(id, |s.ds| - 1)].pushed, id, i)
  {
    assert Issued(s, id);
    i :| AddAt(s.ds[Route(id, |s.ds| - 1)].pushed, id, i);
  }

  lemma {:induction false} StaysAttached(s: Server, es: seq<Event>, id: SessionId)
    requires Inv(s) && LifeOf(s, id) == Live
    requires AllReal(es) && s.issued + Ids(es) < TWO_TO_THE_64
    ensures LifeOf(Run(s, es), id) != AttachFailed
  {
    NeverLiveAgain(s, es, id);
  }

  lemma {:induction false} HistoryLength(s: Server, d: nat)
    requires Inv(s) && d < |s.ds|
    ensures var at := s.ds[d];
            && |at.pushed| == |at.drained| + |at.actions|
            && forall i | 0 <= i < |at.actions| :: at.pushed[|at.drained| + i] == at.actions[i]
  {
    hide Fold, AddsDistinct, Routed, Issued;
    assert DispatcherOk(s, d);
  }

  /** The same for a removal that `onNewSession` pushes while its session is being attached. */
  lemma {:induction false} RemovalDuringAttachWorks(
      s: Server, id: SessionId, sock: int, w: Surroundings, es: seq<Event>)
    requires Inv(s) && AllReal([DrainOne(Route(id, |s.ds| - 1), w)] + es)
    requires s.issued + Ids(es) < TWO_TO_THE_64
    requires var at := s.ds[Route(id, |s.ds| - 1)];
             && at.actions != [] && at.actions[0] == Action(id, sock) && sock != SOCKET_FD_INVALID
             && w.created && w.enabled && Removal(id) in w.pushes
    ensures var d := Route(id, |s.ds| - 1);
            var after := Run(Step(s, DrainOne(d, w)), es);
            |s.ds[d].pushed| + |w.pushes| <= |after.ds[d].drained| ==> LifeOf(after, id) == Removed
  {
    hide Outcome, Fold, Leads, DispatcherInv, AddsDistinct, Routed, Issued, Route;
    var d := Route(id, |s.ds| - 1);
    var e := DrainOne(d, w);
    assert ([e] + es)[0] == e && forall k | 0 <= k < |es| :: ([e] + es)[k + 1] == es[k];
    var attached := Step(s, e);
    StepKeepsInv(s, e);
    var i, p := RemovalIsBehind(s, id, sock, w);
    HistoriesGrow(attached, es, d);
    RunKeepsInv(attached, es);
    var after := Run(attached, es);
    HistoryLength(after, d);
    LiveAfterAttach(s, id, sock, w);
    StaysAttached(attached, es, id);
    if |s.ds[d].pushed| + |w.pushes| <= |after.ds[d].drained| {
      assert after.ds[d].pushed[i] == attached.ds[d].pushed[i];
      assert after.ds[d].pushed[p] == attached.ds[d].pushed[p];
      RemovalBehindAddIsFinal(after, id, i, p);
    }
  }

  lemma {:induction false} RemovalIsBehind(s: Server, id: SessionId, sock: int, w: Surroundings)
    returns (i: nat, p: nat)
    requires Inv(s) && sock != SOCKET_FD_INVALID
    requires var at := s.ds[Route(id, |s.ds| - 1)];
             at.actions != [] && at.actions[0] == Action(id, sock)
             && w.created && w.enabled && Removal(id) in w.pushes
    ensures var d := Route(id, |s.ds| - 1);
            var pushed := Step(s, DrainOne(d, w)).ds[d].pushed;
            && i < p < |pushed| == |s.ds[d].pushed| + |w.pushes|
            && AddAt(pushed, id, i) && pushed[p] == Removal(id)
  {
    hide Inv, Route, Fold;
    var d := Route(id, |s.ds| - 1);
    var at := s.ds[d];
    HistoryLength(s, d);
    var q :| 0 <= q < |w.pushes| && w.pushes[q] == Removal(id);
    i, p := |at.drained|, |at.pushed| + q;
    assert at.pushed[i] == at.actions[0];
    assert Step(s, DrainOne(d, w)).ds[d].pushed == at.pushed + w.pushes;
  }

  lemma {:induction false} LiveAfterAttach(s: Server, id: SessionId, sock: int, w: Surroundings)
    requires Inv(s) && Real(DrainOne(Route(id, |s.ds| - 1), w))
    requires var at := s.ds[Route(id, |s.ds| - 1)];
             && at.actions != [] && at.actions[0] == Action(id, sock) && sock != SOCKET_FD_INVALID
             && w.created && w.enabled
    ensures LifeOf(Step(s, DrainOne(Route(id, |s.ds| - 1), w)), id) == Live
  {
    var d := Route(id, |s.ds| - 1);
    StepKeepsInv(s, DrainOne(d, w));
    LifeIsWhereItIs(Step(s, DrainOne(d, w)), id);
  }

  lemma {:induction false} RemovedBehindAdd(index: nat, drained: seq<Done>, id: SessionId, i: nat, p: nat)
    requires AddsDistinct(Actions(drained))
    requires i < p < |drained| && drained[p].action == Removal(id)
    requires drained[i].action.id == id && IsAdd(drained[i].action)
    ensures id !in Fold(index, drained)
  {
    PresentExactlyWhenAttachedAndKept(index, drained, id);
    forall k: nat ensures !AttachedAndKept(drained, id, k) {
      if AddAt(Actions(drained), id, k) {
        assert Actions(drained)[i] == drained[i].action && Actions(drained)[k] == drained[k].action;
        assert k == i;
      }
    }
  }

  // ----- Conservation and balance ----------------------------------------------------------

  function Adds(actions: seq<Action>): nat {
    if actions == [] then 0
    else Adds(actions[..|actions| - 1]) + if IsAdd(actions[|actions| - 1]) then 1 else 0
  }

  /** Additions that could not be attached. */
  function Failures(drained: seq<Done>): nat {
    if drained == [] then 0
    else
      var last := drained[|drained| - 1];
      Failures(drained[..|drained| - 1]) + if IsAdd(last.action) && !last.attached then 1 else 0
  }

  /** Removals that found their session in the map. */
  function Removals(index: nat, drained: seq<Done>): nat {
    if drained == [] then 0
    else
      var before, last := drained[..|drained| - 1], drained[|drained| - 1];
      Removals(index, before) +
      if !IsAdd(last.action) && last.action.id in Fold(index, before) then 1 else 0
  }

  lemma {:induction false} AddsConcat(a: seq<Action>, b: seq<Action>)
    ensures Adds(a + b) == Adds(a) + Adds(b)
  {
    if b == [] {
      assert a + b == a;
    } else {
      assert (a + b)[..|a + b| - 1] == a + b[..|b| - 1];
      AddsConcat(a, b[..|b| - 1]);
    }
  }

  lemma {:induction false} DrainedAccount(index: nat, drained: seq<Done>)
    requires AddsDistinct(Actions(drained))
    ensures Adds(Actions(drained)) == |Fold(index, drained)| + Removals(index, drained) + Failures(drained)
  {
    if drained == [] {
    } else {
      var n := |drained| - 1;
      var before, last := drained[..n], drained[n];
      assert Actions(before) == Actions(drained)[..n];
      DrainedAccount(index, before);
      var sessions := Fold(index, before);
      SplitLast(drained);
      if IsAdd(last.action) {
        LastAddIsNew(index, drained);
      } else if last.action.id in sessions {
        assert (sessions - {last.action.id}).Keys == sessions.Keys - {last.action.id};
        assert |sessions.Keys - {last.action.id}| == |sessions.Keys| - 1;
      } else {
        assert sessions - {last.action.id} == sessions;
      }
    }
  }

  /** One dispatcher's share: queued, live, removed and failed. */
  function Share(d: Dispatcher): nat {
    Adds(d.actions) + |d.sessions| + Removals(d.index, d.drained) + Failures(d.drained)
  }

  function Shares(ds: seq<Dispatcher>): nat {
    if ds == [] then 0 else Share(ds[0]) + Shares(ds[1..])
  }

  function AddsEver(ds: seq<Dispatcher>): nat {
    if ds == [] then 0 else Adds(ds[0].pushed) + AddsEver(ds[1..])
  }

  lemma {:induction false} AddsEverUpdate(ds: seq<Dispatcher>, d: nat, x: Dispatcher)
    requires d < |ds|
    ensures AddsEver(ds[d := x]) == AddsEver(ds) - Adds(ds[d].pushed) + Adds(x.pushed)
  {
    if d == 0 {
      assert ds[d := x][1..] == ds[1..];
    } else {
      assert ds[d := x][1..] == ds[1..][d - 1 := x];
      AddsEverUpdate(ds[1..], d - 1, x);
    }
  }

  lemma {:induction false} NoAdds(actions: seq<Action>)
    requires forall i | 0 <= i < |actions| :: !IsAdd(actions[i])
    ensures Adds(actions) == 0
  {
    if actions == [] {
    } else {
      NoAdds(actions[..|actions| - 1]);
    }
  }

  lemma {:induction false} StepCountsAdds(s: Server, e: Event)
    requires s.ds != [] && Real(e)
    ensures AddsEver(Step(s, e).ds) == AddsEver(s.ds) + if e.Accept? then 1 else 0
  {
    hide AddsEver, Fold, Route;
    match e {
      case Accept(sock) =>
        var id := (s.generator + 1) % TWO_TO_THE_64;
        var d := Route(id, |s.ds| - 1);
        AddsConcat(s.ds[d].pushed, [Action(id, sock)]);
        AddsEverUpdate(s.ds, d, s.ds[d].AfterPush(Action(id, sock)));
      case Elsewhere =>
      case Remove(d, id) =>
        if d < |s.ds| {
          AddsConcat(s.ds[d].pushed, [Removal(id)]);
          AddsEverUpdate(s.ds, d, s.ds[d].AfterPush(Removal(id)));
        }
      case DrainOne(d, w) =>
        if d < |s.ds| && s.ds[d].actions != [] {
          NoAdds(w.pushes);
          AddsConcat(s.ds[d].pushed, w.pushes);
          assert s.ds[d].pushed + [] == s.ds[d].pushed;
          AddsEverUpdate(s.ds, d, s.ds[d].AfterOne(w));
        }
    }
  }

  lemma {:induction false} RunCountsAdds(s: Server, es: seq<Event>)
    requires s.ds != [] && AllReal(es)
    ensures AddsEver(Run(s, es).ds) == AddsEver(s.ds) + Accepts(es)
    decreases |es|
  {
    if es == [] {
    } else {
      StepCountsAdds(s, es[0]);
      RunCountsAdds(Step(s, es[0]), es[1..]);
    }
  }

  lemma {:induction false} SharesAreAdds(ds: seq<Dispatcher>)
    requires forall d | 0 <= d < |ds| :: DispatcherInv(ds[d]) && AddsDistinct(ds[d].pushed)
    ensures Shares(ds) == AddsEver(ds)
  {
    if ds == [] {
    } else {
      var d := ds[0];
      AddsConcat(Actions(d.drained), d.actions);
      assert Actions(d.drained) == d.pushed[..|d.drained|];
      DrainedAccount(d.index, d.drained);
      SharesAreAdds(ds[1..]);
    }
  }

  lemma {:induction false} FreshAddsNothing(ds: seq<Dispatcher>)
    requires forall d | 0 <= d < |ds| :: ds[d].pushed == []
    ensures AddsEver(ds) == 0
  {
    if ds == [] {
    } else {
      FreshAddsNothing(ds[1..]);
    }
  }

  /**
   Conservation: at every moment of every run the accepted sockets are the queued additions,
   the live sessions, the removed sessions and the failed attachments of all dispatchers.
   */
  lemma {:induction false} SocketsAreConserved(slavers: nat, es: seq<Event>)
    requires AllReal(es) && Ids(es) < TWO_TO_THE_64
    ensures Run(Fresh(slavers), es).accepted == Shares(Run(Fresh(slavers), es).ds)
  {
    FreshInv(slavers);
    RunKeepsInv(Fresh(slavers), es);
    RunCountsAdds(Fresh(slavers), es);
    FreshAddsNothing(Fresh(slavers).ds);
    var s := Run(Fresh(slavers), es);
    forall d | 0 <= d < |s.ds| ensures DispatcherInv(s.ds[d]) && AddsDistinct(s.ds[d].pushed) {
      assert DispatcherOk(s, d);
    }
    SharesAreAdds(s.ds);
  }

  /** How many of the ids first + 1, ..., first + k have remainder `r`. */
  function CountMod(first: nat, k: nat, n: nat, r: nat): nat
    requires n > 0
  {
    if k == 0 then 0 else CountMod(first, k - 1, n, r) + if (first + k) % n == r then 1 else 0
  }

  lemma {:induction false} CountSplit(first: nat, j: nat, k: nat, n: nat, r: nat)
    requires n > 0
    ensures CountMod(first, j + k, n, r) == CountMod(first, j, n, r) + CountMod(first + j, k, n, r)
  {
    if k == 0 {
    } else {
      CountSplit(first, j, k - 1, n, r);
    }
  }

  /** Two numbers with the same remainder are a multiple of the divisor apart. */
  lemma {:induction false} SameRemainder(x: nat, y: nat, n: nat)
    requires 0 < n && x < y && x % n == y % n
    ensures n <= y - x
  {
    DivMod(x, n);
    DivMod(y, n);
    Multiple(y / n, x / n, n);
  }

  predicate Hit(first: nat, j: nat, n: nat, r: nat)
    requires n > 0
  {
    (first + j) % n == r
  }

  lemma {:induction false} CountShort(first: nat, k: nat, n: nat, r: nat)
    requires 0 < n && k <= n
    ensures CountMod(first, k, n, r) <= 1
    ensures forall j | 0 < j <= k && Hit(first, j, n, r) :: CountMod(first, k, n, r) == 1
    ensures (forall j | 0 < j <= k :: !Hit(first, j, n, r)) ==> CountMod(first, k, n, r) == 0
  {
    if k == 0 {
    } else {
      CountShort(first, k - 1, n, r);
      if Hit(first, k, n, r) {
        forall j | 0 < j <= k - 1 ensures !Hit(first, j, n, r) {
          if Hit(first, j, n, r) {
            SameRemainder(first + j, first + k, n);
          }
        }
      }
    }
  }

  /** Among `n` consecutive numbers every remainder occurs. */
  lemma {:induction false} SomeRemainder(first: nat, n: nat, r: nat) returns (j: nat)
    requires r < n
    ensures 0 < j <= n && Hit(first, j, n, r)
  {
    var q, m := first / n, first % n;
    assert first == q * n + m;
    if m < r {
      j := r - m;
      assert first + j == q * n + r;
      RemainderOf(q, n, r);
    } else {
      j := n + r - m;
      assert first + j == (q + 1) * n + r;
      RemainderOf(q + 1, n, r);
    }
  }

  lemma {:induction false} CountRound(first: nat, n: nat, r: nat)
    requires r < n
    ensures CountMod(first, n, n, r) == 1
  {
    var j := SomeRemainder(first, n, r);
    CountShort(first, n, n, r);
  }

  /** The least integer that is not below `k / n`. */
  function Ceiling(k: nat, n: nat): nat
    requires n > 0
  {
    (k + n - 1) / n
  }

  lemma {:induction false} QuotientStep(k: nat, n: nat)
    requires 0 < n <= k
    ensures k / n == (k - n) / n + 1
  {
    RemainderOf((k - n) / n + 1, n, (k - n) % n);
    assert k == ((k - n) / n + 1) * n + (k - n) % n;
  }

  /** Balance: of any `k` consecutive ids each of `n` slavers gets floor(k/n) or ceiling(k/n). */
  lemma {:induction false} ConsecutiveIdsBalance(first: nat, k: nat, n: nat, r: nat)
    requires r < n
    ensures k / n <= CountMod(first, k, n, r) <= Ceiling(k, n) <= k / n + 1
    decreases k
  {
    if k < n {
      CountShort(first, k, n, r);
      RemainderOf(0, n, k);
      if k == 0 {
        RemainderOf(0, n, n - 1);
      } else {
        RemainderOf(1, n, k - 1);
      }
    } else {
      CountSplit(first, n, k - n, n, r);
      CountRound(first, n, r);
      ConsecutiveIdsBalance(first + n, k - n, n, r);
      QuotientStep(k, n);
      QuotientStep(k + n - 1, n);
    }
  }

  /** An id adds one to the count of the slaver it is routed to and nothing to the others. */
  lemma {:induction false} NextIdCounts(generator: nat, n: nat, r: nat)
    requires r < n && generator + 1 < TWO_TO_THE_64
    ensures CountMod(0, generator + 1, n, r) ==
            CountMod(0, generator, n, r) + if Route(generator + 1, n) == r + 1 then 1 else 0
  {
    assert 0 + (generator + 1) == generator + 1;
  }

  lemma {:induction false} AddsOne(pushed: seq<Action>, a: Action)
    ensures Adds(pushed + [a]) == Adds(pushed) + if IsAdd(a) then 1 else 0
  {
    AddsConcat(pushed, [a]);
    assert [a][..0] == [];
  }

  /** How many sessions a slaver has been given. */
  function Given(s: Server, r: nat): nat
    requires r < |s.ds| - 1
  {
    Adds(s.ds[r + 1].pushed)
  }

  lemma {:induction false} SlaverStep(s: Server, e: Event, r: nat)
    requires r < |s.ds| - 1 && Real(e) && (e.Accept? ==> s.generator < TWO_TO_THE_64 - 1)
    ensures |Step(s, e).ds| == |s.ds|
    ensures Given(Step(s, e), r) ==
            Given(s, r) + if e.Accept? && Route(s.generator + 1, |s.ds| - 1) == r + 1 then 1 else 0
  {
    hide Route, Adds;
    var pushed := s.ds[r + 1].pushed;
    match e {
      case Accept(sock) =>
        AddsOne(pushed, Action(s.generator + 1, sock));
      case Elsewhere =>
      case Remove(t, id) =>
        AddsOne(pushed, Removal(id));
      case DrainOne(t, w) =>
        NoAdds(w.pushes);
        AddsConcat(pushed, w.pushes);
        assert pushed + [] == pushed;
    }
  }

  /**
   A slaver has been given the ids that are routed to it, up to those that went to other servers.
   The bounds are exact when none did.
   */
  ghost predicate GivenItsIds(s: Server, r: nat)
    requires r < |s.ds| - 1
  {
    var routed := CountMod(0, s.generator, |s.ds| - 1, r);
    routed - (s.issued - s.accepted) <= Given(s, r) <= routed
  }

  lemma {:induction false} SlaverGetsItsIds(s: Server, es: seq<Event>, r: nat)
    requires Inv(s) && AllReal(es) && s.issued + Ids(es) < TWO_TO_THE_64
    requires r < |s.ds| - 1 && GivenItsIds(s, r)
    ensures GivenItsIds(Run(s, es), r)
    decreases |es|
  {
    if es == [] {
    } else {
      hide Inv, GivenItsIds, Route, Step, Real;
      var next := Step(s, es[0]);
      StepKeepsInv(s, es[0]);
      IssuesOne(s, es[0]);
      StepGivesIds(s, es[0], r);
      SlaverGetsItsIds(next, es[1..], r);
    }
  }

  lemma {:induction false} StepGivesIds(s: Server, e: Event, r: nat)
    requires Inv(s) && Real(e) && (Issues(e) ==> s.issued < TWO_TO_THE_64 - 1)
    requires r < |s.ds| - 1 && GivenItsIds(s, r)
    ensures |Step(s, e).ds| == |s.ds| && GivenItsIds(Step(s, e), r)
  {
    hide Inv, Given, CountMod, Route, Step, Real;
    IssuesOne(s, e);
    SlaverStep(s, e, r);
    if Issues(e) {
      NextIdCounts(s.generator, |s.ds| - 1, r);
    }
  }

  lemma {:induction false} IssuesOne(s: Server, e: Event)
    requires Inv(s) && (Issues(e) ==> s.issued < TWO_TO_THE_64 - 1)
    ensures s.generator == s.issued && |Step(s, e).ds| == |s.ds| > 0
    ensures Step(s, e).generator == s.generator + if Issues(e) then 1 else 0
    ensures Step(s, e).issued == s.issued + if Issues(e) then 1 else 0
    ensures Step(s, e).accepted == s.accepted + if e.Accept? then 1 else 0
  {
  }

  /**
   As long as no other server takes an id, from any reachable state on, each slaver is given
   exactly the ids routed to it: of `k` accepts floor(k/n) or ceiling(k/n).
   */
  lemma {:induction false} SlaversGrowEvenly(s: Server, es: seq<Event>, r: nat)
    requires Inv(s) && AllReal(es) && s.issued + Ids(es) < TWO_TO_THE_64
    requires r < |s.ds| - 1 && Elsewheres(es) == 0
    ensures var n, k, grown := |s.ds| - 1, Accepts(es), Given(Run(s, es), r) - Given(s, r);
            && grown == CountMod(s.generator, k, n, r)
            && k / n <= grown <= Ceiling(k, n)
  {
    SlaverGrowth(s, es, r);
    ConsecutiveIdsBalance(s.generator, Accepts(es), |s.ds| - 1, r);
  }

  lemma {:induction false} OneCount(generator: nat, n: nat, r: nat)
    requires r < n && generator + 1 < TWO_TO_THE_64
    ensures CountMod(generator, 1, n, r) == if Route(generator + 1, n) == r + 1 then 1 else 0
  {
    assert CountMod(generator, 0, n, r) == 0;
  }

  lemma {:induction false} SlaverGrowth(s: Server, es: seq<Event>, r: nat)
    requires Inv(s) && AllReal(es) && s.issued + Ids(es) < TWO_TO_THE_64
    requires r < |s.ds| - 1 && Elsewheres(es) == 0
    ensures Given(Run(s, es), r) == Given(s, r) + CountMod(s.generator, Accepts(es), |s.ds| - 1, r)
    decreases |es|
  {
    if es == [] {
    } else {
      hide Inv, Given, Step, Route, CountMod, Real;
      var next, more := Step(s, es[0]), Accepts(es[1..]);
      StepKeepsInv(s, es[0]);
      IssuesOne(s, es[0]);
      StepGrowth(s, es[0], r, more);
      SlaverGrowth(next, es[1..], r);
      assert Run(s, es) == Run(next, es[1..]);
    }
  }

  lemma {:induction false} StepGrowth(s: Server, e: Event, r: nat, more: nat)
    requires Inv(s) && Real(e) && !e.Elsewhere? && (e.Accept? ==> s.issued < TWO_TO_THE_64 - 1)
    requires r < |s.ds| - 1
    ensures |Step(s, e).ds| == |s.ds|
    ensures var n, one, next := |s.ds| - 1, if e.Accept? then 1 else 0, Step(s, e);
            Given(next, r) + CountMod(next.generator, more, n, r) ==
            Given(s, r) + CountMod(s.generator, one + more, n, r)
  {
    hide Inv, Given, Step, Route, CountMod, Real;
    IssuesOne(s, e);
    SlaverStep(s, e, r);
    if e.Accept? {
      OneCount(s.generator, |s.ds| - 1, r);
      CountSplit(s.generator, 1, more, |s.ds| - 1, r);
    }
  }

  /**
   In every run the numbers of sessions that two slavers have been given differ by at most one
   more than the number of ids that went to other servers meanwhile. If none did, each slaver
   has been given floor(k/n) or ceiling(k/n) of the `k` sessions.
   */
  lemma {:induction false} SlaversStayBalanced(slavers: nat, es: seq<Event>, q: nat, r: nat)
    requires AllReal(es) && Ids(es) < TWO_TO_THE_64 && q < slavers && r < slavers
    ensures var s := Run(Fresh(slavers), es);
            && Given(s, q) <= Given(s, r) + 1 + Elsewheres(es)
            && Given(s, q) <= Ceiling(s.issued, slavers)
            && (Elsewheres(es) == 0 ==> s.accepted / slavers <= Given(s, q) <= Ceiling(s.accepted, slavers))
  {
    hide Inv, Given, CountMod;
    EveryRunGivesIds(slavers, es, q);
    EveryRunGivesIds(slavers, es, r);
    var k := Run(Fresh(slavers), es).issued;
    ConsecutiveIdsBalance(0, k, slavers, q);
    ConsecutiveIdsBalance(0, k, slavers, r);
  }

  lemma {:induction false} EveryRunGivesIds(slavers: nat, es: seq<Event>, r: nat)
    requires AllReal(es) && Ids(es) < TWO_TO_THE_64 && r < slavers
    ensures var s := Run(Fresh(slavers), es);
            && GivenItsIds(s, r)
            && s.generator == s.issued == Ids(es) && s.accepted == Accepts(es)
  {
    FreshInv(slavers);
    RunKeepsInv(Fresh(slavers), es);
    SlaverGetsItsIds(Fresh(slavers), es, r);
  }

  // ----- How far from balance other servers may drive the slavers --------------------------

  /** Any two slavers have been given numbers of sessions that differ by at most `k`. */
  ghost predicate Within(s: Server, k: nat) {
    forall q: nat, r: nat | q < |s.ds| - 1 && r < |s.ds| - 1 :: Given(s, q) <= Given(s, r) + k
  }

  /** So they have in every run in which other servers take at most `e` ids. */
  ghost predicate StayWithin(slavers: nat, e: nat, k: nat) {
    forall es | AllReal(es) && Ids(es) < TWO_TO_THE_64 && Elsewheres(es) <= e :: Within(Run(Fresh(slavers), es), k)
  }

  lemma {:induction false} RunAppend(s: Server, es: seq<Event>, e: Event)
    requires s.ds != []
    ensures Run(s, es + [e]) == Step(Run(s, es), e)
    ensures Accepts(es + [e]) == Accepts(es) + if e.Accept? then 1 else 0
    ensures Elsewheres(es + [e]) == Elsewheres(es) + if e.Elsewhere? then 1 else 0
    decreases |es|
  {
    hide Step;
    if es == [] {
      assert [e][1..] == [] && es + [e] == [e];
    } else {
      assert (es + [e])[1..] == es[1..] + [e];
      StepKeepsCount(s, es[0]);
      RunAppend(Step(s, es[0]), es[1..], e);
    }
  }

  lemma {:induction false} StepKeepsCount(s: Server, e: Event)
    requires s.ds != []
    ensures |Step(s, e).ds| == |s.ds|
  {
  }

  /** The first `m` ids, of which other servers take those with the remainder of 2. */
  function Skewed(n: nat, m: nat): seq<Event>
    requires n > 0
  {
    if m == 0 then [] else Skewed(n, m - 1) + [if m % n == 2 % n then Elsewhere else Accept(0)]
  }

  lemma {:induction false} SkewedCounts(n: nat, m: nat)
    requires 2 <= n
    ensures AllReal(Skewed(n, m)) && Ids(Skewed(n, m)) == m
    ensures Elsewheres(Skewed(n, m)) == CountMod(0, m, n, 2 % n)
  {
    if m == 0 {
    } else {
      SkewedCounts(n, m - 1);
      RunAppend(Fresh(n), Skewed(n, m - 1), if m % n == 2 % n then Elsewhere else Accept(0));
    }
  }

  /** Then the slaver of id 2 is given nothing, while that of id 1 is given all its ids. */
  lemma {:induction false} SkewedRun(n: nat, m: nat)
    requires 2 <= n && m < TWO_TO_THE_64
    ensures var s := Run(Fresh(n), Skewed(n, m));
            Given(s, 1) == CountMod(0, m, n, 1) && Given(s, 2 % n) == 0
  {
    if m == 0 {
    } else {
      hide Inv, Given, Step, Fresh, Route, CountMod, Run, Within, AllReal;
      var before := Skewed(n, m - 1);
      var e := if m % n == 2 % n then Elsewhere else Accept(0);
      SkewedRun(n, m - 1);
      SkewedCounts(n, m - 1);
      FreshSize(n);
      OneIsNotTwo(n);
      EveryRunGivesIds(n, before, 1);
      RunAppend(Fresh(n), before, e);
      SkewedStep(Run(Fresh(n), before), n, m, 2 % n, e);
    }
  }

  lemma {:induction false} SkewedStep(s: Server, n: nat, m: nat, two: nat, e: Event)
    requires two < n == |s.ds| - 1 && 2 <= n && two != 1 && 0 < m < TWO_TO_THE_64 && s.generator == m - 1
    requires e == if m % n == two then Elsewhere else Accept(0)
    requires Given(s, 1) == CountMod(0, m - 1, n, 1) && Given(s, two) == 0
    ensures |Step(s, e).ds| == n + 1
    ensures Given(Step(s, e), 1) == CountMod(0, m, n, 1) && Given(Step(s, e), two) == 0
  {
    hide Given, Step, Route;
    SlaverStep(s, e, 1);
    SlaverStep(s, e, two);
    NextCounts(m - 1, n, 1);
    RouteIs(m, n);
  }

  lemma {:induction false} FreshSize(n: nat)
    ensures |Fresh(n).ds| == n + 1 && Fresh(n).issued == 0
  {
  }

  lemma {:induction false} RouteIs(id: SessionId, n: nat)
    requires n > 0
    ensures Route(id, n) == id % n + 1
  {
  }

  lemma {:induction false} OneIsNotTwo(n: nat)
    requires 2 <= n
    ensures 1 % n == 1 && 0 <= 2 % n < n && 2 % n != 1
  {
  }

  lemma {:induction false} CountRounds(n: nat, k: nat, r: nat)
    requires r < n
    ensures CountMod(0, k * n, n, r) == k
    decreases k
  {
    if k == 0 {
    } else {
      var m := (k - 1) * n;
      assert k * n == m + n;
      CountRounds(n, k - 1, r);
      CountSplit(0, m, n, n, r);
      CountRound(m, n, r);
    }
  }

  lemma {:induction false} NextCounts(m: nat, n: nat, r: nat)
    requires n > 0
    ensures CountMod(0, m + 1, n, r) == CountMod(0, m, n, r) + if (m + 1) % n == r then 1 else 0
  {
  }

  lemma {:induction false} SkewedExceeds(n: nat, k: nat)
    requires 2 <= n && k * n + 1 < TWO_TO_THE_64
    ensures var s := Run(Fresh(n), Skewed(n, k * n + 1));
            Elsewheres(Skewed(n, k * n + 1)) == k && Given(s, 2 % n) == 0 && Given(s, 1) == k + 1
  {
    hide Given, CountMod, Run, Skewed, Elsewheres, Fresh;
    var m := k * n;
    FreshSize(n);
    SkewedRun(n, m + 1);
    SkewedCounts(n, m + 1);
    CountRounds(n, k, 1);
    CountRounds(n, k, 2 % n);
    RemainderOf(k, n, 1);
    OneIsNotTwo(n);
    NextCounts(m, n, 1);
    NextCounts(m, n, 2 % n);
  }

  lemma {:induction false} CeilingUpTo(g: nat, n: nat, k: nat)
    requires 0 < n && g <= k * n
    ensures Ceiling(g, n) <= k
  {
    DivMod(g + n - 1, n);
    Multiple(Ceiling(g, n), k, n);
  }

  /**
   The exact bound: with at most `e` ids taken by other servers, all runs keep any two of the
   slavers within `k` of each other if and only if there is at most one slaver, or fewer than
   `k` ids are taken, or one slaver cannot be given more than `k` sessions before the ids run out.
   */
  lemma {:induction false} SlaversStayWithinExactly(slavers: nat, e: nat, k: nat)
    ensures StayWithin(slavers, e, k) <==> slavers <= 1 || e < k || TWO_TO_THE_64 <= k * slavers + 1
  {
    hide Given, AllReal;
    if slavers <= 1 || e < k || TWO_TO_THE_64 <= k * slavers + 1 {
      forall es | AllReal(es) && Ids(es) < TWO_TO_THE_64 && Elsewheres(es) <= e
        ensures Within(Run(Fresh(slavers), es), k)
      {
        RunStaysWithin(slavers, es, k);
      }
    } else {
      SkewedExceeds(slavers, k);
      SkewedCounts(slavers, k * slavers + 1);
      OneIsNotTwo(slavers);
      var es := Skewed(slavers, k * slavers + 1);
      var s := Run(Fresh(slavers), es);
      assert !(Given(s, 1) <= Given(s, 2 % slavers) + k);
      assert !Within(s, k);
    }
  }

  lemma {:induction false} RunStaysWithin(slavers: nat, es: seq<Event>, k: nat)
    requires AllReal(es) && Ids(es) < TWO_TO_THE_64
    requires slavers <= 1 || Elsewheres(es) < k || TWO_TO_THE_64 <= k * slavers + 1
    ensures Within(Run(Fresh(slavers), es), k)
  {
    hide Given;
    var s := Run(Fresh(slavers), es);
    forall q: nat, r: nat | q < |s.ds| - 1 && r < |s.ds| - 1 ensures Given(s, q) <= Given(s, r) + k {
      SlaversStayBalanced(slavers, es, q, r);
      EveryRunGivesIds(slavers, es, q);
      if TWO_TO_THE_64 <= k * slavers + 1 {
        CeilingUpTo(s.issued, slavers, k);
      }
    }
  }

  /**
   So the slavers of a server that is not alone in its process are not balanced: for the number
   of threads a server can have, all runs keep any two of its slavers within one if and only if
   there is at most one slaver or no other server takes an id.
   */
  lemma {:induction false} BalancedExactlyWhenAlone(slavers: uint16, e: nat)
    ensures StayWithin(slavers, e, 1) <==> slavers <= 1 || e == 0
  {
    SlaversStayWithinExactly(slavers, e, 1);
  }
}
