/**
 The socket of one connection (src/translib/tcpSocket.cpp): buffered sends, the closing flag
 and the deferred shutdown, first as functions on a value and then as a class.

 libevent enters through three facts: a write appends to the output buffer unless it fails;
 the event loop moves a leading piece of the output buffer to the wire while EV_WRITE is
 enabled; and each time it empties the output buffer it schedules the write callback, which
 runs later (BEV_OPT_DEFER_CALLBACKS), one run however often it was scheduled.
 */
module Sockets {
  import opened Define

  // ----- The socket as a value -------------------------------------------------------------

  datatype Socket = Socket(
    bev: bool,             // `_bev` is not NULL
    isClosing: bool,
    input: seq<byte>,
    output: seq<byte>,
    writeEnabled: bool,    // EV_WRITE
    callbackDue: bool,     // the write callback has been scheduled
    shutDown: bool,        // `shutdown` has been called
    wire: seq<byte>)       // every byte the event loop has written so far
  {
    /** `written` is whether `bufferevent_write` succeeds. */
    function AfterSend(data: seq<byte>, written: bool): (r: (Socket, bool)) {
      if !bev || isClosing || !written then
        (this, false)
      else
        (this.(output := output + data), true)
    }

    function Length(): uint32 {
      if bev then |input| % TWO_TO_THE_32 else 0
    }

    /** Nothing when there are fewer bytes, nor when none are asked for. */
    function View(size: nat): Option<seq<byte>> {
      if bev && 0 < size <= |input| then Some(input[..size]) else None
    }

    /** The bytes that a read moves out. */
    function Read(size: uint32): seq<byte> {
      if bev then input[..Min(size, |input|)] else []
    }

    function AfterRead(size: uint32): Socket {
      this.(input := input[|Read(size)|..])
    }

    /** Several reads, and everything that they moved out. */
    function AfterReads(sizes: seq<uint32>): (Socket, seq<byte>)
      decreases |sizes|
    {
      if sizes == [] then
        (this, [])
      else
        var (last, more) := AfterRead(sizes[0]).AfterReads(sizes[1..]);
        (last, Read(sizes[0]) + more)
    }

    /** One call drains at most 2^32 - 1 bytes. */
    function AfterClear(): Socket {
      if bev then this.(input := input[Min(TWO_TO_THE_32 - 1, |input|)..]) else this
    }

    function AfterCloseImpl(): Socket {
      AfterClear().(isClosing := false, writeEnabled := false, shutDown := true)
    }

    function AfterClose(waiting: bool): Socket {
      if !bev then this
      else if waiting && |output| > 0 then this.(isClosing := true)
      else AfterCloseImpl()
    }

    function AfterCheckClosing(): Socket {
      if isClosing && |output| == 0 then AfterCloseImpl() else this
    }

    /** The event loop writes the first `n` bytes of the output buffer. */
    function AfterFlush(n: nat): Socket {
      if bev && writeEnabled && 0 < n <= |output| then
        this.(wire := wire + output[..n], output := output[n..],
              callbackDue := callbackDue || n == |output|)
      else
        this
    }

    /** The scheduled write callback runs. */
    function AfterWriteCallback(): Socket {
      if callbackDue then this.(callbackDue := false).AfterCheckClosing() else this
    }
  }

  /** A socket whose bufferevent has just been created and enabled. */
  const CONNECTED := Socket(true, false, [], [], true, false, false, [])

  /** A socket before it is connected. */
  const UNCONNECTED := CONNECTED.(bev := false, writeEnabled := false)

  // ----- The socket as an object -----------------------------------------------------------

  class TcpSocket {
    var bev: bool
    var isClosing: bool
    var input: seq<byte>
    var output: seq<byte>
    var writeEnabled: bool
    var callbackDue: bool
    var shutDown: bool
    ghost var wire: seq<byte>

    ghost function State(): Socket
      reads this
    {
      Socket(bev, isClosing, input, output, writeEnabled, callbackDue, shutDown, wire)
    }

    constructor ()
      ensures State() == UNCONNECTED
    {
      bev, isClosing, writeEnabled, callbackDue, shutDown := false, false, false, false, false;
      input, output, wire := [], [], [];
    }

    method Send(data: seq<byte>, written: bool) returns (ok: bool)
      modifies this
      ensures (State(), ok) == old(State()).AfterSend(data, written)
    {
      if !bev || isClosing {
        return false;
      }
      if written {
        output := output + data;
      }
      return written;
    }

    method Close(waiting: bool)
      modifies this
      ensures State() == old(State()).AfterClose(waiting)
    {
      if !bev {
        return;
      }
      if waiting && |output| > 0 {
        isClosing := true;
        return;
      }
      CloseImpl();
    }

    method CloseImpl()
      requires bev
      modifies this
      ensures State() == old(State()).AfterCloseImpl()
    {
      isClosing := false;
      ClearInputBuffer();
      writeEnabled := false;
      shutDown := true;
    }

    method CheckClosing()
      requires isClosing ==> bev
      modifies this
      ensures State() == old(State()).AfterCheckClosing()
    {
      if isClosing && |output| == 0 {
        isClosing := false;
        CloseImpl();
      }
    }

    method GetInputBufferLength() returns (length: uint32)
      ensures length == State().Length()
    {
      return if bev then |input| % TWO_TO_THE_32 else 0;
    }

    method ViewInputBuffer(size: uint32) returns (view: Option<seq<byte>>)
      ensures view == State().View(size)
    {
      return if bev && 0 < size <= |input| then Some(input[..size]) else None;
    }

    /** It is no failure when there are fewer bytes. */
    method ReadInputBuffer(size: uint32) returns (ok: bool, data: seq<byte>)
      modifies this
      ensures ok == bev
      ensures data == old(State()).Read(size)
      ensures State() == old(State()).AfterRead(size)
    {
      ok, data := bev, [];
      if bev {
        var n := Min(size, |input|);
        data, input := input[..n], input[n..];
      }
    }

    method ClearInputBuffer()
      modifies this
      ensures State() == old(State()).AfterClear()
    {
      if bev {
        input := input[Min(TWO_TO_THE_32 - 1, |input|)..];
      }
    }

    /** Bytes arrive from the peer. */
    method Arrive(data: seq<byte>)
      modifies this
      ensures State() == old(State()).(input := old(input) + data)
    {
      input := input + data;
    }

    method Flush(n: nat)
      modifies this
      ensures State() == old(State()).AfterFlush(n)
    {
      if bev && writeEnabled && 0 < n <= |output| {
        wire := wire + output[..n];
        if n == |output| {
          callbackDue := true;
        }
        output := output[n..];
      }
    }

    /** `TcpSession::writeCallback`, run by the event loop when it was scheduled. */
    method WriteCallback()
      requires isClosing ==> bev
      modifies this
      ensures State() == old(State()).AfterWriteCallback()
    {
      if callbackDue {
        callbackDue := false;
        CheckClosing();
      }
    }
  }

  // ----- The input buffer ------------------------------------------------------------------

  function Sum(sizes: seq<uint32>): nat {
    if sizes == [] then 0 else sizes[0] + Sum(sizes[1..])
  }

  lemma {:induction false} OneRead(s: Socket, size: uint32)
    ensures var next, data := s.AfterRead(size), s.Read(size);
            && data + next.input == s.input
            && next == s.(input := next.input)
            && |data| == if s.bev then Min(size, |s.input|) else 0
  {
    if s.bev {
      var n := Min(size, |s.input|);
      assert s.input[..n] + s.input[n..] == s.input;
    } else {
      assert [] + s.input == s.input;
    }
  }

  lemma {:induction false} Regroup(a: seq<byte>, b: seq<byte>, c: seq<byte>)
    ensures (a + b) + c == a + (b + c)
  {
  }

  /** Reads take the input apart from the front, in order and without loss. */
  lemma {:induction false} ReadsTakeTheFront(s: Socket, sizes: seq<uint32>)
    ensures var (last, data) := s.AfterReads(sizes);
            && data + last.input == s.input
            && last == s.(input := last.input)
            && |data| == if s.bev then Min(Sum(sizes), |s.input|) else 0
    decreases |sizes|
  {
    hide Socket.AfterRead, Socket.Read;
    if sizes == [] {
      assert [] + s.input == s.input;
    } else {
      var next, data := s.AfterRead(sizes[0]), s.Read(sizes[0]);
      OneRead(s, sizes[0]);
      ReadsTakeTheFront(next, sizes[1..]);
      var (last, more) := next.AfterReads(sizes[1..]);
      Regroup(data, more, last.input);
    }
  }

  /**
   A view looks ahead: there is a view of `n` bytes exactly when reads that ask for `n` bytes in
   all get that many, however they are divided, and the view then shows the bytes they get.
   */
  lemma {:induction false} ViewShowsWhatReadsGet(s: Socket, sizes: seq<uint32>)
    ensures var data := s.AfterReads(sizes).1;
            s.View(Sum(sizes)) == if 0 < Sum(sizes) == |data| then Some(data) else None
  {
    hide Sum;
    ReadsTakeTheFront(s, sizes);
    var (last, data) := s.AfterReads(sizes);
    assert s.input[..|data|] == data;
  }

  /**
   The reported length is truncated to 32 bits. Those bytes can be read, and then 0 is reported;
   but the input is empty then exactly when fewer than 2^32 bytes were buffered.
   */
  lemma {:induction false} ReportedLengthCanBeRead(s: Socket)
    requires s.bev
    ensures var next := s.AfterRead(s.Length());
            && |s.Read(s.Length())| == s.Length()
            && next.Length() == 0
            && (next.input == [] <==> |s.input| < 0x1_0000_0000)
  {
    var q := |s.input| / TWO_TO_THE_32;
    assert |s.input| - |s.input| % TWO_TO_THE_32 == q * TWO_TO_THE_32;
  }

  // ----- Runs of one connection ------------------------------------------------------------

  datatype Event =
    | Send(data: seq<byte>, written: bool)
    | Close(waiting: bool)
    | Flush(n: nat)
    | WriteCallback

  /** A socket and the bytes of every send that returned true before the socket was shut down. */
  datatype Conn = Conn(socket: Socket, accepted: seq<byte>)

  function Step(c: Conn, e: Event): Conn {
    match e
    case Send(data, written) =>
      var (socket, ok) := c.socket.AfterSend(data, written);
      Conn(socket, if ok && !c.socket.shutDown then c.accepted + data else c.accepted)
    case Close(waiting) => c.(socket := c.socket.AfterClose(waiting))
    case Flush(n) => c.(socket := c.socket.AfterFlush(n))
    case WriteCallback => c.(socket := c.socket.AfterWriteCallback())
  }

  function Run(c: Conn, es: seq<Event>): Conn
    decreases |es|
  {
    if es == [] then c else Run(Step(c, es[0]), es[1..])
  }

  const START := Conn(CONNECTED, [])

  /** A run that never closes without waiting. */
  predicate Graceful(es: seq<Event>) {
    forall i | 0 <= i < |es| :: es[i].Close? ==> es[i].waiting
  }

  ghost predicate Inv(c: Conn) {
    var s := c.socket;
    && s.bev
    && (!s.shutDown ==>
          && s.writeEnabled
          && s.wire + s.output == c.accepted
          && (s.isClosing ==> s.output != [] || s.callbackDue))
    && (s.shutDown ==> !s.writeEnabled && s.wire <= c.accepted)
  }

  lemma {:induction false} StepKeepsInv(c: Conn, e: Event)
    requires Inv(c)
    ensures Inv(Step(c, e))
    ensures c.socket.shutDown ==>
              && Step(c, e).socket.shutDown
              && Step(c, e).socket.wire == c.socket.wire
              && Step(c, e).accepted == c.accepted
    ensures !c.socket.shutDown && Step(c, e).socket.shutDown && !(e.Close? && !e.waiting) ==>
              Step(c, e).socket.wire == Step(c, e).accepted
  {
    var s := c.socket;
    match e {
      case Send(data, written) =>
        assert s.wire + (s.output + data) == (s.wire + s.output) + data;
      case Flush(n) =>
        if n <= |s.output| {
          assert s.output == s.output[..n] + s.output[n..];
          assert (s.wire + s.output[..n]) + s.output[n..] == s.wire + s.output;
        }
      case Close(waiting) =>
        if s.output == [] {
          assert s.wire + s.output == s.wire;
        }
      case WriteCallback =>
        if s.output == [] {
          assert s.wire + s.output == s.wire;
        }
    }
  }

  lemma {:induction false} StartKeepsInv()
    ensures Inv(START)
  {
    assert START.socket.wire + START.socket.output == [];
  }

  lemma {:induction false} RunKeepsInv(c: Conn, es: seq<Event>)
    requires Inv(c)
    ensures Inv(Run(c, es))
    decreases |es|
  {
    if es == [] {
    } else {
      StepKeepsInv(c, es[0]);
      RunKeepsInv(Step(c, es[0]), es[1..]);
    }
  }

  lemma {:induction false} GracefulRun(c: Conn, es: seq<Event>)
    requires Inv(c) && Graceful(es)
    requires c.socket.shutDown ==> c.socket.wire == c.accepted
    ensures Run(c, es).socket.shutDown ==> Run(c, es).socket.wire == Run(c, es).accepted
    decreases |es|
  {
    if es == [] {
    } else {
      StepKeepsInv(c, es[0]);
      GracefulRun(Step(c, es[0]), es[1..]);
    }
  }

  /**
   A graceful close loses nothing: in every run without `close(false)`, the bytes on the wire
   when the socket is shut down, and for ever after, are those of all the sends that were
   accepted before, in order. In any run the wire holds a leading part of them.
   */
  lemma {:induction false} GracefulCloseLosesNothing(es: seq<Event>)
    ensures var c := Run(START, es);
            && c.socket.wire <= c.accepted
            && (Graceful(es) && c.socket.shutDown ==> c.socket.wire == c.accepted)
  {
    StartKeepsInv();
    RunKeepsInv(START, es);
    var c := Run(START, es);
    if Graceful(es) {
      GracefulRun(START, es);
    }
    if !c.socket.shutDown {
      assert c.socket.wire <= c.socket.wire + c.socket.output;
    }
  }

  /**
   A pending close is never stranded: in every run, as long as the socket is not shut down, a
   set closing flag means that bytes are still to be flushed or the callback is scheduled, and
   flushing what is left and running the callback shuts the socket down with everything sent.
   */
  lemma {:induction false} PendingCloseCompletes(es: seq<Event>)
    requires Run(START, es).socket.isClosing && !Run(START, es).socket.shutDown
    ensures var s := Run(START, es).socket;
            && (s.output != [] || s.callbackDue)
            && var finished := s.AfterFlush(|s.output|).AfterWriteCallback();
            && finished.shutDown && !finished.isClosing
            && finished.wire == Run(START, es).accepted
  {
    StartKeepsInv();
    RunKeepsInv(START, es);
    var s := Run(START, es).socket;
    assert s.output[..|s.output|] == s.output && s.wire + [] == s.wire;
  }

  /** A callback shuts an open socket down exactly when it finds a closing socket with no output. */
  lemma {:induction false} CallbackShutsDownExactlyWhenDrained(es: seq<Event>)
    requires !Run(START, es).socket.shutDown && Run(START, es).socket.callbackDue
    ensures var s := Run(START, es).socket;
            s.AfterWriteCallback().shutDown <==>
            s.isClosing && s.wire == Run(START, es).accepted
  {
    StartKeepsInv();
    RunKeepsInv(START, es);
    var c := Run(START, es);
    assert c.socket.wire == c.accepted <==> c.socket.output == [];
  }

  lemma {:induction false} RunAppend(c: Conn, es: seq<Event>, e: Event)
    ensures Run(c, es + [e]) == Step(Run(c, es), e)
    decreases |es|
  {
    hide Step;
    if es == [] {
      assert [e][1..] == [] && es + [e] == [e];
    } else {
      assert (es + [e])[1..] == es[1..] + [e];
      RunAppend(Step(c, es[0]), es[1..], e);
    }
  }

  /**
   What a close does to an open socket in every run: one that does not wait shuts it down at
   once, whatever is unsent; one that waits does so exactly when everything accepted is on the
   wire, and else only marks the socket. In either case it writes nothing.
   */
  lemma {:induction false} CloseShutsDownExactly(es: seq<Event>, waiting: bool)
    requires !Run(START, es).socket.shutDown
    ensures var c, closed := Run(START, es), Run(START, es + [Close(waiting)]);
            && (closed.socket.shutDown <==> !waiting || c.socket.wire == c.accepted)
            && (closed.socket.isClosing <==> !closed.socket.shutDown)
            && closed.socket.wire == c.socket.wire && closed.accepted == c.accepted
  {
    StartKeepsInv();
    RunKeepsInv(START, es);
    RunAppend(START, es, Close(waiting));
    var c := Run(START, es);
    assert c.socket.wire == c.accepted <==> c.socket.output == [];
  }

  predicate HasClose(es: seq<Event>) {
    exists i :: 0 <= i < |es| && es[i].Close?
  }

  lemma {:induction false} HasCloseAppend(es: seq<Event>, e: Event)
    ensures HasClose(es + [e]) <==> HasClose(es) || e.Close?
  {
    var all := es + [e];
    assert all[|es|] == e;
    assert forall i | 0 <= i < |es| :: all[i] == es[i];
  }

  /** Before the shutdown a send fails exactly when `bufferevent_write` does or some close came before. */
  lemma {:induction false} SendRefusedExactlyAfterClose(es: seq<Event>, data: seq<byte>, written: bool)
    requires !Run(START, es).socket.shutDown
    ensures var (sent, ok) := Run(START, es).socket.AfterSend(data, written);
            && (ok <==> written && !HasClose(es))
            && sent.output == Run(START, es).socket.output + if ok then data else []
  {
    StartKeepsInv();
    RunKeepsInv(START, es);
    ClosingExactlyAfterClose(es);
    assert Run(START, es).socket.output + [] == Run(START, es).socket.output;
  }

  lemma {:induction false} ClosingMoves(c: Conn, e: Event)
    requires Inv(c) && !Step(c, e).socket.shutDown
    ensures !c.socket.shutDown
    ensures Step(c, e).socket.isClosing <==> c.socket.isClosing || e.Close?
  {
  }

  lemma {:induction false} ClosingExactlyAfterClose(es: seq<Event>)
    requires !Run(START, es).socket.shutDown
    ensures Run(START, es).socket.isClosing <==> HasClose(es)
  {
    if es == [] {
    } else {
      hide HasClose;
      var before, e := es[..|es| - 1], es[|es| - 1];
      assert es == before + [e];
      StartKeepsInv();
      RunKeepsInv(START, before);
      RunAppend(START, before, e);
      ClosingMoves(Run(START, before), e);
      ClosingExactlyAfterClose(before);
      HasCloseAppend(before, e);
    }
  }

  /** The step that shuts a socket down drops its input, up to 2^32 - 1 bytes; others keep it. */
  lemma {:induction false} ShutdownDropsInput(c: Conn, e: Event)
    requires c.socket.bev && !c.socket.shutDown
    ensures var input, after := c.socket.input, Step(c, e).socket;
            && after.input == input[|input| - |after.input|..]
            && |after.input| == if after.shutDown then Max(0, |input| - 0xFFFF_FFFF) else |input|
  {
  }

  /** Without a connection every send is refused, and no call changes anything. */
  lemma {:induction false} UnconnectedStaysAsItIs(es: seq<Event>, data: seq<byte>, written: bool)
    ensures Run(Conn(UNCONNECTED, []), es) == Conn(UNCONNECTED, [])
    ensures UNCONNECTED.AfterSend(data, written) == (UNCONNECTED, false)
    decreases |es|
  {
    if es == [] {
    } else {
      assert Step(Conn(UNCONNECTED, []), es[0]) == Conn(UNCONNECTED, []);
      UnconnectedStaysAsItIs(es[1..], data, written);
    }
  }

  /**
   After the shutdown the closing flag is clear again, so a send still returns true; but
   whatever happens later its bytes never reach the wire.
   */
  lemma {:induction false} SendAfterShutdownIsLost(es: seq<Event>, data: seq<byte>, later: seq<Event>)
    requires Run(START, es).socket.shutDown && !Run(START, es).socket.isClosing
    ensures var c := Run(START, es);
            && c.socket.AfterSend(data, true).1
            && Run(Step(c, Send(data, true)), later).socket.wire == c.socket.wire
  {
    StartKeepsInv();
    RunKeepsInv(START, es);
    var c := Run(START, es);
    StepKeepsInv(c, Send(data, true));
    WireIsFinal(Step(c, Send(data, true)), later);
  }

  lemma {:induction false} WireIsFinal(c: Conn, es: seq<Event>)
    requires Inv(c) && c.socket.shutDown
    ensures Run(c, es).socket.wire == c.socket.wire && Run(c, es).accepted == c.accepted
    ensures Run(c, es).socket.shutDown
    decreases |es|
  {
    if es == [] {
    } else {
      StepKeepsInv(c, es[0]);
      WireIsFinal(Step(c, es[0]), es[1..]);
    }
  }
}
