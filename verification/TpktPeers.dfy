/**
 The two ends of a TPKT connection: the deframing loop and the sender as methods on sockets,
 and the whole path from `sendWithTPKT` on one end to `onRead` on the other.
 */
module TpktPeers {
  import opened Define
  import opened Tpkt
  import opened TpktStreams
  import opened Sockets

  // ----- The methods -----------------------------------------------------------------------

  /** One trip of the loop on a socket is one pass on its input. */
  lemma {:induction false} TripIsOnePass(s: Socket)
    ensures !s.bev ==> s.Length() < 1
    ensures s.bev && (s.Length() < 1 || s.View(TPKT1_LENGTH).None?) ==> OnePass(s.input) == Leave(s.input)
    ensures s.bev && 1 <= s.Length() && s.View(TPKT1_LENGTH).Some? ==>
              var buf := s.View(TPKT1_LENGTH).value;
              && |buf| == TPKT1_LENGTH
              && var left := if buf[0] != TPKT_VERSION1_LOW_BYTE then s.AfterRead(1) else s;
              var data, after := left.Read(PacketLength(buf)), left.AfterRead(PacketLength(buf));
              && left == s.(input := left.input) && after == s.(input := after.input)
              && OnePass(s.input) ==
                 if PacketLength(buf) > s.Length() then Leave(left.input)
                 else Deliver(
                     Call(if |data| < TPKT1_LENGTH then [] else data[TPKT1_LENGTH..],
                          (PacketLength(buf) - TPKT1_LENGTH) % TWO_TO_THE_32),
                     after.input)
  {
    hide PacketLength;
    if s.bev && TPKT1_LENGTH <= |s.input| {
      HeadLength(s.input);
      var left := if s.input[0] != TPKT_VERSION1_LOW_BYTE then s.input[1..] else s.input;
      var n := Min(PacketLength(s.input), |left|);
      assert TPKT1_LENGTH <= n ==> left[..n][TPKT1_LENGTH..] == left[TPKT1_LENGTH..n];
    }
  }

  lemma {:induction false} HeadLength(input: seq<byte>)
    requires |input| >= TPKT1_LENGTH
    ensures PacketLength(input[..TPKT1_LENGTH]) == PacketLength(input)
  {
  }

  lemma {:induction false} DeframeByPass(input: seq<byte>)
    ensures OnePass(input).Leave? ==> Deframe(input) == Batch([], OnePass(input).rest, false)
    ensures OnePass(input).Deliver? && !Deframe(input).hung ==>
              var b := Deframe(OnePass(input).rest);
              && |OnePass(input).rest| < |input|
              && Deframe(input) == Batch([OnePass(input).call] + b.calls, b.rest, false)
              && !b.hung
  {
    hide OnePass;
  }

  lemma {:induction false} Reassociate<T>(a: seq<T>, x: T, b: seq<T>)
    ensures a + ([x] + b) == (a + [x]) + b
  {
  }

  /** `TcpServerTPKT::onSessionRead`; `calls` are the calls of `onRead`, in order. */
  method OnSessionRead(session: TcpSocket) returns (calls: seq<Call>)
    requires session.bev ==> !Deframe(session.input).hung
    modifies session
    ensures session.bev == old(session.bev)
    ensures old(session.bev) ==>
              var b := Deframe(old(session.input));
              && calls == b.calls
              && session.State() == old(session.State()).(input := b.rest)
    ensures !old(session.bev) ==> calls == [] && session.State() == old(session.State())
  {
    hide Deframe, PacketLength, Header, Frame, Calls, Encode, Receive, AtTrip, OnePass,
      Socket.Length, Socket.View, Socket.Read, Socket.AfterRead;
    calls := [];
    while true
      invariant session.State() == old(session.State()).(input := session.input)
      invariant session.bev ==>
                  var b, now := Deframe(old(session.input)), Deframe(session.input);
                  !now.hung && calls + now.calls == b.calls && now.rest == b.rest
      invariant !session.bev ==> calls == [] && session.input == old(session.input)
      decreases |session.input|
    {
      ghost var input := session.input;
      DeframeByPass(input);
      TripIsOnePass(session.State());
      var length := session.GetInputBufferLength();
      if length < 1 {
        break;
      }
      var view := session.ViewInputBuffer(TPKT1_LENGTH);
      if view.None? {
        return;
      }
      var buf := view.value;

      if buf[0] != TPKT_VERSION1_LOW_BYTE {
        var _, _ := session.ReadInputBuffer(1);
      }
      var packetLength := PacketLength(buf);
      if packetLength > length {
        break;
      }
      var ok, data := session.ReadInputBuffer(packetLength);
      if ok {
        var payload := if |data| < TPKT1_LENGTH then [] else data[TPKT1_LENGTH..];
        var call := Call(payload, (packetLength - TPKT1_LENGTH) % TWO_TO_THE_32);
        assert OnePass(input) == Deliver(call, session.input);
        Reassociate(calls, call, Deframe(session.input).calls);
        calls := calls + [call];
      }
    }
  }

  /**
   `sendWithTPKT` of the server and of the client: the header is filled in place and sent, and
   only if that was accepted the payload is sent after it.
   */
  method SendWithTPKT(socket: TcpSocket, data: Payload, headWritten: bool, bodyWritten: bool) returns (ok: bool)
    modifies socket
    ensures var (afterHead, accepted) := old(socket.State()).AfterSend(Header(|data|), headWritten);
            if accepted then (socket.State(), ok) == afterHead.AfterSend(data, bodyWritten)
            else socket.State() == afterHead && !ok
    ensures ok ==> socket.output == old(socket.output) + Frame(data)
  {
    var length: uint32 := |data|;
    var total := (length + TPKT1_LENGTH) % TWO_TO_THE_32;
    var header := new byte[TPKT1_LENGTH](_ => 0);
    header[0] := TPKT_VERSION1_LOW_BYTE;
    header[1] := total % TWO_TO_THE_24 / TWO_TO_THE_16;
    header[2] := total % TWO_TO_THE_16 / 0x100;
    header[3] := total % 0x100;
    assert header[..] == Header(length);

    ok := socket.Send(header[..], headWritten);
    if ok {
      ok := socket.Send(data, bodyWritten);
      assert old(socket.output) + Header(length) + data == old(socket.output) + (Header(length) + data);
    }
  }

  // ----- Runs of one sender ----------------------------------------------------------------

  /**
   One thread sends messages; each `sendWithTPKT` is two atomic sends, and closes, flushes and
   callbacks of other threads may fall between them.
   */
  datatype LinkEvent =
    | Begin(m: Payload, written: bool)  // `sendWithTPKT` is called: the header is sent
    | Finish(written: bool)             // its second half: the payload is sent
    | Meanwhile(e: Event)

  datatype Half = Half(m: Payload, inTime: bool)

  datatype Link = Link(
    conn: Conn,
    half: Option<Half>,     // a `sendWithTPKT` whose header was accepted, before the shutdown or not
    sent: seq<Payload>,     // `sendWithTPKT` returned true before the shutdown
    torn: Option<Payload>)  // the header was accepted before the shutdown, the payload was not

  const LINK_START := Link(START, None, [], None)

  function LinkStep(l: Link, e: LinkEvent): Link {
    var open := !l.conn.socket.shutDown;
    match e
    case Begin(m, written) =>
      if l.half.Some? then
        l
      else
        var ok := l.conn.socket.AfterSend(Header(|m|), written).1;
        l.(conn := Step(l.conn, Send(Header(|m|), written)),
           half := if ok then Some(Half(m, open)) else None)
    case Finish(written) =>
      if l.half.None? then
        l
      else
        var m := l.half.value.m;
        var ok := l.conn.socket.AfterSend(m, written).1;
        l.(conn := Step(l.conn, Send(m, written)),
           half := None,
           sent := if open && ok then l.sent + [m] else l.sent,
           torn := if l.half.value.inTime && !(open && ok) then Some(m) else l.torn)
    case Meanwhile(e) =>
      if e.Send? then l else l.(conn := Step(l.conn, e))
  }

  /** One `sendWithTPKT` with nothing in between is the two steps of the sender. */
  lemma {:induction false} SendIsTwoSteps(l: Link, m: Payload, headWritten: bool, bodyWritten: bool)
    requires l.half.None?
    ensures var (afterHead, accepted) := l.conn.socket.AfterSend(Header(|m|), headWritten);
            var (socket, ok) := if accepted then afterHead.AfterSend(m, bodyWritten) else (afterHead, false);
            var after := LinkStep(LinkStep(l, Begin(m, headWritten)), Finish(bodyWritten));
            && after.conn.socket == socket && after.half.None?
            && after.sent == if ok && !l.conn.socket.shutDown then l.sent + [m] else l.sent
  {
    hide Header;
  }

  function LinkRun(l: Link, es: seq<LinkEvent>): Link
    decreases |es|
  {
    if es == [] then l else LinkRun(LinkStep(l, es[0]), es[1..])
  }

  /** Nothing is sent. */
  predicate Silent(es: seq<LinkEvent>) {
    forall i | 0 <= i < |es| :: !es[i].Begin?
  }

  /** Messages fit the length field, and after a failed payload write nothing more is sent. */
  predicate Proper(es: seq<LinkEvent>) {
    && (forall i | 0 <= i < |es| && es[i].Begin? :: Fits(es[i].m))
    && (forall i, j | 0 <= i < j < |es| && es[i] == Finish(false) :: !es[j].Begin?)
  }

  lemma {:induction false} ProperTail(es: seq<LinkEvent>)
    requires Proper(es) && es != []
    ensures Proper(es[1..])
    ensures es[0] == Finish(false) ==> Silent(es[1..])
    ensures Silent(es) ==> Silent(es[1..])
    ensures es[0].Begin? ==> Fits(es[0].m)
  {
    var rest := es[1..];
    assert forall i | 0 <= i < |rest| :: rest[i] == es[i + 1];
  }

  predicate NeverAbrupt(es: seq<LinkEvent>) {
    forall i | 0 <= i < |es| :: es[i].Meanwhile? && es[i].e.Close? ==> es[i].e.waiting
  }

  /** The message, if any, of which only the header was accepted before the shutdown. */
  function Incomplete(l: Link): seq<Payload> {
    if l.half.Some? && l.half.value.inTime then [l.half.value.m]
    else if l.torn.Some? then [l.torn.value]
    else []
  }

  function Tail(l: Link): seq<byte> {
    if Incomplete(l) == [] then [] else Header(|Incomplete(l)[0]|)
  }

  ghost predicate LinkInv(l: Link) {
    && Inv(l.conn)
    && AllFit(l.sent + Incomplete(l))
    && (l.half.Some? ==> Fits(l.half.value.m))
    && l.conn.accepted == Encode(l.sent) + Tail(l)
    && (l.half.Some? && l.half.value.inTime ==> l.torn.None?)
    && (l.half.Some? && !l.half.value.inTime ==> l.conn.socket.shutDown)
  }

  /** A header without its payload is in the stream and the socket still takes more. */
  predicate Broken(l: Link) {
    l.torn.Some? && !l.conn.socket.shutDown && !l.conn.socket.isClosing
  }

  lemma {:induction false} BeginKeepsInv(l: Link, m: Payload, written: bool)
    requires LinkInv(l) && Fits(m) && !Broken(l)
    ensures LinkInv(LinkStep(l, Begin(m, written)))
  {
    hide Header, Inv, Encode;
    InvOfConn(l.conn);
    StepKeepsInv(l.conn, Send(Header(|m|), written));
    if l.half.None? && l.torn.None? && l.conn.socket.AfterSend(Header(|m|), written).1 {
      assert l.conn.accepted == Encode(l.sent);
    }
    assert l.sent + [] == l.sent;
  }

  lemma {:induction false} InvOfConn(c: Conn)
    requires Inv(c)
    ensures c.socket.bev
  {
  }

  lemma {:induction false} FinishKeepsInv(l: Link, written: bool)
    requires LinkInv(l) && l.half.Some?
    ensures LinkInv(LinkStep(l, Finish(written)))
  {
    hide Header, Inv, Encode, Frame;
    var m := l.half.value.m;
    InvOfConn(l.conn);
    StepKeepsInv(l.conn, Send(m, written));
    FrameCompletes(l.sent, m);
    assert (l.sent + [m]) + [] == l.sent + [m];
  }

  lemma {:induction false} FrameCompletes(sent: seq<Payload>, m: Payload)
    ensures (Encode(sent) + Header(|m|)) + m == Encode(sent + [m])
    ensures Encode(sent + [m]) + [] == Encode(sent + [m])
  {
    hide Header, Encode;
    EncodeAppend(sent, [m]);
    EncodeOne(m);
  }

  /** Nothing but a shutdown ends a pending close, and nothing but a send is accepted. */
  lemma {:induction false} MeanwhileKeepsInv(l: Link, e: Event)
    requires LinkInv(l) && !e.Send?
    ensures LinkInv(LinkStep(l, Meanwhile(e)))
  {
    hide Header, Inv, Encode;
    StepKeepsInv(l.conn, e);
    assert Incomplete(LinkStep(l, Meanwhile(e))) == Incomplete(l);
  }

  lemma {:induction false} LinkStepKeepsInv(l: Link, e: LinkEvent)
    requires LinkInv(l)
    requires e.Begin? ==> Fits(e.m) && !Broken(l)
    ensures LinkInv(LinkStep(l, e))
  {
    hide LinkInv, Broken;
    match e {
      case Begin(m, written) => BeginKeepsInv(l, m, written);
      case Finish(written) =>
        if l.half.Some? {
          FinishKeepsInv(l, written);
        }
      case Meanwhile(other) =>
        if !other.Send? {
          MeanwhileKeepsInv(l, other);
        }
    }
  }

  /** Only a failed payload write breaks the stream. */
  lemma {:induction false} OnlyALossBreaks(l: Link, e: LinkEvent)
    requires LinkInv(l) && Broken(LinkStep(l, e))
    ensures Broken(l) || e == Finish(false)
  {
    hide Header, Encode;
  }

  lemma {:induction false} ProperStep(l: Link, es: seq<LinkEvent>)
    requires LinkInv(l) && Proper(es) && (Broken(l) ==> Silent(es)) && es != []
    ensures LinkInv(LinkStep(l, es[0]))
    ensures Proper(es[1..]) && (Broken(LinkStep(l, es[0])) ==> Silent(es[1..]))
    ensures es[0].Begin? ==> Fits(es[0].m) && !Broken(l)
  {
    hide LinkInv, Broken;
    ProperTail(es);
    LinkStepKeepsInv(l, es[0]);
    if Broken(LinkStep(l, es[0])) {
      OnlyALossBreaks(l, es[0]);
    }
  }

  lemma {:induction false} LinkRunKeepsInv(l: Link, es: seq<LinkEvent>)
    requires LinkInv(l) && Proper(es) && (Broken(l) ==> Silent(es))
    ensures LinkInv(LinkRun(l, es))
    decreases |es|
  {
    hide LinkInv, LinkStep, Broken, Proper, Silent;
    if es == [] {
    } else {
      ProperStep(l, es);
      LinkRunKeepsInv(LinkStep(l, es[0]), es[1..]);
    }
  }

  lemma {:induction false} LinkGraceful(l: Link, es: seq<LinkEvent>)
    requires LinkInv(l) && Proper(es) && (Broken(l) ==> Silent(es)) && NeverAbrupt(es)
    requires l.conn.socket.shutDown ==> l.conn.socket.wire == l.conn.accepted
    ensures var c := LinkRun(l, es).conn; c.socket.shutDown ==> c.socket.wire == c.accepted
    decreases |es|
  {
    if es == [] {
    } else {
      hide Header, LinkInv, Broken, Proper, Silent;
      ProperStep(l, es);
      StepShutsDownComplete(l, es[0]);
      LinkGraceful(LinkStep(l, es[0]), es[1..]);
    }
  }

  lemma {:induction false} StepShutsDownComplete(l: Link, e: LinkEvent)
    requires LinkInv(l) && (e.Meanwhile? && e.e.Close? ==> e.e.waiting)
    requires l.conn.socket.shutDown ==> l.conn.socket.wire == l.conn.accepted
    ensures var c := LinkStep(l, e).conn; c.socket.shutDown ==> c.socket.wire == c.accepted
  {
    hide Header, Inv, Encode, Step;
    match e {
      case Begin(m, written) => StepKeepsInv(l.conn, Send(Header(|m|), written));
      case Finish(written) =>
        if l.half.Some? {
          StepKeepsInv(l.conn, Send(l.half.value.m, written));
        }
      case Meanwhile(e) => StepKeepsInv(l.conn, e);
    }
  }

  lemma {:induction false} LinkStartInv()
    ensures LinkInv(LINK_START)
  {
    StartKeepsInv();
    assert LINK_START.conn.accepted == Encode([]) + [];
  }

  lemma {:induction false} AcceptedWithinFrames(l: Link)
    requires LinkInv(l)
    ensures l.conn.accepted <= Encode(l.sent + Incomplete(l))
    ensures AllFit(l.sent + Incomplete(l)) && |Incomplete(l)| <= 1
  {
    hide Header, Inv;
    var part := Incomplete(l);
    EncodeAppend(l.sent, part);
    if part != [] {
      assert part == [part[0]];
      EncodeOne(part[0]);
      assert Tail(l) <= Encode(part);
    }
  }

  lemma {:induction false} WireWithinAccepted(c: Conn)
    requires Inv(c)
    ensures c.socket.wire <= c.accepted
  {
    if !c.socket.shutDown {
      assert c.socket.wire <= c.socket.wire + c.socket.output;
    }
  }

  lemma {:induction false} ConnOfLink(l: Link)
    requires LinkInv(l)
    ensures Inv(l.conn)
  {
  }

  lemma {:induction false} PrefixOf(a: seq<byte>, b: seq<byte>, c: seq<byte>)
    requires a <= b <= c
    ensures a <= c
  {
  }

  /**
   Safety of the whole path, at every moment of every run: whatever part of the wire has
   reached the peer, in whatever pieces, `onRead` has been handed an initial run of the messages
   sent, in order and unaltered, with at most the one interrupted message after them.
   */
  lemma {:induction false} DeliveredIsPrefixOfSent(es: seq<LinkEvent>, arrivals: seq<seq<byte>>)
    requires Proper(es) && Concat(arrivals) <= LinkRun(LINK_START, es).conn.socket.wire
    requires forall i | 0 <= i < |arrivals| :: |arrivals[i]| <= MAX_ARRIVAL
    ensures var l := LinkRun(LINK_START, es);
            var received := Receive([], arrivals);
            && !received.hung
            && received.calls <= Calls(l.sent + Incomplete(l))
            && |Incomplete(l)| <= 1
  {
    hide Header, Frame, Encode, Calls, Receive, LinkRun, LinkInv, Incomplete, CutAt, Whole;
    LinkStartInv();
    LinkRunKeepsInv(LINK_START, es);
    var l := LinkRun(LINK_START, es);
    var ms := l.sent + Incomplete(l);
    AcceptedWithinFrames(l);
    ConnOfLink(l);
    WireWithinAccepted(l.conn);
    PrefixOf(Concat(arrivals), l.conn.socket.wire, l.conn.accepted);
    PrefixOf(Concat(arrivals), l.conn.accepted, Encode(ms));
    AnyChunkingDelivers(ms, arrivals);
    var k := Whole(ms, |Concat(arrivals)|);
    assert ms == ms[..k] + ms[k..];
    CallsAppend(ms[..k], ms[k..]);
  }

  // ----- An empty message that is cut off --------------------------------------------------

  /**
   The event leaves an empty message half sent: a close, waiting or not, or a failed payload
   write, between the two sends of an empty message and before the shutdown.
   */
  predicate Interrupts(l: Link, e: LinkEvent) {
    && l.half == Some(Half([], true))
    && !l.conn.socket.shutDown
    && ((e.Meanwhile? && e.e.Close?) || e == Finish(false))
  }

  /** Some event of the run does. */
  predicate Lands(l: Link, es: seq<LinkEvent>)
    decreases |es|
  {
    es != [] && (Interrupts(l, es[0]) || Lands(LinkStep(l, es[0]), es[1..]))
  }

  /** An empty message has been cut off. */
  predicate Landed(l: Link) {
    || l.torn == Some([])
    || (l.half == Some(Half([], true)) && (l.conn.socket.isClosing || l.conn.socket.shutDown))
  }

  lemma {:induction false} LandsStep(l: Link, e: LinkEvent)
    requires LinkInv(l)
    ensures Landed(LinkStep(l, e)) <==> Landed(l) || Interrupts(l, e)
  {
    hide Header, Encode;
  }

  lemma {:induction false} LandsRun(l: Link, es: seq<LinkEvent>)
    requires LinkInv(l) && Proper(es) && (Broken(l) ==> Silent(es))
    ensures Landed(LinkRun(l, es)) <==> Landed(l) || Lands(l, es)
    decreases |es|
  {
    hide LinkInv, LinkStep, Broken, Proper, Silent, Landed, Interrupts;
    if es == [] {
    } else {
      ProperStep(l, es);
      LandsStep(l, es[0]);
      LandsRun(LinkStep(l, es[0]), es[1..]);
    }
  }

  /**
   After the shutdown the message of which only the header was accepted is an empty one exactly
   when a close or a failed payload write fell between the two sends of an empty message.
   */
  lemma {:induction false} CutOffExactlyWhenInterrupted(es: seq<LinkEvent>)
    requires Proper(es) && LinkRun(LINK_START, es).conn.socket.shutDown
    ensures Incomplete(LinkRun(LINK_START, es)) == [[]] <==> Lands(LINK_START, es)
  {
    hide LinkStep, Proper;
    LinkStartInv();
    LinkRunKeepsInv(LINK_START, es);
    LandsRun(LINK_START, es);
  }

  /** A run without empty messages cuts none off. */
  lemma {:induction false} NonEmptyNeverLands(l: Link, es: seq<LinkEvent>)
    requires forall i | 0 <= i < |es| && es[i].Begin? :: es[i].m != []
    requires l.half.Some? ==> l.half.value.m != []
    ensures !Lands(l, es)
    decreases |es|
  {
    hide Header;
    if es == [] {
    } else {
      NonEmptyNeverLands(LinkStep(l, es[0]), es[1..]);
    }
  }

  /**
   End to end: after a graceful close, once everything on the wire has arrived, the peer has
   been handed exactly the messages whose `sendWithTPKT` returned true before the shutdown.
   The one exception is an empty message that was cut off between its two sends: its header is
   its whole frame, so it is delivered although its second send was refused, late or failed.
   */
  lemma {:induction false} GracefulCloseDelivers(es: seq<LinkEvent>, arrivals: seq<seq<byte>>)
    requires Proper(es) && NeverAbrupt(es) && LinkRun(LINK_START, es).conn.socket.shutDown
    requires Concat(arrivals) == LinkRun(LINK_START, es).conn.socket.wire
    requires forall i | 0 <= i < |arrivals| :: |arrivals[i]| <= MAX_ARRIVAL
    ensures var l := LinkRun(LINK_START, es);
            Receive([], arrivals).calls ==
            Calls(if Lands(LINK_START, es) then l.sent + [[]] else l.sent)
  {
    hide Header, LinkStep, Lands, Proper, Receive, LinkRun, NeverAbrupt;
    LinkStartInv();
    LinkRunKeepsInv(LINK_START, es);
    LinkGraceful(LINK_START, es);
    CutOffExactlyWhenInterrupted(es);
    CompleteStreamDelivers(LinkRun(LINK_START, es), arrivals);
  }

  lemma {:induction false} CompleteStreamDelivers(l: Link, arrivals: seq<seq<byte>>)
    requires LinkInv(l) && Concat(arrivals) == l.conn.accepted
    requires forall i | 0 <= i < |arrivals| :: |arrivals[i]| <= MAX_ARRIVAL
    ensures Receive([], arrivals).calls == Calls(if Incomplete(l) == [[]] then l.sent + [[]] else l.sent)
  {
    hide Header, Receive, Inv;
    var ms, stream := l.sent + Incomplete(l), Concat(arrivals);
    AcceptedWithinFrames(l);
    AnyChunkingDelivers(ms, arrivals);
    assert stream == Encode(l.sent) + Tail(l);
    if Incomplete(l) == [[]] {
      EncodeAppend(l.sent, [[]]);
      EncodeOne([]);
      assert ms[..|ms|] == ms && ms[|ms|..] == [];
      assert stream == Encode(ms) + [];
      CutIsWhole(ms, stream, |ms|, []);
    } else {
      assert ms[..|l.sent|] == l.sent && ms[|l.sent|..] == Incomplete(l);
      CutIsWhole(ms, stream, |l.sent|, Tail(l));
    }
  }

  /** Without empty messages there is no exception. */
  lemma {:induction false} GracefulCloseDeliversNonEmpty(es: seq<LinkEvent>, arrivals: seq<seq<byte>>)
    requires Proper(es) && NeverAbrupt(es) && LinkRun(LINK_START, es).conn.socket.shutDown
    requires forall i | 0 <= i < |es| && es[i].Begin? :: es[i].m != []
    requires Concat(arrivals) == LinkRun(LINK_START, es).conn.socket.wire
    requires forall i | 0 <= i < |arrivals| :: |arrivals[i]| <= MAX_ARRIVAL
    ensures Receive([], arrivals).calls == Calls(LinkRun(LINK_START, es).sent)
  {
    hide LinkStep, Receive, Calls, Proper;
    GracefulCloseDelivers(es, arrivals);
    NonEmptyNeverLands(LINK_START, es);
  }

  /** The exception happens: the peer is handed an empty message whose `sendWithTPKT` failed. */
  lemma {:induction false} RefusedEmptyMessageIsDelivered()
    ensures var es := [Begin([], true), Meanwhile(Close(true)), Finish(true),
                       Meanwhile(Flush(4)), Meanwhile(WriteCallback)];
            var l := LinkRun(LINK_START, es);
            && Proper(es) && NeverAbrupt(es) && l.conn.socket.shutDown
            && l.sent == []
            && Receive([], [l.conn.socket.wire]).calls == [CallOf([])]
  {
    hide Header, LinkStep, LinkRun, Receive, Calls, Encode;
    var es := [Begin([], true), Meanwhile(Close(true)), Finish(true),
               Meanwhile(Flush(4)), Meanwhile(WriteCallback)];
    RunOfFive(LINK_START, es);
    ClosedBetweenHalves(Header(0));
    var l := LinkRun(LINK_START, es);
    assert Concat([l.conn.socket.wire]) == l.conn.socket.wire + Concat([]) == l.conn.socket.wire;
    CutOffExactlyWhenInterrupted(es);
    GracefulCloseDelivers(es, [l.conn.socket.wire]);
    assert l.sent + [[]] == [[]];
    FirstCall([[]]);
    assert Calls([[]]) == [CallOf([])] + Calls([[]][1..]) && |Calls([[]][1..])| == 0;
  }

  lemma {:induction false} RunOfFive(l: Link, es: seq<LinkEvent>)
    requires |es| == 5
    ensures LinkRun(l, es) ==
            LinkStep(LinkStep(LinkStep(LinkStep(LinkStep(l, es[0]), es[1]), es[2]), es[3]), es[4])
  {
    hide LinkStep;
    var l1 := LinkStep(l, es[0]);
    var l2 := LinkStep(l1, es[1]);
    var l3 := LinkStep(l2, es[2]);
    var l4 := LinkStep(l3, es[3]);
    assert es[1..][1..] == es[2..] && es[2..][1..] == es[3..] && es[3..][1..] == es[4..] && es[4..][1..] == [];
    assert LinkRun(l4, es[4..]) == LinkRun(LinkStep(l4, es[4]), []);
    assert LinkRun(l3, es[3..]) == LinkRun(l4, es[4..]);
    assert LinkRun(l2, es[2..]) == LinkRun(l3, es[3..]);
    assert LinkRun(l1, es[1..]) == LinkRun(l2, es[2..]);
  }

  lemma {:induction false} ClosedBetweenHalves(h: seq<byte>)
    requires h == Header(0)
    ensures var l1 := LinkStep(LINK_START, Begin([], true));
            var l2 := LinkStep(l1, Meanwhile(Close(true)));
            var l3 := LinkStep(l2, Finish(true));
            var l4 := LinkStep(l3, Meanwhile(Flush(4)));
            var l5 := LinkStep(l4, Meanwhile(WriteCallback));
            l5.conn.socket.shutDown && l5.conn.socket.wire == h
            && l5.sent == [] && Incomplete(l5) == [[]]
  {
    hide Header;
    var l1 := LinkStep(LINK_START, Begin([], true));
    assert l1 == Link(Conn(CONNECTED.(output := h), h), Some(Half([], true)), [], None);
    var l2 := LinkStep(l1, Meanwhile(Close(true)));
    var l3 := LinkStep(l2, Finish(true));
    assert l3 == Link(Conn(CONNECTED.(output := h, isClosing := true), h), None, [], Some([]));
    var l4 := LinkStep(l3, Meanwhile(Flush(4)));
    assert l4.conn.socket.wire == h && l4.conn.socket.output == [];
  }

  // ----- A failed payload write ------------------------------------------------------------

  /** In any run what was accepted stays accepted, and only more is accepted after it. */
  lemma {:induction false} AcceptedGrows(l: Link, es: seq<LinkEvent>)
    requires Inv(l.conn)
    ensures Inv(LinkRun(l, es).conn) && l.conn.accepted <= LinkRun(l, es).conn.accepted
    decreases |es|
  {
    hide Inv, Header;
    if es == [] {
    } else {
      var next := LinkStep(l, es[0]);
      LinkStepGrows(l, es[0]);
      AcceptedGrows(next, es[1..]);
      PrefixOf(l.conn.accepted, next.conn.accepted, LinkRun(l, es).conn.accepted);
    }
  }

  lemma {:induction false} LinkStepGrows(l: Link, e: LinkEvent)
    requires Inv(l.conn)
    ensures Inv(LinkStep(l, e).conn) && l.conn.accepted <= LinkStep(l, e).conn.accepted
  {
    hide Inv, Header;
    match e {
      case Begin(m, written) => StepKeepsInv(l.conn, Send(Header(|m|), written));
      case Finish(written) =>
        if l.half.Some? {
          StepKeepsInv(l.conn, Send(l.half.value.m, written));
        }
      case Meanwhile(other) => StepKeepsInv(l.conn, other);
    }
  }

  /**
   What a failed payload write does to any run that goes on sending, whatever it sends, and
   however the bytes on the wire are cut into arrivals: once the bytes accepted up to the failure
   have arrived, the peer has been handed the messages sent before it; then nothing while fewer
   bytes have followed than the lost payload had; and otherwise that many of the following bytes
   as one message, and behind it what the bytes behind that one would be taken for.
   */
  lemma {:induction false} FailedPayloadWriteMisframes(
      es: seq<LinkEvent>, more: seq<LinkEvent>, arrivals: seq<seq<byte>>)
    returns (rests: seq<seq<byte>>)
    requires Proper(es) && Broken(LinkRun(LINK_START, es))
    requires Concat(arrivals) <= LinkRun(LinkRun(LINK_START, es), more).conn.socket.wire
    requires |LinkRun(LINK_START, es).conn.accepted| <= |Concat(arrivals)| && Moderate([], arrivals)
    ensures var l, calls := LinkRun(LINK_START, es), Receive([], arrivals).calls;
            var size, later := |l.torn.value|, Concat(arrivals)[|l.conn.accepted|..];
            && (calls == Calls(l.sent) <==> |later| < size)
            && (size <= |later| ==>
                  && Concat(rests) == later[size..]
                  && calls == Calls(l.sent) + ([CallOf(later[..size])] + Receive([], rests).calls))
  {
    hide Header, Encode, Receive, Calls, LinkStep, LinkRun, Proper;
    LinkStartInv();
    LinkRunKeepsInv(LINK_START, es);
    var l := LinkRun(LINK_START, es);
    AcceptedWhenBroken(l);
    ConnOfLink(l);
    AcceptedGrows(l, more);
    var after, bytes := LinkRun(l, more), Concat(arrivals);
    WireWithinAccepted(after.conn);
    PrefixOf(bytes, after.conn.socket.wire, after.conn.accepted);
    PrefixesOfOne(l.conn.accepted, bytes, after.conn.accepted);
    var m, later := l.torn.value, bytes[|l.conn.accepted|..];
    assert bytes == Encode(l.sent) + (Header(|m|) + later);
    rests := LostPayload(l.sent, m, later, arrivals);
  }

  lemma {:induction false} AcceptedWhenBroken(l: Link)
    requires LinkInv(l) && Broken(l)
    ensures AllFit(l.sent) && Fits(l.torn.value)
    ensures l.conn.accepted == Encode(l.sent) + Header(|l.torn.value|)
  {
    hide Header, Encode, Inv;
    assert Incomplete(l) == [l.torn.value];
    assert (l.sent + [l.torn.value])[|l.sent|] == l.torn.value;
    forall i | 0 <= i < |l.sent| ensures Fits(l.sent[i]) {
      assert (l.sent + [l.torn.value])[i] == l.sent[i];
    }
  }

  lemma {:induction false} PrefixesOfOne(a: seq<byte>, b: seq<byte>, whole: seq<byte>)
    requires a <= whole && b <= whole && |a| <= |b|
    ensures a <= b && b == a + b[|a|..]
  {
  }

  /** A run in which this happens: the peer is handed a message that was never sent. */
  lemma {:induction false} MisframedRun()
    ensures var es := [Begin([9], true), Finish(false), Begin([], true), Finish(true), Meanwhile(Flush(8))];
            var l := LinkRun(LINK_START, es);
            && l.sent == [[]]
            && Receive([], [l.conn.socket.wire]).calls == [CallOf([1])]
  {
    hide Header, LinkStep, LinkRun, OnePass;
    var es := [Begin([9], true), Finish(false), Begin([], true), Finish(true), Meanwhile(Flush(8))];
    RunOfFive(LINK_START, es);
    HeadersOfOneAndNone();
    HalfThenWhole([1, 0, 0, 5], [1, 0, 0, 4]);
    var wire: seq<byte> := LinkRun(LINK_START, es).conn.socket.wire;
    var arrivals: seq<seq<byte>> := [wire];
    assert wire == [1, 0, 0, 5, 1, 0, 0, 4];
    MisframedPasses(wire, [0, 0, 4]);
    assert [] + wire == wire && arrivals[1..] == [];
    assert Deframe(wire) == Batch([CallOf([1])], [0, 0, 4], false);
  }

  lemma {:induction false} HeadersOfOneAndNone()
    ensures Header(1) == [1, 0, 0, 5] && Header(0) == [1, 0, 0, 4]
  {
  }

  lemma {:induction false} HalfThenWhole(one: seq<byte>, none: seq<byte>)
    requires one == Header(1) && none == Header(0)
    ensures var l1 := LinkStep(LINK_START, Begin([9], true));
            var l2 := LinkStep(l1, Finish(false));
            var l3 := LinkStep(l2, Begin([], true));
            var l4 := LinkStep(l3, Finish(true));
            var l5 := LinkStep(l4, Meanwhile(Flush(8)));
            l5.conn.socket.wire == one + none && l5.sent == [[]]
  {
    hide Header;
    var l1 := LinkStep(LINK_START, Begin([9], true));
    var l2 := LinkStep(l1, Finish(false));
    assert l2.conn.socket == CONNECTED.(output := one);
    var l3 := LinkStep(l2, Begin([], true));
    assert l3.conn.socket == CONNECTED.(output := one + none);
    var l4 := LinkStep(l3, Finish(true));
    assert l4.conn.socket == CONNECTED.(output := one + none);
    var both := one + none;
    assert |both| == 8 && both[..8] == both && [] + both == both;
  }

  lemma {:induction false} MisframedPasses(wire: seq<byte>, rest: seq<byte>)
    requires wire == [1, 0, 0, 5, 1, 0, 0, 4] && rest == [0, 0, 4]
    ensures OnePass(wire) == Deliver(CallOf([1]), rest) && OnePass(rest) == Leave(rest)
  {
    assert wire[5..] == rest && wire[4..5] == [1];
  }
}
