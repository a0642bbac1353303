/**
 What the deframing loop does with bytes that are not simply a stream of whole frames: with wrong
 version bytes, and with a frame whose payload got lost.
 */
module TpktStreams {
  import opened Define
  import opened Tpkt

  // ----- Cutting a stream of any bytes -----------------------------------------------------

  /** The same calls and the same end; the buffer of a loop that never ends does not matter. */
  predicate SameOutcome(b: Batch, c: Batch) {
    b.calls == c.calls && b.hung == c.hung && (!b.hung ==> b.rest == c.rest)
  }

  /** What has been done after `b` once `later` has arrived too and the loop has run again. */
  function Then(b: Batch, later: seq<byte>): Batch {
    if b.hung then
      b
    else
      var c := Deframe(b.rest + later);
      Batch(b.calls + c.calls, c.rest, c.hung)
  }

  /** A head with a wrong version byte that announces at least the length of a header. */
  predicate WrongHead(buffer: seq<byte>) {
    && TPKT1_LENGTH <= |buffer|
    && buffer[0] != TPKT_VERSION1_LOW_BYTE
    && TPKT1_LENGTH <= PacketLength(buffer)
  }

  /** Such a head when the announced bytes, and one more for the dropped byte, are not there. */
  predicate Unsettled(buffer: seq<byte>) {
    WrongHead(buffer) && |buffer| <= PacketLength(buffer)
  }

  /** No trip of the loop over `input` is shown an unsettled head. */
  ghost predicate Settled(input: seq<byte>) {
    forall k: nat :: AtTrip(input, k).Some? ==> !Unsettled(AtTrip(input, k).value)
  }

  /** No trip of the loop over `input` is shown a wrong head. */
  ghost predicate Versioned(input: seq<byte>) {
    forall k: nat :: AtTrip(input, k).Some? ==> !WrongHead(AtTrip(input, k).value)
  }

  lemma {:induction false} NextTrip(input: seq<byte>, k: nat)
    requires OnePass(input).Deliver?
    ensures AtTrip(input, k + 1) == AtTrip(OnePass(input).rest, k)
  {
  }

  lemma {:induction false} SettledUnfolds(input: seq<byte>)
    requires Settled(input)
    ensures !Unsettled(input)
    ensures OnePass(input).Deliver? ==> Settled(OnePass(input).rest)
  {
    hide OnePass, Unsettled;
    assert AtTrip(input, 0) == Some(input);
    if OnePass(input).Deliver? {
      forall k: nat | AtTrip(OnePass(input).rest, k).Some?
        ensures !Unsettled(AtTrip(OnePass(input).rest, k).value)
      {
        NextTrip(input, k);
      }
    }
  }

  lemma {:induction false} VersionedUnfolds(input: seq<byte>)
    requires Versioned(input)
    ensures !WrongHead(input)
    ensures OnePass(input).Deliver? ==> Versioned(OnePass(input).rest)
  {
    hide OnePass, WrongHead;
    assert AtTrip(input, 0) == Some(input);
    if OnePass(input).Deliver? {
      forall k: nat | AtTrip(OnePass(input).rest, k).Some?
        ensures !WrongHead(AtTrip(OnePass(input).rest, k).value)
      {
        NextTrip(input, k);
      }
    }
  }

  /** A settled pass does the same, whatever has arrived behind its bytes. */
  lemma {:induction false} PassExtends(x: seq<byte>, y: seq<byte>)
    requires |x| + |y| < TWO_TO_THE_32 && !Unsettled(x)
    ensures match OnePass(x)
            case Leave(rest) => rest == x
            case Deliver(call, rest) => OnePass(x + y) == Deliver(call, rest + y)
  {
    hide PacketLength;
    var input := x + y;
    if TPKT1_LENGTH <= |x| {
      var left := if x[0] != TPKT_VERSION1_LOW_BYTE then x[1..] else x;
      assert (if input[0] != TPKT_VERSION1_LOW_BYTE then input[1..] else input) == left + y;
      SameHead(x, y);
      if PacketLength(x) <= |x| {
        assert PacketLength(x) <= |left|;
        TakeExtends(left, y, PacketLength(x));
      }
    }
  }

  lemma {:induction false} SameHead(x: seq<byte>, y: seq<byte>)
    requires TPKT1_LENGTH <= |x|
    ensures PacketLength(x + y) == PacketLength(x) && (x + y)[0] == x[0]
  {
  }

  lemma {:induction false} TakeExtends(left: seq<byte>, y: seq<byte>, n: nat)
    requires n <= |left|
    ensures (left + y)[n..] == left[n..] + y
    ensures TPKT1_LENGTH <= n ==> (left + y)[TPKT1_LENGTH..n] == left[TPKT1_LENGTH..n]
  {
  }

  /** Cutting a stream after settled bytes changes nothing, whatever follows. */
  lemma {:induction false} SettledCutIsHarmless(x: seq<byte>, y: seq<byte>)
    requires |x| + |y| < TWO_TO_THE_32 && Settled(x)
    ensures SameOutcome(Deframe(x + y), Then(Deframe(x), y))
    decreases |x|
  {
    hide OnePass, Unsettled, Settled;
    SettledUnfolds(x);
    PassExtends(x, y);
    match OnePass(x) {
      case Leave(rest) =>
        assert Then(Deframe(x), y).calls == Deframe(x + y).calls;
      case Deliver(call, rest) =>
        if |rest| < |x| {
          SettledCutIsHarmless(rest, y);
          OneMore(call, Deframe(rest), y);
        }
    }
  }

  lemma {:induction false} OneMore(call: Call, b: Batch, y: seq<byte>)
    ensures var c := Then(b, y);
            Then(Batch([call] + b.calls, b.rest, b.hung), y) == Batch([call] + c.calls, c.rest, c.hung)
  {
    hide Deframe;
  }

  /** A pass on a buffer shorter than `n` makes no call with the length argument of `n` bytes. */
  lemma {:induction false} ShorterCall(buffer: seq<byte>, n: nat)
    requires TPKT1_LENGTH <= n < TWO_TO_THE_24 && |buffer| < n && Deframe(buffer).calls != []
    ensures Deframe(buffer).calls[0].len != n - TPKT1_LENGTH
  {
    hide PacketLength, OnePass;
    PassLength(buffer);
    NoProgressIsZeroHead(buffer);
  }

  lemma {:induction false} PassLength(buffer: seq<byte>)
    ensures OnePass(buffer).Deliver? ==>
              && TPKT1_LENGTH <= |buffer| && PacketLength(buffer) <= |buffer|
              && OnePass(buffer).call.len == (PacketLength(buffer) - TPKT1_LENGTH) % TWO_TO_THE_32
  {
    hide PacketLength;
  }

  lemma {:induction false} FirstOf(input: seq<byte>)
    ensures OnePass(input).Deliver? && |OnePass(input).rest| < |input| ==>
              && Deframe(input).calls != []
              && Deframe(input).calls[0] == OnePass(input).call
    ensures OnePass(input).Leave? ==> Deframe(input) == Batch([], OnePass(input).rest, false)
  {
    hide OnePass;
  }

  /** The bytes that show that a cut after an unsettled head does harm. */
  function Continuation(t: seq<byte>): seq<byte>
    requires Unsettled(t)
  {
    var n := PacketLength(t);
    if |t| < n then seq(n - |t|, _ => 0)
    else if n == TPKT1_LENGTH then Frame([])
    else [0]
  }

  lemma {:induction false} PassesOnUnsettled(t: seq<byte>, y: seq<byte>)
    requires Unsettled(t) && |t| < PacketLength(t) == |t| + |y|
    ensures OnePass(t) == Leave(t[1..])
    ensures OnePass(t + y).Deliver? && |OnePass(t + y).rest| < |t + y|
    ensures OnePass(t + y).call.len == PacketLength(t) - TPKT1_LENGTH
  {
    SameHead(t, y);
    hide PacketLength;
  }

  lemma {:induction false} HarmWhenBytesAreMissing(t: seq<byte>, y: seq<byte>)
    requires Unsettled(t) && |t| < PacketLength(t) == |t| + |y|
    ensures !SameOutcome(Deframe(t + y), Then(Deframe(t), y))
  {
    hide PacketLength, OnePass;
    var n, whole := PacketLength(t), t + y;
    PassesOnUnsettled(t, y);
    FirstOf(whole);
    FirstOf(t);
    assert Deframe(t) == Batch([], t[1..], false);
    if Deframe(t[1..] + y).calls != [] {
      ShorterCall(t[1..] + y, n);
    }
  }

  lemma {:induction false} HarmWhenOneByteIsMissing(t: seq<byte>)
    requires Unsettled(t) && TPKT1_LENGTH < |t| == PacketLength(t)
    ensures !SameOutcome(Deframe(t + [0]), Then(Deframe(t), [0]))
  {
    SameHead(t, [0]);
    FirstOf(t);
    FirstOf(t + [0]);
    assert |OnePass(t).call.data| == |t| - 1 - TPKT1_LENGTH;
    assert |OnePass(t + [0]).call.data| == |t| - TPKT1_LENGTH;
  }

  lemma {:induction false} HarmAfterBareHead(t: seq<byte>)
    requires Unsettled(t) && TPKT1_LENGTH == |t| == PacketLength(t)
    ensures !SameOutcome(Deframe(t + Frame([])), Then(Deframe(t), Frame([])))
  {
    SameHead(t, Frame([]));
    BareHeader();
    var whole, left := t + Frame([]), Frame([])[1..];
    assert OnePass(t) == Deliver(Call([], 0), []);
    assert OnePass(whole) == Deliver(Call([], 0), left) by {
      assert whole[1..][4..] == left && whole[1..][4..4] == [];
    }
    assert OnePass(left) == Leave(left);
    assert Deframe(whole) == Batch([Call([], 0)], left, false);
    assert Deframe(t) == Batch([Call([], 0)], [], false);
    assert [] + Frame([]) == Frame([]);
    FirstOf(Frame([]));
  }

  lemma {:induction false} BareHeader()
    ensures Frame([]) == [1, 0, 0, 4]
    ensures OnePass(Frame([])) == Deliver(CallOf([]), [])
  {
    assert Header(0) == [1, 0, 0, 4];
    FittingFramePasses([], []);
    assert Frame([]) + [] == Frame([]);
  }

  lemma {:induction false} UnsettledHeadDoesHarm(t: seq<byte>)
    requires Unsettled(t)
    ensures |Continuation(t)| <= TWO_TO_THE_24 - 1 - TPKT1_LENGTH
    ensures !SameOutcome(Deframe(t + Continuation(t)), Then(Deframe(t), Continuation(t)))
  {
    hide PacketLength;
    if |t| < PacketLength(t) {
      HarmWhenBytesAreMissing(t, Continuation(t));
    } else if PacketLength(t) == TPKT1_LENGTH {
      HarmAfterBareHead(t);
    } else {
      HarmWhenOneByteIsMissing(t);
    }
  }

  lemma {:induction false} CallsDiffer(call: Call, a: seq<Call>, b: seq<Call>)
    ensures [call] + a == [call] + b <==> a == b
  {
    if [call] + a == [call] + b {
      assert ([call] + a)[1..] == a && ([call] + b)[1..] == b;
    }
  }

  lemma {:induction false} UnsettledCutDoesHarm(x: seq<byte>, k: nat) returns (y: seq<byte>)
    requires |x| <= MAX_ARRIVAL
    requires AtTrip(x, k).Some? && Unsettled(AtTrip(x, k).value)
    ensures |y| < TWO_TO_THE_24
    ensures !SameOutcome(Deframe(x + y), Then(Deframe(x), y))
    decreases k
  {
    hide OnePass, Unsettled;
    if Unsettled(x) {
      y := Continuation(x);
      UnsettledHeadDoesHarm(x);
    } else {
      assert k > 0 && OnePass(x).Deliver?;
      var rest := OnePass(x).rest;
      y := UnsettledCutDoesHarm(rest, k - 1);
      if |rest| < |x| {
        PassExtends(x, y);
        OneMore(OnePass(x).call, Deframe(rest), y);
        CallsDiffer(OnePass(x).call, Deframe(rest + y).calls, Then(Deframe(rest), y).calls);
      } else {
        NoProgressIsZeroHead(x);
      }
    }
  }

  /**
   The exact condition for one cut: the bytes `x` may be handed to `onSessionRead` before what
   follows them, whatever that is, precisely when no trip over `x` is shown a head with a wrong
   version byte whose announced length, 4 or more, has not arrived with one byte to spare.
   */
  lemma {:induction false} CutIsHarmlessExactlyWhenSettled(x: seq<byte>)
    requires |x| <= MAX_ARRIVAL
    ensures Settled(x) <==>
            forall y: seq<byte> | |x| + |y| < TWO_TO_THE_32 :: SameOutcome(Deframe(x + y), Then(Deframe(x), y))
  {
    hide OnePass, Unsettled, Deframe, SameOutcome, Then;
    if Settled(x) {
      forall y: seq<byte> | |x| + |y| < TWO_TO_THE_32
        ensures SameOutcome(Deframe(x + y), Then(Deframe(x), y))
      {
        SettledCutIsHarmless(x, y);
      }
    } else {
      var k: nat :| AtTrip(x, k).Some? && Unsettled(AtTrip(x, k).value);
      var y := UnsettledCutDoesHarm(x, k);
    }
  }

  // ----- Cutting a stream anywhere ---------------------------------------------------------

  /** The trips over the first part of a stream are trips over the stream. */
  lemma {:induction false} TripsExtend(x: seq<byte>, y: seq<byte>, k: nat)
    requires |x| + |y| < TWO_TO_THE_32 && Versioned(x + y) && AtTrip(x, k).Some?
    ensures AtTrip(x + y, k) == Some(AtTrip(x, k).value + y)
    ensures !WrongHead(AtTrip(x, k).value)
    decreases k
  {
    hide OnePass, Versioned;
    VersionedUnfolds(x + y);
    if TPKT1_LENGTH <= |x| {
      SameHead(x, y);
    }
    if k == 0 {
    } else {
      PassExtends(x, y);
      TripsExtend(OnePass(x).rest, y, k - 1);
    }
  }

  lemma {:induction false} PrefixOfVersionedIsSettled(x: seq<byte>, y: seq<byte>)
    requires |x| + |y| < TWO_TO_THE_32 && Versioned(x + y)
    ensures Settled(x)
  {
    hide Versioned;
    forall k: nat | AtTrip(x, k).Some? ensures !Unsettled(AtTrip(x, k).value) {
      TripsExtend(x, y, k);
    }
  }

  /** A delivering pass on a good head consumes as much when less is there behind it. */
  lemma {:induction false} PassOnLess(s: seq<byte>, less: seq<byte>)
    requires |s| < TWO_TO_THE_32 && !WrongHead(s) && OnePass(s).Deliver?
    requires less <= OnePass(s).rest && TPKT1_LENGTH <= |less|
    ensures var x := s[..|s| - |OnePass(s).rest|] + less;
            x <= s && OnePass(x) == Deliver(OnePass(s).call, less)
  {
    hide OnePass, PacketLength;
    Consumed(s);
    var rest := OnePass(s).rest;
    var x, y := s[..|s| - |rest|] + less, rest[|less|..];
    assert rest == less + y;
    assert s == x + y;
    SameHead(x, y);
    Delivers(x);
    PassExtends(x, y);
    SameTail(OnePass(x).rest, less, y);
  }

  lemma {:induction false} Consumed(s: seq<byte>)
    requires |s| < TWO_TO_THE_32 && !WrongHead(s) && OnePass(s).Deliver?
    ensures TPKT1_LENGTH <= |s| && s[|s| - |OnePass(s).rest|..] == OnePass(s).rest
    ensures PacketLength(s) <= |s| - |OnePass(s).rest|
  {
    hide PacketLength;
  }

  lemma {:induction false} Delivers(x: seq<byte>)
    requires TPKT1_LENGTH <= |x| < TWO_TO_THE_32 && PacketLength(x) <= |x|
    ensures OnePass(x).Deliver?
  {
    hide PacketLength;
  }

  lemma {:induction false} SameTail(a: seq<byte>, b: seq<byte>, y: seq<byte>)
    requires a + y == b + y
    ensures a == b
  {
    assert |a| == |b| && (a + y)[..|a|] == a && (b + y)[..|b|] == b;
  }

  /** A stream that shows a wrong head has a first part after which it must not be cut. */
  lemma {:induction false} WrongHeadSpoilsAPrefix(s: seq<byte>, k: nat) returns (x: seq<byte>)
    requires |s| < TWO_TO_THE_32 && AtTrip(s, k).Some? && WrongHead(AtTrip(s, k).value)
    ensures x <= s && TPKT1_LENGTH <= |x| && !Settled(x)
    decreases k
  {
    hide OnePass;
    if WrongHead(s) {
      x := s[..TPKT1_LENGTH];
      SameHead(x, s[TPKT1_LENGTH..]);
      assert x + s[TPKT1_LENGTH..] == s;
      assert AtTrip(x, 0) == Some(x) && Unsettled(x);
    } else {
      var less := WrongHeadSpoilsAPrefix(OnePass(s).rest, k - 1);
      PassOnLess(s, less);
      x := s[..|s| - |OnePass(s).rest|] + less;
      if Settled(x) {
        SettledUnfolds(x);
        assert false;
      }
    }
  }

  /**
   The exact condition for a whole stream: it may be cut anywhere, whatever follows the cut,
   precisely when no trip over it is shown a head with a wrong version byte that announces 4 or
   more bytes. Version-1 frames of any announced length are harmless, also those of 0 to 3 bytes
   and those of oversized payloads, and so is a wrong head that announces less than a header.
   */
  lemma {:induction false} StreamMayBeCutAnywhereExactlyWhenVersioned(s: seq<byte>)
    requires |s| <= MAX_ARRIVAL
    ensures Versioned(s) <==>
            forall x: seq<byte>, y: seq<byte> | x <= s && |x| + |y| < TWO_TO_THE_32 ::
              SameOutcome(Deframe(x + y), Then(Deframe(x), y))
  {
    hide OnePass, WrongHead, Deframe, SameOutcome, Then, Settled;
    if Versioned(s) {
      forall x: seq<byte>, y: seq<byte> | x <= s && |x| + |y| < TWO_TO_THE_32
        ensures SameOutcome(Deframe(x + y), Then(Deframe(x), y))
      {
        assert s == x + s[|x|..];
        PrefixOfVersionedIsSettled(x, s[|x|..]);
        SettledCutIsHarmless(x, y);
      }
    } else {
      var k: nat :| AtTrip(s, k).Some? && WrongHead(AtTrip(s, k).value);
      var x := WrongHeadSpoilsAPrefix(s, k);
      CutIsHarmlessExactlyWhenSettled(x);
    }
  }

  lemma {:induction false} ReceiveOneMore(pending: seq<byte>, arrivals: seq<seq<byte>>, last: seq<byte>)
    ensures Receive(pending, arrivals + [last]) == Then(Receive(pending, arrivals), last)
    decreases |arrivals|
  {
    hide Deframe;
    var all := arrivals + [last];
    if arrivals == [] {
      assert all[0] == last && all[1..] == [];
      assert Receive(pending, all) == Then(Batch([], pending, false), last);
    } else {
      assert all[0] == arrivals[0] && all[1..] == arrivals[1..] + [last];
      var b := Deframe(pending + arrivals[0]);
      if !b.hung {
        ReceiveOneMore(b.rest, arrivals[1..], last);
      }
    }
  }

  lemma {:induction false} ConcatOneMore(arrivals: seq<seq<byte>>, last: seq<byte>)
    ensures Concat(arrivals + [last]) == Concat(arrivals) + last
  {
    if arrivals == [] {
      assert [last][1..] == [] && arrivals + [last] == [last];
    } else {
      assert (arrivals + [last])[1..] == arrivals[1..] + [last];
      ConcatOneMore(arrivals[1..], last);
    }
  }

  /** Arrivals that end at settled places do what the same bytes do in one piece. */
  lemma {:induction false} SettledArrivals(arrivals: seq<seq<byte>>)
    requires |Concat(arrivals)| < TWO_TO_THE_32
    requires forall i | 0 <= i < |arrivals| :: Settled(Concat(arrivals[..i]))
    ensures SameOutcome(Receive([], arrivals), Deframe(Concat(arrivals)))
    decreases |arrivals|
  {
    hide Settled, OnePass;
    if arrivals == [] {
      FirstOf([]);
      assert OnePass([]) == Leave([]) by {
        PassOnNothing();
      }
    } else {
      var n := |arrivals| - 1;
      var before, last := arrivals[..n], arrivals[n];
      assert arrivals == before + [last];
      ConcatOneMore(before, last);
      ReceiveOneMore([], before, last);
      forall i | 0 <= i < |before| ensures Settled(Concat(before[..i])) {
        assert before[..i] == arrivals[..i];
      }
      SettledArrivals(before);
      SettledCutIsHarmless(Concat(before), last);
    }
  }

  lemma {:induction false} PassOnNothing()
    ensures OnePass([]) == Leave([])
  {
  }

  lemma {:induction false} FirstArrivals(arrivals: seq<seq<byte>>, i: nat)
    requires i <= |arrivals|
    ensures Concat(arrivals) == Concat(arrivals[..i]) + Concat(arrivals[i..])
  {
    if i == 0 {
      assert arrivals[..0] == [] && arrivals[0..] == arrivals;
    } else {
      assert arrivals[..i][1..] == arrivals[1..][..i - 1] && arrivals[1..][i - 1..] == arrivals[i..];
      FirstArrivals(arrivals[1..], i - 1);
    }
  }

  /** So every cutting of a stream without wrong heads makes the calls that the whole makes. */
  lemma {:induction false} AnyCuttingOfVersionedStream(arrivals: seq<seq<byte>>)
    requires |Concat(arrivals)| < TWO_TO_THE_32 && Versioned(Concat(arrivals))
    ensures SameOutcome(Receive([], arrivals), Deframe(Concat(arrivals)))
  {
    hide Versioned, Settled;
    forall i | 0 <= i < |arrivals| ensures Settled(Concat(arrivals[..i])) {
      FirstArrivals(arrivals, i);
      PrefixOfVersionedIsSettled(Concat(arrivals[..i]), Concat(arrivals[i..]));
    }
    SettledArrivals(arrivals);
  }

  lemma {:induction false} PassOnWhole(whole: seq<byte>)
    requires whole == [0, 0, 0, 5, 9]
    ensures OnePass(whole) == Deliver(Call([], 1), [])
  {
    assert whole[1..][4..4] == [] && whole[1..][4..] == [];
  }

  lemma {:induction false} PassOnFirst(first: seq<byte>, second: seq<byte>)
    requires first == [0, 0, 0, 5] && second == [0, 0, 5, 9]
    ensures OnePass(first) == Leave([0, 0, 5]) && OnePass(second) == Leave([0, 5, 9])
  {
  }

  /**
   After a wrong version byte the outcome depends on how the bytes arrived, so the loop does
   not resynchronise by dropping one byte: the same five bytes hand over one message when they
   arrive together and none when the last one arrives alone.
   */
  lemma {:induction false} WrongVersionDependsOnChunking()
    ensures Concat([[0, 0, 0, 5, 9]]) == Concat([[0, 0, 0, 5], [9]])
    ensures Receive([], [[0, 0, 0, 5, 9]]).calls == [Call([], 1)]
    ensures Receive([], [[0, 0, 0, 5], [9]]).calls == []
  {
    hide OnePass;
    var whole: seq<byte>, first: seq<byte>, second: seq<byte> := [0, 0, 0, 5, 9], [0, 0, 0, 5], [0, 0, 5, 9];
    assert [] + whole == whole && [whole][1..] == [];
    assert [] + first == first && [0, 0, 5] + [9] == second;
    assert [first, [9]][1..] == [[9]] && [[9]][1..] == [];
    PassOnWhole(whole);
    PassOnFirst(first, second);
    assert Deframe(whole) == Batch([Call([], 1)], [], false);
    assert Deframe(first) == Batch([], [0, 0, 5], false);
    assert Deframe(second) == Batch([], [0, 5, 9], false);
    assert Receive([0, 0, 5], [[9]]) == Batch([], [0, 5, 9], false);
  }

  // ----- Frames in front of anything -------------------------------------------------------

  /** The buffered length is never truncated: small arrivals, or few bytes in all. */
  predicate Moderate(pending: seq<byte>, arrivals: seq<seq<byte>>) {
    || (forall i | 0 <= i < |arrivals| :: |arrivals[i]| <= MAX_ARRIVAL)
    || |pending| + |Concat(arrivals)| < TWO_TO_THE_32
  }

  /** Part of one frame, however it arrives, just stays in the buffer. */
  lemma {:induction false} PartStays(ms: seq<Payload>, pending: seq<byte>, arrivals: seq<seq<byte>>)
    requires AllFit(ms) && PartOf(pending + Concat(arrivals), ms)
    ensures Receive(pending, arrivals) == Batch([], pending + Concat(arrivals), false)
    decreases |arrivals|
  {
    hide Header, OnePass, Deframe;
    if arrivals == [] {
      assert pending + [] == pending;
    } else {
      var now, later := arrivals[0], Concat(arrivals[1..]);
      assert pending + (now + later) == (pending + now) + later;
      DeframePart(ms, pending + now);
      PartStays(ms, pending + now, arrivals[1..]);
    }
  }

  lemma {:induction false} PartIsShort(ms: seq<Payload>, pending: seq<byte>)
    requires AllFit(ms) && PartOf(pending, ms)
    ensures |pending| < TWO_TO_THE_24 && |pending| <= |Encode(ms)|
    ensures ms != [] ==> |pending| < |Encode(ms)|
    ensures ms == [] ==> pending == Encode(ms) == []
  {
    hide Header;
  }

  lemma {:induction false} SplitWithin(a: seq<byte>, b: seq<byte>, c: seq<byte>, d: seq<byte>)
    requires a + b == c + d && |a| <= |c|
    ensures a <= c
  {
    assert a == (a + b)[..|a|] && c[..|a|] == (c + d)[..|a|];
  }

  lemma {:induction false} SplitBehind(a: seq<byte>, b: seq<byte>, c: seq<byte>, d: seq<byte>)
    requires a + b == c + d && |c| <= |a|
    ensures a == c + a[|c|..] && a[|c|..] + b == d
  {
    SplitWithin(c, d, a, b);
    assert a[|c|..] + b == (a + b)[|c|..] && d == (c + d)[|c|..];
  }

  lemma {:induction false} RestBehindWhole(ms: seq<Payload>, k: nat, rest: seq<byte>, later: seq<byte>, tail: seq<byte>)
    requires k <= |ms| && (Encode(ms[..k]) + rest) + later == Encode(ms) + tail
    ensures rest + later == Encode(ms[k..]) + tail
  {
    hide Encode;
    assert ms == ms[..k] + ms[k..];
    EncodeAppend(ms[..k], ms[k..]);
    var e := Encode(ms[..k]);
    assert (e + rest) + later == e + (rest + later);
    assert (e + Encode(ms[k..])) + tail == e + (Encode(ms[k..]) + tail);
    assert rest + later == (e + (rest + later))[|e|..];
  }

  /**
   Whatever follows some whole frames, and however all of it is cut into arrivals: the messages
   are handed over first, and then all goes on as if the rest alone arrived, in some cutting.
   */
  lemma {:induction false} FramesComeFirst(
      ms: seq<Payload>, tail: seq<byte>, pending: seq<byte>, arrivals: seq<seq<byte>>)
    returns (rests: seq<seq<byte>>)
    requires AllFit(ms) && PartOf(pending, ms) && pending + Concat(arrivals) == Encode(ms) + tail
    requires Moderate(pending, arrivals)
    ensures Concat(rests) == tail && Moderate([], rests)
    ensures var c := Receive([], rests);
            Receive(pending, arrivals) == Batch(Calls(ms) + c.calls, c.rest, c.hung)
    decreases |arrivals|
  {
    hide Header, OnePass, Frame, Encode, Calls, Deframe;
    PartIsShort(ms, pending);
    if arrivals == [] {
      assert pending + [] == pending;
      rests := [];
      assert Calls(ms) == [];
    } else {
      var now, later := arrivals[0], Concat(arrivals[1..]);
      var input := pending + now;
      assert pending + (now + later) == input + later;
      if |input| < |Encode(ms)| {
        SplitWithin(input, later, Encode(ms), tail);
        var k, rest := DeframeStream(ms, input);
        RestBehindWhole(ms, k, rest, later, tail);
        rests := FramesComeFirst(ms[k..], tail, rest, arrivals[1..]);
        CallsAppend(ms[..k], ms[k..]);
        var c := Receive([], rests);
        assert ms == ms[..k] + ms[k..];
        assert Calls(ms[..k]) + (Calls(ms[k..]) + c.calls) == Calls(ms) + c.calls;
      } else {
        var t := input[|Encode(ms)|..];
        SplitBehind(input, later, Encode(ms), tail);
        DeframeFrames(ms, t);
        rests := [t] + arrivals[1..];
        assert [] + t == t && rests[1..] == arrivals[1..] && rests[0] == t;
        var b, c := Deframe(t), Receive([], rests);
        if !b.hung {
          var d := Receive(b.rest, arrivals[1..]);
          assert (Calls(ms) + b.calls) + d.calls == Calls(ms) + (b.calls + d.calls);
        }
      }
    }
  }

  // ----- A frame whose payload got lost ----------------------------------------------------

  /**
   A header without its payload, behind whole frames, takes the next bytes as its payload,
   whatever they are and however all of it is cut into arrivals: with fewer than that nothing
   more is handed over, and otherwise they are handed over as one message, and all goes on as if
   the bytes behind them alone arrived, in some cutting.
   */
  lemma {:induction false} LostPayload(ms: seq<Payload>, m: Payload, later: seq<byte>, arrivals: seq<seq<byte>>)
    returns (rests: seq<seq<byte>>)
    requires AllFit(ms) && Fits(m)
    requires Concat(arrivals) == Encode(ms) + (Header(|m|) + later) && Moderate([], arrivals)
    ensures Receive([], arrivals).calls == Calls(ms) <==> |later| < |m|
    ensures |later| < |m| ==> Receive([], arrivals) == Batch(Calls(ms), Header(|m|) + later, false)
    ensures |m| <= |later| ==>
              var c := Receive([], rests);
              && Concat(rests) == later[|m|..] && Moderate([], rests)
              && Receive([], arrivals) == Batch(Calls(ms) + ([CallOf(later[..|m|])] + c.calls), c.rest, c.hung)
  {
    hide Header, OnePass, Deframe, Encode, Frame, Calls;
    assert [] + Concat(arrivals) == Concat(arrivals);
    if |later| < |m| {
      var tail := Header(|m|) + later;
      rests := FramesComeFirst(ms, tail, [], arrivals);
      StarvedPart(m, later);
      assert [] + tail == tail;
      PartStays([Completed(m, later)], [], rests);
      assert Calls(ms) + [] == Calls(ms);
    } else {
      var p := later[..|m|];
      FrameFromBytes(ms, p, later[|m|..], m, later);
      rests := FramesComeFirst(ms + [p], later[|m|..], [], arrivals);
      CallsAppend(ms, [p]);
      OneCall(p);
      var c := Receive([], rests);
      assert (Calls(ms) + [CallOf(p)]) + c.calls == Calls(ms) + ([CallOf(p)] + c.calls);
      assert |Receive([], arrivals).calls| > |Calls(ms)|;
    }
  }

  lemma {:induction false} OneCall(p: Payload)
    ensures Calls([p]) == [CallOf(p)]
  {
  }

  /** Some message of the length of `m` that begins with `later`. */
  function Completed(m: Payload, later: seq<byte>): (p: Payload)
    requires |later| <= |m|
    ensures |p| == |m|
  {
    later + m[|later|..]
  }

  lemma {:induction false} StarvedPart(m: Payload, later: seq<byte>)
    requires Fits(m) && |later| < |m|
    ensures AllFit([Completed(m, later)]) && PartOf(Header(|m|) + later, [Completed(m, later)])
  {
    hide Header;
    var p := Completed(m, later);
    assert Frame(p) == (Header(|m|) + later) + m[|later|..];
  }

  lemma {:induction false} FrameFromBytes(ms: seq<Payload>, p: Payload, behind: seq<byte>, m: Payload, later: seq<byte>)
    requires AllFit(ms) && Fits(m) && |p| == |m| && later == p + behind
    ensures AllFit(ms + [p]) && PartOf([], ms + [p])
    ensures Encode(ms) + (Header(|m|) + later) == Encode(ms + [p]) + behind
  {
    hide Header, Encode;
    EncodeAppend(ms, [p]);
    EncodeOne(p);
    assert Header(|m|) + (p + behind) == Frame(p) + behind;
  }

  /** The loop recovers when the lost payload is made up by whole frames: the others arrive intact. */
  lemma {:induction false} LostPayloadMadeUpByFrames(
      ms: seq<Payload>, m: Payload, ns: seq<Payload>, i: nat, arrivals: seq<seq<byte>>)
    requires AllFit(ms) && Fits(m) && AllFit(ns)
    requires i <= |ns| && |Encode(ns[..i])| == |m|
    requires Concat(arrivals) == Encode(ms) + (Header(|m|) + Encode(ns)) && Moderate([], arrivals)
    ensures Receive([], arrivals) == Batch(Calls(ms) + ([CallOf(Encode(ns[..i]))] + Calls(ns[i..])), [], false)
  {
    hide Header, OnePass, Deframe, Encode, Calls;
    assert ns == ns[..i] + ns[i..];
    EncodeAppend(ns[..i], ns[i..]);
    var later := Encode(ns);
    assert later[..|m|] == Encode(ns[..i]) && later[|m|..] == Encode(ns[i..]);
    var rests := LostPayload(ms, m, later, arrivals);
    assert [] + Concat(rests) == Encode(ns[i..]) + [];
    var empties := FramesComeFirst(ns[i..], [], [], rests);
    PartStays([], [], empties);
    assert Calls(ns[i..]) + [] == Calls(ns[i..]);
  }
}
