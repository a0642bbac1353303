/**
 The TPKT wire format and the deframing loop as functions on byte sequences.

 A frame is a version byte, a 24-bit big-endian total length that counts the four header
 bytes, and the payload. Masks are written as remainders and shifts as quotients.
 */
module Tpkt {
  import opened Arithmetic
  import opened Define

  // ----- Encoding --------------------------------------------------------------------------

  /** The header `sendWithTPKT` builds; `length + 4` wraps at 32 bits before it is masked. */
  function Header(length: uint32): (h: seq<byte>)
    ensures |h| == TPKT1_LENGTH
  {
    var total := (length + TPKT1_LENGTH) % TWO_TO_THE_32;
    [ TPKT_VERSION1_LOW_BYTE,
      total % TWO_TO_THE_24 / TWO_TO_THE_16,
      total % TWO_TO_THE_16 / 0x100,
      total % 0x100 ]
  }

  /** The 24-bit length the receiver re-assembles from a head. */
  function PacketLength(head: seq<byte>): (n: nat)
    requires |head| >= TPKT1_LENGTH
    ensures n < TWO_TO_THE_24
  {
    var high: int, middle: int, low: int := head[1], head[2], head[3];
    high * TWO_TO_THE_16 + middle * 0x100 + low
  }

  /** What may be passed to `sendWithTPKT`: its length argument is 32 bits wide. */
  type Payload = m: seq<byte> | |m| < TWO_TO_THE_32

  /** The payloads whose frame length fits the 24-bit field. */
  predicate Fits(m: Payload) {
    |m| <= 0xFFFFFB
  }

  predicate AllFit(ms: seq<Payload>) {
    forall i | 0 <= i < |ms| :: Fits(ms[i])
  }

  function Frame(m: Payload): (f: seq<byte>)
    ensures |f| == TPKT1_LENGTH + |m|
  {
    Header(|m|) + m
  }

  function Encode(ms: seq<Payload>): seq<byte>
  {
    if ms == [] then [] else Frame(ms[0]) + Encode(ms[1..])
  }

  lemma {:induction false} HeaderCodec(length: uint32)
    ensures PacketLength(Header(length)) == (length + TPKT1_LENGTH) % TWO_TO_THE_24
    ensures PacketLength(Header(length)) == length + TPKT1_LENGTH <==> length <= 0xFFFFFB
  {
    var total := (length + TPKT1_LENGTH) % TWO_TO_THE_32;
    RemainderOfRemainder(length + TPKT1_LENGTH, TWO_TO_THE_24, 0x100);
    assert total % TWO_TO_THE_24 == (length + TPKT1_LENGTH) % TWO_TO_THE_24;
    Reassemble(total);
  }

  /** The wire layout: a version byte of 1 and the total length, most significant byte first. */
  lemma {:induction false} HeaderIsBigEndian(length: uint32)
    ensures var h: seq<int> := Header(length);
            && |h| == 4 && h[0] == 1
            && h[1] * 0x1_0000 + h[2] * 0x100 + h[3] == (length + 4) % 0x100_0000
  {
    HeaderCodec(length);
    Reassemble((length + TPKT1_LENGTH) % TWO_TO_THE_32);
    RemainderOfRemainder(length + TPKT1_LENGTH, TWO_TO_THE_24, 0x100);
  }

  /** The three low bytes of a number make up its remainder modulo 2^24. */
  lemma {:induction false} Reassemble(total: nat)
    ensures total % TWO_TO_THE_24 / TWO_TO_THE_16 * TWO_TO_THE_16
            + total % TWO_TO_THE_16 / 0x100 * 0x100 + total % 0x100 == total % TWO_TO_THE_24
  {
    RemainderOfRemainder(total, TWO_TO_THE_16, 0x100);
    RemainderOfRemainder(total, 0x100, 0x100);
    DivMod(total % TWO_TO_THE_24, TWO_TO_THE_16);
    DivMod(total % TWO_TO_THE_16, 0x100);
  }

  lemma {:induction false} EncodeAppend(ms: seq<Payload>, ns: seq<Payload>)
    ensures Encode(ms + ns) == Encode(ms) + Encode(ns)
  {
    if ms == [] {
      assert ms + ns == ns;
    } else {
      assert (ms + ns)[0] == ms[0] && (ms + ns)[1..] == ms[1..] + ns;
      EncodeAppend(ms[1..], ns);
    }
  }

  lemma {:induction false} EncodeOne(m: Payload)
    ensures Encode([m]) == Frame(m)
  {
    assert [m][1..] == [];
  }

  // ----- One pass of the deframing loop ----------------------------------------------------

  /**
   What `onRead` is handed: the payload bytes that were really copied out of the input
   buffer, and the length argument, which is computed modulo 2^32.
   */
  datatype Call = Call(data: seq<byte>, len: uint32)

  datatype Pass =
    | Leave(rest: seq<byte>)              // the loop ends with this input buffer
    | Deliver(call: Call, rest: seq<byte>) // `onRead` was called and the loop goes round

  /**
   One trip through the loop body. The buffered length is truncated to 32 bits. After a wrong
   version byte one byte is dropped, but the pass goes on with the head it had already viewed
   and with the length it had already read.
   */
  function OnePass(input: seq<byte>): (p: Pass)
    ensures |p.rest| <= |input|
    ensures p.Deliver? ==>
              TPKT1_LENGTH <= |input| &&
              (|p.rest| == |input| <==> input[0] == TPKT_VERSION1_LOW_BYTE && PacketLength(input) == 0)
  {
    var length := |input| % TWO_TO_THE_32;
    if length < 1 || |input| < TPKT1_LENGTH then
      Leave(input)
    else
      var left := if input[0] != TPKT_VERSION1_LOW_BYTE then input[1..] else input;
      var packetLength := PacketLength(input);
      if packetLength > length then
        Leave(left)
      else
        var taken := Min(packetLength, |left|);
        var data := if taken < TPKT1_LENGTH then [] else left[TPKT1_LENGTH..taken];
        Deliver(Call(data, (packetLength - TPKT1_LENGTH) % TWO_TO_THE_32), left[taken..])
  }

  /** The call that hands over exactly the message `m`. */
  function CallOf(m: Payload): Call
  {
    Call(m, |m|)
  }

  function Calls(ms: seq<Payload>): (cs: seq<Call>)
    ensures |cs| == |ms|
  {
    seq(|ms|, i requires 0 <= i < |ms| => CallOf(ms[i]))
  }

  /** A whole fitting frame is handed over, alone, exactly when the truncated length covers it. */
  lemma {:induction false} PassOnFrame(m: Payload, rest: seq<byte>)
    requires Fits(m)
    ensures OnePass(Frame(m) + rest) == Deliver(CallOf(m), rest)
            <==> |Frame(m)| <= |Frame(m) + rest| % TWO_TO_THE_32
  {
    HeaderCodec(|m|);
    var input := Frame(m) + rest;
    assert input[..4] == Header(|m|);
    assert PacketLength(input) == PacketLength(Header(|m|)) == |Frame(m)|;
    assert input[|Frame(m)|..] == rest;
    assert input[4..|Frame(m)|] == m;
  }

  lemma {:induction false} FittingFramePasses(m: Payload, rest: seq<byte>)
    requires Fits(m) && |Frame(m)| + |rest| < TWO_TO_THE_32
    ensures OnePass(Frame(m) + rest) == Deliver(CallOf(m), rest)
  {
    hide Header, OnePass;
    PassOnFrame(m, rest);
    assert |Frame(m) + rest| == |Frame(m)| + |rest|;
  }

  /** Part of a frame is left alone. */
  lemma {:induction false} PassOnPart(m: Payload, part: seq<byte>)
    requires Fits(m) && part < Frame(m)
    ensures OnePass(part) == Leave(part)
  {
    HeaderCodec(|m|);
    if |part| >= 4 {
      assert part[..4] == Frame(m)[..4] == Header(|m|);
      assert PacketLength(part) == PacketLength(Header(|m|)) == |Frame(m)|;
    }
  }

  /** Without the 24-bit bound the receiver does not cut the frame where the sender ended it. */
  lemma {:induction false} FirstMessageExactlyWhenFits(m: Payload, rest: seq<byte>)
    requires |Frame(m)| + |rest| < TWO_TO_THE_32
    ensures OnePass(Frame(m) + rest) == Deliver(CallOf(m), rest) <==> Fits(m)
  {
    HeaderCodec(|m|);
    var input := Frame(m) + rest;
    assert input[..4] == Header(|m|);
    assert PacketLength(input) == PacketLength(Header(|m|));
    if Fits(m) {
      PassOnFrame(m, rest);
    }
  }

  // ----- The whole loop --------------------------------------------------------------------

  /** What one `onSessionRead` does; `hung` says that the loop never ends. */
  datatype Batch = Batch(calls: seq<Call>, rest: seq<byte>, hung: bool)

  function Deframe(input: seq<byte>): (b: Batch)
    decreases |input|
  {
    match OnePass(input)
    case Leave(rest) => Batch([], rest, false)
    case Deliver(call, rest) =>
      if |rest| == |input| then
        Batch([], input, true)
      else
        var b := Deframe(rest);
        Batch([call] + b.calls, b.rest, b.hung)
  }

  /** The input buffer at the start of trip `k`, if the loop gets that far. */
  function AtTrip(input: seq<byte>, k: nat): Option<seq<byte>> {
    if k == 0 then
      Some(input)
    else
      match OnePass(input)
      case Leave(_) => None
      case Deliver(_, rest) => AtTrip(rest, k - 1)
  }

  /** A buffer that presents a version-1 head of total length 0. */
  predicate ZeroHead(input: seq<byte>) {
    && 1 <= |input| % TWO_TO_THE_32 && TPKT1_LENGTH <= |input|
    && input[0] == TPKT_VERSION1_LOW_BYTE && PacketLength(input) == 0
  }

  lemma {:induction false} StuckForever(input: seq<byte>, k: nat)
    requires ZeroHead(input)
    ensures AtTrip(input, k) == Some(input)
  {
    hide OnePass, ZeroHead, PacketLength;
    NoProgressIsZeroHead(input);
    if k == 0 {
    } else {
      StuckForever(input, k - 1);
    }
  }

  lemma {:induction false} NoProgressIsZeroHead(input: seq<byte>)
    ensures ZeroHead(input) <==> OnePass(input).Deliver? && |OnePass(input).rest| == |input|
    ensures ZeroHead(input) ==> OnePass(input).rest == input
  {
  }

  lemma {:induction false} HungReachesZeroHead(input: seq<byte>) returns (k: nat)
    requires Deframe(input).hung
    ensures AtTrip(input, k).Some? && ZeroHead(AtTrip(input, k).value)
    decreases |input|
  {
    hide OnePass, ZeroHead, PacketLength;
    NoProgressIsZeroHead(input);
    var rest := OnePass(input).rest;
    if |rest| == |input| {
      k := 0;
    } else {
      var j := HungReachesZeroHead(rest);
      k := j + 1;
    }
  }

  lemma {:induction false} NotHungLeaves(input: seq<byte>, k: nat)
    requires !Deframe(input).hung
    ensures AtTrip(input, k).None? <==> |Deframe(input).calls| < k
    ensures AtTrip(input, k).Some? ==> !ZeroHead(AtTrip(input, k).value)
    decreases k
  {
    hide OnePass, ZeroHead, PacketLength;
    NoProgressIsZeroHead(input);
    if k == 0 || OnePass(input).Leave? {
    } else {
      NotHungLeaves(OnePass(input).rest, k - 1);
    }
  }

  lemma {:induction false} HungNeverLeaves(input: seq<byte>, k: nat)
    requires Deframe(input).hung
    ensures AtTrip(input, k).Some?
    decreases k
  {
    hide OnePass, ZeroHead, PacketLength;
    NoProgressIsZeroHead(input);
    if k == 0 {
    } else {
      var rest := OnePass(input).rest;
      if |rest| == |input| {
        StuckForever(input, k);
      } else {
        HungNeverLeaves(rest, k - 1);
      }
    }
  }

  /** The loop runs for ever exactly when some trip is shown a version-1 head of length 0. */
  lemma {:induction false} LoopEndsUnlessZeroHead(input: seq<byte>)
    ensures Deframe(input).hung <==> forall k: nat :: AtTrip(input, k).Some?
    ensures Deframe(input).hung <==>
            exists k: nat :: AtTrip(input, k).Some? && ZeroHead(AtTrip(input, k).value)
  {
    if Deframe(input).hung {
      forall k: nat ensures AtTrip(input, k).Some? {
        HungNeverLeaves(input, k);
      }
      var k := HungReachesZeroHead(input);
    } else {
      NotHungLeaves(input, |Deframe(input).calls| + 1);
      forall k: nat ensures AtTrip(input, k).Some? ==> !ZeroHead(AtTrip(input, k).value) {
        NotHungLeaves(input, k);
      }
    }
  }

  /**
   The sender can cause this: the peer's loop runs for ever on a frame it is shown exactly when
   the total length is a multiple of 2^24, the first such payload being one of 0xFFFFFC bytes.
   */
  lemma {:induction false} SentFrameHangsExactly(m: Payload, rest: seq<byte>)
    requires |Frame(m)| + |rest| < TWO_TO_THE_32
    ensures ZeroHead(Frame(m) + rest) <==> (|m| + TPKT1_LENGTH) % TWO_TO_THE_24 == 0
    ensures (|m| + TPKT1_LENGTH) % TWO_TO_THE_24 == 0 ==> Deframe(Frame(m) + rest).hung
  {
    hide OnePass;
    var input := Frame(m) + rest;
    HeaderCodec(|m|);
    HeadOfFrame(m, rest);
    NoProgressIsZeroHead(input);
  }

  lemma {:induction false} HeadOfFrame(m: Payload, rest: seq<byte>)
    ensures (Frame(m) + rest)[0] == TPKT_VERSION1_LOW_BYTE
    ensures PacketLength(Frame(m) + rest) == PacketLength(Header(|m|))
  {
    assert (Frame(m) + rest)[..4] == Header(|m|);
  }

  /** How many of the frames of `ms` lie wholly within the first `n` bytes of their encoding. */
  function Whole(ms: seq<Payload>, n: nat): (k: nat)
    ensures k <= |ms|
  {
    if ms == [] || n < |Frame(ms[0])| then 0 else 1 + Whole(ms[1..], n - |Frame(ms[0])|)
  }

  /** `rest` is what a reader of `ms` may be left with: a proper part of the first frame. */
  predicate PartOf(rest: seq<byte>, ms: seq<Payload>) {
    if ms == [] then rest == [] else rest < Frame(ms[0])
  }

  /** The bytes of a stream that has arrived so far are `k` whole frames and part of the next. */
  predicate CutAt(stream: seq<byte>, ms: seq<Payload>, k: nat, rest: seq<byte>) {
    k <= |ms| && stream == Encode(ms[..k]) + rest && PartOf(rest, ms[k..])
  }

  /** Such a cut always exists ... */
  lemma {:induction false} CutStream(ms: seq<Payload>, stream: seq<byte>) returns (k: nat, rest: seq<byte>)
    requires stream <= Encode(ms)
    ensures CutAt(stream, ms, k, rest) && rest <= Encode(ms[k..])
  {
    if ms == [] || |stream| < |Frame(ms[0])| {
      k, rest := 0, stream;
      assert ms[0..] == ms && ms[..0] == [] && [] + stream == stream;
    } else {
      var f, tail := Frame(ms[0]), stream[|Frame(ms[0])|..];
      assert stream == f + tail;
      k, rest := CutStream(ms[1..], tail);
      k := k + 1;
      PrefixOfTail(ms, k);
      assert stream == f + (Encode(ms[1..][..k - 1]) + rest);
    }
  }

  lemma {:induction false} PrefixOfTail(ms: seq<Payload>, k: nat)
    requires 0 < k <= |ms|
    ensures ms[..k] == [ms[0]] + ms[1..][..k - 1] && ms[..k][1..] == ms[1..][..k - 1]
    ensures ms[1..][k - 1..] == ms[k..]
  {
  }

  /** ... and is unique: it is made after the longest run of messages that has fully arrived. */
  lemma {:induction false} CutIsWhole(ms: seq<Payload>, stream: seq<byte>, k: nat, rest: seq<byte>)
    requires CutAt(stream, ms, k, rest)
    ensures k == Whole(ms, |stream|)
  {
    if k == 0 {
      assert ms[0..] == ms;
    } else {
      PrefixOfTail(ms, k);
      CutIsWhole(ms[1..], Encode(ms[1..][..k - 1]) + rest, k - 1, rest);
    }
  }

  /** The loop on a whole frame followed by anything hands it over and goes on with the rest. */
  lemma {:induction false} DeframeFrame(m: Payload, rest: seq<byte>)
    requires Fits(m) && |Frame(m)| + |rest| < TWO_TO_THE_32
    ensures var b := Deframe(rest);
            Deframe(Frame(m) + rest) == Batch([CallOf(m)] + b.calls, b.rest, b.hung)
  {
    hide Header, OnePass;
    FittingFramePasses(m, rest);
  }

  lemma {:induction false} CallsAppend(ms: seq<Payload>, ns: seq<Payload>)
    ensures Calls(ms + ns) == Calls(ms) + Calls(ns)
  {
  }

  lemma {:induction false} FirstCall(ms: seq<Payload>)
    requires ms != []
    ensures Calls(ms) == [CallOf(ms[0])] + Calls(ms[1..])
  {
  }

  /** One `onSessionRead` on some whole frames and part of another. */
  lemma {:induction false} DeframeFrames(ms: seq<Payload>, rest: seq<byte>)
    requires AllFit(ms) && |Encode(ms)| + |rest| < TWO_TO_THE_32
    ensures var b := Deframe(rest);
            Deframe(Encode(ms) + rest) == Batch(Calls(ms) + b.calls, b.rest, b.hung)
  {
    hide Header, OnePass, Frame, Deframe, Calls;
    if ms == [] {
      assert Encode(ms) + rest == rest;
    } else {
      var tail, b := Encode(ms[1..]) + rest, Deframe(rest);
      assert Encode(ms) + rest == Frame(ms[0]) + tail;
      DeframeFrame(ms[0], tail);
      DeframeFrames(ms[1..], rest);
      FirstCall(ms);
      assert [CallOf(ms[0])] + (Calls(ms[1..]) + b.calls) == Calls(ms) + b.calls;
    }
  }

  lemma {:induction false} DeframePart(ms: seq<Payload>, rest: seq<byte>)
    requires AllFit(ms) && PartOf(rest, ms)
    ensures Deframe(rest) == Batch([], rest, false)
  {
    if ms != [] {
      PassOnPart(ms[0], rest);
    }
  }

  /** One `onSessionRead` takes every whole frame, in order, and leaves the part of the next. */
  lemma {:induction false} DeframeStream(ms: seq<Payload>, input: seq<byte>) returns (k: nat, rest: seq<byte>)
    requires AllFit(ms) && input <= Encode(ms) && |input| < TWO_TO_THE_32
    ensures CutAt(input, ms, k, rest) && rest <= Encode(ms[k..])
    ensures Deframe(input) == Batch(Calls(ms[..k]), rest, false)
  {
    k, rest := CutStream(ms, input);
    DeframeFrames(ms[..k], rest);
    DeframePart(ms[k..], rest);
    assert Calls(ms[..k]) + [] == Calls(ms[..k]);
  }

  // ----- Any cutting of the stream into arrivals -------------------------------------------

  /** Arrivals appended to the input buffer one by one, `onSessionRead` run after each. */
  function Receive(pending: seq<byte>, arrivals: seq<seq<byte>>): Batch
    decreases |arrivals|
  {
    if arrivals == [] then
      Batch([], pending, false)
    else
      var b := Deframe(pending + arrivals[0]);
      if b.hung then
        b
      else
        var later := Receive(b.rest, arrivals[1..]);
        Batch(b.calls + later.calls, later.rest, later.hung)
  }

  /** An arrival that keeps a buffer holding part of a frame below 2^32 bytes. */
  const MAX_ARRIVAL := TWO_TO_THE_32 - TWO_TO_THE_24

  lemma {:induction false} CutBeforeFirst(ms: seq<Payload>, rest: seq<byte>)
    requires PartOf(rest, ms)
    ensures CutAt(rest, ms, 0, rest) && Calls(ms[..0]) == []
  {
    assert ms[..0] == [] && ms[0..] == ms && [] + rest == rest;
  }

  lemma {:induction false} ReceiveStream(ms: seq<Payload>, pending: seq<byte>, arrivals: seq<seq<byte>>)
    returns (k: nat, rest: seq<byte>)
    requires AllFit(ms) && pending + Concat(arrivals) <= Encode(ms) && PartOf(pending, ms)
    requires forall i | 0 <= i < |arrivals| :: |arrivals[i]| <= MAX_ARRIVAL
    ensures CutAt(pending + Concat(arrivals), ms, k, rest)
    ensures Receive(pending, arrivals) == Batch(Calls(ms[..k]), rest, false)
    decreases |arrivals|
  {
    hide Header, OnePass, Frame, Encode, Calls, Deframe;
    if arrivals == [] {
      k, rest := 0, pending;
      CutBeforeFirst(ms, pending);
      assert pending + [] == pending;
    } else {
      var now, later := arrivals[0], Concat(arrivals[1..]);
      assert pending + (now + later) == (pending + now) + later;
      var i, middle := DeframeStream(ms, pending + now);
      DropWhole(ms, i, middle, later);
      var j;
      j, rest := ReceiveStream(ms[i..], middle, arrivals[1..]);
      k := i + j;
      JoinCuts(ms, i, j);
      assert Encode(ms[..i]) + (Encode(ms[i..][..j]) + rest) == Encode(ms[..k]) + rest;
    }
  }

  /** The unread bytes and what is still to come are a part of the remaining frames. */
  lemma {:induction false} DropWhole(ms: seq<Payload>, i: nat, middle: seq<byte>, later: seq<byte>)
    requires i <= |ms| && (Encode(ms[..i]) + middle) + later <= Encode(ms)
    ensures middle + later <= Encode(ms[i..])
  {
    assert ms[..i] + ms[i..] == ms;
    EncodeAppend(ms[..i], ms[i..]);
    DropHead(Encode(ms[..i]), middle, later, Encode(ms[i..]));
  }

  lemma {:induction false} DropHead(head: seq<byte>, middle: seq<byte>, later: seq<byte>, tail: seq<byte>)
    requires (head + middle) + later <= head + tail
    ensures middle + later <= tail
  {
    assert (head + middle) + later == head + (middle + later);
    assert (head + tail)[|head|..] == tail && (head + (middle + later))[|head|..] == middle + later;
    forall i | 0 <= i < |middle + later| ensures (middle + later)[i] == tail[i] {
      assert (head + tail)[|head| + i] == (head + (middle + later))[|head| + i];
    }
  }

  lemma {:induction false} JoinCuts(ms: seq<Payload>, i: nat, j: nat)
    requires i <= |ms| && j <= |ms[i..]|
    ensures Encode(ms[..i + j]) == Encode(ms[..i]) + Encode(ms[i..][..j])
    ensures Calls(ms[..i + j]) == Calls(ms[..i]) + Calls(ms[i..][..j])
    ensures ms[i..][j..] == ms[i + j..]
  {
    assert ms[..i + j] == ms[..i] + ms[i..][..j];
    EncodeAppend(ms[..i], ms[i..][..j]);
    CallsAppend(ms[..i], ms[i..][..j]);
  }

  /**
   Main result for the receiver. However the bytes of a stream of frames are cut into
   arrivals, and at every moment, `onRead` has been handed exactly the messages whose frames
   have fully arrived, in order, and the input buffer holds exactly the unread bytes, which
   are a proper part of the next frame.
   */
  lemma {:induction false} AnyChunkingDelivers(ms: seq<Payload>, arrivals: seq<seq<byte>>)
    requires AllFit(ms) && Concat(arrivals) <= Encode(ms)
    requires forall i | 0 <= i < |arrivals| :: |arrivals[i]| <= MAX_ARRIVAL
    ensures var k := Whole(ms, |Concat(arrivals)|);
            var received := Receive([], arrivals);
            && !received.hung
            && received.calls == Calls(ms[..k])
            && CutAt(Concat(arrivals), ms, k, received.rest)
  {
    assert [] + Concat(arrivals) == Concat(arrivals);
    var k, rest := ReceiveStream(ms, [], arrivals);
    CutIsWhole(ms, Concat(arrivals), k, rest);
  }

  /** Running `onSessionRead` again with no new bytes hands over nothing and keeps the buffer. */
  lemma {:induction false} SecondCallDeliversNothing(ms: seq<Payload>, input: seq<byte>)
    requires AllFit(ms) && input <= Encode(ms) && |input| < TWO_TO_THE_32
    ensures var b := Deframe(input); Deframe(b.rest) == Batch([], b.rest, false)
  {
    var k, rest := DeframeStream(ms, input);
    DeframePart(ms[k..], rest);
  }

  /** Messages of at most `bound` bytes. */
  predicate UpTo(ms: seq<Payload>, bound: nat) {
    forall i | 0 <= i < |ms| :: |ms[i]| <= bound
  }

  /** Two lists of messages shorter than 2^24 bytes with the same encoding are the same list. */
  lemma {:induction false} EncodeInjective(ms: seq<Payload>, ns: seq<Payload>)
    requires UpTo(ms, TWO_TO_THE_24 - 1) && UpTo(ns, TWO_TO_THE_24 - 1) && Encode(ms) == Encode(ns)
    ensures ms == ns
  {
    if ms == [] || ns == [] {
    } else {
      SameFirst(ms, ns);
      EncodeInjective(ms[1..], ns[1..]);
      assert ms == [ms[0]] + ms[1..] && ns == [ns[0]] + ns[1..];
    }
  }

  lemma {:induction false} SameFirst(ms: seq<Payload>, ns: seq<Payload>)
    requires UpTo(ms, TWO_TO_THE_24 - 1) && UpTo(ns, TWO_TO_THE_24 - 1)
    requires ms != [] && ns != [] && Encode(ms) == Encode(ns)
    ensures ms[0] == ns[0] && Encode(ms[1..]) == Encode(ns[1..])
  {
    hide Header;
    var m, n, all := ms[0], ns[0], Encode(ms);
    assert all[..4] == Header(|m|) == Header(|n|);
    SameLength(|m|, |n|);
    assert m == all[4..4 + |m|] == all[4..4 + |n|] == n;
    assert all[4 + |m|..] == Encode(ms[1..]) == Encode(ns[1..]);
  }

  lemma {:induction false} SameLength(m: uint32, n: uint32)
    requires m < TWO_TO_THE_24 && n < TWO_TO_THE_24 && Header(m) == Header(n)
    ensures m == n
  {
    hide Header;
    HeaderCodec(m);
    HeaderCodec(n);
  }

  /** From 2^24 bytes on encodings collide: one oversized message reads as a list of others. */
  lemma {:induction false} OversizedCollides(ns: seq<Payload>)
    requires |Encode(ns)| % TWO_TO_THE_24 == 0
    requires 0 < |Encode(ns)| < TWO_TO_THE_32 - TPKT1_LENGTH
    ensures !Fits(Encode(ns))
    ensures [Encode(ns)] != [[]] + ns
    ensures Encode([Encode(ns)]) == Encode([[]] + ns)
  {
    hide Header;
    var big := Encode(ns);
    EncodeOne(big);
    EncodeAppend([[]], ns);
    EncodeOne([]);
    SameHeader(|big|);
    assert big != [] && [big][0] != ([[]] + ns)[0];
  }

  function Empties(n: nat): seq<Payload> {
    seq(n, _ => [])
  }

  lemma {:induction false} EmptiesLength(n: nat)
    ensures AllFit(Empties(n)) && |Encode(Empties(n))| == TPKT1_LENGTH * n
  {
    if n == 0 {
    } else {
      EmptiesLength(n - 1);
      assert Empties(n)[1..] == Empties(n - 1);
    }
  }

  /** So encoding is not injective on messages of up to 2^24 bytes. */
  lemma {:induction false} EncodeNotInjective()
    ensures exists ms: seq<Payload>, ns: seq<Payload> ::
              && UpTo(ms, TWO_TO_THE_24) && UpTo(ns, TWO_TO_THE_24)
              && ms != ns && Encode(ms) == Encode(ns)
  {
    hide Header;
    var ns := Empties(TWO_TO_THE_24 / TPKT1_LENGTH);
    EmptiesLength(TWO_TO_THE_24 / TPKT1_LENGTH);
    OversizedCollides(ns);
    assert UpTo([Encode(ns)], TWO_TO_THE_24) && UpTo([[]] + ns, TWO_TO_THE_24);
  }

  /** Different lists of messages of at most `bound` bytes have different encodings. */
  ghost predicate InjectiveUpTo(bound: nat) {
    forall ms: seq<Payload>, ns: seq<Payload> |
      UpTo(ms, bound) && UpTo(ns, bound) && Encode(ms) == Encode(ns) :: ms == ns
  }

  /** The exact bound: encoding is injective precisely on payloads shorter than 2^24 bytes. */
  lemma {:induction false} InjectiveExactlyBelow24Bits(bound: nat)
    ensures InjectiveUpTo(bound) <==> bound < 0x100_0000
  {
    hide Header, Encode;
    if bound < TWO_TO_THE_24 {
      forall ms: seq<Payload>, ns: seq<Payload> |
        UpTo(ms, bound) && UpTo(ns, bound) && Encode(ms) == Encode(ns)
        ensures ms == ns
      {
        EncodeInjective(ms, ns);
      }
    } else {
      EncodeNotInjective();
      var ms: seq<Payload>, ns: seq<Payload> :|
        UpTo(ms, TWO_TO_THE_24) && UpTo(ns, TWO_TO_THE_24) && ms != ns && Encode(ms) == Encode(ns);
      assert UpTo(ms, bound) && UpTo(ns, bound);
    }
  }

  lemma {:induction false} SameHeader(length: uint32)
    requires length % TWO_TO_THE_24 == 0 && length + TPKT1_LENGTH < TWO_TO_THE_32
    ensures Header(length) == Header(0) == Frame([])
  {
    var total: nat := length + TPKT1_LENGTH;
    assert total % TWO_TO_THE_24 == TPKT1_LENGTH;
    RemainderOfRemainder(total, TWO_TO_THE_16, 0x100);
    RemainderOfRemainder(total, 0x100, TWO_TO_THE_16);
    assert Header(length) == [1, 0, 0, 4];
    assert Header(0) == [1, 0, 0, 4];
  }
}
