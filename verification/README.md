# translib, modelled and proved in Dafny

translib wraps libevent. Three of its parts are real state machines, and this project models them
and proves what they keep over every run:

- **TPKT connections.** `Tpkt.dfy` holds the wire format and the deframing loop as functions on
  bytes, `TpktStreams.dfy` what the loop makes of arbitrary bytes and cuttings, `Sockets.dfy` the
  socket with its output buffer, closing flag and deferred shutdown, and `TpktPeers.dfy` the loop
  and the sender as methods, and the path from `sendWithTPKT` on one end to `onRead` on the other.
- **Sessions.** `Dispatchers.dfy` holds a dispatcher with its queue of additions and removals and
  its session map, `Servers.dfy` a listener that issues ids and routes them, all its dispatchers
  together as a step system, and the other servers of the process that take ids from the same
  generator.
- **Timers.** `Timers.dfy` holds one timer with handlers that re-enter it, `TimerManagers.dfy` the
  manager that owns timers by id and sweeps the finished ones, `FrameLoops.dfy` the timer that
  drives a dispatcher.

`Define.dfy` has the integer widths and constants, `Arithmetic.dfy` facts about remainders.

The stateful objects are classes whose methods are proved equal to a function on their state
(`Socket.AfterClose`, `Dispatcher.AfterFrame`, `Servers.Step`, `Timer.Fire`, `Manager.AfterAudit`,
...). The main results are lemmas about these functions over arbitrary lists of events; an event
that is impossible in a state leaves it unchanged. Masks and shifts are written as remainders and
quotients; 32- and 64-bit wrap-around is written out wherever a counter or a length can wrap.
Failures of libevent calls, what `onNewSession` and user handlers do, and the order in which an
unordered map is walked are parameters, so the results hold for all of them.

## What turned out not to hold

- A payload above 0xFFFFFB bytes is accepted but framed with a wrong length, because
  `TPKT1_MAX_MSG_LENGTH` is never checked (`Tpkt.FirstMessageExactlyWhenFits`). Encodings stay
  distinct below 2^24 bytes and collide from there on (`Tpkt.InjectiveExactlyBelow24Bits`,
  `Tpkt.OversizedCollides`).
- `onSessionRead` never returns when it meets a version-1 head of total length 0
  (`Tpkt.LoopEndsUnlessZeroHead`). A sender produces one exactly for payloads of 0xFFFFFC
  bytes, or of that and a multiple of 2^24 (`Tpkt.SentFrameHangsExactly`).
- The receiver's comment promises to drop one byte after a wrong version byte and try again. The
  code goes on with the head it has already viewed, so what is delivered may depend on how the
  bytes arrived (`TpktStreams.WrongVersionDependsOnChunking`). A stream is safe from this precisely
  when no trip of the loop is shown a wrong version byte with an announced length of 4 or more
  (`TpktStreams.StreamMayBeCutAnywhereExactlyWhenVersioned`).
- `closeImpl` clears the closing flag, so a send after the shutdown returns true although its bytes
  are never written (`Sockets.SendAfterShutdownIsLost`).
- A close that falls between the two sends of one `sendWithTPKT` leaves a header behind. For an
  empty message that header is a whole frame, so the message is delivered although the call
  failed; that a close, or a failed payload write, falls there is the exact condition
  (`TpktPeers.CutOffExactlyWhenInterrupted`, `TpktPeers.GracefulCloseDelivers`,
  `TpktPeers.RefusedEmptyMessageIsDelivered`).
- A payload write that fails after its header was written makes the next bytes, as many as the
  payload had, into one message; until that many have come nothing is handed over
  (`TpktPeers.FailedPayloadWriteMisframes`). The messages behind them arrive intact when the lost
  payload is made up by whole frames (`TpktStreams.LostPayloadMadeUpByFrames`), and nothing goes
  wrong when nothing more is sent (`TpktPeers.DeliveredIsPrefixOfSent`).
- The slavers of a server are not balanced when another server runs in the same process: both take
  ids from the one static generator, so with two slavers each and alternating accepts one server
  gives all its sessions to one slaver. All runs keep any two slavers within one exactly when there
  is at most one slaver or no other server takes an id (`Servers.BalancedExactlyWhenAlone`);
  `Servers.SlaversStayWithinExactly` has the exact bound for any number of such ids.
- `isFinished` is already true while the one firing of a 0-round timer is pending, so an audit may
  cancel it; it is never true for 2^64 - 1 rounds (`Timers.FinishedExactly`,
  `TimerManagers.AuditCancelsExactlyZeroRounds`).
- "Forever" is 2^32 - 1 rounds, for `startForever`, `startCB` and the frame timer
  (`Timers.CallbackUntilMinusOne`, `FrameLoops.FramesAreCapped`).
- A `startCB` that fails, for whatever reason, still replaces the callback, so a refused one
  redirects the running timer (`Timers.FailedStartKeepsTimer`,
  `Timers.RefusedStartCBRedirects`).

## Model

| member | source | states |
|---|---|---|
| Tpkt.HeaderCodec | include/translib/tcpServerTPKT.h:113-118 | the receiver re-assembles (length + 4) mod 2^24 from the header bytes, which is the frame length exactly when length <= 0xFFFFFB |
| Tpkt.HeaderIsBigEndian | include/translib/tcpServerTPKT.h:113-116 | the header is a 1 and the three bytes of (length + 4) mod 2^24, most significant first |
| Tpkt.PassOnFrame | include/translib/tcpServerTPKT.h:41-90 | a loop pass on a whole fitting frame consumes exactly that frame and hands over exactly its payload, if and only if the 32-bit truncated buffer length covers it |
| Tpkt.PassOnPart | include/translib/tcpServerTPKT.h:41-74 | a proper part of a frame is neither consumed nor handed over |
| Tpkt.FirstMessageExactlyWhenFits | include/translib/tcpServerTPKT.h:63-84 | the receiver cuts a sent frame where the sender ended it exactly when the payload has at most 0xFFFFFB bytes |
| Tpkt.LoopEndsUnlessZeroHead | include/translib/tcpServerTPKT.h:39-92 | on any input the loop runs for ever exactly when some trip is shown a version-1 head of total length 0 |
| Tpkt.SentFrameHangsExactly | include/translib/tcpServerTPKT.h:113-118 | a sent frame puts such a head before the receiver exactly when its payload has a multiple of 2^24 bytes less 4, and the receiver's loop then never ends |
| Tpkt.AnyChunkingDelivers | include/translib/tcpServerTPKT.h:37-93 | for every list of fitting messages and every cutting of any initial part of its encoding into arrivals, `onRead` has been handed exactly the messages that fully arrived, in order, and the buffer holds exactly the unread bytes, a proper part of the next frame |
| Tpkt.CutIsWhole | include/translib/tcpServerTPKT.h:70-74 | the place where the stream is cut is unique: after the longest run of messages whose frames have fully arrived |
| Tpkt.SecondCallDeliversNothing | include/translib/tcpServerTPKT.h:37-93 | running `onSessionRead` again with no new bytes hands over nothing and leaves the buffer alone |
| Tpkt.EncodeInjective | include/translib/tcpServerTPKT.h:109-127 | different lists of messages shorter than 2^24 bytes have different encodings |
| Tpkt.OversizedCollides | include/translib/tcpServerTPKT.h:113-118 | a payload that is itself an encoding of a multiple of 2^24 bytes is encoded like an empty message followed by the inner ones |
| Tpkt.EncodeNotInjective | include/translib/tcpServerTPKT.h:109-127 | messages of up to 2^24 bytes, which the sender accepts, collide |
| Tpkt.InjectiveExactlyBelow24Bits | include/translib/tcpServerTPKT.h:109-127 | for every bound, encoding is injective on messages up to that bound if and only if the bound is below 2^24 |
| TpktStreams.CutIsHarmlessExactlyWhenSettled | include/translib/tcpServerTPKT.h:37-93 | running the loop on some bytes before the rest has arrived makes, whatever the rest is, the calls and leaves the bytes of one run on everything, if and only if no trip is shown a head with a wrong version byte that announces at least 4 bytes and not fewer than are buffered |
| TpktStreams.StreamMayBeCutAnywhereExactlyWhenVersioned | include/translib/tcpServerTPKT.h:37-93 | a stream may be cut anywhere without such an effect if and only if no trip over it is shown a wrong version byte with an announced length of 4 or more |
| TpktStreams.SettledArrivals | include/translib/tcpServerTPKT.h:37-93 | arrivals that end at harmless places make exactly the calls, and leave exactly the bytes, of all bytes in one piece |
| TpktStreams.AnyCuttingOfVersionedStream | include/translib/tcpServerTPKT.h:37-93 | so does every cutting of a stream without such heads, also with frames of 0 to 3 bytes and oversized ones, and also when the loop hangs |
| TpktStreams.WrongVersionDependsOnChunking | include/translib/tcpServerTPKT.h:55-74 | the same five bytes with a wrong version byte hand over one message or none, depending on how they arrive |
| TpktStreams.FramesComeFirst | include/translib/tcpServerTPKT.h:37-93 | whatever follows some whole frames, and however all of it is cut into arrivals, their messages are handed over first, and then all goes on exactly as if the rest alone arrived in some cutting |
| TpktStreams.LostPayload | include/translib/tcpServerTPKT.h:37-93 | a header without its payload, behind whole frames and in any cutting, makes the following bytes into its message, whatever they are, and hands over nothing more while they are too few |
| TpktStreams.LostPayloadMadeUpByFrames | include/translib/tcpServerTPKT.h:37-93 | when whole frames make up the lost payload they become one message and all messages behind them arrive intact, in any cutting |
| TpktPeers.OnSessionRead | include/translib/tcpServerTPKT.h:37-93 | the loop hands over the calls and leaves the buffer that the deframing function gives for the buffered bytes; nothing else of the session changes |
| TpktPeers.SendWithTPKT | include/translib/tcpClientTPKT.h:44-62 | the payload is sent only after its header was accepted; true means that the output grew by exactly the frame |
| TpktPeers.SendIsTwoSteps | include/translib/tcpClientTPKT.h:55-61 | one undisturbed `sendWithTPKT` is the two send steps of the runs, and adds its message to the sent ones exactly when it returns true on an open socket |
| TpktPeers.DeliveredIsPrefixOfSent | include/translib/tcpClientTPKT.h:44-62 | at every moment of every run of sends, closes, flushes and callbacks in which nothing is sent after a failed payload write, the peer has been handed an initial run of the messages sent, unaltered and in order, and at most the one interrupted message after them |
| TpktPeers.CutOffExactlyWhenInterrupted | src/translib/tcpSocket.cpp:64-127 | a shutdown leaves the lone header of an empty message in the stream if and only if, before it, a close or a failed payload write fell between the two sends of an empty message |
| TpktPeers.GracefulCloseDelivers | src/translib/tcpSocket.cpp:64-127 | after a graceful close the peer is handed exactly the messages whose `sendWithTPKT` returned true before the shutdown, and besides, exactly when such an event has happened, one empty message |
| TpktPeers.GracefulCloseDeliversNonEmpty | src/translib/tcpSocket.cpp:64-127 | without empty messages it is handed exactly those |
| TpktPeers.RefusedEmptyMessageIsDelivered | include/translib/tcpClientTPKT.h:55-61 | that exception happens: an empty message whose send was refused is delivered |
| TpktPeers.FailedPayloadWriteMisframes | include/translib/tcpClientTPKT.h:55-61 | in every run that goes on sending after a failed payload write, and for every cutting into arrivals, the messages sent before are handed over, then nothing while fewer bytes have followed than the payload had, and otherwise that many of them as one message and what is behind them as if it alone arrived |
| TpktPeers.MisframedRun | include/translib/tcpClientTPKT.h:55-61 | a run in which the peer is so handed a message that was never sent |
| Sockets.TcpSocket.Send | src/translib/tcpSocket.cpp:64-71 | refused without a connection or while closing; otherwise appends exactly the data when the write succeeds |
| Sockets.TcpSocket.Close | src/translib/tcpSocket.cpp:73-87 | a waiting close with unsent output only sets the flag, any other shuts down at once |
| Sockets.TcpSocket.CheckClosing | src/translib/tcpSocket.cpp:112-119 | shuts down exactly when closing is pending and the output is empty |
| Sockets.TcpSocket.CloseImpl | src/translib/tcpSocket.cpp:121-127 | clears the flag and the input, disables writing and shuts the socket down |
| Sockets.TcpSocket.ReadInputBuffer | src/translib/tcpSocket.cpp:99-102 | moves the first bytes, at most as many as asked, out of the input; too few is no failure |
| Sockets.ReadsTakeTheFront | src/translib/tcpSocket.cpp:99-102 | reads of any sizes take the input apart from the front, in order and without loss, and get as many bytes as they ask for in all while there are any |
| Sockets.ViewShowsWhatReadsGet | src/translib/tcpSocket.cpp:94-102 | there is a view of n > 0 bytes exactly when reads that ask for n bytes in all get n, however they are divided, and the view shows the bytes they get |
| Sockets.ReportedLengthCanBeRead | src/translib/tcpSocket.cpp:89-102 | as many bytes as are reported can be read, after which 0 is reported; the input is empty then exactly when fewer than 2^32 bytes were buffered |
| Sockets.TcpSocket.ClearInputBuffer | src/translib/tcpSocket.cpp:104-110 | drops the first 2^32 - 1 bytes of the input of a connected socket, or all if there are fewer |
| Sockets.TcpSocket.WriteCallback | src/translib/tcpSession.cpp:89-93 | a scheduled callback runs once and checks for a pending close |
| Sockets.StepKeepsInv | src/translib/tcpSocket.cpp:64-127 | every event keeps wire + output equal to what was accepted and a pending close provided for, and a shutdown that is not abrupt has everything on the wire |
| Sockets.GracefulCloseLosesNothing | src/translib/tcpSocket.cpp:64-127 | in every run without `close(false)` the wire at the shutdown and ever after holds exactly the bytes of all sends accepted before it; in any run a leading part of them |
| Sockets.PendingCloseCompletes | src/translib/tcpSocket.cpp:73-127 | before the shutdown a pending close always has output left or a callback scheduled, and flushing and the callback complete it with everything sent |
| Sockets.CallbackShutsDownExactlyWhenDrained | src/translib/tcpSocket.cpp:112-119 | a callback shuts an open socket down exactly when a close is pending and everything accepted is on the wire |
| Sockets.CloseShutsDownExactly | src/translib/tcpSocket.cpp:73-87 | in every run, a close of an open socket shuts it down at once if it does not wait or everything accepted is on the wire, and otherwise only marks it; it never writes |
| Sockets.SendRefusedExactlyAfterClose | src/translib/tcpSocket.cpp:64-71 | in every run, before the shutdown, a send fails exactly when `bufferevent_write` does or some close came before |
| Sockets.UnconnectedStaysAsItIs | src/translib/tcpSocket.cpp:64-87 | without a connection every send is refused and no course of calls changes anything |
| Sockets.ShutdownDropsInput | src/translib/tcpSocket.cpp:104-127 | the step that shuts the socket down, whichever it is, drops the first 2^32 - 1 bytes of the input; all other steps keep it |
| Sockets.SendAfterShutdownIsLost | src/translib/tcpSocket.cpp:64-127 | after the shutdown a send returns true, and whatever follows its bytes never reach the wire |
| Dispatchers.OneKeepsInv | src/translib/tcpServerDispatcher.cpp:62-80 | one trip of the drain loop keeps history = drained + queued and map = outcome of the drained actions |
| Dispatchers.FrameDrainsEverything | src/translib/tcpServerDispatcher.cpp:54-81 | a frame leaves the queue empty, also of what `onNewSession` pushed meanwhile; the drained actions are those ever pushed, in order, and the map is their outcome |
| Dispatchers.PresentExactlyWhenAttachedAndKept | src/translib/tcpServerDispatcher.cpp:66-77 | an id is in the map exactly when some drained addition attached it and no later removal took it away; its entry carries that id and dispatcher, and the socket of that very addition |
| Dispatchers.TcpSession.Attach | src/translib/tcpSession.cpp:38-68 | id and dispatcher are set in any case; success, on the given descriptor and with reading and writing enabled, exactly when socket, creation and enabling are good, and only then `onNewSession` runs |
| Dispatchers.TcpSession.HandleEvent | src/translib/tcpSession.cpp:75-81 | disables reading and writing, closes the descriptor, runs `onSessionDisconnected`, and behind whatever that pushes queues the removal of its own id at its own dispatcher |
| Dispatchers.TcpServerDispatcher.GetSession | src/translib/tcpServerDispatcher.cpp:35-40 | finds a session exactly when the map has the id, and that session belongs to this dispatcher |
| Dispatchers.TcpServerDispatcher.AddSession | src/translib/tcpServerDispatcher.cpp:42-46 | appends one addition to the queue |
| Dispatchers.TcpServerDispatcher.RemoveSession | src/translib/tcpServerDispatcher.cpp:48-52 | appends one removal to the queue |
| Dispatchers.TcpServerDispatcher.DrainOne | src/translib/tcpServerDispatcher.cpp:62-80 | the loop body does what the value model says, on real session objects |
| Dispatchers.TcpServerDispatcher.OnFrame | src/translib/tcpServerDispatcher.cpp:54-81 | the loop ends and does what the value model says |
| Servers.TcpServer.SetThreads | src/translib/tcpServer.cpp:61-72 | creates that many empty slavers, numbered in order, only if there were none |
| Servers.TcpServer.GetSessionDispatcher | src/translib/tcpServer.cpp:134-137 | the dispatcher it returns is the one the id is routed to |
| Servers.TcpServer.ListenEventCallback | src/translib/tcpServer.cpp:139-151 | is the accept step of the system: takes the next id of the process modulo 2^64 and queues its addition at the routed dispatcher, nowhere else |
| Servers.TcpServer.HappenAll | src/translib/tcpServer.cpp:134-151 | any course of accepts, removals and drained actions on the objects is a run of the step system |
| Servers.AcceptBeside | src/translib/tcpServer.cpp:30-30 | an accept of one server leaves any other server of the process as it is except that it takes an id |
| Servers.StepKeepsInv | src/translib/tcpServer.cpp:139-151 | every step, also of another server, keeps histories, routing, distinct ids, and an addition for every id that this server was issued |
| Servers.EveryRunKeepsHistoryAndShards | src/translib/tcpServerDispatcher.cpp:42-81 | in every run each dispatcher's history, queue and map agree, and its map and queued additions mention only non-zero ids issued to this server and routed to it; the session found under an id carries that id and dispatcher and is on the socket that was accepted when the id was issued |
| Servers.OwnIdsAreAccepted | src/translib/tcpServer.cpp:139-151 | the ids of a server are exactly those that its own accepts issued, each for the socket accepted then |
| Servers.OneLookupSuffices | src/translib/tcpServerDispatcher.cpp:35-40 | in every run an id is in the map of its own dispatcher exactly when it is in any map |
| Servers.IdsWrap | src/translib/tcpServer.cpp:148-148 | after any number of accepts of all servers of the process the last id is that number modulo 2^64 |
| Servers.ServersShareNoId | src/translib/tcpServer.cpp:148-148 | no two servers of the process are issued the same id before the generator wraps |
| Servers.LifeIsWhereItIs | src/translib/tcpServerDispatcher.cpp:61-80 | an id is live exactly when its dispatcher's map has it and queued exactly when its addition is in that dispatcher's queue |
| Servers.StepMovesLife | src/translib/tcpServerDispatcher.cpp:61-80 | one step leaves an id where it is or moves it from unissued to queued, from queued to live or attach-failed, or from live to removed |
| Servers.NeverLiveAgain | src/translib/tcpServer.cpp:148-150 | over any continuation an id only moves forward; failed and removed are final |
| Servers.RemovalBehindAddIsFinal | src/translib/tcpServerDispatcher.cpp:61-80 | once a removal pushed behind the addition of its id is drained, the session is gone for good |
| Servers.RemovalThroughSessionWorks | src/translib/tcpSession.cpp:75-81 | a removal asked for by a live session is behind its addition and takes effect as soon as it is drained |
| Servers.RemovalDuringAttachWorks | src/translib/tcpSession.cpp:58-67 | so does one that `onNewSession` pushes while the session is being attached |
| Servers.SocketsAreConserved | src/translib/tcpServerDispatcher.cpp:54-81 | at every moment of every run the accepted sockets are the queued, live, removed and failed ones of all dispatchers together |
| Servers.ConsecutiveIdsBalance | src/translib/tcpServer.cpp:134-137 | of any k consecutive ids each of n slavers is routed floor(k/n) or ceiling(k/n) |
| Servers.SlaversGrowEvenly | src/translib/tcpServer.cpp:134-150 | from any reachable state on, while no other server takes an id, each of n slavers is given exactly the ids routed to it, floor(k/n) or ceiling(k/n) of k |
| Servers.SlaversStayBalanced | src/translib/tcpServer.cpp:134-150 | in every run the numbers of sessions given to any two slavers differ by at most one more than the number of ids that other servers took |
| Servers.SlaversStayWithinExactly | src/translib/tcpServer.cpp:134-150 | for every n, e and k: all runs in which other servers take at most e ids keep any two of n slavers within k if and only if n <= 1, or e < k, or the id k * n + 1 is beyond 64 bits |
| Servers.BalancedExactlyWhenAlone | src/translib/tcpServer.cpp:134-150 | for any number of threads, within one if and only if there is at most one slaver or no other server takes an id |
| Timers.SplitIsExact | src/translib/timer.cpp:66-69 | the seconds and microseconds are normalised and add up to the interval |
| Timers.TimerObject.StartRounds | src/translib/timer.cpp:50-83 | refused while an event is set; a failing `event_new` changes nothing and a failing `event_add` resets; otherwise a fresh count starts |
| Timers.TimerObject.StartAfter | src/translib/timer.cpp:95-104 | a one-round start of a closure that starts the rounds |
| Timers.TimerObject.StartCB | include/translib/timer.h:87-99 | stores the callback before it tries to start |
| Timers.TimerObject.Reset | src/translib/timer.cpp:106-115 | frees a set event and moves the counter past the last round, modulo 2^64 |
| Timers.TimerObject.EventHandler | src/translib/timer.cpp:117-130 | counts, resets after the last round, and then runs the handler copied before |
| Timers.EveryRunKeepsInv | src/translib/timer.cpp:32-130 | in every run of starts, failures, stops, firings and re-entrant handlers a set event is pending with rounds left, and a cleared one leaves the counter just past the last round or the timer untouched |
| Timers.FinishedExactly | include/translib/timer.h:119-122 | `isFinished` means started and without event, except for 0 and for 2^64 - 1 rounds |
| Timers.FiresExactlyItsRounds | src/translib/timer.cpp:50-130 | in every run in which nobody stops the timer or starts it anew, refused starts included, it calls its handler exactly max(1, rounds) times, the k-th k intervals after the start, and `isFinished` is true in the last call only |
| Timers.EveryStartFiresExactly | src/translib/timer.cpp:85-93 | likewise `startOnce` makes exactly one call and `startForever` exactly 2^32 - 1 |
| Timers.StopEndsCalls | include/translib/timer.h:123-126 | after a stop from outside there are no more calls, whatever the timer was doing, until it is started again |
| Timers.StopInHandlerEndsCalls | src/translib/timer.cpp:117-130 | a handler that ends with a stop, or a callback that returns -1, is called this one time more and never again, whatever happened before |
| Timers.StoppedInItsCall | src/translib/timer.cpp:117-130 | a timer whose handler first stops it in its j-th call calls it exactly j times, each on time |
| Timers.RestartInHandlerTakesEffect | src/translib/timer.cpp:117-130 | a start made by the handler in the last call, or after a stop in any call, takes effect from that moment: exactly max(1, new rounds) calls of the new handler follow, each on time, and none of the old |
| Timers.StartAfterIsDelayThenRounds | src/translib/timer.cpp:95-130 | the closure fires once after the delay, then in every such run the handler is called exactly max(1, rounds) times, the k-th k intervals later |
| Timers.StartAfterMayFail | src/translib/timer.cpp:95-104 | if the start that the closure makes fails, the closure is the only call |
| Timers.CallbackUntilMinusOne | include/translib/timer.h:87-99 | in every such run the callback is called once every interval up to and including its first -1 and never again, and 2^32 - 1 times if it never returns -1; all calls go to the given callback unless `startCB` is called again |
| Timers.RefusedStartCBRedirects | include/translib/timer.h:87-99 | a `startCB` refused by a running one leaves the number and the times of the remaining calls, in every such run, and sends all of them to the new callback |
| TimerManagers.TimerManager.GetTimer | src/translib/timerManager.cpp:48-61 | hands out the next id and a new timer, files it unless the id is taken, and wraps the counter at 32 bits |
| TimerManagers.TimerManager.KillTimer | src/translib/timerManager.cpp:85-105 | erases the entry and destroys what nobody owns any more |
| TimerManagers.TimerManager.AuditTimer | src/translib/timerManager.cpp:62-83 | whatever the order of the walk, exactly the finished timers are erased |
| TimerManagers.StepKeepsInv | src/translib/timerManager.cpp:48-105 | every event keeps ownership, filing under the own id and the invariant of every timer |
| TimerManagers.EveryRunKeepsOwnership | src/translib/timerManager.cpp:48-105 | in every run a timer exists exactly while the map or a user owns it, and is filed only under the id it was created with |
| TimerManagers.EveryTimerRunsAlone | src/translib/timerManager.cpp:48-105 | in every run a timer, as long as it exists, is exactly what its own calls and firings make of a new timer, whatever happens to the manager and the others |
| TimerManagers.HeldExactlyUntilReleased | src/translib/timerManager.cpp:48-61 | in every run a user holds a timer exactly from the `getTimer` that handed it out until the release |
| TimerManagers.NewTimerIsKept | src/translib/timerManager.cpp:48-83 | within 2^32 calls of `getTimer`, a timer that nobody has touched has no event, is not finished, and stays filed under its id through every run and every audit until that id is killed |
| TimerManagers.FiledExactlyWhenIdIsFree | src/translib/timerManager.cpp:48-61 | in every run a new timer is filed exactly when its id is free; a taken id goes on naming its old timer |
| TimerManagers.IdsAreSigned | include/translib/timerManager.h:86-89 | the next id is the number of calls so far, wrapped to a signed 32-bit integer |
| TimerManagers.IdsRepeatEvery32Bits | include/translib/timerManager.h:86-89 | two calls yield the same id exactly when they are a multiple of 2^32 calls apart |
| TimerManagers.IdNamesOneTimer | src/translib/timerManager.cpp:48-61 | up to 2^32 calls an id never leads to another timer than its own, and a new timer is always filed |
| TimerManagers.KillSilencesExactlyUnheld | src/translib/timerManager.cpp:85-105 | a kill destroys the timer exactly when no user holds it, and leaves every other timer as it is |
| TimerManagers.AuditNeverCancels | src/translib/timerManager.cpp:62-83 | in every run with 1 to 2^64 - 2 rounds the audit erases exactly the timers whose work is over, keeps the others unchanged, and destroys no timer that has an event |
| TimerManagers.AuditCancelsExactlyZeroRounds | src/translib/timerManager.cpp:62-83 | with any rounds an audit cancels a pending event exactly for a 0-round timer that the map alone owns |
| TimerManagers.AuditSeesNoGap | src/translib/timer.cpp:95-104 | in every run of sound starts, once the closure of a `startAfter` has fired and its start succeeded, an audit keeps the timer as it is, with a pending event and under its id |
| FrameLoops.FrameLoop.SetFrameInterval | src/translib/frameLoop.cpp:42-48 | sets the interval unless it is 0 |
| FrameLoops.FrameLoop.OnBeforeLoop | src/translib/frameLoop.cpp:55-59 | starts the frame timer with the current interval |
| FrameLoops.FramesAreCapped | src/translib/frameLoop.cpp:55-59 | while nobody stops the frame timer or starts it anew, frames come one interval apart and end after 2^32 - 1 |

## Left out

- TpktPeers.DeliveredIsPrefixOfSent: one sending thread per socket, each socket method atomic, and nothing sent after a payload write that failed behind its header; `TpktPeers.FailedPayloadWriteMisframes` covers the runs that do go on sending. Two threads sending at once would mix their headers in the same way.
- TpktPeers.GracefulCloseDelivers: under the same conditions; arrivals are at most 2^32 - 2^24 bytes each, so that the truncated buffer length is exact.
- Tpkt.AnyChunkingDelivers: fitting frames with version byte 1; `TpktStreams.AnyCuttingOfVersionedStream` is about arbitrary bytes, but fewer than 2^32 in all, since the reference is one run of the loop on all of them.
- TpktStreams.CutIsHarmlessExactlyWhenSettled: at most 2^32 - 2^24 bytes before the cut, so that the bytes that show the harm still fit the 32-bit buffer length.
- TpktPeers.FailedPayloadWriteMisframes: arrivals of at most 2^32 - 2^24 bytes each, or fewer than 2^32 bytes in all.
- Servers.EveryRunKeepsHistoryAndShards: fewer than 2^64 accepts in the process, one accept at a time (the generator is not atomic, so two listener threads could draw the same id), additions from the listener only, the number of slavers fixed before listening, and re-entrant pushes on the own dispatcher that are removals; removals by anyone at any time are included. `Dispatchers.FrameDrainsEverything` allows re-entrant additions too.
- Sockets.GracefulCloseLosesNothing: runs are those of a connection that does not break; when libevent reports an EOF or an error, `TcpSession::handleEvent` disables writing and `TcpClient::handleEvent` frees `_bev`, and a pending close is then stranded. The same holds for `Sockets.PendingCloseCompletes` and the results in `TpktPeers.dfy`.
- Timers.FiresExactlyItsRounds: virtual time; a persistent event with an interval of 0 is re-armed for the same instant, which is libevent's affair.
- Timers.TimerObject: user code is a list of calls on the timer itself; a handler that kills its own timer, and an empty handler, which would throw, are not modelled.
- TimerManagers.TimerManager: timers are values named by their creation and shared pointers are a set of holders, so the model does not capture aliasing; firings, audits and calls are serialised on one loop.
- The garbage that `onRead` is shown behind a frame shorter than its header: the model records only the bytes really copied and the length argument.
- The client's receive loop, which lacks the NULL check and under-allocates its buffer; the server's loop is the receiver here.
- What a server does in `onSessionDisconnected` beyond its pushes; reconnecting a client; the descriptor of a session whose attachment failed.
- The `Loop` thread, its registry and the default manager's own loop; locks, since each method is one step, and with them the unlocked look at the queue before a frame.
- The HTTP server, the eventfd client and server, the logger and the examples: thin wrappers or input and output.
