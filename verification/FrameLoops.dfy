/** The frame timer that drives `TcpServerDispatcher::onFrame` (src/translib/frameLoop.cpp). */
module FrameLoops {
  import opened Define
  import opened Timers

  /** The handler bound to `onFrame`; it does not touch the frame timer. */
  const ON_FRAME := User(0)

  class FrameLoop {
    const frameTimer: TimerObject
    var frameInterval: uint32

    constructor ()
      ensures frameInterval == 10 && fresh(frameTimer) && frameTimer.State() == NEW_TIMER
    {
      frameTimer := new TimerObject();
      frameInterval := 10;
    }

    /** An interval of 0 is ignored. */
    method SetFrameInterval(interval: uint32)
      modifies `frameInterval
      ensures frameInterval == if interval > 0 then interval else old(frameInterval)
    {
      if interval > 0 {
        frameInterval := interval;
      }
    }

    method OnBeforeLoop(now: nat, outcome: Outcome)
      modifies frameTimer
      ensures frameTimer.State() ==
              old(frameTimer.State()).Do(now, StartForever(outcome, frameInterval, ON_FRAME))
    {
      var _ := frameTimer.StartForever(now, outcome, frameInterval, ON_FRAME);
    }
  }

  /**
   Frames come one interval apart, but "forever" ends: after 2^32 - 1 frames the timer has no
   event and `onFrame` is never called again, so a dispatcher drains nothing from then on.
   */
  lemma {:induction false} FramesAreCapped(now: nat, interval: uint32, steps: seq<Step>)
    requires Undisturbed(NEW_TIMER.Do(now, StartForever(Starts, interval, ON_FRAME)), steps)
    ensures var started := NEW_TIMER.Do(now, StartForever(Starts, interval, ON_FRAME));
            var frames, n := Calls(started, steps), |Responses(steps)|;
            && |frames| == Min(n, 0xFFFF_FFFF)
            && (Run(started, steps).event.None? <==> 0xFFFF_FFFF <= n)
            && forall k | 0 <= k < |frames| ::
                 frames[k].handler == ON_FRAME && frames[k].time == now + (k + 1) * (interval * 1000)
  {
    EveryStartFiresExactly(NEW_TIMER, now, StartForever(Starts, interval, ON_FRAME), 0, steps);
  }
}
