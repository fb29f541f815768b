/**
 * The countdown provider shared by the screens: the hook's countdown plus a
 * `sessionId` cell naming the attendance session being counted down.
 */
module CountdownContext {
  import opened Wrappers
  import Countdown

  class Provider {
    const countdown: Countdown.Countdown
    var sessionId: Option<string>

    constructor ()
      ensures fresh(countdown)
      ensures countdown.View() == Countdown.Initial && sessionId == None
    {
      countdown := new Countdown.Countdown();
      sessionId := None;
    }

    /** `startCountdown(duration, id)`: remembers the session, then starts the countdown. */
    method StartCountdown(duration: int, id: string)
      modifies this, countdown
      ensures sessionId == Some(id)
      ensures countdown.View() == Countdown.State(duration, true)
    {
      sessionId := Some(id);
      countdown.Start(duration);
    }

    /** `stopCountdown()`: stops the countdown and forgets the session. */
    method StopCountdown()
      modifies this, countdown
      ensures sessionId == None
      ensures countdown.View() == Countdown.State(old(countdown.timeLeft), false)
    {
      countdown.Stop();
      sessionId := None;
    }

    /** The hook's `addTime`, passed through: only `timeLeft` changes. */
    method AddTime(minutes: int)
      modifies countdown
      ensures countdown.View() == Countdown.State(old(countdown.timeLeft) + minutes * 60, old(countdown.isActive))
      ensures sessionId == old(sessionId)
    {
      countdown.AddTime(minutes);
    }

    /** The hook's `setTime`, passed through: only `timeLeft` changes. */
    method SetTime(minutes: int)
      modifies countdown
      ensures countdown.View() == Countdown.State(minutes * 60, old(countdown.isActive))
      ensures sessionId == old(sessionId)
    {
      countdown.SetTime(minutes);
    }

    /** The state setter exposed as `setSessionId`: the countdown is untouched. */
    method SetSessionId(id: Option<string>)
      modifies this
      ensures sessionId == id
      ensures countdown.View() == old(countdown.View())
    {
      sessionId := id;
    }

    /** One second elapses inside the provider's hook; the session is untouched. */
    method Tick()
      modifies countdown
      ensures countdown.View() == Countdown.Ticked(old(countdown.View()))
      ensures sessionId == old(sessionId)
    {
      countdown.Tick();
    }
  }
}
