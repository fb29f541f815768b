/**
 * The session countdown of the mobile client (the `useCountdown` hook): two
 * state cells, `timeLeft` in seconds and `isActive`, four operations that
 * overwrite them, and the one-second interval callback, modelled as an
 * explicit `Tick` that the environment calls once per elapsed second.
 */
module Countdown {

  /** A snapshot of the hook's two state cells. */
  datatype State = State(timeLeft: int, isActive: bool)

  /** `useState(0)` and `useState(false)`. */
  const Initial: State := State(0, false)

  /** The effect keeps an interval running exactly while this holds. */
  predicate Running(s: State) { s.isActive && s.timeLeft > 0 }

  /**
   * What one elapsed second does: nothing unless an interval is running;
   * otherwise the updater passed to `setTimeLeft`, which stops the countdown
   * at zero once one second or less is left.
   */
  function Ticked(s: State): State
  {
    if !Running(s) then s
    else if s.timeLeft <= 1 then State(0, false)
    else State(s.timeLeft - 1, true)
  }

  /** The state after `n` elapsed seconds. */
  function Ticks(s: State, n: nat): State
    decreases n
  {
    if n == 0 then s else Ticks(Ticked(s), n - 1)
  }

  /** One tick: minus one second while more than one is left, otherwise zero and inactive. */
  lemma TickedCases(s: State)
    ensures !Running(s) ==> Ticked(s) == s
    ensures Running(s) && s.timeLeft > 1 ==> Ticked(s) == State(s.timeLeft - 1, true)
    ensures Running(s) && s.timeLeft <= 1 ==> Ticked(s) == State(0, false)
    ensures Ticked(s).timeLeft <= s.timeLeft || !Running(s)
  {
  }

  /** Once no interval runs, time stands still. */
  lemma {:induction false} TicksWhenStopped(s: State, n: nat)
    requires !Running(s)
    ensures Ticks(s, n) == s
    decreases n
  {
    if n > 0 {
      TicksWhenStopped(Ticked(s), n - 1);
    }
  }

  /**
   * A countdown started with `t > 0` seconds shows `t - n` after `n < t`
   * seconds and is still active; from the `t`-th second on it shows 0 and is
   * inactive.
   */
  lemma {:induction false} TicksFromStart(t: int, n: nat)
    requires t > 0
    ensures Ticks(State(t, true), n) == if n < t then State(t - n, true) else State(0, false)
    decreases n
  {
    if n > 0 {
      if t > 1 {
        TicksFromStart(t - 1, n - 1);
      } else {
        TicksWhenStopped(State(0, false), n - 1);
      }
    }
  }

  /** Ticks never take a non-negative `timeLeft` below zero, nor raise it. */
  lemma {:induction false} TicksStayInRange(s: State, n: nat)
    requires s.timeLeft >= 0
    ensures 0 <= Ticks(s, n).timeLeft <= s.timeLeft
    decreases n
  {
    if n > 0 {
      TicksStayInRange(Ticked(s), n - 1);
    }
  }

  /** The hook's state cells and operations. */
  class Countdown {
    var timeLeft: int
    var isActive: bool

    function View(): State
      reads this
    {
      State(timeLeft, isActive)
    }

    constructor ()
      ensures View() == Initial
    {
      timeLeft := 0;
      isActive := false;
    }

    /** `start(duration)`. */
    method Start(duration: int)
      modifies this
      ensures timeLeft == duration && isActive
    {
      timeLeft := duration;
      isActive := true;
    }

    /** `stop()`: clearing the interval is implicit, since `Tick` checks `isActive`. */
    method Stop()
      modifies this
      ensures timeLeft == old(timeLeft) && !isActive
    {
      isActive := false;
    }

    /** `addTime(minutes)`. */
    method AddTime(minutes: int)
      modifies this
      ensures timeLeft == old(timeLeft) + minutes * 60 && isActive == old(isActive)
    {
      timeLeft := timeLeft + minutes * 60;
    }

    /** `setTime(minutes)`. */
    method SetTime(minutes: int)
      modifies this
      ensures timeLeft == minutes * 60 && isActive == old(isActive)
    {
      timeLeft := minutes * 60;
    }

    /** One firing of the interval callback, if the effect has an interval running. */
    method Tick()
      modifies this
      ensures View() == Ticked(old(View()))
    {
      if isActive && timeLeft > 0 {
        if timeLeft <= 1 {
          isActive := false;
          timeLeft := 0;
        } else {
          timeLeft := timeLeft - 1;
        }
      }
    }
  }
}
