/** The timer that runs after a client has gone (`expiry.go`): a delayed will message and the end of the session
    (section 3.1.3.2.2 of MQTT 5.0). */
module Expiry {
  import opened Options

  type u32 = x: int | 0 <= x < 0x1_0000_0000
  type Nanoseconds = x: int | 0 <= x < 0x8000_0000_0000_0000

  datatype Event = WillPublished | SessionSignalled(expired: bool)

  /** An event and the second at which it happens, counted from the start. */
  datatype Stamp = Stamp(time: nat, event: Event)

  /** The duration handed to the timer fits its 64 bits. */
  function Duration(seconds: u32): Nanoseconds { seconds * 1_000_000_000 }

  /** When the will is to be published: at its delay, or with the session if that ends sooner. */
  function WillTime(willIn: u32, expireIn: Option<u32>): nat {
    if expireIn.Some? && expireIn.value < willIn then expireIn.value else willIn
  }

  function EndTime(delayed: bool, willIn: u32, expireIn: Option<u32>): nat {
    if expireIn.Some? then expireIn.value else if delayed then willIn else 0
  }

  class Expiry {
    var will: bool
    var willIn: u32
    var expireIn: Option<u32>
    /** The period of the timer while it is running. */
    var timer: Option<Nanoseconds>
    var log: seq<Stamp>

    constructor (will: bool, willIn: u32, expireIn: Option<u32>)
      ensures this.will == will && this.willIn == willIn && this.expireIn == expireIn && timer == None && log == []
    {
      this.will, this.willIn, this.expireIn, timer, log := will, willIn, expireIn, None, [];
    }

    ghost predicate Ticking(period: u32)
      reads this
    {
      timer == Some(Duration(period))
    }

    /** What is still going to happen when nothing interferes. */
    ghost function Future(now: nat, period: u32): seq<Stamp>
      reads this
    {
      var t := now + period;
      (if will then [Stamp(t, WillPublished)] else [])
      + [match expireIn
         case None => Stamp(t, SessionSignalled(false))
         case Some(left) => Stamp(t + left, SessionSignalled(true))]
    }

    method Start() returns (ghost period: u32)
      requires timer == None
      modifies this
      ensures Ticking(period) && timer == Some(period * 1_000_000_000) && log == old(log)
      ensures var delayed := old(will) && old(willIn) > 0;
              Future(0, period)
              == (if delayed then [Stamp(WillTime(old(willIn), old(expireIn)), WillPublished)] else [])
                 + [Stamp(EndTime(delayed, old(willIn), old(expireIn)), SessionSignalled(old(expireIn).Some?))]
      ensures expireIn.Some? && expireIn.value > 0 <==>
              old(will) && old(willIn) > 0 && old(expireIn).Some? && old(willIn) < old(expireIn).value
    {
      var timerPeriod: u32 := 0;
      if will && willIn > 0 {
        timerPeriod := willIn;
      } else {
        will := false;
      }
      if expireIn.Some? {
        if timerPeriod > 0 && timerPeriod < expireIn.value {
          expireIn := Some(expireIn.value - timerPeriod);
        } else {
          timerPeriod := expireIn.value;
          expireIn := Some(0);
        }
      }
      timer := Some(Duration(timerPeriod));
      period := timerPeriod;
    }

    /** The timer fires: nothing of what was to come is lost, repeated or moved. */
    method TimerCallback(now: nat, ghost was: nat, ghost period: u32) returns (ghost next: u32)
      requires Ticking(period) && now == was + period
      modifies this
      ensures timer.Some? ==> Ticking(next) && log + Future(now, next) == old(log + Future(was, period))
      ensures timer.None? ==> log == old(log + Future(was, period))
      ensures timer.Some? <==> old(expireIn).Some? && old(expireIn).value > 0
      ensures timer.Some? ==> expireIn == Some(0)
    {
      next := 0;
      timer := None;
      if will {
        log := log + [Stamp(now, WillPublished)];
        will := false;
        willIn := 0;
      }
      if expireIn.None? {
        log := log + [Stamp(now, SessionSignalled(false))];
      } else if expireIn.value == 0 {
        log := log + [Stamp(now, SessionSignalled(true))];
      } else {
        var val := expireIn.value;
        expireIn := Some(0);
        timer := Some(Duration(val));
        next := val;
      }
    }
  }

  /** Without cancellation: a delayed will is published exactly once, at the smaller of its delay and the
      session's expiry; after that the session is signalled exactly once, at its original expiry; and the timer
      fires twice exactly when the will comes first, otherwise once. */
  method Life(will: bool, willIn: u32, expireIn: Option<u32>) returns (log: seq<Stamp>, fires: nat)
    ensures var delayed := will && willIn > 0;
            log == (if delayed then [Stamp(WillTime(willIn, expireIn), WillPublished)] else [])
                   + [Stamp(EndTime(delayed, willIn, expireIn), SessionSignalled(expireIn.Some?))]
    ensures |log| == if will && willIn > 0 then 2 else 1
    ensures log[|log| - 1].event == SessionSignalled(expireIn.Some?)
    ensures log[|log| - 1].time == if expireIn.Some? then expireIn.value else if will then willIn else 0
    ensures will && willIn > 0 ==>
              && log[0].event == WillPublished && log[0].time <= willIn
              && (expireIn.Some? ==> log[0].time <= expireIn.value)
              && (log[0].time == willIn || (expireIn.Some? && log[0].time == expireIn.value))
    ensures fires == if will && 0 < willIn && expireIn.Some? && willIn < expireIn.value then 2 else 1
  {
    var e := new Expiry(will, willIn, expireIn);
    ghost var period := e.Start();
    ghost var all := e.Future(0, period);
    ghost var rounds := if e.expireIn.Some? && e.expireIn.value > 0 then 2 else 1;
    var now: nat := 0;
    fires := 0;
    assert e.log + all == all;
    while e.timer.Some?
      invariant fresh(e)
      invariant e.timer.Some? ==> e.Ticking(period) && e.log + e.Future(now, period) == all
      invariant e.timer.None? ==> e.log == all
      invariant rounds == fires + if e.timer.None? then 0
                                  else if e.expireIn.Some? && e.expireIn.value > 0 then 2
                                  else 1
      decreases rounds - fires
    {
      ghost var was := now;
      now := now + e.timer.value / 1_000_000_000;
      period := e.TimerCallback(now, was, period);
      fires := fires + 1;
    }
    log := e.log;
  }
}
