/** The request-weight throttle of the volatility scanner (`reset_rate_limit` and
    `check_rate_limit`). The two module globals become the fields of `RateGate`; the wall clock
    becomes an integer number of seconds passed in by the caller, and `time.sleep(d)` advances
    that clock by `d`. No time passes inside a call except while sleeping.

    `Reset` and `Acquire` state the effect of one call on the window `(weight, start)`; the class
    methods are proved to have exactly that effect, and `Run` chains calls to state what
    sequential use keeps invariant. */
module RateLimit {

  /** Conservative estimate of the exchange's weight units per minute. */
  const RateLimitPerMinute: nat := 1200
  /** 90% of `RateLimitPerMinute`; `1200 * 0.9` is exactly 1080.0 as a double. */
  const WeightThreshold: nat := 1080
  /** Length of one rate-limit window, in seconds. */
  const WindowSeconds: int := 60

  /** The consumed weight and the time the current window started. */
  datatype Window = Window(weight: nat, start: int)

  predicate Expired(win: Window, now: int) {
    now - win.start >= WindowSeconds
  }

  /** The reset check of `reset_rate_limit`. */
  function Reset(win: Window, now: int): (r: Window)
    ensures !Expired(r, now)
    ensures win.start <= r.start && r.weight <= win.weight
    ensures r != win <==> Expired(win, now)
  {
    if Expired(win, now) then Window(0, now) else win
  }

  /** What one `check_rate_limit` call leaves behind and how long it slept. */
  datatype Outcome = Outcome(window: Window, slept: nat)

  /** One `check_rate_limit(w)` call entered at clock `now`: reset check, then either add `w`
      at once, or sleep to the end of the window, re-run the reset check once and add `w`
      unconditionally. */
  function Acquire(win: Window, w: nat, now: int): (r: Outcome)
    // within budget after the reset check: no sleep, the counter grows by exactly w
    ensures Reset(win, now).weight + w <= WeightThreshold ==>
              r.slept == 0 && r.window == Window(Reset(win, now).weight + w, Reset(win, now).start)
    // over budget: sleep until the current window ends, then a new window holding only w
    ensures Reset(win, now).weight + w > WeightThreshold ==>
              && r.slept > 0
              && now + r.slept == Reset(win, now).start + WindowSeconds
              && r.window == Window(w, now + r.slept)
    // the request is always admitted; the gate never refuses
    ensures r.window.weight >= w
    // a caller within the threshold leaves the counter within the threshold
    ensures win.weight <= WeightThreshold && w <= WeightThreshold ==> r.window.weight <= WeightThreshold
    // the window start never moves back, and the counter only drops when the window moves
    ensures win.start <= r.window.start
    ensures r.window.start == win.start ==> r.window.weight == win.weight + w
    // a window that started no later than the clock still does so when the call returns
    ensures win.start <= now ==> r.window.start <= now + r.slept
  {
    var cur := Reset(win, now);
    var sleepTime := WindowSeconds - (now - cur.start);
    if cur.weight + w > WeightThreshold && sleepTime > 0 then
      var after := Reset(cur, now + sleepTime);
      Outcome(Window(after.weight + w, after.start), sleepTime)
    else
      Outcome(Window(cur.weight + w, cur.start), 0)
  }

  /** After a full window, a request of weight 1 waits for the window to end. */
  lemma FullWindowBlocks(start: int, now: int)
    requires start <= now < start + WindowSeconds
    ensures Acquire(Window(WeightThreshold, start), 1, now)
         == Outcome(Window(1, start + WindowSeconds), start + WindowSeconds - now)
  {
  }

  /** One metered request in sequential use: `gap` seconds after the previous call returned. */
  datatype Call = Call(gap: nat, weight: nat)

  /** The window and the clock after the calls `calls`, started from `win` at clock `clock`. */
  function Run(win: Window, clock: int, calls: seq<Call>): (r: (Window, int))
    ensures clock <= r.1
  {
    if calls == [] then (win, clock)
    else Step(Run(win, clock, calls[..|calls| - 1]), calls[|calls| - 1])
  }

  /** One call after the earlier ones: enter `check_rate_limit` after the gap, leave after the
      sleep. */
  function Step(prev: (Window, int), c: Call): (r: (Window, int))
    ensures prev.1 <= r.1
  {
    var now := prev.1 + c.gap;
    var o := Acquire(prev.0, c.weight, now);
    (o.window, now + o.slept)
  }

  /** Sequential use: when no request is heavier than the threshold, the counter is within the
      threshold after every call, the window start never passes the clock and never moves back. */
  lemma {:induction false} RunStaysWithinThreshold(win: Window, clock: int, calls: seq<Call>)
    requires win.weight <= WeightThreshold && win.start <= clock
    requires forall i :: 0 <= i < |calls| ==> calls[i].weight <= WeightThreshold
    ensures Run(win, clock, calls).0.weight <= WeightThreshold
    ensures win.start <= Run(win, clock, calls).0.start <= Run(win, clock, calls).1
  {
    if calls != [] {
      RunStaysWithinThreshold(win, clock, calls[..|calls| - 1]);
    }
  }

  /** Running two batches of calls one after the other is running their concatenation. */
  lemma {:induction false} RunAppend(win: Window, clock: int, a: seq<Call>, b: seq<Call>)
    ensures Run(win, clock, a + b) == Run(Run(win, clock, a).0, Run(win, clock, a).1, b)
    decreases |b|
  {
    if b == [] {
      assert a + b == a;
    } else {
      var init, last := b[..|b| - 1], b[|b| - 1];
      assert (a + b)[..|a + b| - 1] == a + init;
      assert (a + b)[|a + b| - 1] == last;
      RunAppend(win, clock, a, init);
    }
  }

  /** A run of one call is that call's `Acquire`, entered after its gap. */
  lemma RunSingle(win: Window, clock: int, c: Call)
    ensures var o := Acquire(win, c.weight, clock + c.gap);
      Run(win, clock, [c]) == (o.window, clock + c.gap + o.slept)
  {
    assert [c][..0] == [];
  }

  /** `check_rate_limit` as written. The reset check after the sleep runs while the caller still
      holds `lock`, and `reset_rate_limit` enters `with lock:` itself when the window has expired;
      `threading.Lock` is not reentrant, so that call never returns. */
  datatype Return = Returned(outcome: Outcome) | Deadlocked

  function AcquireAsWritten(win: Window, w: nat, now: int): (r: Return)
    ensures r == Deadlocked <==> Reset(win, now).weight + w > WeightThreshold
    ensures r != Deadlocked ==> r == Returned(Acquire(win, w, now))
  {
    var cur := Reset(win, now);
    var sleepTime := WindowSeconds - (now - cur.start);
    if cur.weight + w > WeightThreshold && sleepTime > 0 && Expired(cur, now + sleepTime) then
      Deadlocked
    else
      // without the second acquisition the call behaves as the corrected one
      Returned(Acquire(win, w, now))
  }

  /** A full window and one more request of weight 1: the call as written hangs. */
  lemma DeadlockExample()
    ensures AcquireAsWritten(Window(WeightThreshold, 0), 1, 30) == Deadlocked
  {
  }

  /** The process-wide throttle state, with the reset performed under the lock the caller
      already holds (the corrected `check_rate_limit`). */
  class RateGate {
    var currentWeight: nat
    var lastResetTime: int

    /** Module load: nothing consumed, the window starts at the current time. */
    constructor (now: int)
      ensures currentWeight == 0 && lastResetTime == now
    {
      currentWeight := 0;
      lastResetTime := now;
    }

    function State(): Window
      reads this
    {
      Window(currentWeight, lastResetTime)
    }

    /** `reset_rate_limit` at clock `now`. */
    method ResetRateLimit(now: int)
      modifies this
      ensures if now - old(lastResetTime) >= WindowSeconds
              then currentWeight == 0 && lastResetTime == now
              else currentWeight == old(currentWeight) && lastResetTime == old(lastResetTime)
      ensures State() == Reset(old(State()), now)
    {
      if now - lastResetTime >= WindowSeconds {
        currentWeight := 0;
        lastResetTime := now;
      }
    }

    /** `check_rate_limit(requestWeight)` entered at clock `now`; returns the clock when it returns. */
    method CheckRateLimit(requestWeight: nat, now: int) returns (clock: int)
      modifies this
      ensures State() == Acquire(old(State()), requestWeight, now).window
      ensures clock == now + Acquire(old(State()), requestWeight, now).slept
    {
      ResetRateLimit(now);
      clock := now;
      if currentWeight + requestWeight > WeightThreshold {
        var sleepTime := WindowSeconds - (now - lastResetTime);
        if sleepTime > 0 {
          clock := now + sleepTime;
          ResetRateLimit(clock);
        }
      }
      currentWeight := currentWeight + requestWeight;
    }
  }
}
