/** The candlestick fetch of `main` step 2 (`fetch_candlestick_data` over all selected symbols).
    The thread pool is replaced by one worker running the tasks in submission order; since every
    task passes the gate under one lock, this is one of the orders the pool can produce. The
    exchange is a parameter `fetch` giving, per symbol, the frame returned or None when the
    request raised. */
module Fetching {

  import opened Wrappers
  import RateLimit

  /** Weight of one klines request. */
  const KlinesWeight: nat := 1

  /** The candlestick frame of one market, seen only through the volatility score that
      `calculate_volatility` computes from it: None where that score is NaN. */
  datatype Frame = Frame(volatility: Option<int>)

  /** `(symbol, df)` as a fetch task returns it; `frame` is None when the fetch failed. */
  datatype FetchResult = FetchResult(symbol: string, frame: Option<Frame>)

  /** The gate calls of `n` fetch tasks run back to back. */
  function KlinesCalls(n: nat): (r: seq<RateLimit.Call>)
    ensures |r| == n
    ensures forall i :: 0 <= i < n ==> r[i] == RateLimit.Call(0, KlinesWeight)
  {
    seq(n, _ => RateLimit.Call(0, KlinesWeight))
  }

  /** `fetch_candlestick_data(symbol)`: one gated request of weight 1; a failure becomes None. */
  method FetchCandlestickData(gate: RateLimit.RateGate, symbol: string, fetch: string -> Option<Frame>, now: int)
      returns (result: FetchResult, clock: int)
    modifies gate
    ensures result == FetchResult(symbol, fetch(symbol))
    ensures gate.State() == RateLimit.Acquire(old(gate.State()), KlinesWeight, now).window
    ensures clock == now + RateLimit.Acquire(old(gate.State()), KlinesWeight, now).slept
  {
    clock := gate.CheckRateLimit(KlinesWeight, now);
    result := FetchResult(symbol, fetch(symbol));
  }

  /** Submit one task per symbol and collect the results in submission order. */
  method FetchAll(gate: RateLimit.RateGate, symbols: seq<string>, fetch: string -> Option<Frame>, now: int)
      returns (results: seq<FetchResult>, clock: int)
    modifies gate
    ensures |results| == |symbols|
    ensures forall i :: 0 <= i < |symbols| ==> results[i] == FetchResult(symbols[i], fetch(symbols[i]))
    ensures (gate.State(), clock) == RateLimit.Run(old(gate.State()), now, KlinesCalls(|symbols|))
    ensures old(gate.State()).weight <= RateLimit.WeightThreshold && old(gate.State()).start <= now ==>
              gate.currentWeight <= RateLimit.WeightThreshold && gate.lastResetTime <= clock
  {
    ghost var start := gate.State();
    results := [];
    clock := now;
    for i := 0 to |symbols|
      invariant |results| == i
      invariant forall j :: 0 <= j < i ==> results[j] == FetchResult(symbols[j], fetch(symbols[j]))
      invariant (gate.State(), clock) == RateLimit.Run(start, now, KlinesCalls(i))
    {
      assert KlinesCalls(i + 1)[..i] == KlinesCalls(i);
      ghost var prev := (gate.State(), clock);
      var result;
      result, clock := FetchCandlestickData(gate, symbols[i], fetch, clock);
      assert (gate.State(), clock) == RateLimit.Step(prev, KlinesCalls(i + 1)[i]);
      results := results + [result];
    }
    if start.weight <= RateLimit.WeightThreshold && start.start <= now {
      RateLimit.RunStaysWithinThreshold(start, now, KlinesCalls(|symbols|));
    }
  }
}
