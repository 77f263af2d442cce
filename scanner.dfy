/** `main` up to the point where it hands the reports to the spreadsheet and the charts: select
    the 100 most liquid USDT markets, fetch their candles through the gate, rank them by
    volatility and cut the ten most and ten least volatile. */
module Scanner {

  import RateLimit
  import opened Selection
  import opened Fetching
  import opened Wrappers
  import opened Ranking

  /** How many markets `main` asks `get_top_liquid_coins` for. */
  const MarketCount: nat := 100

  method Scan(gate: RateLimit.RateGate, tickers: seq<Ticker>, fetch: string -> Option<Frame>, now: int)
      returns (results: seq<FetchResult>, top: seq<Entry>, bottom: seq<Entry>, clock: int)
    modifies gate
    ensures var symbols := SelectTop(tickers, MarketCount);
      && |results| == |symbols|
      && forall i :: 0 <= i < |symbols| ==> results[i] == FetchResult(symbols[i], fetch(symbols[i]))
    ensures top == Top(Rank(Volatilities(results)))
    ensures bottom == Bottom(Rank(Volatilities(results)))
    // the gate sees one ticker call and then one candle call per selected market
    ensures (gate.State(), clock)
         == RateLimit.Run(old(gate.State()), now, [RateLimit.Call(0, TickerWeight)] + KlinesCalls(|SelectTop(tickers, MarketCount)|))
    ensures now <= clock
    ensures old(gate.State()).weight <= RateLimit.WeightThreshold && old(gate.State()).start <= now ==>
              gate.currentWeight <= RateLimit.WeightThreshold && gate.lastResetTime <= clock
  {
    ghost var before := gate.State();
    var symbols, afterTickers := GetTopLiquidCoins(gate, tickers, MarketCount, now);
    ghost var afterCall := gate.State();
    // the ticker call keeps a caller within the threshold there, for the candle calls
    assert before.weight <= RateLimit.WeightThreshold && before.start <= now ==>
             afterCall.weight <= RateLimit.WeightThreshold && afterCall.start <= afterTickers;
    RateLimit.RunSingle(before, now, RateLimit.Call(0, TickerWeight));
    RateLimit.RunAppend(before, now, [RateLimit.Call(0, TickerWeight)], KlinesCalls(|symbols|));
    results, clock := FetchAll(gate, symbols, fetch, afterTickers);
    top, bottom := Report(results);
  }
}
