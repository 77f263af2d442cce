/** `get_top_liquid_coins`: the `n` most traded USDT markets. The quote volume, which the
    source parses from a decimal string, is an integer key here. */
module Selection {

  import opened StableSort
  import RateLimit

  /** One entry of the exchange's 24-hour ticker list. */
  datatype Ticker = Ticker(symbol: string, quoteVolume: int)

  const QuoteSuffix: string := "USDT"
  /** Weight of the 24-hour ticker request. */
  const TickerWeight: nat := 40

  function Volume(t: Ticker): int {
    t.quoteVolume
  }

  /** Python's `str.endswith`: `s` is some string followed by `suffix`. */
  predicate EndsWith(s: string, suffix: string): (b: bool)
    ensures b <==> exists p :: p + suffix == s
  {
    var b := |suffix| <= |s| && s[|s| - |suffix|..] == suffix;
    assert b ==> s[..|s| - |suffix|] + suffix == s;
    assert (exists p :: p + suffix == s) ==> b by {
      if p :| p + suffix == s {
        assert s[|s| - |suffix|..] == (p + suffix)[|p|..];
      }
    }
    b
  }

  predicate IsUsdtPair(t: Ticker) {
    EndsWith(t.symbol, QuoteSuffix)
  }

  /** The tickers whose symbol ends with the quote suffix, in the exchange's order. */
  function UsdtPairs(tickers: seq<Ticker>): (r: seq<Ticker>)
    ensures forall t :: t in r <==> t in tickers && IsUsdtPair(t)
    ensures multiset(r) <= multiset(tickers)
  {
    if tickers == [] then []
    else
      assert tickers == [tickers[0]] + tickers[1..];
      (if IsUsdtPair(tickers[0]) then [tickers[0]] else []) + UsdtPairs(tickers[1..])
  }

  /** Filtering keeps the exchange's order: it distributes over concatenation. */
  lemma {:induction false} UsdtPairsAppend(a: seq<Ticker>, b: seq<Ticker>)
    ensures UsdtPairs(a + b) == UsdtPairs(a) + UsdtPairs(b)
  {
    if a == [] {
      assert a + b == b;
    } else {
      var kept := if IsUsdtPair(a[0]) then [a[0]] else [];
      assert (a + b)[0] == a[0] && (a + b)[1..] == a[1..] + b;
      assert UsdtPairs(a + b) == kept + UsdtPairs(a[1..] + b);
      UsdtPairsAppend(a[1..], b);
      assert UsdtPairs(a) == kept + UsdtPairs(a[1..]);
    }
  }

  /** Every copy of a USDT ticker is kept. */
  lemma {:induction false} UsdtPairsKeepsCopies(tickers: seq<Ticker>, t: Ticker)
    requires IsUsdtPair(t)
    ensures multiset(UsdtPairs(tickers))[t] == multiset(tickers)[t]
  {
    if tickers != [] {
      UsdtPairsKeepsCopies(tickers[1..], t);
      assert tickers == [tickers[0]] + tickers[1..];
      var kept := if IsUsdtPair(tickers[0]) then [tickers[0]] else [];
      assert multiset(UsdtPairs(tickers)) == multiset(kept) + multiset(UsdtPairs(tickers[1..]));
    }
  }

  /** Filtering by suffix and picking one volume class commute, so a volume class of the USDT
      tickers is the USDT part of that class in the exchange's list, in the exchange's order. */
  lemma {:induction false} UsdtPairsWithKey(tickers: seq<Ticker>, k: int)
    ensures WithKey(UsdtPairs(tickers), Volume, k) == UsdtPairs(WithKey(tickers, Volume, k))
  {
    if tickers != [] {
      var t, rest := tickers[0], tickers[1..];
      UsdtPairsWithKey(rest, k);
      var kept := if IsUsdtPair(t) then [t] else [];
      WithKeyCons(t, UsdtPairs(rest), Volume, k);
      assert WithKey(kept + UsdtPairs(rest), Volume, k)
          == WithKey(kept, Volume, k) + WithKey(UsdtPairs(rest), Volume, k) by {
        if IsUsdtPair(t) {
          WithKeyCons(t, UsdtPairs(rest), Volume, k);
          assert WithKey([t], Volume, k) == (if Volume(t) == k then [t] else []) + WithKey([], Volume, k) by {
            WithKeyCons(t, [], Volume, k);
            assert [t] + [] == [t];
          }
        } else {
          assert kept + UsdtPairs(rest) == UsdtPairs(rest);
        }
      }
      var picked := if Volume(t) == k then [t] else [];
      assert WithKey(tickers, Volume, k) == picked + WithKey(rest, Volume, k);
      UsdtPairsAppend(picked, WithKey(rest, Volume, k));
      if Volume(t) == k {
        assert picked == [t] + [];
        assert UsdtPairs(picked) == kept;
        assert WithKey(kept, Volume, k) == kept;
      } else {
        assert WithKey(kept, Volume, k) == [] by {
          if IsUsdtPair(t) {
            WithKeyCons(t, [], Volume, k);
            assert [t] + [] == [t];
          }
        }
      }
    }
  }

  /** The first `n` elements, or all of them when there are fewer (Python's `s[:n]`). */
  function Take<T>(s: seq<T>, n: nat): (r: seq<T>)
    ensures r <= s && |r| == if n <= |s| then n else |s|
  {
    if n <= |s| then s[..n] else s
  }

  /** The USDT tickers sorted by descending quote volume, cut to the first `n`. */
  function TopTickers(tickers: seq<Ticker>, n: nat): (r: seq<Ticker>)
    ensures r <= SortDesc(UsdtPairs(tickers), Volume)
    ensures |r| == n || r == SortDesc(UsdtPairs(tickers), Volume)
  {
    Take(SortDesc(UsdtPairs(tickers), Volume), n)
  }

  /** The symbols `get_top_liquid_coins(n)` returns for the ticker list `tickers`. */
  function SelectTop(tickers: seq<Ticker>, n: nat): (r: seq<string>)
    ensures |r| == |TopTickers(tickers, n)|
    ensures forall i :: 0 <= i < |r| ==> r[i] == TopTickers(tickers, n)[i].symbol
  {
    var top := TopTickers(tickers, n);
    seq(|top|, i requires 0 <= i < |top| => top[i].symbol)
  }

  /** A sequence is its first `n` elements followed by the rest. */
  lemma TakeSplit<T>(s: seq<T>, n: nat)
    ensures s == Take(s, n) + s[|Take(s, n)|..]
    ensures multiset(s) == multiset(Take(s, n)) + multiset(s[|Take(s, n)|..])
  {
    assert s == Take(s, n) + s[|Take(s, n)|..];
  }

  /** `TopTickers` is the sorted USDT tickers up to a cut; the rest are the ones left out. */
  lemma TopTickersSplit(tickers: seq<Ticker>, n: nat)
    ensures var sorted := SortDesc(UsdtPairs(tickers), Volume);
      var top := TopTickers(tickers, n);
      && |top| <= |sorted|
      && sorted == top + sorted[|top|..]
      && multiset(UsdtPairs(tickers)) == multiset(top) + multiset(sorted[|top|..])
  {
    var pairs := UsdtPairs(tickers);
    var sorted := SortDesc(pairs, Volume);
    TakeSplit(sorted, n);
  }

  /** At most `n` tickers are selected, exactly `n` when there are enough USDT markets, and
      together they are part of the USDT tickers. */
  lemma TopTickersCount(tickers: seq<Ticker>, n: nat)
    ensures |TopTickers(tickers, n)| == if n <= |UsdtPairs(tickers)| then n else |UsdtPairs(tickers)|
    ensures multiset(TopTickers(tickers, n)) <= multiset(UsdtPairs(tickers))
  {
    TopTickersSplit(tickers, n);
  }

  /** Every selected ticker is a USDT market of the input, and the selection is in
      non-increasing quote-volume order. */
  lemma TopTickersOrdered(tickers: seq<Ticker>, n: nat)
    ensures forall i :: 0 <= i < |TopTickers(tickers, n)| ==>
      TopTickers(tickers, n)[i] in tickers && EndsWith(TopTickers(tickers, n)[i].symbol, QuoteSuffix)
    ensures SortedDesc(TopTickers(tickers, n), Volume)
  {
    var pairs := UsdtPairs(tickers);
    var sorted := SortDesc(pairs, Volume);
    var top := TopTickers(tickers, n);
    assert top == Take(sorted, n);
    forall i | 0 <= i < |top| ensures top[i] in tickers && IsUsdtPair(top[i]) {
      assert top[i] == sorted[i];
      assert sorted[i] in multiset(pairs);
    }
  }

  /** Every USDT market left out is traded no more than any selected one. */
  lemma TopTickersMostLiquid(tickers: seq<Ticker>, n: nat)
    ensures var top := TopTickers(tickers, n);
      forall t: Ticker, i: int :: t in multiset(UsdtPairs(tickers)) - multiset(top) && 0 <= i < |top| ==>
        t.quoteVolume <= top[i].quoteVolume
  {
    var sorted := SortDesc(UsdtPairs(tickers), Volume);
    assert multiset(UsdtPairs(tickers)) == multiset(sorted);
    LeftOutBelowCut(sorted, n);
  }

  /** In an ordered sequence, nothing past the first `n` outranks anything among them. */
  lemma LeftOutBelowCut(sorted: seq<Ticker>, n: nat)
    requires SortedDesc(sorted, Volume)
    ensures var top := Take(sorted, n);
      forall t: Ticker, i: int :: t in multiset(sorted) - multiset(top) && 0 <= i < |top| ==>
        t.quoteVolume <= top[i].quoteVolume
  {
    var top := Take(sorted, n);
    TakeSplit(sorted, n);
    var rest := sorted[|top|..];
    assert multiset(sorted) - multiset(top) == multiset(rest);
    forall t: Ticker, i: int | t in multiset(rest) && 0 <= i < |top| ensures t.quoteVolume <= top[i].quoteVolume {
      assert t in rest;
      BelowCut(sorted, |top|, t, i);
    }
  }

  lemma BelowCut(sorted: seq<Ticker>, m: nat, t: Ticker, i: int)
    requires SortedDesc(sorted, Volume) && m <= |sorted|
    requires t in sorted[m..] && 0 <= i < m
    ensures t.quoteVolume <= sorted[i].quoteVolume
  {
    var j :| 0 <= j < |sorted[m..]| && sorted[m..][j] == t;
    assert sorted[m + j] == t;
    assert Volume(sorted[i]) >= Volume(sorted[m + j]);
  }

  /** Ties keep the exchange's order: for every volume, the selected tickers of that volume are the
      first USDT tickers of that volume in the exchange's list, in their original order. */
  lemma TopTickersStable(tickers: seq<Ticker>, n: nat, k: int)
    ensures WithKey(TopTickers(tickers, n), Volume, k) <= WithKey(UsdtPairs(tickers), Volume, k)
    ensures WithKey(TopTickers(tickers, n), Volume, k) <= UsdtPairs(WithKey(tickers, Volume, k))
  {
    UsdtPairsWithKey(tickers, k);
    var sorted := SortDesc(UsdtPairs(tickers), Volume);
    SortStable(UsdtPairs(tickers), Volume, k);
    if n <= |sorted| {
      WithKeyOfPrefix(sorted, n, Volume, k);
    }
  }

  /** `get_top_liquid_coins(n)`: one ticker request of weight 40 through the gate, then the
      selection over the exchange's answer `tickers`. Returns the clock when it returns. */
  method GetTopLiquidCoins(gate: RateLimit.RateGate, tickers: seq<Ticker>, n: nat, now: int)
      returns (coins: seq<string>, clock: int)
    modifies gate
    ensures coins == SelectTop(tickers, n)
    ensures gate.State() == RateLimit.Acquire(old(gate.State()), TickerWeight, now).window
    ensures clock == now + RateLimit.Acquire(old(gate.State()), TickerWeight, now).slept
  {
    clock := gate.CheckRateLimit(TickerWeight, now);
    coins := SelectTop(tickers, n);
  }
}
