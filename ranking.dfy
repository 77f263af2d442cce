/** `main` steps 3 and 4: the (symbol, volatility) pairs of the successful fetches, sorted by
    descending volatility, and the ten most and ten least volatile of them. A score that is NaN
    in the source is None here. Python's `sorted` has no total order over NaN keys, so `Rank`
    leaves the undefined scores out before sorting; the top and bottom slices still drop
    undefined scores as the source does. */
module Ranking {

  import opened Wrappers
  import opened StableSort
  import opened Fetching

  /** `(symbol, volatility)`. */
  datatype Entry = Entry(symbol: string, volatility: Option<int>)

  /** How many entries each end of the ranking reports. */
  const ReportSize: nat := 10

  predicate Defined(e: Entry) {
    e.volatility.Some?
  }

  predicate AllDefined(s: seq<Entry>) {
    forall i :: 0 <= i < |s| ==> Defined(s[i])
  }

  /** The entry a successful fetch contributes. */
  function EntryOf(res: FetchResult): Entry
    requires res.frame.Some?
  {
    Entry(res.symbol, res.frame.value.volatility)
  }

  /** The pairs step 3 collects: one per result whose frame is present, in result order. */
  function Volatilities(results: seq<FetchResult>): (r: seq<Entry>)
    ensures |r| <= |results|
    ensures forall e :: e in r ==> exists i :: 0 <= i < |results| && results[i].frame.Some? && e == EntryOf(results[i])
    ensures forall i :: 0 <= i < |results| && results[i].frame.Some? ==> EntryOf(results[i]) in r
  {
    if results == [] then []
    else
      var init := results[..|results| - 1];
      var last := results[|results| - 1];
      assert forall i :: 0 <= i < |init| ==> init[i] == results[i];
      Volatilities(init) + (if last.frame.Some? then [EntryOf(last)] else [])
  }

  /** Collection keeps the result order: it distributes over concatenation, and a single result
      contributes exactly its own pair when its frame is present. */
  lemma {:induction false} VolatilitiesAppend(a: seq<FetchResult>, b: seq<FetchResult>)
    ensures Volatilities(a + b) == Volatilities(a) + Volatilities(b)
    decreases |b|
  {
    if b == [] {
      assert a + b == a;
    } else {
      var init := b[..|b| - 1];
      assert (a + b)[..|a + b| - 1] == a + init;
      assert (a + b)[|a + b| - 1] == b[|b| - 1];
      VolatilitiesAppend(a, init);
    }
  }

  lemma VolatilitiesSingle(res: FetchResult)
    ensures Volatilities([res]) == if res.frame.Some? then [EntryOf(res)] else []
  {
    assert [res][..0] == [];
  }

  /** Step 3 as the source writes it: a loop appending to `volatilities`. */
  method CollectVolatilities(results: seq<FetchResult>) returns (vols: seq<Entry>)
    ensures vols == Volatilities(results)
  {
    vols := [];
    for i := 0 to |results|
      invariant vols == Volatilities(results[..i])
    {
      assert results[..i + 1][..i] == results[..i];
      var res := results[i];
      if res.frame.Some? {
        vols := vols + [Entry(res.symbol, res.frame.value.volatility)];
      }
    }
    assert results[..|results|] == results;
  }

  /** The entries of `s` whose score is defined, in order (the `not np.isnan` filter). */
  function DropUndefined(s: seq<Entry>): (r: seq<Entry>)
    ensures |r| <= |s|
    ensures forall e :: e in r <==> e in s && Defined(e)
    ensures multiset(r) <= multiset(s)
  {
    if s == [] then []
    else
      assert s == [s[0]] + s[1..];
      (if Defined(s[0]) then [s[0]] else []) + DropUndefined(s[1..])
  }

  /** A sequence whose scores are all defined passes through unchanged. */
  lemma {:induction false} DropUndefinedAllDefined(s: seq<Entry>)
    requires AllDefined(s)
    ensures DropUndefined(s) == s
  {
    if s != [] {
      assert AllDefined(s[1..]) by {
        assert forall i :: 0 <= i < |s[1..]| ==> s[1..][i] == s[i + 1];
      }
      DropUndefinedAllDefined(s[1..]);
      assert s == [s[0]] + s[1..];
    }
  }

  lemma DropUndefinedCons(e: Entry, t: seq<Entry>)
    ensures DropUndefined([e] + t) == (if Defined(e) then [e] else []) + DropUndefined(t)
  {
    assert ([e] + t)[0] == e && ([e] + t)[1..] == t;
  }

  /** Dropping keeps the order: it distributes over concatenation. */
  lemma {:induction false} DropUndefinedAppend(a: seq<Entry>, b: seq<Entry>)
    ensures DropUndefined(a + b) == DropUndefined(a) + DropUndefined(b)
  {
    if a == [] {
      assert a + b == b;
    } else {
      var kept := if Defined(a[0]) then [a[0]] else [];
      assert (a + b)[0] == a[0] && (a + b)[1..] == a[1..] + b;
      assert DropUndefined(a + b) == kept + DropUndefined(a[1..] + b);
      DropUndefinedAppend(a[1..], b);
      assert DropUndefined(a) == kept + DropUndefined(a[1..]);
    }
  }

  /** Every copy of an entry with a defined score is kept. */
  lemma {:induction false} DropUndefinedKeepsCopies(s: seq<Entry>, e: Entry)
    requires Defined(e)
    ensures multiset(DropUndefined(s))[e] == multiset(s)[e]
  {
    if s != [] {
      DropUndefinedKeepsCopies(s[1..], e);
      assert s == [s[0]] + s[1..];
      var kept := if Defined(s[0]) then [s[0]] else [];
      assert multiset(DropUndefined(s)) == multiset(kept) + multiset(DropUndefined(s[1..]));
    }
  }

  /** Dropping undefined scores and picking one score class commute. */
  lemma {:induction false} DropUndefinedWithKey(s: seq<Entry>, k: int)
    ensures WithKey(DropUndefined(s), Score, k) == DropUndefined(WithKey(s, Score, k))
  {
    if s != [] {
      var e, rest := s[0], s[1..];
      DropUndefinedWithKey(rest, k);
      assert s == [e] + rest;
      var kept := if Defined(e) then [e] else [];
      var dropped, picked := DropUndefined(rest), WithKey(rest, Score, k);
      DropUndefinedCons(e, rest);
      WithKeyCons(e, rest, Score, k);
      // The class of `s` after dropping, as `e`'s contribution and then the rest's.
      var lhs := (if Defined(e) && Score(e) == k then [e] else []) + WithKey(dropped, Score, k);
      assert WithKey(DropUndefined(s), Score, k) == lhs by {
        if Defined(e) {
          WithKeyCons(e, dropped, Score, k);
        } else {
          assert DropUndefined(s) == dropped;
        }
      }
      assert DropUndefined(WithKey(s, Score, k)) == lhs by {
        if Score(e) == k {
          DropUndefinedCons(e, picked);
        } else {
          assert WithKey(s, Score, k) == picked;
        }
      }
    }
  }

  /** The sort key of a defined score (undefined scores never reach the sort). */
  function Score(e: Entry): int {
    if e.volatility.Some? then e.volatility.value else 0
  }

  /** Step 4's `sorted(volatilities, key=..., reverse=True)` over the defined scores. */
  function Rank(vols: seq<Entry>): (r: seq<Entry>)
    ensures AllDefined(r)
    ensures SortedDesc(r, Score)
    ensures multiset(r) == multiset(DropUndefined(vols))
  {
    var ranked := SortDesc(DropUndefined(vols), Score);
    assert forall i :: 0 <= i < |ranked| ==> ranked[i] in multiset(DropUndefined(vols));
    ranked
  }

  /** How many entries each slice covers: ten, or all when fewer. */
  function Cut(ranked: seq<Entry>): (c: nat)
    ensures c <= |ranked| && c <= ReportSize
  {
    if |ranked| < ReportSize then |ranked| else ReportSize
  }

  /** `volatilities[:10]` without undefined scores. */
  function Top(ranked: seq<Entry>): (r: seq<Entry>)
    ensures |r| <= ReportSize
    ensures forall e :: e in r <==> e in ranked[..Cut(ranked)] && Defined(e)
  {
    DropUndefined(ranked[..Cut(ranked)])
  }

  /** `volatilities[-10:]` without undefined scores. */
  function Bottom(ranked: seq<Entry>): (r: seq<Entry>)
    ensures |r| <= ReportSize
    ensures forall e :: e in r <==> e in ranked[|ranked| - Cut(ranked)..] && Defined(e)
  {
    DropUndefined(ranked[|ranked| - Cut(ranked)..])
  }

  /** Equal scores keep their collection order: for every score, the ranked entries with that
      score are the collected entries with that score, in collection order. */
  lemma RankStable(vols: seq<Entry>, k: int)
    ensures WithKey(Rank(vols), Score, k) == WithKey(DropUndefined(vols), Score, k)
    ensures WithKey(Rank(vols), Score, k) == DropUndefined(WithKey(vols, Score, k))
  {
    SortStable(DropUndefined(vols), Score, k);
    DropUndefinedWithKey(vols, k);
  }

  /** A failed fetch never reaches the ranking, and every fetched market with a defined score does. */
  lemma RankedFromSuccessfulFetches(results: seq<FetchResult>)
    ensures forall e :: e in Rank(Volatilities(results)) ==>
      Defined(e) && exists i :: 0 <= i < |results| && results[i].frame.Some? && e == EntryOf(results[i])
    ensures forall i :: 0 <= i < |results| && results[i].frame.Some? && Defined(EntryOf(results[i])) ==>
      EntryOf(results[i]) in Rank(Volatilities(results))
  {
    var vols := Volatilities(results);
    var ranked := Rank(vols);
    forall e | e in ranked ensures e in DropUndefined(vols) {
      assert e in multiset(ranked);
    }
    forall i | 0 <= i < |results| && results[i].frame.Some? && Defined(EntryOf(results[i]))
      ensures EntryOf(results[i]) in ranked
    {
      assert EntryOf(results[i]) in multiset(DropUndefined(vols));
    }
  }

  /** Ranking a ranking changes nothing. */
  lemma RankIdempotent(vols: seq<Entry>)
    ensures Rank(Rank(vols)) == Rank(vols)
  {
    DropUndefinedAllDefined(Rank(vols));
    SortOfSorted(Rank(vols), Score);
  }

  /** On a ranking, the reports are plain slices: the first ten and the last ten entries. */
  lemma ReportsAreSlices(vols: seq<Entry>)
    ensures var ranked := Rank(vols);
      && Top(ranked) == ranked[..Cut(ranked)]
      && Bottom(ranked) == ranked[|ranked| - Cut(ranked)..]
  {
    var ranked := Rank(vols);
    var head, tail := ranked[..Cut(ranked)], ranked[|ranked| - Cut(ranked)..];
    assert AllDefined(head) by {
      forall i | 0 <= i < |head| ensures Defined(head[i]) {
        assert head[i] == ranked[i];
      }
    }
    assert AllDefined(tail) by {
      forall i | 0 <= i < |tail| ensures Defined(tail[i]) {
        assert tail[i] == ranked[|ranked| - Cut(ranked) + i];
      }
    }
    DropUndefinedAllDefined(head);
    DropUndefinedAllDefined(tail);
  }

  /** With at least twenty ranked entries the two reports come from disjoint parts of the
      ranking: together they use no entry more often than the ranking holds it. */
  lemma TopBottomDisjoint(ranked: seq<Entry>)
    requires |ranked| >= 2 * ReportSize
    ensures multiset(Top(ranked)) + multiset(Bottom(ranked)) <= multiset(ranked)
  {
    var n := |ranked|;
    var head, middle, tail := ranked[..ReportSize], ranked[ReportSize..n - ReportSize], ranked[n - ReportSize..];
    assert Cut(ranked) == ReportSize;
    assert ranked == head + middle + tail;
    assert multiset(ranked) == multiset(head) + multiset(middle) + multiset(tail);
    assert multiset(Top(ranked)) <= multiset(head);
    assert multiset(Bottom(ranked)) <= multiset(tail);
  }

  /** With at least twenty entries in a ranking, every top score is at least every bottom score. */
  lemma TopOutranksBottom(ranked: seq<Entry>)
    requires |ranked| >= 2 * ReportSize && SortedDesc(ranked, Score)
    ensures forall a, b :: a in Top(ranked) && b in Bottom(ranked) ==> Score(a) >= Score(b)
  {
    var n := |ranked|;
    forall a, b | a in Top(ranked) && b in Bottom(ranked) ensures Score(a) >= Score(b) {
      var i :| 0 <= i < ReportSize && ranked[..ReportSize][i] == a;
      var j :| 0 <= j < ReportSize && ranked[n - ReportSize..][j] == b;
      assert ranked[i] == a && ranked[n - ReportSize + j] == b;
    }
  }

  predicate DistinctSymbols(s: seq<Entry>) {
    forall i, j :: 0 <= i < j < |s| ==> s[i].symbol != s[j].symbol
  }

  /** With distinct symbols and at least twenty ranked entries, no market is in both reports. */
  lemma TopBottomShareNoSymbol(ranked: seq<Entry>)
    requires |ranked| >= 2 * ReportSize && DistinctSymbols(ranked)
    ensures forall a, b :: a in Top(ranked) && b in Bottom(ranked) ==> a.symbol != b.symbol
  {
    var n := |ranked|;
    forall a, b | a in Top(ranked) && b in Bottom(ranked) ensures a.symbol != b.symbol {
      var i :| 0 <= i < ReportSize && ranked[..ReportSize][i] == a;
      var j :| 0 <= j < ReportSize && ranked[n - ReportSize..][j] == b;
      assert ranked[i] == a && ranked[n - ReportSize + j] == b;
    }
  }

  /** `main` steps 3 and 4: collect the pairs of the successful fetches, sort them and cut the
      two reports, which are the first and the last ten entries of the ranking. */
  method Report(results: seq<FetchResult>) returns (top: seq<Entry>, bottom: seq<Entry>)
    ensures top == Top(Rank(Volatilities(results)))
    ensures bottom == Bottom(Rank(Volatilities(results)))
    ensures var ranked := Rank(Volatilities(results));
      top == ranked[..Cut(ranked)] && bottom == ranked[|ranked| - Cut(ranked)..]
  {
    var vols := CollectVolatilities(results);
    ReportsAreSlices(vols);
    var ranked := Rank(vols);
    top := Top(ranked);
    bottom := Bottom(ranked);
  }
}
