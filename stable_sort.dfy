/** Python's `sorted(xs, key=k, reverse=True)` over an integer key: a stable sort into
    non-increasing key order. Elements with equal keys keep their original relative order
    (Python keeps stability under `reverse=True`).

    `SortDesc` is an insertion sort. Its partner is the reference characterisation of a stable
    descending sort: the output is ordered (`SortedDesc`), and for every key value `k` the
    elements with key `k` appear in the output exactly as in the input (`WithKey`).
    `StableSortUnique` shows that these two facts determine the output completely. */
module StableSort {

  /** Keys never increase from left to right. */
  predicate SortedDesc<T>(s: seq<T>, key: T -> int) {
    forall i, j :: 0 <= i < j < |s| ==> key(s[i]) >= key(s[j])
  }

  /** The elements of `s` whose key is `k`, in their order in `s`. */
  function WithKey<T>(s: seq<T>, key: T -> int, k: int): (r: seq<T>)
    ensures |r| <= |s|
  {
    if s == [] then []
    else (if key(s[0]) == k then [s[0]] else []) + WithKey(s[1..], key, k)
  }

  /** Inserts `x` in front of the first element whose key is not larger than `x`'s:
      `x` goes after every strictly larger key and before every equal one. */
  function Insert<T>(x: T, t: seq<T>, key: T -> int): (r: seq<T>)
    ensures |r| == |t| + 1
    ensures multiset(r) == multiset(t) + multiset{x}
  {
    if t == [] || key(t[0]) <= key(x) then [x] + t
    else
      assert t == [t[0]] + t[1..];
      [t[0]] + Insert(x, t[1..], key)
  }

  /** Inserting into an ordered sequence keeps it ordered. */
  lemma {:induction false} InsertSorted<T>(x: T, t: seq<T>, key: T -> int)
    requires SortedDesc(t, key)
    ensures SortedDesc(Insert(x, t, key), key)
  {
    if t != [] && key(t[0]) > key(x) {
      var rest := Insert(x, t[1..], key);
      InsertSorted(x, t[1..], key);
      forall j | 0 <= j < |rest| ensures key(t[0]) >= key(rest[j]) {
        assert rest[j] in multiset(rest);
        if rest[j] != x {
          assert rest[j] in t[1..];
        }
      }
      var r := [t[0]] + rest;
      forall i, j | 0 <= i < j < |r| ensures key(r[i]) >= key(r[j]) {
        if i > 0 {
          assert r[i] == rest[i - 1] && r[j] == rest[j - 1];
        } else {
          assert r[j] == rest[j - 1];
        }
      }
    }
  }

  /** The stable descending sort. */
  function SortDesc<T>(s: seq<T>, key: T -> int): (r: seq<T>)
    ensures |r| == |s|
    ensures SortedDesc(r, key)
    ensures multiset(r) == multiset(s)
  {
    if s == [] then []
    else
      assert s == [s[0]] + s[1..];
      var sortedTail := SortDesc(s[1..], key);
      InsertSorted(s[0], sortedTail, key);
      Insert(s[0], sortedTail, key)
  }

  /** `WithKey` of a sequence with a known first element. */
  lemma WithKeyCons<T>(x: T, t: seq<T>, key: T -> int, k: int)
    ensures WithKey([x] + t, key, k) == (if key(x) == k then [x] else []) + WithKey(t, key, k)
  {
    assert ([x] + t)[0] == x && ([x] + t)[1..] == t;
  }

  /** Inserting `x` adds it to the front of its own key class and leaves every other class alone. */
  lemma {:induction false} InsertWithKey<T>(x: T, t: seq<T>, key: T -> int, k: int)
    ensures WithKey(Insert(x, t, key), key, k) == (if key(x) == k then [x] else []) + WithKey(t, key, k)
  {
    if t == [] || key(t[0]) <= key(x) {
      WithKeyCons(x, t, key, k);
    } else {
      var rest := Insert(x, t[1..], key);
      var tail := WithKey(t[1..], key, k);
      InsertWithKey(x, t[1..], key, k);
      WithKeyCons(t[0], rest, key, k);
      assert WithKey(t, key, k) == (if key(t[0]) == k then [t[0]] else []) + tail;
      assert WithKey(rest, key, k) == (if key(x) == k then [x] else []) + tail;
      assert key(t[0]) == k ==> key(x) != k;
    }
  }

  /** Stability: within every key class the sorted output keeps the input order. */
  lemma {:induction false} SortStable<T>(s: seq<T>, key: T -> int, k: int)
    ensures WithKey(SortDesc(s, key), key, k) == WithKey(s, key, k)
  {
    if s != [] {
      SortStable(s[1..], key, k);
      InsertWithKey(s[0], SortDesc(s[1..], key), key, k);
    }
  }

  lemma {:induction false} WithKeyNonEmpty<T>(s: seq<T>, key: T -> int, i: int)
    requires 0 <= i < |s|
    ensures WithKey(s, key, key(s[i])) != []
  {
    if i > 0 {
      WithKeyNonEmpty(s[1..], key, i - 1);
    }
  }

  lemma {:induction false} WithKeyWitness<T>(s: seq<T>, key: T -> int, k: int)
    requires WithKey(s, key, k) != []
    ensures exists i :: 0 <= i < |s| && key(s[i]) == k
  {
    if key(s[0]) != k {
      WithKeyWitness(s[1..], key, k);
      var i :| 0 <= i < |s[1..]| && key(s[1..][i]) == k;
      assert key(s[i + 1]) == k;
    }
  }

  /** A sequence that is ordered and has the key classes of another ordered sequence is that
      sequence: there is exactly one stable descending arrangement of any input. */
  lemma {:induction false} StableSortUnique<T>(a: seq<T>, b: seq<T>, key: T -> int)
    requires SortedDesc(a, key) && SortedDesc(b, key)
    requires forall k :: WithKey(a, key, k) == WithKey(b, key, k)
    ensures a == b
    decreases |a|
  {
    if a == [] && b != [] {
      WithKeyNonEmpty(b, key, 0);
    } else if a != [] && b == [] {
      WithKeyNonEmpty(a, key, 0);
    } else if a != [] {
      var m := key(a[0]);
      assert key(b[0]) == m by {
        WithKeyNonEmpty(b, key, 0);
        WithKeyWitness(a, key, key(b[0]));
        WithKeyNonEmpty(a, key, 0);
        WithKeyWitness(b, key, m);
      }
      assert a == [a[0]] + a[1..] && b == [b[0]] + b[1..];
      assert a[0] == b[0] by {
        WithKeyCons(a[0], a[1..], key, m);
        WithKeyCons(b[0], b[1..], key, m);
        assert WithKey(a, key, m) == WithKey(b, key, m);
        assert WithKey(a, key, m)[0] == a[0];
        assert WithKey(b, key, m)[0] == b[0];
      }
      forall k ensures WithKey(a[1..], key, k) == WithKey(b[1..], key, k) {
        WithKeyCons(a[0], a[1..], key, k);
        WithKeyCons(b[0], b[1..], key, k);
        assert WithKey(a, key, k) == WithKey(b, key, k);
        if k == m {
          assert ([a[0]] + WithKey(a[1..], key, k))[1..] == WithKey(a[1..], key, k);
          assert ([b[0]] + WithKey(b[1..], key, k))[1..] == WithKey(b[1..], key, k);
        } else {
          assert [] + WithKey(a[1..], key, k) == WithKey(a[1..], key, k);
          assert [] + WithKey(b[1..], key, k) == WithKey(b[1..], key, k);
        }
      }
      StableSortUnique(a[1..], b[1..], key);
    }
  }

  /** Sorting already sorted data changes nothing; in particular sorting is idempotent. */
  lemma SortOfSorted<T>(s: seq<T>, key: T -> int)
    requires SortedDesc(s, key)
    ensures SortDesc(s, key) == s
  {
    forall k ensures WithKey(SortDesc(s, key), key, k) == WithKey(s, key, k) {
      SortStable(s, key, k);
    }
    StableSortUnique(SortDesc(s, key), s, key);
  }

  lemma SortIdempotent<T>(s: seq<T>, key: T -> int)
    ensures SortDesc(SortDesc(s, key), key) == SortDesc(s, key)
  {
    SortOfSorted(SortDesc(s, key), key);
  }

  /** Cutting a prefix off a sequence cuts a prefix off each key class. */
  lemma {:induction false} WithKeyOfPrefix<T>(s: seq<T>, n: nat, key: T -> int, k: int)
    requires n <= |s|
    ensures WithKey(s[..n], key, k) <= WithKey(s, key, k)
  {
    if n > 0 {
      WithKeyOfPrefix(s[1..], n - 1, key, k);
      assert s[..n][1..] == s[1..][..n - 1];
    }
  }
}
