/** `arr.sort((a, b) => b[1] - a[1])` on the entries of a map of counts.
    JavaScript's sort is stable, so entries with equal counts keep their order;
    the sort is modelled as an insertion sort, which is stable too. */
module StableSort {
  import opened EntryMap

  /** Counts never increase along the list. */
  predicate NonIncreasing<K>(m: seq<(K, nat)>) {
    forall i, j :: 0 <= i < j < |m| ==> m[i].1 >= m[j].1
  }

  /** The entries whose count is `c`, in order. */
  function WithCount<K>(m: seq<(K, nat)>, c: nat): seq<(K, nat)>
    decreases |m|
  {
    if |m| == 0 then [] else (if m[0].1 == c then [m[0]] else []) + WithCount(m[1..], c)
  }

  /** Puts `x` before the first entry whose count is not larger than its own. */
  function Insert<K>(x: (K, nat), s: seq<(K, nat)>): seq<(K, nat)>
    decreases |s|
  {
    if |s| == 0 || s[0].1 <= x.1 then [x] + s else [s[0]] + Insert(x, s[1..])
  }

  function Sort<K>(s: seq<(K, nat)>): seq<(K, nat)>
    decreases |s|
  {
    if |s| == 0 then [] else Insert(s[0], Sort(s[1..]))
  }

  // ---------------------------------------------------------------------------
  // Stability: the entries of each count keep their order
  // ---------------------------------------------------------------------------

  lemma {:induction false} InsertStable<K>(x: (K, nat), s: seq<(K, nat)>, c: nat)
    ensures WithCount(Insert(x, s), c) == WithCount([x] + s, c)
    decreases |s|
  {
    assert ([x] + s)[1..] == s;
    if |s| > 0 && s[0].1 > x.1 {
      var r := Insert(x, s);
      assert r[1..] == Insert(x, s[1..]);
      InsertStable(x, s[1..], c);
      assert ([x] + s[1..])[1..] == s[1..];
    }
  }

  /** For every count, the entries with that count come out in input order. */
  lemma {:induction false} SortStable<K>(s: seq<(K, nat)>, c: nat)
    ensures WithCount(Sort(s), c) == WithCount(s, c)
    decreases |s|
  {
    if |s| > 0 {
      SortStable(s[1..], c);
      InsertStable(s[0], Sort(s[1..]), c);
      assert ([s[0]] + Sort(s[1..]))[1..] == Sort(s[1..]);
    }
  }

  // ---------------------------------------------------------------------------
  // Order and contents
  // ---------------------------------------------------------------------------

  lemma {:induction false} InsertPermutes<K>(x: (K, nat), s: seq<(K, nat)>)
    ensures multiset(Insert(x, s)) == multiset{x} + multiset(s)
    decreases |s|
  {
    if |s| > 0 && s[0].1 > x.1 {
      InsertPermutes(x, s[1..]);
      assert s == [s[0]] + s[1..];
    }
  }

  /** The sort only reorders. */
  lemma {:induction false} SortPermutes<K>(s: seq<(K, nat)>)
    ensures multiset(Sort(s)) == multiset(s)
    decreases |s|
  {
    if |s| > 0 {
      SortPermutes(s[1..]);
      InsertPermutes(s[0], Sort(s[1..]));
      assert s == [s[0]] + s[1..];
    }
  }

  lemma {:induction false} InsertSorted<K>(x: (K, nat), s: seq<(K, nat)>)
    requires NonIncreasing(s)
    ensures NonIncreasing(Insert(x, s))
    decreases |s|
  {
    if |s| > 0 && s[0].1 > x.1 {
      InsertSorted(x, s[1..]);
      InsertPermutes(x, s[1..]);
      var r := Insert(x, s[1..]);
      forall i | 0 <= i < |r|
        ensures r[i].1 <= s[0].1
      {
        assert r[i] in multiset(r);
      }
    }
  }

  /** Counts come out largest first. */
  lemma {:induction false} SortSorted<K>(s: seq<(K, nat)>)
    ensures NonIncreasing(Sort(s))
    decreases |s|
  {
    if |s| > 0 {
      SortSorted(s[1..]);
      InsertSorted(s[0], Sort(s[1..]));
    }
  }

  // ---------------------------------------------------------------------------
  // Keys and totals survive the sort
  // ---------------------------------------------------------------------------

  lemma KeysCons<K, V>(y: (K, V), t: seq<(K, V)>)
    ensures Keys([y] + t) == [y.0] + Keys(t)
  {
    assert ([y] + t)[1..] == t;
  }

  lemma DistinctCons<K>(a: K, t: seq<K>)
    ensures Distinct([a] + t) <==> a !in t && Distinct(t)
  {
    if a !in t && Distinct(t) {
      forall i, j | 0 <= i < j < |[a] + t|
        ensures ([a] + t)[i] != ([a] + t)[j]
      {
        assert ([a] + t)[j] == t[j - 1];
      }
    }
    if Distinct([a] + t) {
      forall i, j | 0 <= i < j < |t|
        ensures t[i] != t[j]
      {
        assert t[i] == ([a] + t)[i + 1] && t[j] == ([a] + t)[j + 1];
      }
      forall j | 0 <= j < |t|
        ensures t[j] != a
      {
        assert t[j] == ([a] + t)[j + 1] && a == ([a] + t)[0];
      }
    }
  }

  lemma {:induction false} InsertKeys<K>(x: (K, nat), s: seq<(K, nat)>, k: K)
    ensures k in Keys(Insert(x, s)) <==> k == x.0 || k in Keys(s)
    decreases |s|
  {
    KeysCons(x, s);
    if |s| > 0 && s[0].1 > x.1 {
      InsertKeys(x, s[1..], k);
      KeysCons(s[0], Insert(x, s[1..]));
      KeysCons(s[0], s[1..]);
      assert s == [s[0]] + s[1..];
    }
  }

  lemma {:induction false} InsertDistinct<K>(x: (K, nat), s: seq<(K, nat)>)
    requires Distinct(Keys([x] + s))
    ensures Distinct(Keys(Insert(x, s)))
    decreases |s|
  {
    KeysCons(x, s);
    DistinctCons(x.0, Keys(s));
    if |s| > 0 && s[0].1 > x.1 {
      assert s == [s[0]] + s[1..];
      KeysCons(s[0], s[1..]);
      DistinctCons(s[0].0, Keys(s[1..]));
      KeysCons(x, s[1..]);
      DistinctCons(x.0, Keys(s[1..]));
      InsertDistinct(x, s[1..]);
      InsertKeys(x, s[1..], s[0].0);
      KeysCons(s[0], Insert(x, s[1..]));
      DistinctCons(s[0].0, Keys(Insert(x, s[1..])));
    }
  }

  /** The sort keeps the keys, each once. */
  lemma {:induction false} SortKeys<K>(s: seq<(K, nat)>)
    ensures forall k :: k in Keys(Sort(s)) <==> k in Keys(s)
    ensures Distinct(Keys(s)) ==> Distinct(Keys(Sort(s)))
    decreases |s|
  {
    if |s| > 0 {
      SortKeys(s[1..]);
      var t := Sort(s[1..]);
      forall k
        ensures k in Keys(Insert(s[0], t)) <==> k in Keys(s)
      {
        InsertKeys(s[0], t, k);
      }
      KeysCons(s[0], s[1..]);
      assert s == [s[0]] + s[1..];
      if Distinct(Keys(s)) {
        DistinctCons(s[0].0, Keys(s[1..]));
        KeysCons(s[0], t);
        DistinctCons(s[0].0, Keys(t));
        InsertDistinct(s[0], t);
      }
    }
  }

  lemma {:induction false} InsertTotal<K>(x: (K, nat), s: seq<(K, nat)>)
    ensures Total(Insert(x, s)) == x.1 + Total(s)
    decreases |s|
  {
    assert ([x] + s)[1..] == s;
    if |s| > 0 && s[0].1 > x.1 {
      InsertTotal(x, s[1..]);
      assert Insert(x, s)[1..] == Insert(x, s[1..]);
    }
  }

  /** The sort keeps the total of the counts. */
  lemma {:induction false} SortTotal<K>(s: seq<(K, nat)>)
    ensures Total(Sort(s)) == Total(s)
    decreases |s|
  {
    if |s| > 0 {
      SortTotal(s[1..]);
      InsertTotal(s[0], Sort(s[1..]));
    }
  }
}
