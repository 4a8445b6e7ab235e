/** `countFrequencies` of src/ui/components/BarChart.tsx: how often each key
    occurs among the data, as `[key, count]` entries of a `Map`. Supplied keys
    come first, with count 0 until seen; without supplied keys the entries are
    sorted by count, largest first. */
module Frequencies {
  import opened Options
  import opened EntryMap
  import opened StableSort

  /** The key of every datum, in order. */
  function KeysOf<T, K>(data: seq<T>, getKey: T -> K): seq<K> {
    seq(|data|, i requires 0 <= i < |data| => getKey(data[i]))
  }

  /** The number of data whose key is `k`. */
  function Occurrences<T, K(==)>(data: seq<T>, getKey: T -> K, k: K): nat {
    multiset(KeysOf(data, getKey))[k]
  }

  /** `frequencies.set(key, 0)` for each supplied key, in order. */
  function Fill<K(==)>(m: seq<(K, nat)>, keys: seq<K>): seq<(K, nat)>
    decreases |keys|
  {
    if |keys| == 0 then m
    else Set(Fill(m, keys[..|keys| - 1]), keys[|keys| - 1], 0)
  }

  /** `frequencies.set(key, (frequencies.get(key) ?? 0) + 1)` for each key, in
      order. */
  function Tally<K(==)>(m: seq<(K, nat)>, ks: seq<K>): seq<(K, nat)>
    decreases |ks|
  {
    if |ks| == 0 then m
    else
      var before := Tally(m, ks[..|ks| - 1]);
      var k := ks[|ks| - 1];
      Set(before, k, Get(before, k).GetOr(0) + 1)
  }

  /** The map's entries once every datum is counted. */
  function Counted<T, K(==)>(data: seq<T>, getKey: T -> K, keys: Option<seq<K>>): seq<(K, nat)> {
    Tally(Fill([], keys.GetOr([])), KeysOf(data, getKey))
  }

  /** `countFrequencies(data, getKey, keys)`. `None` is an absent key list; any
      list, even an empty one, is truthy and so turns the sort off. The entries
      are the counted map's, reordered largest count first when there is no key
      list. */
  function CountFrequencies<T, K(==)>(data: seq<T>, getKey: T -> K, keys: Option<seq<K>>): (r: seq<(K, nat)>)
    ensures multiset(r) == multiset(Counted(data, getKey, keys))
    ensures keys.None? ==> NonIncreasing(r)
  {
    var entries := Counted(data, getKey, keys);
    SortPermutes(entries);
    SortSorted(entries);
    if keys.Some? then entries else Sort(entries)
  }

  // ---------------------------------------------------------------------------
  // The map before sorting
  // ---------------------------------------------------------------------------

  lemma {:induction false} FillKeys<K>(keys: seq<K>)
    ensures Keys(Fill([], keys)) == Dedup(keys)
    decreases |keys|
  {
    if |keys| > 0 {
      var init := keys[..|keys| - 1];
      FillKeys(init);
      SetKeys(Fill([], init), keys[|keys| - 1], 0);
    }
  }

  lemma {:induction false} FillGet<K>(keys: seq<K>, k: K)
    ensures Get(Fill([], keys), k) == if k in keys then Some(0) else None
    decreases |keys|
  {
    if |keys| > 0 {
      var init := keys[..|keys| - 1];
      FillGet(init, k);
      SetGet(Fill([], init), keys[|keys| - 1], 0, k);
      assert keys == init + [keys[|keys| - 1]];
    }
  }

  lemma {:induction false} FillTotal<K>(keys: seq<K>)
    ensures Total(Fill([], keys)) == 0
    decreases |keys|
  {
    if |keys| > 0 {
      var init := keys[..|keys| - 1];
      FillTotal(init);
      SetTotal(Fill([], init), keys[|keys| - 1], 0);
    }
  }

  /** The keys are the supplied ones, then the new keys of the data, each
      where it first occurs. */
  lemma TallyKeys<K>(keys: seq<K>, ks: seq<K>)
    ensures Keys(Tally(Fill([], keys), ks)) == Dedup(keys + ks)
  {
    FillKeys(keys);
    TallyKeysFrom(Fill([], keys), keys, ks);
  }

  lemma {:induction false} TallyKeysFrom<K>(m: seq<(K, nat)>, keys: seq<K>, ks: seq<K>)
    requires Keys(m) == Dedup(keys)
    ensures Keys(Tally(m, ks)) == Dedup(keys + ks)
    decreases |ks|
  {
    if |ks| == 0 {
      assert keys + ks == keys;
    } else {
      var init := ks[..|ks| - 1];
      var before := Tally(m, init);
      var k := ks[|ks| - 1];
      var v := Get(before, k).GetOr(0) + 1;
      calc {
        Keys(Tally(m, ks));
        == { TallyStep(m, ks); }
        Keys(Set(before, k, v));
        == { SetKeys(before, k, v); }
        if k in Keys(before) then Keys(before) else Keys(before) + [k];
        == { TallyKeysFrom(m, keys, init); }
        if k in Dedup(keys + init) then Dedup(keys + init) else Dedup(keys + init) + [k];
        == { DedupSnoc(keys + init, k); }
        Dedup((keys + init) + [k]);
        == { assert keys + ks == (keys + init) + [k]; }
        Dedup(keys + ks);
      }
    }
  }

  /** `Tally` over one more key is one more `set`. */
  lemma TallyStep<K>(m: seq<(K, nat)>, ks: seq<K>)
    requires |ks| > 0
    ensures var before := Tally(m, ks[..|ks| - 1]);
            var k := ks[|ks| - 1];
            Tally(m, ks) == Set(before, k, Get(before, k).GetOr(0) + 1)
  {
  }

  /** Each key present counts the data with that key. */
  lemma TallyGet<K>(keys: seq<K>, ks: seq<K>, key: K)
    ensures Get(Tally(Fill([], keys), ks), key)
            == if key in keys || key in ks then Some(multiset(ks)[key]) else None
  {
    forall x
      ensures Get(Fill([], keys), x) == if x in keys then Some(0) else None
    {
      FillGet(keys, x);
    }
    TallyGetFrom(Fill([], keys), keys, ks, key);
  }

  lemma {:induction false} TallyGetFrom<K>(m: seq<(K, nat)>, keys: seq<K>, ks: seq<K>, key: K)
    requires forall x :: Get(m, x) == if x in keys then Some(0) else None
    ensures Get(Tally(m, ks), key)
            == if key in keys || key in ks then Some(multiset(ks)[key]) else None
    decreases |ks|
  {
    if |ks| > 0 {
      var init := ks[..|ks| - 1];
      var before := Tally(m, init);
      var k := ks[|ks| - 1];
      var v := Get(before, k).GetOr(0) + 1;
      TallyGetFrom(m, keys, init, key);
      TallyGetFrom(m, keys, init, k);
      assert ks == init + [k];
      assert multiset(ks) == multiset(init) + multiset{k};
      calc {
        Get(Tally(m, ks), key);
        == { TallyStep(m, ks); }
        Get(Set(before, k, v), key);
        == { SetGet(before, k, v, key); }
        if key == k then Some(v) else Get(before, key);
        ==
        if key in keys || key in ks then Some(multiset(ks)[key]) else None;
      }
    }
  }

  /** Every datum is counted once. */
  lemma {:induction false} TallyTotal<K>(keys: seq<K>, ks: seq<K>)
    ensures Total(Tally(Fill([], keys), ks)) == |ks|
    decreases |ks|
  {
    if |ks| == 0 {
      FillTotal(keys);
    } else {
      var init := ks[..|ks| - 1];
      var before := Tally(Fill([], keys), init);
      var k := ks[|ks| - 1];
      TallyTotal(keys, init);
      SetTotal(before, k, Get(before, k).GetOr(0) + 1);
    }
  }

  /** What the map holds after the loops: the keys in insertion order, each
      once, every one counting its data, the counts adding up to the data. */
  lemma CountedFacts<T, K>(data: seq<T>, getKey: T -> K, keys: Option<seq<K>>)
    ensures var e := Counted(data, getKey, keys);
            && Keys(e) == Dedup(keys.GetOr([]) + KeysOf(data, getKey))
            && Distinct(Keys(e))
            && (forall k :: k in Keys(e) <==> k in keys.GetOr([]) || k in KeysOf(data, getKey))
            && (forall i :: 0 <= i < |e| ==> e[i].1 == Occurrences(data, getKey, e[i].0))
            && Total(e) == |data|
  {
    var e := Counted(data, getKey, keys);
    var supplied := keys.GetOr([]);
    var ks := KeysOf(data, getKey);
    TallyKeys(supplied, ks);
    DedupFacts(supplied + ks);
    forall i | 0 <= i < |e|
      ensures e[i].1 == Occurrences(data, getKey, e[i].0)
    {
      GetEntry(e, i);
      TallyGet(supplied, ks, e[i].0);
    }
    TallyTotal(supplied, ks);
  }

  // ---------------------------------------------------------------------------
  // What countFrequencies returns
  // ---------------------------------------------------------------------------

  /** Every entry's count is the number of data with its key; the keys are
      distinct; they are exactly the supplied keys and the keys of the data; the
      counts add up to the number of data. */
  lemma FrequenciesCount<T, K>(data: seq<T>, getKey: T -> K, keys: Option<seq<K>>)
    ensures Distinct(Keys(CountFrequencies(data, getKey, keys)))
    ensures forall k :: k in Keys(CountFrequencies(data, getKey, keys))
                        <==> k in keys.GetOr([]) || k in KeysOf(data, getKey)
    ensures var r := CountFrequencies(data, getKey, keys);
            forall i :: 0 <= i < |r| ==> r[i].1 == Occurrences(data, getKey, r[i].0)
    ensures Total(CountFrequencies(data, getKey, keys)) == |data|
  {
    var e := Counted(data, getKey, keys);
    var r := CountFrequencies(data, getKey, keys);
    CountedFacts(data, getKey, keys);
    if keys.None? {
      SortKeys(e);
      SortTotal(e);
      SortPermutes(e);
      forall i | 0 <= i < |r|
        ensures r[i].1 == Occurrences(data, getKey, r[i].0)
      {
        assert r[i] in multiset(e);
        var j :| 0 <= j < |e| && e[j] == r[i];
      }
    }
  }

  /** Every datum's key has an entry. */
  lemma FrequenciesCover<T, K>(data: seq<T>, getKey: T -> K, keys: Option<seq<K>>, i: nat)
    requires i < |data|
    ensures getKey(data[i]) in Keys(CountFrequencies(data, getKey, keys))
  {
    FrequenciesCount(data, getKey, keys);
    var ks := KeysOf(data, getKey);
    CoveredKey(ks, keys.GetOr([]), Keys(CountFrequencies(data, getKey, keys)), i);
  }

  lemma CoveredKey<K>(ks: seq<K>, supplied: seq<K>, present: seq<K>, i: nat)
    requires i < |ks|
    requires forall k :: k in present <==> k in supplied || k in ks
    ensures ks[i] in present
  {
  }

  /** With a key list the entries are not sorted: the supplied keys come first,
      each once and in the supplied order, then the other keys of the data in
      the order they first occur. A supplied key no datum has counts 0. */
  lemma FrequenciesWithKeys<T, K>(data: seq<T>, getKey: T -> K, keys: seq<K>)
    ensures var r := CountFrequencies(data, getKey, Some(keys));
            && Keys(r) == Dedup(keys + KeysOf(data, getKey))
            && |Dedup(keys)| <= |r|
            && Keys(r)[..|Dedup(keys)|] == Dedup(keys)
            && (forall i :: 0 <= i < |r| && r[i].0 !in KeysOf(data, getKey) ==> r[i].1 == 0)
  {
    CountedFacts(data, getKey, Some(keys));
    DedupPrefix(keys, KeysOf(data, getKey));
  }

  /** Without a key list the entries are sorted by count, largest first, every
      count at least 1; entries with equal counts keep the order in which their
      keys first occur. */
  lemma FrequenciesWithoutKeys<T, K>(data: seq<T>, getKey: T -> K)
    ensures var r := CountFrequencies(data, getKey, None);
            var e := Counted(data, getKey, None);
            && Keys(e) == Dedup(KeysOf(data, getKey))
            && NonIncreasing(r)
            && (forall i :: 0 <= i < |r| ==> r[i].1 >= 1)
            && (forall c :: WithCount(r, c) == WithCount(e, c))
  {
    var e := Counted(data, getKey, None);
    CountedFacts(data, getKey, None);
    SortSorted(e);
    forall c {
      SortStable(e, c);
    }
    assert [] + KeysOf(data, getKey) == KeysOf(data, getKey);
    PositiveWithoutKeys(data, getKey);
  }

  /** Without a key list only keys of the data are present, so no count is 0. */
  lemma PositiveWithoutKeys<T, K>(data: seq<T>, getKey: T -> K)
    ensures var r := CountFrequencies(data, getKey, None);
            forall i :: 0 <= i < |r| ==> r[i].1 >= 1
  {
    FrequenciesCount(data, getKey, None);
    PositiveCounts(CountFrequencies(data, getKey, None), [], KeysOf(data, getKey));
  }

  lemma PositiveCounts<K>(r: seq<(K, nat)>, supplied: seq<K>, ks: seq<K>)
    requires |supplied| == 0
    requires forall k :: k in Keys(r) <==> k in supplied || k in ks
    requires forall i :: 0 <= i < |r| ==> r[i].1 == multiset(ks)[r[i].0]
    ensures forall i :: 0 <= i < |r| ==> r[i].1 >= 1
  {
    forall i | 0 <= i < |r|
      ensures r[i].1 >= 1
    {
      assert Keys(r)[i] == r[i].0;
      assert r[i].0 in ks;
    }
  }
}
