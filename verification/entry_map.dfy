/** A JavaScript `Map` as the list of its entries in insertion order: `set` on
    an existing key changes the value in place, on a new key appends an entry. */
module EntryMap {
  import opened Options

  /** The keys, in insertion order. */
  function Keys<K, V>(m: seq<(K, V)>): (ks: seq<K>)
    ensures |ks| == |m|
    ensures forall i {:trigger ks[i]} :: 0 <= i < |m| ==> ks[i] == m[i].0
    decreases |m|
  {
    if |m| == 0 then [] else [m[0].0] + Keys(m[1..])
  }

  predicate Distinct<K(==)>(ks: seq<K>) {
    forall i, j :: 0 <= i < j < |ks| ==> ks[i] != ks[j]
  }

  /** `m.get(k)`: `None` stands for `undefined`. */
  function Get<K(==), V>(m: seq<(K, V)>, k: K): Option<V>
    decreases |m|
  {
    if |m| == 0 then None
    else if m[0].0 == k then Some(m[0].1)
    else Get(m[1..], k)
  }

  /** `m.set(k, v)`. */
  function Set<K(==), V>(m: seq<(K, V)>, k: K, v: V): seq<(K, V)>
    decreases |m|
  {
    if |m| == 0 then [(k, v)]
    else if m[0].0 == k then [(k, v)] + m[1..]
    else [m[0]] + Set(m[1..], k, v)
  }

  /** The sum of the values of a map of counts. */
  function Total<K>(m: seq<(K, nat)>): nat
    decreases |m|
  {
    if |m| == 0 then 0 else m[0].1 + Total(m[1..])
  }

  /** A key is present exactly when `get` finds it. */
  lemma {:induction false} GetPresent<K, V>(m: seq<(K, V)>, k: K)
    ensures Get(m, k).Some? <==> k in Keys(m)
    decreases |m|
  {
    if |m| > 0 {
      GetPresent(m[1..], k);
    }
  }

  /** `set` keeps the order of the keys and appends a new key. */
  lemma {:induction false} SetKeys<K, V>(m: seq<(K, V)>, k: K, v: V)
    ensures Keys(Set(m, k, v)) == if k in Keys(m) then Keys(m) else Keys(m) + [k]
    decreases |m|
  {
    if |m| > 0 && m[0].0 != k {
      SetKeys(m[1..], k, v);
      assert Set(m, k, v)[1..] == Set(m[1..], k, v);
    }
  }

  /** After `set`, `get` of the same key gives the new value; other keys are
      untouched. */
  lemma {:induction false} SetGet<K, V>(m: seq<(K, V)>, k: K, v: V, key: K)
    ensures Get(Set(m, k, v), key) == if key == k then Some(v) else Get(m, key)
    decreases |m|
  {
    if |m| > 0 && m[0].0 != k {
      SetGet(m[1..], k, v, key);
      assert Set(m, k, v)[1..] == Set(m[1..], k, v);
    }
  }

  /** `set` replaces the old value's share of the total by the new one. */
  lemma {:induction false} SetTotal<K>(m: seq<(K, nat)>, k: K, v: nat)
    ensures Total(Set(m, k, v)) + Get(m, k).GetOr(0) == Total(m) + v
    decreases |m|
  {
    if |m| > 0 {
      if m[0].0 == k {
        assert Set(m, k, v)[1..] == m[1..];
      } else {
        SetTotal(m[1..], k, v);
        assert Set(m, k, v)[1..] == Set(m[1..], k, v);
      }
    }
  }

  /** In a map with distinct keys, `get` finds each entry's own value. */
  lemma {:induction false} GetEntry<K, V>(m: seq<(K, V)>, i: nat)
    requires i < |m| && Distinct(Keys(m))
    ensures Get(m, m[i].0) == Some(m[i].1)
    decreases i
  {
    if i > 0 {
      assert Keys(m)[0] != Keys(m)[i];
      DistinctTail(Keys(m));
      assert Keys(m)[1..] == Keys(m[1..]);
      GetEntry(m[1..], i - 1);
    }
  }

  lemma DistinctTail<K>(ks: seq<K>)
    requires |ks| > 0 && Distinct(ks)
    ensures Distinct(ks[1..])
  {
    forall i, j | 0 <= i < j < |ks[1..]|
      ensures ks[1..][i] != ks[1..][j]
    {
      assert ks[1..][i] == ks[i + 1] && ks[1..][j] == ks[j + 1];
    }
  }

  // ---------------------------------------------------------------------------
  // First occurrences
  // ---------------------------------------------------------------------------

  /** The distinct elements of `s`, each where it first occurs. */
  function Dedup<K(==)>(s: seq<K>): seq<K>
    decreases |s|
  {
    if |s| == 0 then []
    else
      var d := Dedup(s[..|s| - 1]);
      if s[|s| - 1] in d then d else d + [s[|s| - 1]]
  }

  /** One more element is appended unless it already occurred. */
  lemma DedupSnoc<K>(s: seq<K>, x: K)
    ensures Dedup(s + [x]) == if x in Dedup(s) then Dedup(s) else Dedup(s) + [x]
  {
    assert (s + [x])[..|s + [x]| - 1] == s;
  }

  /** `Dedup` keeps every element once and nothing else. */
  lemma {:induction false} DedupFacts<K>(s: seq<K>)
    ensures Distinct(Dedup(s))
    ensures forall x :: x in Dedup(s) <==> x in s
    decreases |s|
  {
    if |s| > 0 {
      var init := s[..|s| - 1];
      DedupFacts(init);
      assert s == init + [s[|s| - 1]];
    }
  }

  /** Deduplicating more elements only adds at the end: `Dedup(a)` is a prefix
      of `Dedup(a + b)`, and what follows are the new elements of `b` in
      first-occurrence order. */
  lemma {:induction false} DedupPrefix<K>(a: seq<K>, b: seq<K>)
    ensures |Dedup(a)| <= |Dedup(a + b)|
    ensures Dedup(a + b)[..|Dedup(a)|] == Dedup(a)
    decreases |b|
  {
    if |b| == 0 {
      assert a + b == a;
    } else {
      var b' := b[..|b| - 1];
      DedupPrefix(a, b');
      assert (a + b)[..|a + b| - 1] == a + b';
    }
  }
}
