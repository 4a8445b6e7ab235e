/** `extrema` of src/utils/extrema.ts: the smallest and the largest number of a
    list, each as `data.reduce` with `Math.min` or `Math.max` and no initial
    value. Numbers are modelled as integers. */
module Extrema {

  /** `Math.min(a, b)`. */
  function Min(a: int, b: int): int {
    if b < a then b else a
  }

  /** `Math.max(a, b)`. */
  function Max(a: int, b: int): int {
    if b > a then b else a
  }

  /** `rest.reduce((acc, curr) => Math.min(acc, curr), acc)`. */
  function FoldMin(acc: int, rest: seq<int>): (m: int)
    ensures m == acc || m in rest
    ensures m <= acc && forall x :: x in rest ==> m <= x
    decreases |rest|
  {
    if |rest| == 0 then acc
    else
      assert rest == [rest[0]] + rest[1..];
      FoldMin(Min(acc, rest[0]), rest[1..])
  }

  /** `rest.reduce((acc, curr) => Math.max(acc, curr), acc)`. */
  function FoldMax(acc: int, rest: seq<int>): (m: int)
    ensures m == acc || m in rest
    ensures m >= acc && forall x :: x in rest ==> m >= x
    decreases |rest|
  {
    if |rest| == 0 then acc
    else
      assert rest == [rest[0]] + rest[1..];
      FoldMax(Max(acc, rest[0]), rest[1..])
  }

  /** `extrema(data)`. `reduce` without an initial value throws on an empty
      array, so the list must not be empty. */
  function Extrema(data: seq<int>): (r: (int, int))
    requires |data| > 0
    ensures r.0 in data && forall x :: x in data ==> r.0 <= x
    ensures r.1 in data && forall x :: x in data ==> r.1 >= x
  {
    assert data == [data[0]] + data[1..];
    (FoldMin(data[0], data[1..]), FoldMax(data[0], data[1..]))
  }

  /** The minimum never exceeds the maximum. */
  lemma ExtremaOrdered(data: seq<int>)
    requires |data| > 0
    ensures Extrema(data).0 <= Extrema(data).1
  {
    assert data[0] in data;
  }

  /** A single number is both its minimum and its maximum. */
  lemma ExtremaSingleton(x: int)
    ensures Extrema([x]) == (x, x)
  {
  }

  /** The extrema depend only on which numbers occur, not on their order. */
  lemma ExtremaPermutation(a: seq<int>, b: seq<int>)
    requires |a| > 0 && multiset(a) == multiset(b)
    ensures |b| > 0 && Extrema(a) == Extrema(b)
  {
    assert |multiset(b)| == |b|;
    forall x
      ensures x in a <==> x in b
    {
      assert x in a <==> x in multiset(a);
      assert x in b <==> x in multiset(b);
    }
  }
}
