/**
 * Descending sort and "the first k after sorting", as the scripts rank
 * restaurants and count values. A sort key is an optional number; a
 * missing key (NaN) sorts after every number, as pandas places NaN last.
 * The order of equal keys is not specified by the scripts' sort, so every
 * property below holds whatever order ties come in.
 */
module Ranking {
  import opened Wrappers

  /** Key `a` may come before key `b` in a descending order with missing keys last. */
  predicate AtLeast(a: Option<real>, b: Option<real>) {
    b.None? || (a.Some? && a.value >= b.value)
  }

  /** `s` is in descending key order. */
  predicate NonIncreasing<T>(s: seq<T>, key: T -> Option<real>) {
    forall i, j :: 0 <= i < j < |s| ==> AtLeast(key(s[i]), key(s[j]))
  }

  /** `x` placed before the first element it does not rank below. */
  function Insert<T>(x: T, s: seq<T>, key: T -> Option<real>): (r: seq<T>)
    ensures multiset(r) == multiset(s) + multiset{x}
    ensures |r| == |s| + 1
  {
    if s == [] || AtLeast(key(x), key(s[0])) then [x] + s
    else
      assert s == [s[0]] + s[1..];
      [s[0]] + Insert(x, s[1..], key)
  }

  /** `s` sorted by descending key. */
  function SortDesc<T>(s: seq<T>, key: T -> Option<real>): (r: seq<T>)
    ensures multiset(r) == multiset(s)
    ensures |r| == |s|
  {
    if s == [] then []
    else
      assert s == [s[0]] + s[1..];
      Insert(s[0], SortDesc(s[1..], key), key)
  }

  /** Inserting into a sorted sequence keeps it sorted. */
  lemma {:induction false} InsertSorted<T>(x: T, s: seq<T>, key: T -> Option<real>)
    requires NonIncreasing(s, key)
    ensures NonIncreasing(Insert(x, s, key), key)
    decreases |s|
  {
    if s == [] || AtLeast(key(x), key(s[0])) {
    } else {
      var rest := Insert(x, s[1..], key);
      InsertSorted(x, s[1..], key);
      assert Insert(x, s, key) == [s[0]] + rest;
      forall k | 0 <= k < |rest|
        ensures AtLeast(key(s[0]), key(rest[k]))
      {
        assert rest[k] in multiset(rest);
        if rest[k] != x {
          assert rest[k] in s[1..];
          var m :| 0 <= m < |s[1..]| && s[1..][m] == rest[k];
          assert s[m + 1] == rest[k];
        }
      }
    }
  }

  /** The result of the sort is in descending key order. */
  lemma {:induction false} SortDescSorted<T>(s: seq<T>, key: T -> Option<real>)
    ensures NonIncreasing(SortDesc(s, key), key)
    decreases |s|
  {
    if s != [] {
      SortDescSorted(s[1..], key);
      InsertSorted(s[0], SortDesc(s[1..], key), key);
    }
  }

  /** In a sorted sequence, each of the first k elements ranks at least as high as every later one. */
  lemma PrefixDominates<T>(s: seq<T>, k: nat, key: T -> Option<real>)
    requires NonIncreasing(s, key) && k <= |s|
    ensures forall x, i :: x in multiset(s) - multiset(s[..k]) && 0 <= i < k ==> AtLeast(key(s[i]), key(x))
  {
    assert s == s[..k] + s[k..];
    assert multiset(s) - multiset(s[..k]) == multiset(s[k..]);
    forall x, i | x in multiset(s) - multiset(s[..k]) && 0 <= i < k
      ensures AtLeast(key(s[i]), key(x))
    {
      assert x in s[k..];
      var m :| 0 <= m < |s[k..]| && s[k..][m] == x;
      assert s[k + m] == x;
    }
  }

  /**
   * `sort_values(ascending=False).head(k)`: the k elements with the highest
   * keys (all of them if there are fewer), highest first. Every element left
   * out ranks no higher than any element kept.
   */
  function TopK<T>(s: seq<T>, key: T -> Option<real>, k: nat): (r: seq<T>)
    ensures |r| == if k < |s| then k else |s|
    ensures multiset(r) <= multiset(s)
    ensures NonIncreasing(r, key)
    ensures forall x, i :: x in multiset(s) - multiset(r) && 0 <= i < |r| ==> AtLeast(key(r[i]), key(x))
  {
    var sorted := SortDesc(s, key);
    var n := if k < |s| then k else |s|;
    SortDescSorted(s, key);
    PrefixDominates(sorted, n, key);
    assert sorted == sorted[..n] + sorted[n..];
    sorted[..n]
  }
}
