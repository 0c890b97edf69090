/**
 The top-k selection `dict.OrderByDescending(pair => pair.Value).Take(k).Select(pair => pair.Key)`.

 `OrderByDescending` is a stable sort, so keys with equal counts keep the
 dictionary's enumeration order, which for a counter is insertion order.
 The sort is modelled as an insertion sort over the keys in that order.
 */
module Ranking {
  import opened Counters

  /** Counts never increase along `s`. */
  ghost predicate NonIncreasing<K(!new)>(s: seq<K>, c: Counter<K>)
  {
    forall i, j :: 0 <= i < j < |s| ==> c.Get(s[i]) >= c.Get(s[j])
  }

  /** Counts never increase from one element of `s` to the next. */
  ghost predicate StepsDown<K(!new)>(s: seq<K>, c: Counter<K>)
  {
    forall i :: 0 <= i < |s| - 1 ==> c.Get(s[i]) >= c.Get(s[i + 1])
  }

  lemma {:induction false} StepsDownNonIncreasing<K(!new)>(s: seq<K>, c: Counter<K>)
    requires StepsDown(s, c)
    ensures NonIncreasing(s, c)
  {
    if s != [] {
      var t := s[1..];
      assert StepsDown(t, c) by {
        forall i | 0 <= i < |t| - 1 ensures c.Get(t[i]) >= c.Get(t[i + 1]) {
          assert t[i] == s[i + 1] && t[i + 1] == s[i + 2];
        }
      }
      StepsDownNonIncreasing(t, c);
      forall i, j | 0 <= i < j < |s| ensures c.Get(s[i]) >= c.Get(s[j]) {
        if i > 0 {
          assert s[i] == t[i - 1] && s[j] == t[j - 1];
        } else if j > 1 {
          assert s[1] == t[0] && s[j] == t[j - 1];
        }
      }
    }
  }

  /** Puts `x` in front of the first element whose count is not larger than its own. */
  function InsertByCount<K(!new)>(x: K, xs: seq<K>, c: Counter<K>): seq<K>
  {
    if xs == [] then [x]
    else if c.Get(x) >= c.Get(xs[0]) then [x] + xs
    else [xs[0]] + InsertByCount(x, xs[1..], c)
  }

  /** Inserting adds exactly `x`. */
  lemma {:induction false} InsertByCountMultiset<K(!new)>(x: K, xs: seq<K>, c: Counter<K>)
    ensures multiset(InsertByCount(x, xs, c)) == multiset(xs) + multiset{x}
  {
    if xs != [] && c.Get(x) < c.Get(xs[0]) {
      InsertByCountMultiset(x, xs[1..], c);
      assert xs == [xs[0]] + xs[1..];
    }
  }

  /** Inserting into a sequence whose counts step down keeps them stepping down. */
  lemma {:induction false} InsertByCountStepsDown<K(!new)>(x: K, xs: seq<K>, c: Counter<K>)
    requires StepsDown(xs, c)
    ensures StepsDown(InsertByCount(x, xs, c), c)
  {
    if xs != [] && c.Get(x) < c.Get(xs[0]) {
      var t := xs[1..];
      assert StepsDown(t, c) by {
        forall i | 0 <= i < |t| - 1 ensures c.Get(t[i]) >= c.Get(t[i + 1]) {
          assert t[i] == xs[i + 1] && t[i + 1] == xs[i + 2];
        }
      }
      InsertByCountStepsDown(x, t, c);
      var rest := InsertByCount(x, t, c);
      assert rest[0] == x || rest[0] == t[0];
    }
  }

  /** `OrderByDescending(pair => pair.Value)` over the keys `ks`, stable. */
  function SortByCount<K(!new)>(ks: seq<K>, c: Counter<K>): (r: seq<K>)
    ensures multiset(r) == multiset(ks)
    ensures StepsDown(r, c)
  {
    if ks == [] then []
    else
      var rest := SortByCount(ks[1..], c);
      InsertByCountMultiset(ks[0], rest, c);
      InsertByCountStepsDown(ks[0], rest, c);
      ConsMultiset(ks);
      InsertByCount(ks[0], rest, c)
  }

  lemma ConsMultiset<K>(s: seq<K>)
    requires s != []
    ensures multiset(s) == multiset(s[1..]) + multiset{s[0]}
  {
    assert s == [s[0]] + s[1..];
  }

  /** LINQ's `Take(k)`: the first `k` elements, all of them when there are fewer, none when `k <= 0`. */
  function Take<K>(s: seq<K>, k: int): (r: seq<K>)
    ensures |r| == if k <= 0 then 0 else if k < |s| then k else |s|
    ensures r == s[..|r|]
  {
    if k <= 0 then [] else if k < |s| then s[..k] else s
  }

  /** The keys of the `k` largest counts, largest first. */
  function TopK<K(!new)>(c: Counter<K>, k: int): seq<K>
  {
    Take(SortByCount(c.keys, c), k)
  }

  ghost predicate Distinct<K>(s: seq<K>)
  {
    forall i, j :: 0 <= i < j < |s| ==> s[i] != s[j]
  }

  /** A sequence with the same multiset as a sequence of distinct elements has distinct elements. */
  lemma DistinctPermutation<K>(s: seq<K>, t: seq<K>)
    requires Distinct(s)
    requires multiset(t) == multiset(s)
    ensures Distinct(t)
  {
    forall i, j | 0 <= i < j < |t| ensures t[i] != t[j] {
      if t[i] == t[j] {
        var x := t[i];
        assert multiset(t)[x] >= 2 by {
          assert t == t[..i] + [x] + t[i + 1..j] + [x] + t[j + 1..];
        }
        MultiplicityOfDistinct(s, x);
      }
    }
  }

  lemma {:induction false} MultiplicityOfDistinct<K>(s: seq<K>, x: K)
    requires Distinct(s)
    ensures multiset(s)[x] <= 1
  {
    if s != [] {
      assert s == [s[0]] + s[1..];
      assert Distinct(s[1..]);
      MultiplicityOfDistinct(s[1..], x);
      if s[0] == x {
        assert x !in s[1..];
      }
    }
  }

  /** The sorted keys are the counter's keys, once each, in non-increasing order of count. */
  lemma SortedKeys<K(!new)>(c: Counter<K>)
    requires c.Valid()
    ensures |SortByCount(c.keys, c)| == |c.keys|
    ensures Distinct(SortByCount(c.keys, c))
    ensures NonIncreasing(SortByCount(c.keys, c), c)
    ensures forall x :: x in SortByCount(c.keys, c) <==> x in c.keys
  {
    var sorted := SortByCount(c.keys, c);
    assert Distinct(c.keys);
    DistinctPermutation(c.keys, sorted);
    StepsDownNonIncreasing(sorted, c);
    assert |multiset(sorted)| == |multiset(c.keys)|;
    forall x ensures x in sorted <==> x in c.keys {
      assert x in sorted <==> x in multiset(sorted);
      assert x in c.keys <==> x in multiset(c.keys);
    }
  }

  /** A prefix of a sequence of distinct keys in non-increasing order is one too. */
  lemma PrefixKeepsOrder<K(!new)>(s: seq<K>, c: Counter<K>, m: nat)
    requires m <= |s|
    requires Distinct(s) && NonIncreasing(s, c)
    ensures Distinct(s[..m]) && NonIncreasing(s[..m], c)
  {
    assert forall i :: 0 <= i < m ==> s[..m][i] == s[i];
  }

  /** In a sequence of distinct keys in non-increasing order, a key outside a prefix counts no more than any key in it. */
  lemma OutsidePrefixCountsLess<K(!new)>(s: seq<K>, c: Counter<K>, m: nat, x: K, y: K)
    requires m <= |s|
    requires NonIncreasing(s, c)
    requires x in s && x !in s[..m] && y in s[..m]
    ensures c.Get(x) <= c.Get(y)
  {
    var i :| 0 <= i < |s| && s[i] == x;
    var j :| 0 <= j < m && s[..m][j] == y;
    assert forall t :: 0 <= t < m ==> s[..m][t] == s[t];
    assert i >= m;
  }

  /** Every key of a prefix of the sorted keys is a key of the counter. */
  lemma PrefixMembers<K(!new)>(s: seq<K>, m: nat, x: K)
    requires m <= |s|
    requires x in s[..m]
    ensures x in s
  {
    var j :| 0 <= j < m && s[..m][j] == x;
    assert s[j] == x;
  }

  /**
   What the top-k selection returns, for a counter whose keys are distinct
   and whose counts are positive: at most `k` keys (exactly min(k, number of
   keys) when `k` is not negative), pairwise distinct, each a key of the
   counter with a count of at least 1, in non-increasing order of count; no
   key left out has a larger count than a key returned; and when `k` covers
   every key, every key is returned.
   */
  lemma TopKSpec<K(!new)>(c: Counter<K>, k: int)
    requires c.Valid()
    ensures |TopK(c, k)| == if k <= 0 then 0 else if k < |c.keys| then k else |c.keys|
    ensures Distinct(TopK(c, k))
    ensures forall x :: x in TopK(c, k) ==> x in c.keys && c.Get(x) >= 1
    ensures NonIncreasing(TopK(c, k), c)
    ensures forall x, y :: x in c.keys && x !in TopK(c, k) && y in TopK(c, k) ==> c.Get(x) <= c.Get(y)
    ensures k >= |c.keys| ==> forall x :: x in c.keys ==> x in TopK(c, k)
  {
    var sorted := SortByCount(c.keys, c);
    var r := TopK(c, k);
    SortedKeys(c);
    var m := |r|;
    assert r == sorted[..m];
    PrefixKeepsOrder(sorted, c, m);
    forall x | x in r ensures x in c.keys {
      PrefixMembers(sorted, m, x);
    }
    forall x, y | x in c.keys && x !in r && y in r ensures c.Get(x) <= c.Get(y) {
      OutsidePrefixCountsLess(sorted, c, m, x, y);
    }
  }

  /**
   When `k` covers every key, the top-k list is a reordering of all the
   keys, so any sum of counts over it equals the same sum over the keys.
   */
  lemma TopKTotal<K(!new)>(c: Counter<K>, k: int, sel: K -> bool)
    requires k >= |c.keys|
    ensures SumOf(TopK(c, k), c, sel) == SumOf(c.keys, c, sel)
  {
    var sorted := SortByCount(c.keys, c);
    assert |sorted| == |multiset(sorted)| == |multiset(c.keys)| == |c.keys|;
    SumOfPermutation(sorted, c.keys, c, sel);
  }

  /** The position of `x` in `s`, or `|s|` when it does not occur. */
  function Position<K(==)>(s: seq<K>, x: K): (p: nat)
    ensures p <= |s|
    ensures x in s ==> p < |s| && s[p] == x
    ensures forall j :: 0 <= j < p ==> s[j] != x
  {
    if s == [] then 0 else if s[0] == x then 0 else 1 + Position(s[1..], x)
  }

  /** Keys with equal counts appear in `r` in the order they have in `ks`. */
  ghost predicate TiesInOrder<K(!new)>(r: seq<K>, ks: seq<K>, c: Counter<K>)
  {
    forall i, j :: 0 <= i < j < |r| && c.Get(r[i]) == c.Get(r[j]) ==> Position(ks, r[i]) < Position(ks, r[j])
  }

  /** Dropping the first element keeps ties in order. */
  lemma TiesInOrderTail<K(!new)>(xs: seq<K>, ks: seq<K>, c: Counter<K>)
    requires xs != [] && TiesInOrder(xs, ks, c)
    ensures TiesInOrder(xs[1..], ks, c)
  {
    assert forall i :: 0 <= i < |xs| - 1 ==> xs[1..][i] == xs[i + 1];
  }

  /** Putting a key in front of a sequence keeps ties in order when it ties with nothing after it that comes earlier in `ks`. */
  lemma TiesInOrderCons<K(!new)>(h: K, rest: seq<K>, ks: seq<K>, c: Counter<K>)
    requires TiesInOrder(rest, ks, c)
    requires forall j :: 0 <= j < |rest| && c.Get(h) == c.Get(rest[j]) ==> Position(ks, h) < Position(ks, rest[j])
    ensures TiesInOrder([h] + rest, ks, c)
  {
    var r := [h] + rest;
    assert forall i :: 0 < i < |r| ==> r[i] == rest[i - 1];
  }

  /** Inserting a key that comes before every other key keeps ties in order. */
  lemma {:induction false} InsertByCountTies<K(!new)>(x: K, xs: seq<K>, ks: seq<K>, c: Counter<K>)
    requires TiesInOrder(xs, ks, c)
    requires forall j :: 0 <= j < |xs| ==> Position(ks, x) < Position(ks, xs[j])
    ensures TiesInOrder(InsertByCount(x, xs, c), ks, c)
  {
    if xs == [] {
    } else if c.Get(x) >= c.Get(xs[0]) {
      TiesInOrderCons(x, xs, ks, c);
    } else {
      var t := xs[1..];
      TiesInOrderTail(xs, ks, c);
      InsertByCountTies(x, t, ks, c);
      var rest := InsertByCount(x, t, c);
      InsertHeadTies(x, xs, ks, c);
      TiesInOrderCons(xs[0], rest, ks, c);
    }
  }

  /** The head that an insertion passes over ties in order with everything after it. */
  lemma InsertHeadTies<K(!new)>(x: K, xs: seq<K>, ks: seq<K>, c: Counter<K>)
    requires TiesInOrder(xs, ks, c)
    requires xs != [] && c.Get(x) < c.Get(xs[0])
    ensures forall j :: 0 <= j < |InsertByCount(x, xs[1..], c)| && c.Get(xs[0]) == c.Get(InsertByCount(x, xs[1..], c)[j])
              ==> Position(ks, xs[0]) < Position(ks, InsertByCount(x, xs[1..], c)[j])
  {
    var t := xs[1..];
    var rest := InsertByCount(x, t, c);
    InsertByCountMultiset(x, t, c);
    forall j | 0 <= j < |rest| && c.Get(xs[0]) == c.Get(rest[j])
      ensures Position(ks, xs[0]) < Position(ks, rest[j])
    {
      var y := rest[j];
      assert y in multiset(rest);
      if y != x {
        assert y in multiset(t);
        var m :| 0 <= m < |t| && t[m] == y;
        assert xs[m + 1] == y;
      }
    }
  }

  /** The sort is stable: keys with equal counts keep their enumeration order. */
  lemma {:induction false} SortByCountTies<K(!new)>(ks: seq<K>, c: Counter<K>)
    requires Distinct(ks)
    ensures TiesInOrder(SortByCount(ks, c), ks, c)
  {
    if ks != [] {
      var h, t := ks[0], ks[1..];
      assert Distinct(t);
      SortByCountTies(t, c);
      var rest := SortByCount(t, c);
      forall j | 0 <= j < |rest| ensures rest[j] in t && rest[j] != h && Position(ks, rest[j]) == 1 + Position(t, rest[j]) {
        assert rest[j] in multiset(rest);
        assert rest[j] in multiset(t);
        var m :| 0 <= m < |t| && t[m] == rest[j];
        assert ks[m + 1] == rest[j];
      }
      assert TiesInOrder(rest, ks, c);
      InsertByCountTies(h, rest, ks, c);
    }
  }

  /** Ties among the top k are broken by the dictionary's enumeration order (insertion order). */
  lemma TopKTies<K(!new)>(c: Counter<K>, k: int)
    requires c.Valid()
    ensures TiesInOrder(TopK(c, k), c.keys, c)
  {
    var sorted := SortByCount(c.keys, c);
    assert Distinct(c.keys);
    SortByCountTies(c.keys, c);
    var r := TopK(c, k);
    assert forall i :: 0 <= i < |r| ==> r[i] == sorted[i];
  }
}
