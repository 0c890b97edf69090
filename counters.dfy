/**
 A `Dictionary<K, int>` used as an occurrence counter, the way the log store
 uses it: an entry is created with `TryAdd(key, 1)` and bumped with
 `dict[key]++` when it is already there, and nothing is ever removed.

 The keys are kept in insertion order, because that is the order in which a
 dictionary that has only ever grown enumerates its entries, and the top-k
 selection depends on that order for ties.
 */
module Counters {

  datatype Counter<K(!new)> = Counter(keys: seq<K>, count: map<K, int>)
  {
    /** The keys are distinct, they are exactly the map's keys, and every stored count is at least 1. */
    ghost predicate Valid()
    {
      && (forall i, j :: 0 <= i < j < |keys| ==> keys[i] != keys[j])
      && (forall k :: k in count <==> k in keys)
      && (forall k :: k in count ==> count[k] >= 1)
    }

    /** `TryGetValue(key, out c) ? c : 0`: a missing key reads as 0. */
    function Get(k: K): int
    {
      if k in count then count[k] else 0
    }

    /** `if (!dict.TryAdd(key, 1)) dict[key]++;` */
    function Add(k: K): (r: Counter<K>)
      ensures r.Get(k) == Get(k) + 1
      ensures forall j :: j != k ==> r.Get(j) == Get(j)
      ensures k in r.count
      ensures r.keys == if k in count then keys else keys + [k]
      ensures Valid() ==> r.Valid()
    {
      if k in count then Counter(keys, count[k := count[k] + 1])
      else Counter(keys + [k], count[k := 1])
    }
  }

  /** A freshly constructed (or cleared) dictionary. */
  function Empty<K(!new)>(): (r: Counter<K>)
    ensures r.Valid()
    ensures r.keys == []
    ensures forall k :: r.Get(k) == 0
  {
    Counter([], map[])
  }

  /** The sum of the counts of those keys of `ks` that `sel` selects. */
  function SumOf<K(!new)>(ks: seq<K>, c: Counter<K>, sel: K -> bool): int
  {
    if ks == [] then 0
    else SumOf(ks[..|ks| - 1], c, sel) + (if sel(ks[|ks| - 1]) then c.Get(ks[|ks| - 1]) else 0)
  }

  /** The sum of all the counts in the dictionary. */
  function Total<K(!new)>(c: Counter<K>): int
  {
    SumOf(c.keys, c, _ => true)
  }

  /** A sum over two sequences one after the other is the sum of the two sums. */
  lemma {:induction false} SumOfAppend<K(!new)>(a: seq<K>, b: seq<K>, c: Counter<K>, sel: K -> bool)
    ensures SumOf(a + b, c, sel) == SumOf(a, c, sel) + SumOf(b, c, sel)
  {
    if b == [] {
      assert a + b == a;
    } else {
      var n := |b| - 1;
      SumOfAppend(a, b[..n], c, sel);
      assert (a + b)[..|a + b| - 1] == a + b[..n];
    }
  }

  /** A sum does not depend on the order of the keys it adds up. */
  lemma {:induction false} SumOfPermutation<K(!new)>(xs: seq<K>, ys: seq<K>, c: Counter<K>, sel: K -> bool)
    requires multiset(xs) == multiset(ys)
    ensures SumOf(xs, c, sel) == SumOf(ys, c, sel)
    decreases |xs|
  {
    if xs == [] {
      assert |ys| == |multiset(ys)| == 0;
    } else {
      var n := |xs| - 1;
      var x := xs[n];
      assert xs == xs[..n] + [x];
      assert x in ys by {
        assert x in multiset(ys);
      }
      var j :| 0 <= j < |ys| && ys[j] == x;
      var rest := ys[..j] + ys[j + 1..];
      MultisetRemove(ys, j);
      assert multiset(xs[..n]) == multiset(xs) - multiset{x};
      SumOfPermutation(xs[..n], rest, c, sel);
      SumOfRemove(ys, j, c, sel);
    }
  }

  /** Taking one element out of a sequence takes one occurrence out of its multiset. */
  lemma MultisetRemove<K>(ys: seq<K>, j: nat)
    requires j < |ys|
    ensures multiset(ys[..j] + ys[j + 1..]) == multiset(ys) - multiset{ys[j]}
  {
    assert ys == ys[..j] + [ys[j]] + ys[j + 1..];
  }

  /** Taking one key out of a sum subtracts that key's term. */
  lemma SumOfRemove<K(!new)>(ys: seq<K>, j: nat, c: Counter<K>, sel: K -> bool)
    requires j < |ys|
    ensures SumOf(ys, c, sel) == SumOf(ys[..j] + ys[j + 1..], c, sel) + (if sel(ys[j]) then c.Get(ys[j]) else 0)
  {
    assert ys == ys[..j] + [ys[j]] + ys[j + 1..];
    SumOfAppend(ys[..j] + [ys[j]], ys[j + 1..], c, sel);
    SumOfAppend(ys[..j], [ys[j]], c, sel);
    SumOfAppend(ys[..j], ys[j + 1..], c, sel);
    assert [ys[j]][..0] == [];
  }

  /** A sum only depends on the counts of the keys it adds up. */
  lemma {:induction false} SumOfSameCounts<K(!new)>(ks: seq<K>, c: Counter<K>, d: Counter<K>, sel: K -> bool)
    requires forall i :: 0 <= i < |ks| ==> c.Get(ks[i]) == d.Get(ks[i])
    ensures SumOf(ks, c, sel) == SumOf(ks, d, sel)
  {
    if ks != [] {
      SumOfSameCounts(ks[..|ks| - 1], c, d, sel);
    }
  }

  /** Bumping the count of a key that occurs once among distinct keys adds 1 to a sum that selects it, and nothing to one that does not. */
  lemma {:induction false} SumOfBumped<K(!new)>(ks: seq<K>, c: Counter<K>, d: Counter<K>, k: K, sel: K -> bool)
    requires forall i, j :: 0 <= i < j < |ks| ==> ks[i] != ks[j]
    requires k in ks
    requires d.Get(k) == c.Get(k) + 1
    requires forall j :: j != k ==> d.Get(j) == c.Get(j)
    ensures SumOf(ks, d, sel) == SumOf(ks, c, sel) + (if sel(k) then 1 else 0)
  {
    var n := |ks| - 1;
    var init := ks[..n];
    if ks[n] == k {
      assert k !in init by {
        forall i | 0 <= i < n ensures init[i] != k { assert ks[i] != ks[n]; }
      }
      SumOfSameCounts(init, c, d, sel);
    } else {
      assert k in init by {
        var i :| 0 <= i < |ks| && ks[i] == k;
        assert i < n && init[i] == k;
      }
      SumOfBumped(init, c, d, k, sel);
    }
  }

  /** Both branches of `Add` add 1 to the total, and 1 to any partial sum that selects the key. */
  lemma AddSum<K(!new)>(c: Counter<K>, k: K, sel: K -> bool)
    requires c.Valid()
    ensures SumOf(c.Add(k).keys, c.Add(k), sel) == SumOf(c.keys, c, sel) + (if sel(k) then 1 else 0)
  {
    if k in c.count {
      var d := c.Add(k);
      assert k in c.keys;
      SumOfBumped(c.keys, c, d, k, sel);
    } else {
      AddNewKeySum(c, k, sel);
    }
  }

  /** A new key is appended with count 1 and leaves the other counts alone. */
  lemma AddNewKeySum<K(!new)>(c: Counter<K>, k: K, sel: K -> bool)
    requires c.Valid() && k !in c.count
    ensures SumOf(c.Add(k).keys, c.Add(k), sel) == SumOf(c.keys, c, sel) + (if sel(k) then 1 else 0)
  {
    var d := c.Add(k);
    assert d.keys[..|d.keys| - 1] == c.keys;
    assert forall i :: 0 <= i < |c.keys| ==> c.keys[i] != k;
    SumOfSameCounts(c.keys, c, d, sel);
  }
}
