/**
 What the three queries answer, stated over the records: the agreement of
 each fast path with its own scan, the empty-range cases, and the meaning of
 the top-k and pair-count results.
 */
module Queries {
  import opened Counters
  import opened Ranking
  import opened Logs
  import opened Store

  /**
   With no negative timestamp, each fast path answers what its own scan
   would answer on `[0, long.MaxValue]`: the distinct-user count, the top-k
   list (as a sequence, ties included) and the pair count.
   */
  lemma FastPathMatchesScan(logs: seq<Log>, k: int, u: string, a: string)
    requires forall i :: 0 <= i < |logs| ==> logs[i].timestamp >= 0
    ensures |UserIds(logs)| == |UserIds(Filter(logs, Some(0), Some(MaxLong)))|
    ensures TopK(ActionIndex(logs), k) == TopK(ActionIndex(Filter(logs, Some(0), Some(MaxLong))), k)
    ensures CountPair(logs, u, a) == CountPair(Filter(logs, Some(0), Some(MaxLong)), u, a)
  {
    FilterFullRange(logs);
  }

  /** Without that requirement the paths part: one record at timestamp -1 is counted by the fast path and not by the scan. */
  lemma NegativeTimestampSplitsPaths()
    ensures var logs := [Log(-1, "u", "a")];
      && |UserIds(logs)| == 1
      && |UserIds(Filter(logs, Some(0), Some(MaxLong)))| == 0
      && CountPair(logs, "u", "a") == 1
      && CountPair(Filter(logs, Some(0), Some(MaxLong)), "u", "a") == 0
  {
    var logs := [Log(-1, "u", "a")];
    assert logs[..0] == [];
    assert !InRange(logs[0].timestamp, Some(0), Some(MaxLong));
  }

  /**
   Q1 is not monotone in the range across the fast path: with one record at
   timestamp -5, `[-1, long.MaxValue]` is scanned and counts no user,
   while the narrower `[0, long.MaxValue]` takes the fast path and counts one.
   */
  lemma FastPathNotMonotone()
    ensures var logs := [Log(-5, "u", "a")];
      && !IsFullRange(Some(-1), Some(MaxLong))
      && |UserIds(Filter(logs, Some(-1), Some(MaxLong)))| == 0
      && IsFullRange(Some(0), Some(MaxLong))
      && |UserIds(logs)| == 1
  {
    var logs := [Log(-5, "u", "a")];
    assert logs[..0] == [];
    assert !InRange(logs[0].timestamp, Some(-1), Some(MaxLong));
  }

  /**
   `t1 > t2`, or a null bound, never takes the fast path and yields zero
   distinct users, an empty top-k list and a zero pair count.
   */
  lemma EmptyRangeResults(logs: seq<Log>, t1: Bound, t2: Bound, k: int, u: string, a: string)
    requires t1.None? || t2.None? || t1.value > t2.value
    ensures !IsFullRange(t1, t2)
    ensures |UserIds(Filter(logs, t1, t2))| == 0
    ensures TopK(ActionIndex(Filter(logs, t1, t2)), k) == []
    ensures CountPair(Filter(logs, t1, t2), u, a) == 0
  {
    FilterEmpty(logs, t1, t2);
    assert SortByCount(Empty<string>().keys, Empty()) == [];
  }

  /** The actions in the dictionary's keys are exactly the actions that occur, and there are as many keys as such actions. */
  lemma {:induction false} ActionKeysAreActionSet(logs: seq<Log>)
    ensures forall a :: a in ActionIndex(logs).keys <==> a in ActionSet(logs)
    ensures |ActionIndex(logs).keys| == |ActionSet(logs)|
  {
    forall a ensures a in ActionIndex(logs).keys <==> a in ActionSet(logs) {
      ActionIndexKeys(logs, a);
    }
    IndexesValid(logs);
    var keys := ActionIndex(logs).keys;
    assert Distinct(keys);
    DistinctCardinality(keys);
    assert (set x | x in keys) == ActionSet(logs);
  }

  /** A sequence of distinct elements has as many elements as its set. */
  lemma {:induction false} DistinctCardinality<T>(s: seq<T>)
    requires Distinct(s)
    ensures |set x | x in s| == |s|
  {
    if s != [] {
      var n := |s| - 1;
      var init := s[..n];
      assert Distinct(init);
      DistinctCardinality(init);
      assert s[n] !in init;
      assert (set x | x in s) == (set x | x in init) + {s[n]} by {
        assert s == init + [s[n]];
      }
    }
  }

  /**
   Q2 over the records in `[t1, t2]`: at most `k` action keys, pairwise
   distinct, each occurring in the range, in non-increasing order of their
   number of records in the range; no action of the range left out occurs
   more often than an action returned; when `k` is at least the number of
   distinct actions in range, every one of them is returned.
   */
  lemma TopKActionsInRange(logs: seq<Log>, k: int, t1: Bound, t2: Bound)
    ensures var r := TopK(ActionIndex(Filter(logs, t1, t2)), k);
      && |r| <= (if k <= 0 then 0 else k)
      && Distinct(r)
      && (forall x :: x in r ==> x in ActionSet(Filter(logs, t1, t2)) && CountAction(Filter(logs, t1, t2), x) >= 1)
      && (forall i, j :: 0 <= i < j < |r| ==> CountAction(Filter(logs, t1, t2), r[i]) >= CountAction(Filter(logs, t1, t2), r[j]))
      && (forall x, y :: x in ActionSet(Filter(logs, t1, t2)) && x !in r && y in r
            ==> CountAction(Filter(logs, t1, t2), x) <= CountAction(Filter(logs, t1, t2), y))
      && (k >= |ActionSet(Filter(logs, t1, t2))| ==> forall x :: x in ActionSet(Filter(logs, t1, t2)) ==> x in r)
  {
    var f := Filter(logs, t1, t2);
    TopKMembers(f, k);
    TopKOrder(f, k);
    TopKComplete(f, k);
  }

  lemma TopKMembers(f: seq<Log>, k: int)
    ensures var r := TopK(ActionIndex(f), k);
      && |r| <= (if k <= 0 then 0 else k)
      && Distinct(r)
      && (forall x :: x in r ==> x in ActionSet(f) && CountAction(f, x) >= 1)
  {
    var c := ActionIndex(f);
    IndexesValid(f);
    TopKSpec(c, k);
    ActionKeysAreActionSet(f);
    forall x | x in TopK(c, k) ensures CountAction(f, x) >= 1 {
      ActionIndexCounts(f, x);
    }
  }

  lemma TopKOrder(f: seq<Log>, k: int)
    ensures var r := TopK(ActionIndex(f), k);
      && (forall i, j :: 0 <= i < j < |r| ==> CountAction(f, r[i]) >= CountAction(f, r[j]))
      && (forall x, y :: x in ActionSet(f) && x !in r && y in r ==> CountAction(f, x) <= CountAction(f, y))
  {
    var c := ActionIndex(f);
    IndexesValid(f);
    TopKSpec(c, k);
    ActionKeysAreActionSet(f);
    forall x ensures c.Get(x) == CountAction(f, x) {
      ActionIndexCounts(f, x);
    }
  }

  lemma TopKComplete(f: seq<Log>, k: int)
    ensures k >= |ActionSet(f)| ==> forall x :: x in ActionSet(f) ==> x in TopK(ActionIndex(f), k)
  {
    IndexesValid(f);
    TopKSpec(ActionIndex(f), k);
    ActionKeysAreActionSet(f);
  }

  /**
   When `k` is at least the number of distinct actions, the counts of the
   returned actions add up to the number of records; applied to
   `Filter(logs, t1, t2)` this is the bounded path, to the stored records
   the fast path.
   */
  lemma TopKActionsTotal(logs: seq<Log>, k: int)
    requires k >= |ActionSet(logs)|
    ensures SumOf(TopK(ActionIndex(logs), k), ActionIndex(logs), _ => true) == |logs|
  {
    ActionKeysAreActionSet(logs);
    TopKTotal(ActionIndex(logs), k, _ => true);
    ActionIndexTotal(logs);
  }

  /**
   Q3's bounded path counts only records in range, so it never exceeds the
   records in range nor the records of that action in range; and on the fast
   path a pair with no record reads as 0.
   */
  lemma CountUserActionBounds(logs: seq<Log>, u: string, a: string, t1: Bound, t2: Bound)
    ensures CountPair(Filter(logs, t1, t2), u, a) <= CountAction(Filter(logs, t1, t2), a) <= |Filter(logs, t1, t2)|
    ensures UserActionIndex(logs).Get((u, a)) == 0
        <==> forall i :: 0 <= i < |logs| ==> logs[i].userId != u || logs[i].actionId != a
  {
    CountPairAtMostCountAction(Filter(logs, t1, t2), u, a);
    UserActionIndexCounts(logs, u, a);
    PairCountZero(logs, u, a);
  }

  /** A pair count is 0 exactly when no record has that user and action. */
  lemma {:induction false} PairCountZero(logs: seq<Log>, u: string, a: string)
    ensures CountPair(logs, u, a) == 0 <==> forall i :: 0 <= i < |logs| ==> logs[i].userId != u || logs[i].actionId != a
  {
    if logs != [] {
      var n := |logs| - 1;
      PairCountZero(logs[..n], u, a);
      assert forall i :: 0 <= i < n ==> logs[..n][i] == logs[i];
    }
  }

  // The worked example: three records, two users, one action twice. It is
  // stated for any two distinct users and actions, and then for the literal
  // names.

  function Example(u1: string, u2: string, a1: string, a2: string): seq<Log>
  {
    [Log(10, u1, a1), Log(20, u1, a2), Log(30, u2, a1)]
  }

  /** Two distinct users over `[0, long.MaxValue]`, none over `[100, 50]`. */
  lemma ExampleUsers(u1: string, u2: string, a1: string, a2: string)
    requires u1 != u2
    ensures |UserIds(Filter(Example(u1, u2, a1, a2), Some(0), Some(MaxLong)))| == 2
    ensures |UserIds(Filter(Example(u1, u2, a1, a2), Some(100), Some(50)))| == 0
  {
    var logs := Example(u1, u2, a1, a2);
    var r0, r1, r2 := logs[0], logs[1], logs[2];
    assert [r0] == [] + [r0] && [r0, r1] == [r0] + [r1] && logs == [r0, r1] + [r2];
    FilterFullRange(logs);
    UserIdsSnoc([], r0);
    UserIdsSnoc([r0], r1);
    UserIdsSnoc([r0, r1], r2);
    assert UserIds(logs) == {u1, u2};
    FilterEmpty(logs, Some(100), Some(50));
  }

  /** The top action over `[0, long.MaxValue]` is the one with two records. */
  lemma ExampleTopAction(u1: string, u2: string, a1: string, a2: string)
    requires a1 != a2
    ensures TopK(ActionIndex(Filter(Example(u1, u2, a1, a2), Some(0), Some(MaxLong))), 1) == [a1]
  {
    FilterFullRange(Example(u1, u2, a1, a2));
    ExampleActionIndex(u1, u2, a1, a2);
    ExampleSort(ActionIndex(Example(u1, u2, a1, a2)), a1, a2);
  }

  lemma ExampleActionIndex(u1: string, u2: string, a1: string, a2: string)
    requires a1 != a2
    ensures ActionIndex(Example(u1, u2, a1, a2)).keys == [a1, a2]
    ensures ActionIndex(Example(u1, u2, a1, a2)).Get(a1) == 2
    ensures ActionIndex(Example(u1, u2, a1, a2)).Get(a2) == 1
  {
    var logs := Example(u1, u2, a1, a2);
    assert logs == [logs[0], logs[1]] + [logs[2]];
    assert [logs[0], logs[1]] == [logs[0]] + [logs[1]];
    assert [logs[0]] == [] + [logs[0]];
    ThreeRecordIndex(logs[0], logs[1], logs[2], a1, a2);
  }

  lemma ThreeRecordIndex(r0: Log, r1: Log, r2: Log, a1: string, a2: string)
    requires a1 != a2 && r0.actionId == a1 && r1.actionId == a2 && r2.actionId == a1
    ensures ActionIndex([] + [r0] + [r1] + [r2]).keys == [a1, a2]
    ensures ActionIndex([] + [r0] + [r1] + [r2]).Get(a1) == 2
    ensures ActionIndex([] + [r0] + [r1] + [r2]).Get(a2) == 1
  {
    ActionIndexSnoc([], r0);
    ActionIndexSnoc([] + [r0], r1);
    ActionIndexSnoc([] + [r0] + [r1], r2);
    assert ActionIndex([] + [r0] + [r1] + [r2]) == Empty<string>().Add(a1).Add(a2).Add(a1);
    CounterSteps(a1, a2);
  }

  lemma CounterSteps(a1: string, a2: string)
    requires a1 != a2
    ensures var c := Empty<string>().Add(a1).Add(a2).Add(a1);
      c.keys == [a1, a2] && c.Get(a1) == 2 && c.Get(a2) == 1
  {
    var c1 := Empty<string>().Add(a1);
    assert c1.keys == [a1] && c1.Get(a1) == 1 && a2 !in c1.count;
    var c2 := c1.Add(a2);
    assert c2.keys == [a1, a2] && c2.Get(a1) == 1 && c2.Get(a2) == 1 && a1 in c2.count;
  }

  lemma ExampleSort(c: Counter<string>, a1: string, a2: string)
    requires c.keys == [a1, a2] && c.Get(a1) == 2 && c.Get(a2) == 1
    ensures TopK(c, 1) == [a1]
  {
    assert c.keys[1..] == [a2] && c.keys[1..][1..] == [];
    assert SortByCount([a2], c) == [a2];
    assert SortByCount(c.keys, c) == InsertByCount(a1, [a2], c) == [a1, a2];
  }

  /** (u1, a1) occurs once over `[0, long.MaxValue]` and not at all over `[15, long.MaxValue]`. */
  lemma ExamplePairs(u1: string, u2: string, a1: string, a2: string)
    requires u1 != u2 && a1 != a2
    ensures CountPair(Filter(Example(u1, u2, a1, a2), Some(0), Some(MaxLong)), u1, a1) == 1
    ensures CountPair(Filter(Example(u1, u2, a1, a2), Some(15), Some(MaxLong)), u1, a1) == 0
  {
    var logs := Example(u1, u2, a1, a2);
    var r0, r1, r2 := logs[0], logs[1], logs[2];
    assert [r0] == [] + [r0] && [r0, r1] == [r0] + [r1] && logs == [r0, r1] + [r2];
    FilterFullRange(logs);
    CountPairSnoc([], r0, u1, a1);
    CountPairSnoc([r0], r1, u1, a1);
    CountPairSnoc([r0, r1], r2, u1, a1);
    FilterSnoc([], r0, Some(15), Some(MaxLong));
    assert !InRange(r0.timestamp, Some(15), Some(MaxLong));
    assert Filter([r0], Some(15), Some(MaxLong)) == [];
    FilterSnoc([r0], r1, Some(15), Some(MaxLong));
    assert Filter([r0, r1], Some(15), Some(MaxLong)) == [r1];
    FilterSnoc([r0, r1], r2, Some(15), Some(MaxLong));
    assert Filter(logs, Some(15), Some(MaxLong)) == [r1, r2];
    assert [r1, r2] == [r1] + [r2] && [r1] == [] + [r1];
    CountPairSnoc([], r1, u1, a1);
    CountPairSnoc([r1], r2, u1, a1);
  }

  /**
   The three queries on the records (10, "u1", "a1"), (20, "u1", "a2"),
   (30, "u2", "a1"): two distinct users on `[0, long.MaxValue]` and none on
   `[100, 50]`; top-1 is ["a1"]; ("u1", "a1") once on `[0, long.MaxValue]`
   and never on `[15, long.MaxValue]`.
   */
  lemma Scenario()
    ensures var logs := Example("u1", "u2", "a1", "a2");
      && |UserIds(Filter(logs, Some(0), Some(MaxLong)))| == 2
      && |UserIds(Filter(logs, Some(100), Some(50)))| == 0
      && TopK(ActionIndex(Filter(logs, Some(0), Some(MaxLong))), 1) == ["a1"]
      && CountPair(Filter(logs, Some(0), Some(MaxLong)), "u1", "a1") == 1
      && CountPair(Filter(logs, Some(15), Some(MaxLong)), "u1", "a1") == 0
  {
    assert "u1" != "u2" && "a1" != "a2" by {
      assert "u1"[1] != "u2"[1] && "a1"[1] != "a2"[1];
    }
    ExampleUsers("u1", "u2", "a1", "a2");
    ExampleTopAction("u1", "u2", "a1", "a2");
    ExamplePairs("u1", "u2", "a1", "a2");
  }

  /** The example's timestamps are not negative, so its fast paths agree with their scans. */
  lemma ExampleTimestamps()
    ensures forall i :: 0 <= i < |Example("u1", "u2", "a1", "a2")| ==> Example("u1", "u2", "a1", "a2")[i].timestamp >= 0
  {
  }

  // The same example through the store: load the three records, then ask
  // each query. The bounds `[0, long.MaxValue]` take the fast path.

  /** Q1 on the loaded example: 2 users on the fast path, 0 on `[100, 50]`. */
  method ScenarioUsers() returns (all: int, none: int)
    ensures all == 2 && none == 0
  {
    var records := Example("u1", "u2", "a1", "a2");
    var store := new LogStore();
    store.Load(records);
    ExampleTimestamps();
    Scenario();
    FastPathMatchesScan(records, 1, "u1", "a1");
    all := store.CountDistinctUserIds(Some(0), Some(MaxLong));
    none := store.CountDistinctUserIds(Some(100), Some(50));
  }

  /** Q2 on the loaded example: the fast path's top-1 is ["a1"]. */
  method ScenarioTopAction() returns (top: seq<string>)
    ensures top == ["a1"]
  {
    var records := Example("u1", "u2", "a1", "a2");
    var store := new LogStore();
    store.Load(records);
    ExampleTimestamps();
    Scenario();
    FastPathMatchesScan(records, 1, "u1", "a1");
    top := store.TopKActions(1, Some(0), Some(MaxLong));
  }

  /** Q3 on the loaded example: ("u1", "a1") once on the fast path, never on `[15, long.MaxValue]`. */
  method ScenarioPairs() returns (all: int, later: int)
    ensures all == 1 && later == 0
  {
    var records := Example("u1", "u2", "a1", "a2");
    var store := new LogStore();
    store.Load(records);
    ExampleTimestamps();
    Scenario();
    FastPathMatchesScan(records, 1, "u1", "a1");
    all := store.CountUserAction("u1", "a1", Some(0), Some(MaxLong));
    later := store.CountUserAction("u1", "a1", Some(15), Some(MaxLong));
  }
}
