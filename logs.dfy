/**
 Log records, the inclusive timestamp filter of the bounded query paths, and
 the three derived indexes as functions of a sequence of records, together
 with what each index means in terms of the records themselves.
 */
module Logs {
  import opened Counters

  const MinLong: int := -0x8000_0000_0000_0000
  const MaxLong: int := 0x7FFF_FFFF_FFFF_FFFF

  /** C#'s `long`. */
  type Long = x: int | MinLong <= x <= MaxLong

  datatype Option<T> = None | Some(value: T)

  /** A query bound, C#'s `long?`: it may be null. */
  type Bound = Option<Long>

  /** One parsed line; `actionId` is the action's key string (`ActionId.ToString()`). */
  datatype Log = Log(timestamp: Long, userId: string, actionId: string)

  /**
   The scan filter `log.Timestamp >= t1 && log.Timestamp <= t2`, bounds
   inclusive. A comparison with a null `long?` is false, so a null bound
   admits nothing.
   */
  predicate InRange(ts: Long, t1: Bound, t2: Bound)
  {
    t1.Some? && t2.Some? && t1.value <= ts <= t2.value
  }

  /** The fast-path test `t1 == 0 && t2 == long.MaxValue`. */
  predicate IsFullRange(t1: Bound, t2: Bound)
  {
    t1 == Some(0) && t2 == Some(MaxLong)
  }

  /** The records whose timestamp lies in `[t1, t2]`, in store order. */
  function Filter(logs: seq<Log>, t1: Bound, t2: Bound): seq<Log>
  {
    if logs == [] then []
    else
      var l := logs[|logs| - 1];
      Filter(logs[..|logs| - 1], t1, t2) + (if InRange(l.timestamp, t1, t2) then [l] else [])
  }

  /**
   The filter keeps every record in range exactly as often as it occurs,
   and no record outside the range.
   */
  lemma {:induction false} FilterMultiplicity(logs: seq<Log>, t1: Bound, t2: Bound, l: Log)
    ensures multiset(Filter(logs, t1, t2))[l] == if InRange(l.timestamp, t1, t2) then multiset(logs)[l] else 0
  {
    if logs != [] {
      var n := |logs| - 1;
      FilterMultiplicity(logs[..n], t1, t2, l);
      assert logs == logs[..n] + [logs[n]];
    }
  }

  /** The user set that `AllUserIds.Add` builds, one record at a time: the users projected over the records. */
  function UserIds(logs: seq<Log>): set<string>
  {
    if logs == [] then {}
    else UserIds(logs[..|logs| - 1]) + {logs[|logs| - 1].userId}
  }

  /** The per-action dictionary that the load loop and the bounded top-k scan build, one record at a time. */
  function ActionIndex(logs: seq<Log>): Counter<string>
  {
    if logs == [] then Empty()
    else ActionIndex(logs[..|logs| - 1]).Add(logs[|logs| - 1].actionId)
  }

  /** The per-(user, action) dictionary that the load loop builds, one record at a time. */
  function UserActionIndex(logs: seq<Log>): Counter<(string, string)>
  {
    if logs == [] then Empty()
    else
      var l := logs[|logs| - 1];
      UserActionIndex(logs[..|logs| - 1]).Add((l.userId, l.actionId))
  }

  /** The number of records with action `a`. */
  function CountAction(logs: seq<Log>, a: string): nat
  {
    if logs == [] then 0
    else CountAction(logs[..|logs| - 1], a) + (if logs[|logs| - 1].actionId == a then 1 else 0)
  }

  /** The number of records with user `u` and action `a`. */
  function CountPair(logs: seq<Log>, u: string, a: string): nat
  {
    if logs == [] then 0
    else
      var l := logs[|logs| - 1];
      CountPair(logs[..|logs| - 1], u, a) + (if l.userId == u && l.actionId == a then 1 else 0)
  }

  /** The actions that occur in `logs`. */
  ghost function ActionSet(logs: seq<Log>): set<string>
  {
    set i | 0 <= i < |logs| :: logs[i].actionId
  }

  // ---------------------------------------------------------------------------
  // What the indexes mean

  /** The user index is the set of users projected over the records. */
  lemma {:induction false} UserIdsProjection(logs: seq<Log>, u: string)
    ensures u in UserIds(logs) <==> exists i :: 0 <= i < |logs| && logs[i].userId == u
  {
    if logs != [] {
      var n := |logs| - 1;
      UserIdsProjection(logs[..n], u);
      assert forall i :: 0 <= i < n ==> logs[..n][i] == logs[i];
    }
  }

  /** The filter keeps exactly the records in range. */
  lemma {:induction false} FilterMembers(logs: seq<Log>, t1: Bound, t2: Bound, l: Log)
    ensures l in Filter(logs, t1, t2) <==> l in logs && InRange(l.timestamp, t1, t2)
  {
    if logs != [] {
      var n := |logs| - 1;
      FilterMembers(logs[..n], t1, t2, l);
      SplitLast(logs);
    }
  }

  /** Both dictionaries the load loop builds have distinct keys and positive counts. */
  lemma {:induction false} IndexesValid(logs: seq<Log>)
    ensures ActionIndex(logs).Valid()
    ensures UserActionIndex(logs).Valid()
  {
    if logs != [] {
      IndexesValid(logs[..|logs| - 1]);
    }
  }

  /** The per-action index holds, for every action, the number of records with that action (0 when absent). */
  lemma {:induction false} ActionIndexCounts(logs: seq<Log>, a: string)
    ensures ActionIndex(logs).Get(a) == CountAction(logs, a)
  {
    if logs != [] {
      ActionIndexCounts(logs[..|logs| - 1], a);
    }
  }

  /** The per-action index has a key exactly for the actions that occur. */
  lemma {:induction false} ActionIndexKeys(logs: seq<Log>, a: string)
    ensures a in ActionIndex(logs).keys <==> a in ActionSet(logs)
  {
    if logs != [] {
      var n := |logs| - 1;
      var init := logs[..n];
      ActionIndexKeys(init, a);
      IndexesValid(init);
      var c := ActionIndex(init);
      assert a in c.Add(logs[n].actionId).keys <==> a in c.keys || a == logs[n].actionId;
      ActionSetLast(logs);
    }
  }

  lemma ActionSetLast(logs: seq<Log>)
    requires logs != []
    ensures ActionSet(logs) == ActionSet(logs[..|logs| - 1]) + {logs[|logs| - 1].actionId}
  {
    var n := |logs| - 1;
    var init := logs[..n];
    forall a | a in ActionSet(logs) ensures a in ActionSet(init) + {logs[n].actionId} {
      var i :| 0 <= i < |logs| && logs[i].actionId == a;
      if i < n {
        assert init[i].actionId == a;
      }
    }
    forall a | a in ActionSet(init) ensures a in ActionSet(logs) {
      var i :| 0 <= i < |init| && init[i].actionId == a;
      assert logs[i].actionId == a;
    }
  }

  /** The per-action counts add up to the number of records. */
  lemma {:induction false} ActionIndexTotal(logs: seq<Log>)
    ensures Total(ActionIndex(logs)) == |logs|
  {
    if logs != [] {
      var n := |logs| - 1;
      ActionIndexTotal(logs[..n]);
      IndexesValid(logs[..n]);
      AddSum(ActionIndex(logs[..n]), logs[n].actionId, _ => true);
    }
  }

  /** The per-(user, action) index holds, for every pair, the number of records with that user and action (0 when absent). */
  lemma {:induction false} UserActionIndexCounts(logs: seq<Log>, u: string, a: string)
    ensures UserActionIndex(logs).Get((u, a)) == CountPair(logs, u, a)
  {
    if logs != [] {
      UserActionIndexCounts(logs[..|logs| - 1], u, a);
    }
  }

  /** The per-(user, action) counts add up to the number of records. */
  lemma {:induction false} UserActionIndexTotal(logs: seq<Log>)
    ensures Total(UserActionIndex(logs)) == |logs|
  {
    if logs != [] {
      var n := |logs| - 1;
      UserActionIndexTotal(logs[..n]);
      IndexesValid(logs[..n]);
      AddSum(UserActionIndex(logs[..n]), (logs[n].userId, logs[n].actionId), _ => true);
    }
  }

  /** For each action, summing the per-(user, action) counts over its users gives the per-action count. */
  lemma {:induction false} UserActionIndexPerAction(logs: seq<Log>, a: string)
    ensures SumOf(UserActionIndex(logs).keys, UserActionIndex(logs), (k: (string, string)) => k.1 == a)
         == ActionIndex(logs).Get(a)
  {
    if logs != [] {
      var n := |logs| - 1;
      UserActionIndexPerAction(logs[..n], a);
      IndexesValid(logs[..n]);
      AddSum(UserActionIndex(logs[..n]), (logs[n].userId, logs[n].actionId), (k: (string, string)) => k.1 == a);
    }
  }

  /** A pair never occurs more often than its action. */
  lemma {:induction false} CountPairAtMostCountAction(logs: seq<Log>, u: string, a: string)
    ensures CountPair(logs, u, a) <= CountAction(logs, a) <= |logs|
  {
    if logs != [] {
      CountPairAtMostCountAction(logs[..|logs| - 1], u, a);
    }
  }

  // ---------------------------------------------------------------------------
  // The range filter

  /** `t1 > t2` or a null bound: nothing is in range. */
  lemma {:induction false} FilterEmpty(logs: seq<Log>, t1: Bound, t2: Bound)
    requires t1.None? || t2.None? || t1.value > t2.value
    ensures Filter(logs, t1, t2) == []
  {
    if logs != [] {
      FilterEmpty(logs[..|logs| - 1], t1, t2);
    }
  }

  /** With no negative timestamp, `[0, long.MaxValue]` keeps every record, in order. */
  lemma {:induction false} FilterFullRange(logs: seq<Log>)
    requires forall i :: 0 <= i < |logs| ==> logs[i].timestamp >= 0
    ensures Filter(logs, Some(0), Some(MaxLong)) == logs
  {
    if logs != [] {
      var n := |logs| - 1;
      var init := logs[..n];
      assert forall i :: 0 <= i < |init| ==> init[i].timestamp >= 0;
      FilterFullRange(init);
      assert Filter(logs, Some(0), Some(MaxLong)) == init + [logs[n]];
      SplitLast(logs);
    }
  }

  /** The users with a record in `[t1, t2]`. */
  lemma UsersInRange(logs: seq<Log>, t1: Bound, t2: Bound, u: string)
    ensures u in UserIds(Filter(logs, t1, t2))
        <==> exists i :: 0 <= i < |logs| && InRange(logs[i].timestamp, t1, t2) && logs[i].userId == u
  {
    var f := Filter(logs, t1, t2);
    UserIdsProjection(f, u);
    if u in UserIds(f) {
      var j :| 0 <= j < |f| && f[j].userId == u;
      FilterMembers(logs, t1, t2, f[j]);
      var i :| 0 <= i < |logs| && logs[i] == f[j];
    }
    if exists i :: 0 <= i < |logs| && InRange(logs[i].timestamp, t1, t2) && logs[i].userId == u {
      var i :| 0 <= i < |logs| && InRange(logs[i].timestamp, t1, t2) && logs[i].userId == u;
      FilterMembers(logs, t1, t2, logs[i]);
      var j :| 0 <= j < |f| && f[j] == logs[i];
    }
  }

  /** Narrowing the range never adds a user. */
  lemma NarrowerRangeFewerUsers(logs: seq<Log>, t1: Long, t2: Long, t1': Long, t2': Long)
    requires t1 <= t1' && t2' <= t2
    ensures UserIds(Filter(logs, Some(t1'), Some(t2'))) <= UserIds(Filter(logs, Some(t1), Some(t2)))
    ensures |UserIds(Filter(logs, Some(t1'), Some(t2')))| <= |UserIds(Filter(logs, Some(t1), Some(t2)))|
  {
    forall u | u in UserIds(Filter(logs, Some(t1'), Some(t2')))
      ensures u in UserIds(Filter(logs, Some(t1), Some(t2)))
    {
      UsersInRange(logs, Some(t1'), Some(t2'), u);
      UsersInRange(logs, Some(t1), Some(t2), u);
    }
    SubsetCardinality(UserIds(Filter(logs, Some(t1'), Some(t2'))), UserIds(Filter(logs, Some(t1), Some(t2))));
  }

  // Each of the one-record-at-a-time definitions, one record further.

  lemma FilterSnoc(logs: seq<Log>, l: Log, t1: Bound, t2: Bound)
    ensures Filter(logs + [l], t1, t2) == Filter(logs, t1, t2) + (if InRange(l.timestamp, t1, t2) then [l] else [])
  {
    assert (logs + [l])[..|logs|] == logs;
  }

  lemma UserIdsSnoc(logs: seq<Log>, l: Log)
    ensures UserIds(logs + [l]) == UserIds(logs) + {l.userId}
  {
    assert (logs + [l])[..|logs|] == logs;
  }

  lemma ActionIndexSnoc(logs: seq<Log>, l: Log)
    ensures ActionIndex(logs + [l]) == ActionIndex(logs).Add(l.actionId)
  {
    assert (logs + [l])[..|logs|] == logs;
  }

  lemma UserActionIndexSnoc(logs: seq<Log>, l: Log)
    ensures UserActionIndex(logs + [l]) == UserActionIndex(logs).Add((l.userId, l.actionId))
  {
    assert (logs + [l])[..|logs|] == logs;
  }

  lemma CountPairSnoc(logs: seq<Log>, l: Log, u: string, a: string)
    ensures CountPair(logs + [l], u, a) == CountPair(logs, u, a) + (if l.userId == u && l.actionId == a then 1 else 0)
  {
    assert (logs + [l])[..|logs|] == logs;
  }

  // One more record of a scan over `[t1, t2]`.

  lemma UsersStep(logs: seq<Log>, i: nat, t1: Bound, t2: Bound)
    requires i < |logs|
    ensures UserIds(Filter(logs[..i + 1], t1, t2))
         == if InRange(logs[i].timestamp, t1, t2) then UserIds(Filter(logs[..i], t1, t2)) + {logs[i].userId}
            else UserIds(Filter(logs[..i], t1, t2))
  {
    assert logs[..i + 1] == logs[..i] + [logs[i]];
    FilterSnoc(logs[..i], logs[i], t1, t2);
    var f := Filter(logs[..i], t1, t2);
    if InRange(logs[i].timestamp, t1, t2) {
      UserIdsSnoc(f, logs[i]);
    } else {
      assert f + [] == f;
    }
  }

  lemma ActionsStep(logs: seq<Log>, i: nat, t1: Bound, t2: Bound)
    requires i < |logs|
    ensures ActionIndex(Filter(logs[..i + 1], t1, t2))
         == if InRange(logs[i].timestamp, t1, t2) then ActionIndex(Filter(logs[..i], t1, t2)).Add(logs[i].actionId)
            else ActionIndex(Filter(logs[..i], t1, t2))
  {
    assert logs[..i + 1] == logs[..i] + [logs[i]];
    FilterSnoc(logs[..i], logs[i], t1, t2);
    var f := Filter(logs[..i], t1, t2);
    if InRange(logs[i].timestamp, t1, t2) {
      ActionIndexSnoc(f, logs[i]);
    } else {
      assert f + [] == f;
    }
  }

  lemma PairsStep(logs: seq<Log>, i: nat, t1: Bound, t2: Bound, u: string, a: string)
    requires i < |logs|
    ensures CountPair(Filter(logs[..i + 1], t1, t2), u, a)
         == CountPair(Filter(logs[..i], t1, t2), u, a)
            + (if InRange(logs[i].timestamp, t1, t2) && logs[i].userId == u && logs[i].actionId == a then 1 else 0)
  {
    assert logs[..i + 1] == logs[..i] + [logs[i]];
    FilterSnoc(logs[..i], logs[i], t1, t2);
    var f := Filter(logs[..i], t1, t2);
    if InRange(logs[i].timestamp, t1, t2) {
      CountPairSnoc(f, logs[i], u, a);
    } else {
      assert f + [] == f;
    }
  }

  lemma SplitLast<T>(s: seq<T>)
    requires s != []
    ensures s[..|s| - 1] + [s[|s| - 1]] == s
  {
  }

  lemma SubsetCardinality<T>(a: set<T>, b: set<T>)
    requires a <= b
    ensures |a| <= |b|
  {
    assert b == a + (b - a);
  }
}
