/**
 The program's static state (the record list and its three indexes) as one
 object, the load loop that fills it, and the three queries, each with its
 fast path over the indexes and its bounded path that scans the records.
 */
module Store {
  import opened Counters
  import opened Ranking
  import opened Logs

  /** The bounded path of Q2 up to the ranking: count the actions of the records in `[t1, t2]`. */
  method CountActionsInRange(logs: seq<Log>, t1: Bound, t2: Bound) returns (actionCounts: Counter<string>)
    ensures actionCounts == ActionIndex(Filter(logs, t1, t2))
  {
    actionCounts := Empty();
    for i := 0 to |logs|
      invariant actionCounts == ActionIndex(Filter(logs[..i], t1, t2))
    {
      var log := logs[i];
      if t1.Some? && t2.Some? && log.timestamp >= t1.value && log.timestamp <= t2.value {
        var key := log.actionId;
        actionCounts := actionCounts.Add(key);
      }
      ActionsStep(logs, i, t1, t2);
    }
    assert logs[..|logs|] == logs;
  }

  class LogStore {
    /** `AllLogs` */
    var allLogs: seq<Log>
    /** `AllUserIds` */
    var allUserIds: set<string>
    /** `AllActionCounts`, keyed by the action's key string */
    var allActionCounts: Counter<string>
    /** `AllUserActionCounts`, keyed by (user, action) */
    var allUserActionCounts: Counter<(string, string)>

    /** The indexes are the ones that loading `allLogs` builds. */
    ghost predicate Valid()
      reads this
    {
      && allUserIds == UserIds(allLogs)
      && allActionCounts == ActionIndex(allLogs)
      && allUserActionCounts == UserActionIndex(allLogs)
    }

    /** The static initialisers: an empty list, set and dictionaries. */
    constructor ()
      ensures Valid()
      ensures allLogs == [] && allUserIds == {}
      ensures allActionCounts.keys == [] && allUserActionCounts.keys == []
    {
      allLogs := [];
      allUserIds := {};
      allActionCounts := Empty();
      allUserActionCounts := Empty();
    }

    /** The body of the load loop for one parsed record: append it and update the three indexes. */
    method Index(log: Log)
      requires Valid()
      modifies this
      ensures Valid()
      ensures allLogs == old(allLogs) + [log]
      ensures allUserIds == old(allUserIds) + {log.userId}
      ensures allActionCounts == old(allActionCounts).Add(log.actionId)
      ensures allUserActionCounts == old(allUserActionCounts).Add((log.userId, log.actionId))
    {
      UserIdsSnoc(allLogs, log);
      ActionIndexSnoc(allLogs, log);
      UserActionIndexSnoc(allLogs, log);
      allLogs := allLogs + [log];
      allUserIds := allUserIds + {log.userId};
      var actionKey := log.actionId;
      allActionCounts := allActionCounts.Add(actionKey);
      var userActionKey := (log.userId, actionKey);
      allUserActionCounts := allUserActionCounts.Add(userActionKey);
    }

    /**
     `LoadAllLogs` on the records read from the files, in reading order:
     clear everything, then index each record.
     */
    method Load(records: seq<Log>)
      modifies this
      ensures Valid()
      ensures allLogs == records
    {
      allLogs := [];
      allUserIds := {};
      allActionCounts := Empty();
      allUserActionCounts := Empty();
      for i := 0 to |records|
        invariant Valid()
        invariant allLogs == records[..i]
      {
        assert records[..i + 1] == records[..i] + [records[i]];
        Index(records[i]);
      }
    }

    /**
     After loading, the indexes say what the records say: the user set is
     the users projected over the records; each action's count is its
     number of records and the counts add up to the number of records; each
     (user, action) count is that pair's number of records, these add up to
     the number of records, and per action they add up to that action's count.
     */
    lemma IndexesAgree()
      requires Valid()
      ensures forall u :: u in allUserIds <==> exists i :: 0 <= i < |allLogs| && allLogs[i].userId == u
      ensures forall a :: allActionCounts.Get(a) == CountAction(allLogs, a)
      ensures Total(allActionCounts) == |allLogs|
      ensures forall u, a :: allUserActionCounts.Get((u, a)) == CountPair(allLogs, u, a)
      ensures Total(allUserActionCounts) == |allLogs|
      ensures forall a :: SumOf(allUserActionCounts.keys, allUserActionCounts, (k: (string, string)) => k.1 == a)
                       == allActionCounts.Get(a)
    {
      forall u ensures u in allUserIds <==> exists i :: 0 <= i < |allLogs| && allLogs[i].userId == u {
        UserIdsProjection(allLogs, u);
      }
      forall a ensures allActionCounts.Get(a) == CountAction(allLogs, a) {
        ActionIndexCounts(allLogs, a);
      }
      ActionIndexTotal(allLogs);
      forall u, a ensures allUserActionCounts.Get((u, a)) == CountPair(allLogs, u, a) {
        UserActionIndexCounts(allLogs, u, a);
      }
      UserActionIndexTotal(allLogs);
      forall a ensures SumOf(allUserActionCounts.keys, allUserActionCounts, (k: (string, string)) => k.1 == a)
                     == allActionCounts.Get(a)
      {
        UserActionIndexPerAction(allLogs, a);
      }
    }

    /** Q1: the number of distinct users, over the whole store on the fast path, over `[t1, t2]` otherwise. */
    method CountDistinctUserIds(t1: Bound, t2: Bound) returns (result: int)
      requires Valid()
      ensures IsFullRange(t1, t2) ==> result == |UserIds(allLogs)|
      ensures !IsFullRange(t1, t2) ==> result == |UserIds(Filter(allLogs, t1, t2))|
    {
      if t1 == Some(0) && t2 == Some(MaxLong) {
        result := |allUserIds|;
      } else {
        var logs := allLogs;
        var userIds: set<string> := {};
        for i := 0 to |logs|
          invariant userIds == UserIds(Filter(logs[..i], t1, t2))
        {
          var log := logs[i];
          if t1.Some? && t2.Some? && log.timestamp >= t1.value && log.timestamp <= t2.value {
            userIds := userIds + {log.userId};
          }
          UsersStep(logs, i, t1, t2);
        }
        assert logs[..|logs|] == logs;
        result := |userIds|;
      }
    }

    /** Q2: the keys of the `k` most frequent actions, most frequent first, over the whole store on the fast path, over `[t1, t2]` otherwise. */
    method TopKActions(k: int, t1: Bound, t2: Bound) returns (result: seq<string>)
      requires Valid()
      ensures IsFullRange(t1, t2) ==> result == TopK(ActionIndex(allLogs), k)
      ensures !IsFullRange(t1, t2) ==> result == TopK(ActionIndex(Filter(allLogs, t1, t2)), k)
    {
      if t1 == Some(0) && t2 == Some(MaxLong) {
        result := TopK(allActionCounts, k);
      } else {
        var actionCounts := CountActionsInRange(allLogs, t1, t2);
        result := TopK(actionCounts, k);
      }
    }

    /** Q3: how often `userId` performed `actionId`, over the whole store on the fast path, over `[t1, t2]` otherwise. */
    method CountUserAction(userId: string, actionId: string, t1: Bound, t2: Bound) returns (result: int)
      requires Valid()
      ensures IsFullRange(t1, t2) ==> result == CountPair(allLogs, userId, actionId)
      ensures !IsFullRange(t1, t2) ==> result == CountPair(Filter(allLogs, t1, t2), userId, actionId)
    {
      if t1 == Some(0) && t2 == Some(MaxLong) {
        result := allUserActionCounts.Get((userId, actionId));
        UserActionIndexCounts(allLogs, userId, actionId);
      } else {
        var logs := allLogs;
        var count := 0;
        for i := 0 to |logs|
          invariant count == CountPair(Filter(logs[..i], t1, t2), userId, actionId)
        {
          var log := logs[i];
          if t1.Some? && t2.Some? && log.timestamp >= t1.value && log.timestamp <= t2.value
             && log.userId == userId && log.actionId == actionId
          {
            count := count + 1;
          }
          PairsStep(logs, i, t1, t2, userId, actionId);
        }
        assert logs[..|logs|] == logs;
        result := count;
      }
    }
  }
}
