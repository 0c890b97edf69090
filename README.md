# In-memory log store with derived indexes

This project models the core of a small C# batch tool. The tool loads log records `(timestamp, user, action)` into memory once. While loading, it builds three indexes: the set of distinct users, a count per action, and a count per (user, action) pair. It then answers three queries:

- Q1, the number of distinct users;
- Q2, the top-k most frequent actions;
- Q3, how often one user performed one action.

Each query takes an optional timestamp range `[t1, t2]`. When the range is exactly `[0, long.MaxValue]`, the query reads the prebuilt indexes (the *fast path*). Otherwise it scans the records with an inclusive range filter and aggregates as it goes (the *bounded path*).

Modules:

- `Counters` (counters.dfy): the `Dictionary<K, int>` the program uses as a counter (`TryAdd(key, 1)`, else `dict[key]++`). It is a value with its keys in insertion order plus a map of counts. It also has sums over the counts.
- `Logs` (logs.dfy): `Log`, C#'s `long` as the subtype `Long`, the nullable bound `long?` as `Option<Long>`, the inclusive filter, and the three indexes as one-record-at-a-time functions of a record sequence. It also has lemmas saying what each index means in terms of the records.
- `Ranking` (ranking.dfy): `OrderByDescending(pair => pair.Value).Take(k).Select(pair => pair.Key)`. The sort is stable and is modelled as an insertion sort. `Take` is LINQ's, where `k <= 0` gives nothing.
- `Store` (store.dfy): the program's static state as the class `LogStore`, with four fields: `allLogs`, `allUserIds`, `allActionCounts` and `allUserActionCounts`. It holds the load loop (`Index` for one record, `Load` for the whole reload) and the three queries as methods. The queries have no `modifies` clause, so the verifier checks that none of them changes the store or its indexes.
- `Queries` (queries.dfy): what the queries answer, over the records. This covers the agreement of each fast path with its own scan, empty ranges, the top-k guarantees, and the worked example (10, u1, a1), (20, u1, a2), (30, u2, a1), both on the scans and through a loaded `LogStore`.

Behaviour worth knowing (the model follows the code):

- The fast path is taken only for `t1 == 0 && t2 == long.MaxValue`, not for "minimum to maximum". So the fast path and the scan over `[0, long.MaxValue]` agree only when no timestamp is negative. `FastPathMatchesScan` assumes this. `NegativeTimestampSplitsPaths` shows one record at timestamp -1 for which they differ.
- For the same reason, a query's answer is not monotone in its range. A narrower range gives no more users only among scanned ranges (`NarrowerRangeFewerUsers`). With a negative timestamp, `[0, long.MaxValue]` can count more users than the wider `[-1, long.MaxValue]` (`FastPathNotMonotone`).
- The bounds are `long?`. A null bound fails `t1 == 0`, and every lifted comparison with null is false, so a null bound gives an empty scan result.
- A negative `k` is not rejected. `Take(k)` with `k <= 0` returns an empty list.
- Tie-break: `OrderByDescending` is stable, so ties come out in the dictionary's enumeration order. The .NET documentation leaves that order unspecified. The current implementation enumerates a dictionary that has only been added to (or cleared and then added to) in insertion order. The model assumes that behaviour, so ties come out in first-occurrence order (`TopKTies`). With non-negative timestamps this makes the fast and bounded top-k lists equal as sequences, not just as sets.
- The bounded path of Q2 counts actions by calling the module-level method `Store.CountActionsInRange` instead of keeping that loop inside `TopKActions`. The loop is the same as in the source.

## Model

| member | source | states |
|---|---|---|
| `Counters.Counter.Get` | optimisation-developpement-tp7/Program.cs:129 | `TryGetValue(key, out count) ? count : 0`: the stored count, or 0 for a missing key. It is a definition; `Counters.Counter.Add` and the index lemmas state what it reads. |
| `Counters.Counter.Add` | optimisation-developpement-tp7/Program.cs:55-56 | `TryAdd(key, 1)` or `++`: the key's count goes up by one and no other count changes. A new key is appended to the enumeration order and an existing key keeps its place. Distinct keys and positive counts are preserved. |
| `Counters.Empty` | optimisation-developpement-tp7/Program.cs:37-38 | A cleared dictionary has no keys and reads 0 for every key. |
| `Counters.AddSum` | optimisation-developpement-tp7/Program.cs:55-59 | Each increment, whether it inserts or bumps, adds exactly 1 to the total of the counts. It also adds 1 to any partial sum that selects the key, and nothing to one that does not. |
| `Counters.SumOfPermutation` | optimisation-developpement-tp7/Program.cs:95-98 | A sum of counts does not depend on the order of the keys: two key sequences with the same multiset give the same sum. |
| `Logs.InRange` | optimisation-developpement-tp7/Program.cs:79 | The scan test `log.Timestamp >= t1 && log.Timestamp <= t2` on `long?` bounds: both bounds inclusive, and false when either bound is null. It is a definition; its meaning is stated through `Logs.FilterMembers`. |
| `Logs.IsFullRange` | optimisation-developpement-tp7/Program.cs:71 | The fast-path test `t1 == 0 && t2 == long.MaxValue`. It is a definition; the query methods' contracts branch on it. |
| `Logs.Filter` | optimisation-developpement-tp7/Program.cs:78-79 | The records the bounded loops look at, in store order. It is a definition; its meaning is stated by `Logs.FilterMultiplicity` and `Logs.FilterMembers`. |
| `Logs.FilterMultiplicity` | optimisation-developpement-tp7/Program.cs:78-79 | The scan keeps every record in range exactly as often as it occurs in the store, in particular duplicates, and never keeps a record outside the range. |
| `Logs.FilterMembers` | optimisation-developpement-tp7/Program.cs:79 | A record survives the filter exactly when it is in the store and `t1 <= timestamp <= t2`, bounds inclusive, with neither bound null. |
| `Logs.UserIds` | optimisation-developpement-tp7/Program.cs:53 | The user set that `Add(log.UserId)` builds, one record at a time. It is a definition; its meaning is stated by `Logs.UserIdsProjection` and `Logs.UsersInRange`. |
| `Logs.ActionIndex` | optimisation-developpement-tp7/Program.cs:54-56 | The per-action dictionary that the load loop and the bounded Q2 loop build, one record at a time. It is a definition; its meaning is stated by `Logs.ActionIndexCounts`, `Logs.ActionIndexKeys` and `Logs.ActionIndexTotal`. |
| `Logs.UserActionIndex` | optimisation-developpement-tp7/Program.cs:57-59 | The per-(user, action) dictionary that the load loop builds, one record at a time. It is a definition; its meaning is stated by `Logs.UserActionIndexCounts`, `Logs.UserActionIndexTotal` and `Logs.UserActionIndexPerAction`. |
| `Logs.UserIdsProjection` | optimisation-developpement-tp7/Program.cs:53 | The user set built by `AllUserIds.Add` holds exactly the users of the records. |
| `Logs.IndexesValid` | optimisation-developpement-tp7/Program.cs:54-59 | Both dictionaries built by the load loop have distinct keys, exactly the map's keys, and counts of at least 1. |
| `Logs.ActionIndexCounts` | optimisation-developpement-tp7/Program.cs:54-56 | For every action, the per-action index reads the number of records with that action (0 when absent). |
| `Logs.ActionIndexKeys` | optimisation-developpement-tp7/Program.cs:54-56 | An action is a key of the per-action index exactly when some record has that action, that is, when it is in `Logs.ActionSet`. |
| `Logs.ActionIndexTotal` | optimisation-developpement-tp7/Program.cs:54-56 | The per-action counts add up to the number of records. |
| `Logs.UserActionIndexCounts` | optimisation-developpement-tp7/Program.cs:57-59 | For every (user, action), the pair index reads the number of records with that user and action (0 when absent). |
| `Logs.UserActionIndexTotal` | optimisation-developpement-tp7/Program.cs:57-59 | The per-pair counts add up to the number of records. |
| `Logs.UserActionIndexPerAction` | optimisation-developpement-tp7/Program.cs:54-59 | For each action, the pair counts of that action, summed over users, equal the per-action count. |
| `Logs.CountPairAtMostCountAction` | optimisation-developpement-tp7/Program.cs:136-138 | A pair never occurs more often than its action, and an action never more often than there are records. |
| `Logs.FilterEmpty` | optimisation-developpement-tp7/Program.cs:79 | With `t1 > t2` or a null bound, no record is in range. |
| `Logs.FilterFullRange` | optimisation-developpement-tp7/Program.cs:71-79 | When no timestamp is negative, `[0, long.MaxValue]` keeps every record, in order. |
| `Logs.UsersInRange` | optimisation-developpement-tp7/Program.cs:77-81 | A user is in the bounded user set exactly when some record of that user has a timestamp in `[t1, t2]`. |
| `Logs.NarrowerRangeFewerUsers` | optimisation-developpement-tp7/Program.cs:77-81 | Narrowing `[t1, t2]` to `[t1', t2']` inside it gives a subset of the users, and never a larger count. |
| `Ranking.SortByCount` | optimisation-developpement-tp7/Program.cs:96 | `OrderByDescending` returns a permutation of the keys whose counts never increase. |
| `Ranking.SortedKeys` | optimisation-developpement-tp7/Program.cs:96 | Over a valid dictionary, the sorted keys are the dictionary's keys, once each, in non-increasing order of count. |
| `Ranking.SortByCountTies` | optimisation-developpement-tp7/Program.cs:96 | The sort is stable: keys with equal counts keep their enumeration order. |
| `Ranking.Take` | optimisation-developpement-tp7/Program.cs:97 | `Take(k)` returns the first `min(k, n)` elements, and none when `k <= 0`. |
| `Ranking.TopKSpec` | optimisation-developpement-tp7/Program.cs:95-98 | Top-k returns exactly `min(k, number of keys)` keys (none for `k <= 0`). They are pairwise distinct and each has a count of at least 1. They come in non-increasing order of count. No key left out has a larger count than a returned key. When `k` covers all keys, every key is returned. |
| `Ranking.TopK` | optimisation-developpement-tp7/Program.cs:95-98 | `OrderByDescending(pair => pair.Value).Take(k).Select(pair => pair.Key)` on a dictionary. It is a definition; its meaning is stated by `Ranking.TopKSpec`, `Ranking.TopKTies` and `Ranking.TopKTotal`. |
| `Ranking.TopKTies` | optimisation-developpement-tp7/Program.cs:95-98 | Among the returned keys, equal counts appear in the dictionary's enumeration (insertion) order. |
| `Ranking.TopKTotal` | optimisation-developpement-tp7/Program.cs:95-98 | When `k` covers every key, any sum of counts over the returned keys equals the same sum over all the keys. |
| `Store.LogStore.constructor` | optimisation-developpement-tp7/Program.cs:8-12 | The static initialisers: an empty record list, user set and dictionaries, which are consistent with each other. |
| `Store.LogStore.Index` | optimisation-developpement-tp7/Program.cs:51-59 | One iteration of the load loop appends the record, adds its user, and increments its action count and its (user, action) count. Nothing else changes, and the indexes stay those of the records. |
| `Store.LogStore.Load` | optimisation-developpement-tp7/Program.cs:35-60 | Clearing and then indexing every record, in reading order, leaves exactly those records in the store, with indexes consistent with them. |
| `Store.LogStore.IndexesAgree` | optimisation-developpement-tp7/Program.cs:51-59 | After loading, the user set is the users of the records. Each action count is its number of records, and those counts add up to the number of records. Each pair count is its number of records; those also add up to the number of records, and per action they add up to the action's count. |
| `Store.LogStore.CountDistinctUserIds` | optimisation-developpement-tp7/Program.cs:67-86 | Q1: on `[0, long.MaxValue]` it returns the number of distinct users in the store. Otherwise it returns the number of distinct users among records in `[t1, t2]`, found by a scan. |
| `Store.CountActionsInRange` | optimisation-developpement-tp7/Program.cs:102-111 | The bounded path of Q2 builds the same per-action dictionary, in the same order, as loading only the records in `[t1, t2]` would. |
| `Store.LogStore.TopKActions` | optimisation-developpement-tp7/Program.cs:89-120 | Q2: the top-k of the global per-action index on the fast path. Otherwise the top-k of the dictionary counted over records in `[t1, t2]`. |
| `Store.LogStore.CountUserAction` | optimisation-developpement-tp7/Program.cs:123-145 | Q3: the pair count from the index on the fast path (0 for a missing key). Otherwise the number of records matching the user, the action and `[t1, t2]`. |
| `Queries.FastPathMatchesScan` | optimisation-developpement-tp7/Program.cs:71-140 | When no timestamp is negative, each fast path returns what its own scan would return on `[0, long.MaxValue]`: the same distinct-user count, the same top-k sequence and the same pair count. |
| `Queries.NegativeTimestampSplitsPaths` | optimisation-developpement-tp7/Program.cs:71-81 | With one record at timestamp -1, the fast path counts one user and one pair, while the scan over `[0, long.MaxValue]` counts none. |
| `Queries.FastPathNotMonotone` | optimisation-developpement-tp7/Program.cs:71-81 | With one record at timestamp -5, Q1 on `[-1, long.MaxValue]` scans and counts no user. Q1 on the narrower `[0, long.MaxValue]` takes the fast path and counts one. |
| `Queries.EmptyRangeResults` | optimisation-developpement-tp7/Program.cs:77-140 | `t1 > t2` or a null bound never takes the fast path. It yields zero users, an empty top-k list and a zero pair count. |
| `Queries.ActionKeysAreActionSet` | optimisation-developpement-tp7/Program.cs:54-56 | The per-action dictionary's keys are exactly the actions that occur, and there are as many keys as such actions. |
| `Queries.TopKActionsInRange` | optimisation-developpement-tp7/Program.cs:102-115 | Bounded Q2 returns at most `k` pairwise distinct actions, each occurring in range. They are in non-increasing order of records in range, and no action left out occurs more often than a returned one. When `k` is at least the number of distinct actions in range, all of them are returned. |
| `Queries.TopKActionsTotal` | optimisation-developpement-tp7/Program.cs:95-115 | When `k` is at least the number of distinct actions, the counts of the returned actions add up to the number of records. Applied to the stored records this is the fast path; applied to the records in `[t1, t2]` it is the bounded path. |
| `Queries.CountUserActionBounds` | optimisation-developpement-tp7/Program.cs:127-140 | The bounded pair count is at most the action's count in range, which is at most the number of records in range. The fast-path lookup reads 0 exactly when no record has that user and action. |
| `Queries.PairCountZero` | optimisation-developpement-tp7/Program.cs:129 | A pair count is 0 exactly when no record has that user and action. |
| `Queries.Scenario` | optimisation-developpement-tp7/Program.cs:77-140 | The scans on (10, u1, a1), (20, u1, a2), (30, u2, a1). Over `[0, long.MaxValue]` they find two users, top-1 `["a1"]` and one (u1, a1). Over `[100, 50]` they find no user, and over `[15, long.MaxValue]` no (u1, a1). |
| `Queries.ScenarioUsers` | optimisation-developpement-tp7/Program.cs:67-86 | After loading the example into a store, Q1 on `[0, long.MaxValue]` (the fast path) returns 2, and Q1 on `[100, 50]` returns 0. |
| `Queries.ScenarioTopAction` | optimisation-developpement-tp7/Program.cs:89-99 | After loading the example into a store, Q2 with `k = 1` on `[0, long.MaxValue]` (the fast path) returns `["a1"]`. |
| `Queries.ScenarioPairs` | optimisation-developpement-tp7/Program.cs:123-145 | After loading the example into a store, Q3 for (u1, a1) on `[0, long.MaxValue]` (the fast path) returns 1, and on `[15, long.MaxValue]` returns 0. |

## Left out

- File discovery and reading (`Directory.EnumerateFiles`, `StreamReader`): I/O. `Load` takes, as a parameter, the records of all files in reading order.
- Line parsing (`Split`, `long.Parse`, `Guid.Parse`) and its exceptions: library calls. The model starts from parsed records, so a failed load is not modelled.
- The string format of `ActionId.ToString()`: an action is an opaque string key, and the record stores that key.
- `Stopwatch` timing, every `Console.WriteLine`, `GC.GetTotalMemory` and `Main`: these are diagnostics and the process driver.
- `int` overflow of the counters and of `HashSet.Count`: counts are unbounded integers.
- The `Log` class is not part of this model; a record is the datatype `Log`.
- Concurrency: the program is single-threaded.
- The optional parameters `t1 = 0, t2 = long.MaxValue` of the three queries: callers always pass both bounds. Passing those two values is the same as omitting them, and it takes the fast path.
