# ConcurrentMap, modelled in Dafny

`ConcurrentMap<K, V>` is a keyed table (a `std::map<K, V>`) behind one
`std::mutex`. Every public operation takes the lock for its whole body, so each
call is one atomic step on the table. The lock is implicit here: each method is
modelled as the sequential step it performs.

- `table.dfy` (module `Table`): the table as a value, `map<K, V>`, and one
  function per table operation the class performs under its lock. The
  `std::map` calls are insert-or-assign, erase, find and count. Update through a
  mutator, extraction and conditional extraction are the class's own find
  followed by an in-place change or an erase. Size and clear need no function:
  they are `|m|` and `map[]`.
  `std::optional<V>` is `Option<V>`. Each function's contract says what it means
  for the keys and values. The lemmas relate several calls on one key.
- `concurrent_map.dfy` (module `ConcurrentMaps`): class `ConcurrentMap` with
  the field `entries: map<K, V>` and one method per public operation. Each
  mutating method has `modifies this`, and its `ensures` gives the new table and
  the result as the matching `Table` function of the old table. The read-only
  methods state their result directly. The `find_and` mutator is a total
  function `V -> V`. The `remove_if` predicate is a function `V -> bool`.
- `serial.dfy` (module `Serial`): a history is the sequence of calls in the
  order the lock admitted them. `Run` replays a history and gives the final
  table and each call's reply. The lemmas prove three things. Calls that do not
  touch a key leave its entry alone. Inserts under distinct fresh keys all
  land, so there are no lost updates. A racing insert and remove on one key end
  in one of the two serial outcomes. `Apply` dispatches a call to the matching
  method of a `ConcurrentMap` object and is proved to do exactly what `Step`
  does, so these lemmas are about the class's own methods.
- `demo.dfy` (module `Demo`): the `use_int` driver as a method. The values it
  prints are returned, and its `ensures` states them.

The `use_int` driver calls `remove_if(4, v < 10)` when the value under 4 is 6.
Since 6 < 10, key 4 is removed and `contains(4)` is false afterwards.

## Model

| member | source | states |
|---|---|---|
| Table.InsertOrAssign | concurrent_map_cpp/src/main.cpp:16-20 | the flag is true exactly when k was absent; afterwards k holds v, the key set gains k, other keys keep their values, and the size grows by one only for a new key |
| Table.Erase | concurrent_map_cpp/src/main.cpp:22-25 | k is gone, the key set loses only k, other keys keep their values, an absent key changes nothing, the size drops by one only when k was present |
| Table.Find | concurrent_map_cpp/src/main.cpp:32-39 | a value is returned exactly when k is present, and it is the stored value |
| Table.Count | concurrent_map_cpp/src/main.cpp:41-44 | the count is at most one and positive exactly when k is present |
| Table.Update | concurrent_map_cpp/src/main.cpp:53-61 | true exactly when k is present; the key set is unchanged, k holds f of its old value, other keys keep their values, an absent key changes nothing |
| Table.Extract | concurrent_map_cpp/src/main.cpp:65-74 | the value returned is what find would give, and the table left is what erase would leave |
| Table.ExtractIf | concurrent_map_cpp/src/main.cpp:76-87 | when k is present and p holds of its value it is exactly extraction; otherwise nothing is returned and the table is unchanged; a returned value is the stored one and satisfies p |
| Table.InsertTwice | concurrent_map_cpp/src/main.cpp:16-19 | after inserting v1 then v2 under k, k holds v2, the first insert reports a new key exactly when k was absent, the second never does, and the table is as if only v2 had been inserted |
| Table.ExtractAfterInsert | concurrent_map_cpp/src/main.cpp:65-74 | removing a key just inserted returns the inserted value, leaves the key absent, and leaves the table erase would leave on the original |
| Table.FindAfterUpdate | concurrent_map_cpp/src/main.cpp:53-61 | a copy read after find_and sees f applied to the old value |
| ConcurrentMaps.ConcurrentMap.constructor | concurrent_map_cpp/src/main.cpp:89-91 | a new map has no entries |
| ConcurrentMaps.ConcurrentMap.Insert | concurrent_map_cpp/src/main.cpp:16-20 | the new table and the result are InsertOrAssign of the old table |
| ConcurrentMaps.ConcurrentMap.Erase | concurrent_map_cpp/src/main.cpp:22-25 | the new table is Erase of the old table |
| ConcurrentMaps.ConcurrentMap.Size | concurrent_map_cpp/src/main.cpp:27-30 | the result is the number of entries, and nothing changes |
| ConcurrentMaps.ConcurrentMap.FindCopy | concurrent_map_cpp/src/main.cpp:32-39 | the result is Find on the table, which is left unchanged |
| ConcurrentMaps.ConcurrentMap.Contains | concurrent_map_cpp/src/main.cpp:41-44 | true exactly when k is a key of the table, which is left unchanged |
| ConcurrentMaps.ConcurrentMap.Clear | concurrent_map_cpp/src/main.cpp:46-49 | afterwards the table is empty: size 0 and no key present |
| ConcurrentMaps.ConcurrentMap.FindAnd | concurrent_map_cpp/src/main.cpp:53-61 | the new table and the result are Update of the old table with the mutator |
| ConcurrentMaps.ConcurrentMap.Remove | concurrent_map_cpp/src/main.cpp:65-74 | the new table and the result are Extract of the old table |
| ConcurrentMaps.ConcurrentMap.RemoveIf | concurrent_map_cpp/src/main.cpp:76-87 | the new table and the result are ExtractIf of the old table with the predicate |
| Serial.Step | concurrent_map_cpp/src/main.cpp:16-87 | one lock-guarded call, computed by the matching Table function; its contract states that each reply has the return type of the call's method (bool, count, optional value or nothing) |
| Serial.Apply | concurrent_map_cpp/src/main.cpp:16-87 | calling the matching ConcurrentMap method leaves exactly the table and returns exactly the reply that Step gives for the old table |
| Serial.Run | concurrent_map_cpp/src/main.cpp:16-87 | replaying a history in lock order gives exactly one reply per call |
| Serial.StepReadOnly | concurrent_map_cpp/src/main.cpp:27-49 | size, find_copy and contains leave the table as it was; clear leaves it empty |
| Serial.StepKeepsUntouched | concurrent_map_cpp/src/main.cpp:16-87 | a call on another key, or size, leaves the entry for j, or its absence, unchanged |
| Serial.UntouchedKeyKept | concurrent_map_cpp/src/main.cpp:16-87 | any history of calls that never touch key j leaves j's entry, or its absence, unchanged |
| Serial.FreshInsertsAllLand | concurrent_map_cpp/src/main.cpp:16-19 | inserts under distinct fresh keys, in any lock order, all report a new key; the table grows by one per insert, each inserted key holds its value, and old entries stay |
| Serial.InsertRemoveRace | concurrent_map_cpp/src/main.cpp:16-74 | an insert and a remove of one key end with the key either absent or holding the inserted value, depending on the order; the remove returns what it took out |
| Demo.UseInt | concurrent_map_cpp/src/main.cpp:105-124 | after three inserts the size is 3; key 3 still holds 4 after the caller's variable changes; find_and sets key 4 to 6; remove_if(4, v < 10) returns 6; key 4 is present before it and absent after |

## Left out

- The `std::mutex` and `lock_guard`, and every thread-safety claim. Each call is modelled as one atomic step. Interleavings appear only as the order of calls in a `Serial` history.
- Callbacks that call back into the same map, and the deadlock that would follow. The sequential model has no lock to deadlock on. The callbacks are total functions that cannot reach the map.
- Callbacks that block, loop forever or throw. Dafny functions are total and terminate.
- Copy versus move of values (`std::forward`, `std::move`, move-only `unique_ptr`, shared `shared_ptr`). Dafny values have no identity or ownership. Extraction is "the value is returned and the entry is gone". `find_copy` needs no copyable type, because every Dafny value can be duplicated.
- The key order of `std::map`. No operation of the class shows the order, so the table is an unordered `map`.
- ConcurrentMaps.ConcurrentMap.Size: returns the entry count as an unbounded `int`. It does not model what happens when `size()` narrows `size_t` to `int` for tables with more than 2^31 - 1 entries.
- The `Holder` class and the `use_unique`, `use_shared` and `main` drivers (lines 94-168) are demonstration programs. `printf` is output. In `Demo.UseInt`, the printing callbacks become identity mutators, and the printed values become returned values.
- slow_proto/benchmark.cc times generated protobuf code against `memcpy`. It uses a clock and a foreign library and has no logic to specify.
- slow_proto/src/main.cpp prints which copy or move constructor runs. It shows language behaviour and has no component to model.
