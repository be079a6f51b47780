# ForgettingMap in Dafny

`ForgettingMap<K, V>` is a key-value cache with a fixed capacity. When it is
full it forgets the key that was least recently used. It keeps three fields:
- a final `capacity`;
- a `HashMap` from keys to values;
- a `LinkedList` of keys, the recency list. Its head is the least recently
  used key and its tail the most recently used.

It has four operations:
- `add(key, value)` always stores the value. It then moves the key to the
  tail of the list. If the key was not listed and the list is full, it first
  drops the head.
- `find(key)` works only on a listed key. It moves that key to the tail and
  returns the key's value.
- `getSize()` returns the length of the list.
- `getCapacity()` returns the capacity.

Invalid input is refused with an exception, before any change:
- a capacity below one fails with `NotInitialized`;
- a null key fails with `KeyNull`;
- a null value fails with `ValueNull`;
- a find of a key that is not listed fails with `KeyNotFound`.

The project has five modules, one per file:

- `exceptions.dfy` (`Exceptions`): the four exception kinds, and the
  `Option`, `Result` and `Outcome` types. A Java `null` argument is `None`.
  A thrown exception is `Err`/`Fail`.
- `recency_list.dfy` (`RecencyList`): the `LinkedList` operations the map
  uses, on a sequence of keys.
  - `Without` is `remove(Object)`, which drops the first occurrence.
  - `MoveToBack` is remove followed by `add`.
  - `Contains` and `Remove` are loops, proved against `in` and `Without`.
- `forgetting_map.dfy` (`ForgettingMaps`):
  - The three fields as a value, `Cache`, with the invariant `Valid`.
  - One function per source method: `Init`, `AddStep`, `FindStep`, `Put`
    and `Get`. Each one's contract gives the result, the new map and the
    invariant; the lemmas below give the new list case by case.
  - Lemmas for the cases of `add` and `find`.
  - The class `ForgettingMap`. Its fields are updated in place, and each
    method is proved equal to the matching function:
    `ensures (r, Model()) == AddStep(old(Model()), key, value)`.
- `lru.dfy` (`Lru`): runs of calls.
  - `LastUses(h)` is an independent reference for the policy. It lists every
    key of a history of uses once, at its last use.
  - `Uses` reads the history of a run off the states it passes through: a
    find counts as a use when its key is in the state's list. `PolicyUses`
    reads the same history from the calls and the policy alone, a find
    counting when its key is in `Recent`, and `UsesFromCalls` proves the two
    equal.
  - `Recent(h, n)` is the last `n` keys of `LastUses(h)`, which is what a
    least-recently-used cache of capacity `n` must list.
  - `RunFollowsLru` proves that every run keeps the recency list equal to
    `Recent`.
  - `BehavesAsLruCache` adds that a find returns the value last written.
  - `StaleEntriesUnobservable` proves that values kept in the map for
    evicted keys never change an answer.
- `scenarios.dfy` (`Scenarios`): the tests of `ForgettingMapTest`, replayed
  on the model. Keys are any distinct values. The test that loops over many
  keys is stated for any capacity n, with batches of n distinct keys and any
  m <= n keys re-added; `EvictionOrder` covers any number of distinct adds.

How the code differs from a plain description of the class:
- When `add` evicts the head of the list (`ForgettingMap.java:129`), it
  removes the key only from the list. The key's value stays in the
  `HashMap`.
- The model follows the code. `Valid` therefore asks only that every listed
  key has a value. The map's key set may be larger than the list, and
  `MapOutgrowsCapacity` shows a map holding more keys than its capacity.
- The class comment (`ForgettingMap.java:16-17`, `47-48`) says the least
  used element is removed; line 129 removes it only from the list. The model
  follows the code. It also proves that the kept values cannot be observed
  through `add`, `find` and `getSize` (`StaleEntriesUnobservable`).
- Membership and size are read from the list only (`find` line 76,
  `getSize` line 89).

## Model

| member | source | states |
|---|---|---|
| ForgettingMaps.Init | src/main/java/com/kerem/ForgettingMap.java:36-43 | a capacity below one, and only such a capacity, gives NotInitialized; otherwise the map and the list are empty, the invariant holds, the capacity is the given one and the size is zero |
| ForgettingMaps.ForgettingMap.New | src/main/java/com/kerem/ForgettingMap.java:36-43 | the constructor fails with NotInitialized exactly when the capacity is below one; otherwise it yields a fresh object whose fields are the empty state Init describes |
| ForgettingMaps.ForgettingMap.constructor | src/main/java/com/kerem/ForgettingMap.java:40-42 | the field initialisers give the valid empty state of Init for the checked capacity |
| ForgettingMaps.AddStep | src/main/java/com/kerem/ForgettingMap.java:54-62 | a null key gives KeyNull and a null value ValueNull, in that order and with the state unchanged; add succeeds exactly when both are present, and then the key holds the new value and is the tail of the list; the invariant and the capacity are kept |
| ForgettingMaps.ForgettingMap.Add | src/main/java/com/kerem/ForgettingMap.java:54-62 | the in-place add returns and leaves exactly what AddStep gives for the old fields, and keeps the invariant |
| ForgettingMaps.FindStep | src/main/java/com/kerem/ForgettingMap.java:72-80 | a null key gives KeyNull and an unlisted key KeyNotFound, both with the state unchanged; find succeeds exactly on a listed key, returns its stored value, makes it the tail, keeps the size, the map and the invariant |
| ForgettingMaps.ForgettingMap.Find | src/main/java/com/kerem/ForgettingMap.java:72-80 | the in-place find, with its list scan, returns and leaves exactly what FindStep gives for the old fields, and keeps the invariant |
| ForgettingMaps.Cache.Size | src/main/java/com/kerem/ForgettingMap.java:88-90 | the size of the list is never negative and, in a valid state, never exceeds the capacity |
| ForgettingMaps.ForgettingMap.GetSize | src/main/java/com/kerem/ForgettingMap.java:88-90 | the size is the number of listed keys and never exceeds the capacity |
| ForgettingMaps.ForgettingMap.GetCapacity | src/main/java/com/kerem/ForgettingMap.java:97-99 | the capacity is the one fixed at construction and is at least one |
| ForgettingMaps.Get | src/main/java/com/kerem/ForgettingMap.java:107-111 | moving a listed key to the top returns the value the map holds for it, makes it the tail, keeps the size, the map and the invariant |
| ForgettingMaps.ForgettingMap.MoveTheKeyToTopAndFindValue | src/main/java/com/kerem/ForgettingMap.java:107-111 | the in-place remove-and-append leaves exactly the state Get gives and returns its value |
| ForgettingMaps.Put | src/main/java/com/kerem/ForgettingMap.java:121-132 | after a write the key holds the new value, is the tail of the list, no key is listed that was not listed before or written now, and the invariant (bounded, no repeats, every listed key has a value) holds again |
| ForgettingMaps.ForgettingMap.MoveTheKeyToTopAndRemoveOldestElement | src/main/java/com/kerem/ForgettingMap.java:121-132 | the in-place write, with its tail shortcut, list scan and head removal, leaves exactly the state Put gives |
| ForgettingMaps.AddThenFind | src/main/java/com/kerem/ForgettingMap.java:54-80 | a find right after a successful add of a key returns the value just written |
| ForgettingMaps.PutListedKey | src/main/java/com/kerem/ForgettingMap.java:123-127 | writing a listed key evicts nothing: the size and the set of listed keys stay, and the other keys keep their relative order |
| ForgettingMaps.PutNewKeyWithRoom | src/main/java/com/kerem/ForgettingMap.java:128-131 | writing an unlisted key into a list with room appends it and grows the size by one |
| ForgettingMaps.PutNewKeyWhenFull | src/main/java/com/kerem/ForgettingMap.java:128-131 | writing an unlisted key into a full list evicts exactly the head, which is never the written key; the size stays at the capacity, a find of the evicted key fails with KeyNotFound, and its value stays in the map |
| ForgettingMaps.PutTailKey | src/main/java/com/kerem/ForgettingMap.java:123-125 | the shortcut for the key already at the tail keeps the list, and that list is the one the general remove-then-append path would build |
| ForgettingMaps.FindListedKey | src/main/java/com/kerem/ForgettingMap.java:107-109 | a successful find lists the same keys, moves the key read to the back and keeps the others in their order |
| ForgettingMaps.FindOnListed | src/main/java/com/kerem/ForgettingMap.java:76-79 | on any valid state a find of a key answers its stored value exactly when the key is listed, and KeyNotFound otherwise |
| ForgettingMaps.FindPermutes | src/main/java/com/kerem/ForgettingMap.java:107-109 | every find, successful or not, leaves the list a permutation of the list before |
| ForgettingMaps.CapacityOne | src/main/java/com/kerem/ForgettingMap.java:121-132 | with capacity one the list holds only the key last written, or the key just read |
| RecencyList.Last | src/main/java/com/kerem/ForgettingMap.java:123 | peekLast on a non-empty list gives one of its keys |
| RecencyList.MoveToBack | src/main/java/com/kerem/ForgettingMap.java:108-109 | remove followed by append ends the list with the key, keeps its length when the key was listed and grows it by one otherwise |
| RecencyList.Without | src/main/java/com/kerem/ForgettingMap.java:108 | removing an absent key changes nothing, and removing a present key shortens the list by one |
| RecencyList.WithoutMultiset | src/main/java/com/kerem/ForgettingMap.java:127 | remove(Object) takes away one occurrence of the key and nothing else |
| RecencyList.WithoutAt | src/main/java/com/kerem/ForgettingMap.java:127 | remove(Object) cuts out the first occurrence of the key, at its position |
| RecencyList.MoveToBackNoDup | src/main/java/com/kerem/ForgettingMap.java:108-109 | remove followed by append keeps a list free of repeats |
| RecencyList.MoveToBackPermutes | src/main/java/com/kerem/ForgettingMap.java:108-109 | remove followed by append of a listed key permutes the list |
| RecencyList.MoveToBackOfLast | src/main/java/com/kerem/ForgettingMap.java:123-125 | moving the tail to the tail leaves the list unchanged |
| RecencyList.WithoutMoveToBack | src/main/java/com/kerem/ForgettingMap.java:108-109 | moving a key to the tail keeps the relative order of all other keys |
| RecencyList.Contains | src/main/java/com/kerem/ForgettingMap.java:76 | the list scan answers true exactly when the key is in the list |
| RecencyList.Remove | src/main/java/com/kerem/ForgettingMap.java:127 | the list scan that unlinks the first occurrence yields exactly the list Without describes |
| Lru.Step | src/main/java/com/kerem/ForgettingMap.java:54-80 | every add or find call keeps the invariant and the capacity |
| Lru.Run | src/main/java/com/kerem/ForgettingMap.java:54-80 | a run of calls answers each call and keeps the invariant and the capacity |
| Lru.LastUsesKeys | src/main/java/com/kerem/ForgettingMap.java:121-132 | the reference order holds exactly the keys of the history of uses |
| Lru.LastUsesNoDup | src/main/java/com/kerem/ForgettingMap.java:121-132 | the reference order lists no key twice |
| Lru.LastUsesSnoc | src/main/java/com/kerem/ForgettingMap.java:107-109 | one more use of a key moves it to the back of the reference order, as remove-then-append does |
| Lru.EvictionFollowsLru | src/main/java/com/kerem/ForgettingMap.java:128-131 | when the policy's list is full and the key is not in it, dropping the head and appending the key gives the policy's next list |
| Lru.PutFollowsLru | src/main/java/com/kerem/ForgettingMap.java:121-132 | a write on a list that equals the policy's list of the history gives the policy's list of the history extended by the written key |
| Lru.GetFollowsLru | src/main/java/com/kerem/ForgettingMap.java:107-111 | a successful find on a list that equals the policy's list gives the policy's list of the history extended by the key read |
| Lru.StepFollowsLru | src/main/java/com/kerem/ForgettingMap.java:54-80 | every call, refused or not, keeps the list equal to the policy's list of its uses |
| Lru.RunFollowsLru | src/main/java/com/kerem/ForgettingMap.java:54-80 | along any run of calls the recency list stays the policy's list: the capacity keys used last, ordered by last use |
| Lru.RunEntries | src/main/java/com/kerem/ForgettingMap.java:122 | after any run the map holds the starting values overwritten by the values the run wrote, last write winning |
| Lru.UsesFromCalls | src/main/java/com/kerem/ForgettingMap.java:54-80 | when the list equals the policy's list of a history, the uses a run reads from its states are the uses the policy assigns to its calls from that history |
| Lru.BehavesAsLruCache | src/main/java/com/kerem/ForgettingMap.java:36-132 | from a new map, after any run, the list is the capacity keys used last, and a find of a key answers the value last written exactly when the key is among them and KeyNotFound otherwise; the uses are the ones the policy alone assigns to the calls |
| Lru.PutSameListed | src/main/java/com/kerem/ForgettingMap.java:121-132 | two states that differ only in values kept for unlisted keys still differ only in those after the same write |
| Lru.GetSameListed | src/main/java/com/kerem/ForgettingMap.java:107-111 | two such states answer a successful find alike and stay alike |
| Lru.StaleEntriesUnobservable | src/main/java/com/kerem/ForgettingMap.java:54-80 | values the map keeps for evicted keys are never observable: any call answers the same on states that agree on the listed keys, and the states still agree afterwards |
| Scenarios.KeyFound | src/test/java/com/kerem/ForgettingMapTest.java:14-25 | three keys added to a map of capacity three are each found with their values, and the size is three |
| Scenarios.KeyFoundMultipleTimes | src/test/java/com/kerem/ForgettingMapTest.java:27-38 | re-adding one key replaces its value each time, each find returns the latest value, and the size stays one |
| Scenarios.MoreThanCapacityFirst | src/test/java/com/kerem/ForgettingMapTest.java:42-47 | after adding a and b, finding b and adding c, the size is three and the state is written out |
| Scenarios.MoreThanCapacitySecond | src/test/java/com/kerem/ForgettingMapTest.java:48-52 | re-adding b keeps the size at three; b, a and c are then found with values 4, 1 and 3 |
| Scenarios.MoreThanCapacityThird | src/test/java/com/kerem/ForgettingMapTest.java:53-56 | adding d evicts b, the least recently used, so b is not found while c and d are |
| Scenarios.MoreThanCapacityFourth | src/test/java/com/kerem/ForgettingMapTest.java:57-61 | re-adding b evicts a, so a is not found, b is found with its new value, and capacity and size are three |
| Scenarios.CapacityOneScenario | src/test/java/com/kerem/ForgettingMapTest.java:64-77 | with capacity one each new key evicts the previous one, which is then not found, while the size stays one and the evicted value stays in the map |
| Scenarios.MapOutgrowsCapacity | src/main/java/com/kerem/ForgettingMap.java:122-131 | with capacity one, two adds of distinct keys leave one listed key but two keys in the map |
| Scenarios.ExpiredKeySearched | src/test/java/com/kerem/ForgettingMapTest.java:79-91 | the fourth key evicts the first, which is not found; the other three are found, and the size is three |
| Scenarios.AddDistinctKeys | src/main/java/com/kerem/ForgettingMap.java:121-132 | adds of keys, distinct from each other and from those listed, list the last capacity keys of the old list extended by the new keys, oldest first |
| Scenarios.AddAllEntries | src/main/java/com/kerem/ForgettingMap.java:121-122 | after adds of distinct keys every key written holds the value written for it, and every other key keeps its value |
| Scenarios.EvictionOrder | src/main/java/com/kerem/ForgettingMap.java:121-132 | after adds of distinct keys to a new map of capacity n, for any n and any number of keys: a key written more than n adds ago is not found, the last n are found with their values, a key never written is not found, and the size is the smaller of n and the number of adds |
| Scenarios.OldValuesRemovedFill | src/test/java/com/kerem/ForgettingMapTest.java:95-103 | n distinct adds to a new map of capacity n grow the size by one each; finding the keys in the order written answers each value and gives back the same state, listing the keys in that order |
| Scenarios.OldValuesRemovedReplace | src/test/java/com/kerem/ForgettingMapTest.java:105-115 | from that full map, n adds of new distinct keys keep the size at n; every earlier key is then not found, and the new keys are found in the order written with their values, leaving them listed in that order |
| Scenarios.OldValuesRemovedReAdd | src/test/java/com/kerem/ForgettingMapTest.java:117-129 | from a full map listing ks2, re-adding m keys not listed there: they are found with their new values, the keys of ks2 from position m on are found with theirs, and the first m keys of ks2 are not found |
| Scenarios.OldValuesRemoved | src/test/java/com/kerem/ForgettingMapTest.java:93-130 | the whole test for any capacity n: after n adds, the finds of them, n adds of other keys and the finds of both batches, re-adding the first m keys with their values gives the answers of its last three loops |
| Scenarios.ErrorScenarios | src/test/java/com/kerem/ForgettingMapTest.java:132-164 | on a new map of capacity three, a find of an absent key gives KeyNotFound, a find of null KeyNull, an add with a null key KeyNull and with a null value ValueNull; capacities -1 and 0 give NotInitialized |
| Scenarios.AddAll | src/test/java/com/kerem/ForgettingMapTest.java:96-99 | a loop of adds, as in this one and at lines 105-108 and 117-119, keeps the invariant and the capacity |
| Scenarios.FindAll | src/main/java/com/kerem/ForgettingMap.java:72-80 | a loop of finds answers once per key, keeps the invariant, the capacity and the map |
| Scenarios.FindAllListed | src/main/java/com/kerem/ForgettingMap.java:107-111 | finding every listed key in list order answers each stored value and gives back the same state |
| Scenarios.FindBlockAll | src/main/java/com/kerem/ForgettingMap.java:107-111 | finding a block t of a list p + t + q, in order, answers the stored values and leaves the list p + q + t |
| Scenarios.FindAbsent | src/main/java/com/kerem/ForgettingMap.java:76-79 | finding keys none of which is listed answers KeyNotFound each time and changes nothing |
| Scenarios.ReadRefreshes | src/main/java/com/kerem/ForgettingMap.java:107-131 | in a full map, reading the oldest key and then writing a new one evicts the second oldest; the key read and the key written are both found |
| Scenarios.FindHeadThenAdd | src/main/java/com/kerem/ForgettingMap.java:107-131 | on a full list, a find of the head followed by a write of a new key drops exactly the second oldest key |

## Left out

- Thread safety is not modelled: `synchronized` on `find`, `getSize` and the
  private write, and the thread test `ForgettingMapThreadTest`. The model is
  sequential. `add` itself is not `synchronized`; only the private method it
  calls is.
- `HashMap` hashing, and `equals`/`hashCode` on keys, are replaced by Dafny
  equality on `K`. The `HashMap` is a Dafny `map` and the `LinkedList` a
  `seq`. The O(1) costs in the source comments are not modelled.
- The exception classes under `com.kerem.exception` are not part of this
  model. Each is one constructor of `Error`, and a throw is an `Err`/`Fail`
  result.
- The width of Java `int` is not modelled for the capacity and the size.
  They are only compared, never computed with, and the size never exceeds
  the capacity.
- `ForgettingMaps.FindStep` and `ForgettingMaps.Get`: their own contracts
  give only the size of the new list, not that it is a permutation of the
  old one. The permutation is proved separately, by
  `ForgettingMaps.FindPermutes`.
