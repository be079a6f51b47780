/** What ForgettingMap promises over whole runs of calls: its recency list is
    always the `capacity` keys used last, ordered by last use (the least
    recently used policy), a find answers with the value last written, and
    the values the map keeps for evicted keys are never observable. */
module Lru {
  import opened Exceptions
  import opened RecencyList
  import opened ForgettingMaps

  /** A call a client makes on a ForgettingMap. */
  datatype Call<K, V> = AddCall(key: Option<K>, value: Option<V>) | FindCall(key: Option<K>)

  /** The answer to a call: add returns nothing or throws, find returns a value
      or throws. */
  datatype Reply<V> = Added(outcome: Outcome) | Found(result: Result<V>)

  function Step<K(==), V>(c: Cache<K, V>, call: Call<K, V>): (r: (Reply<V>, Cache<K, V>))
    requires c.Valid()
    ensures r.1.Valid() && r.1.capacity == c.capacity
  {
    match call
    case AddCall(key, value) =>
      var (o, c') := AddStep(c, key, value);
      (Added(o), c')
    case FindCall(key) =>
      var (o, c') := FindStep(c, key);
      (Found(o), c')
  }

  /** The key a call uses: a successful add or find, and nothing else. */
  function Used<K(==), V>(c: Cache<K, V>, call: Call<K, V>): seq<K> {
    match call
    case AddCall(key, value) => if key.Some? && value.Some? then [key.value] else []
    case FindCall(key) => if key.Some? && key.value in c.recency then [key.value] else []
  }

  /** The calls applied one after the other: the replies and the last state. */
  function Run<K(==), V>(c: Cache<K, V>, calls: seq<Call<K, V>>): (r: (seq<Reply<V>>, Cache<K, V>))
    requires c.Valid()
    ensures r.1.Valid() && r.1.capacity == c.capacity && |r.0| == |calls|
    decreases |calls|
  {
    if calls == [] then ([], c)
    else
      var first := Step(c, calls[0]);
      var rest := Run(first.1, calls[1..]);
      ([first.0] + rest.0, rest.1)
  }

  /** The keys a run uses, in the order of use. */
  function Uses<K(==), V>(c: Cache<K, V>, calls: seq<Call<K, V>>): seq<K>
    requires c.Valid()
    decreases |calls|
  {
    if calls == [] then []
    else Used(c, calls[0]) + Uses(Step(c, calls[0]).1, calls[1..])
  }

  /** The values a run writes, the last write of a key winning. Whether an add
      writes depends on its arguments only. */
  function Writes<K(==), V>(calls: seq<Call<K, V>>): map<K, V> {
    if calls == [] then map[] else Written(calls[0]) + Writes(calls[1..])
  }

  /** What one call writes: a successful add writes its key and value. */
  function Written<K(==), V>(call: Call<K, V>): map<K, V> {
    match call
    case AddCall(key, value) =>
      if key.Some? && value.Some? then map[key.value := value.value] else map[]
    case FindCall(_) => map[]
  }

  /** The reference order: every key of a history of uses once, at its last
      use, oldest first. */
  function LastUses<K(==)>(h: seq<K>): seq<K> {
    if h == [] then []
    else if h[0] in h[1..] then LastUses(h[1..])
    else [h[0]] + LastUses(h[1..])
  }

  /** The reference order holds exactly the keys of the history. */
  lemma {:induction false} LastUsesKeys<K>(h: seq<K>)
    ensures forall x :: x in LastUses(h) ==> x in h
    ensures forall x :: x in h ==> x in LastUses(h)
  {
    if h != [] {
      LastUsesKeys(h[1..]);
      assert forall x :: x in h ==> x == h[0] || x in h[1..];
    }
  }

  /** The reference order lists no key twice. */
  lemma {:induction false} LastUsesNoDup<K>(h: seq<K>)
    ensures NoDup(LastUses(h))
  {
    if h != [] {
      LastUsesNoDup(h[1..]);
      if h[0] !in h[1..] {
        LastUsesKeys(h[1..]);
        NoDupCons(h[0], LastUses(h[1..]));
      }
    }
  }

  /** The last n elements of s, or all of s if it is shorter. */
  function Suffix<K>(s: seq<K>, n: nat): seq<K> {
    if |s| <= n then s else s[|s| - n..]
  }

  /** The least recently used policy: what a cache of capacity n lists after
      the uses h, namely the n keys used last, ordered by last use. */
  function Recent<K(==)>(h: seq<K>, n: nat): seq<K> {
    Suffix(LastUses(h), n)
  }

  /** One more use moves the key to the back of the reference order. */
  lemma {:induction false} LastUsesSnoc<K>(h: seq<K>, k: K)
    ensures LastUses(h + [k]) == MoveToBack(LastUses(h), k)
  {
    if h == [] {
      assert [] + [k] == [k];
      assert LastUses([k]) == [k] by {
        assert [k][1..] == [];
      }
    } else {
      var t := h[1..];
      assert (h + [k])[0] == h[0] && (h + [k])[1..] == t + [k];
      LastUsesSnoc(t, k);
      if h[0] in t {
        SnocAfterRepeat(h, k);
      } else if h[0] == k {
        LastUsesKeys(t);
        SnocAfterSameKey(h, k);
      } else {
        SnocAfterOtherKey(h, k);
      }
    }
  }

  /** The step of LastUsesSnoc when the first use is repeated later. */
  lemma SnocAfterRepeat<K>(h: seq<K>, k: K)
    requires |h| > 0 && h[0] in h[1..] && (h + [k])[1..] == h[1..] + [k]
    requires LastUses(h[1..] + [k]) == MoveToBack(LastUses(h[1..]), k)
    ensures LastUses(h + [k]) == MoveToBack(LastUses(h), k)
  {
    assert h[0] in h[1..] + [k];
  }

  /** The step of LastUsesSnoc when the first use is of k itself and k is not
      used again. */
  lemma SnocAfterSameKey<K>(h: seq<K>, k: K)
    requires |h| > 0 && h[0] == k && k !in h[1..] && k !in LastUses(h[1..])
    requires (h + [k])[1..] == h[1..] + [k]
    requires LastUses(h[1..] + [k]) == MoveToBack(LastUses(h[1..]), k)
    ensures LastUses(h + [k]) == MoveToBack(LastUses(h), k)
  {
    var u := LastUses(h[1..]);
    assert k in h[1..] + [k];
    assert LastUses(h + [k]) == LastUses(h[1..] + [k]);
    assert Without(u, k) == u;
    assert LastUses(h) == [k] + u;
    assert ([k] + u)[1..] == u;
    assert Without([k] + u, k) == u;
  }

  /** The step of LastUsesSnoc when the first use is of another key, not used
      again. */
  lemma SnocAfterOtherKey<K>(h: seq<K>, k: K)
    requires |h| > 0 && h[0] != k && h[0] !in h[1..]
    requires (h + [k])[1..] == h[1..] + [k]
    requires LastUses(h[1..] + [k]) == MoveToBack(LastUses(h[1..]), k)
    ensures LastUses(h + [k]) == MoveToBack(LastUses(h), k)
  {
    var a, u := h[0], LastUses(h[1..]);
    assert a !in h[1..] + [k];
    assert LastUses(h + [k]) == [a] + LastUses(h[1..] + [k]);
    assert LastUses(h) == [a] + u;
    assert ([a] + u)[1..] == u;
    assert Without([a] + u, k) == [a] + Without(u, k);
    ConcatAssoc([a], Without(u, k), [k]);
  }

  /** Removing the first occurrence of k, when it lies in the prefix of
      length d, leaves everything after that prefix in place, one earlier. */
  lemma {:induction false} WithoutInPrefix<K>(s: seq<K>, k: K, d: nat)
    requires d <= |s| && k in s[..d]
    ensures d >= 1 && Without(s, k)[d - 1..] == s[d..]
  {
    var t := s[1..];
    assert s == [s[0]] + t;
    assert s[..d] == [s[0]] + t[..d - 1];
    assert ([s[0]] + t)[d..] == t[d - 1..];
    if s[0] == k {
      assert Without(s, k) == t;
    } else {
      assert k in t[..d - 1];
      WithoutInPrefix(t, k, d - 1);
      assert Without(s, k) == [s[0]] + Without(t, k);
      assert ([s[0]] + Without(t, k))[d - 1..] == Without(t, k)[d - 2..];
    }
  }

  /** Removing the first occurrence of k commutes with dropping a prefix of
      length d that does not hold k. */
  lemma {:induction false} WithoutAfterPrefix<K>(s: seq<K>, k: K, d: nat)
    requires d <= |s| && k !in s[..d]
    ensures Without(s, k)[d..] == Without(s[d..], k)
  {
    if d > 0 {
      var t := s[1..];
      assert s == [s[0]] + t;
      assert s[..d] == [s[0]] + t[..d - 1];
      assert ([s[0]] + t)[d..] == t[d - 1..];
      assert k !in t[..d - 1];
      WithoutAfterPrefix(t, k, d - 1);
      assert Without(s, k) == [s[0]] + Without(t, k);
      assert ([s[0]] + Without(t, k))[d..] == Without(t, k)[d - 1..];
    }
  }

  /** The last n elements are what remains after dropping the others. */
  lemma SuffixIsDrop<K>(s: seq<K>, n: nat)
    ensures |Suffix(s, n)| <= n && |Suffix(s, n)| <= |s|
    ensures Suffix(s, n) == s[|s| - |Suffix(s, n)|..]
    ensures |Suffix(s, n)| < n ==> Suffix(s, n) == s
  {
  }

  /** In a duplicate-free list nothing before position d equals an element
      at or after it. */
  lemma NoDupSplit<K>(s: seq<K>, d: nat, j: nat)
    requires NoDup(s) && d <= j < |s|
    ensures s[j] !in s[..d]
  {
    forall i | 0 <= i < d ensures s[..d][i] != s[j] {
      assert s[..d][i] == s[i];
    }
  }

  /** Moving k to the back commutes with dropping a prefix of length d
      that does not hold k, when k occurs after it. */
  lemma MoveToBackDrop<K>(s: seq<K>, k: K, d: nat, j: nat)
    requires d <= j < |s| && s[j] == k && k !in s[..d]
    ensures MoveToBack(s, k)[d..] == MoveToBack(s[d..], k)
  {
    WithoutAfterPrefix(s, k, d);
    var w := Without(s, k);
    assert k in s;
    assert |w| == |s| - 1;
    assert (w + [k])[d..] == w[d..] + [k];
  }

  /** A position of k at or after d, when k occurs in s[d..]. */
  lemma PositionAfter<K>(s: seq<K>, k: K, d: nat) returns (j: nat)
    requires d <= |s| && k in s[d..]
    ensures d <= j < |s| && s[j] == k
  {
    var i :| 0 <= i < |s[d..]| && s[d..][i] == k;
    j := d + i;
  }

  /** Two lists of the same length lose the same prefix to Suffix. */
  lemma SuffixSameLength<K>(s: seq<K>, m: seq<K>, n: nat)
    requires |m| == |s|
    ensures Suffix(m, n) == m[|s| - |Suffix(s, n)|..]
  {
  }

  /** The last n of an order in which k occurs only after the others, moved
      to the back. */
  lemma SuffixMoveToBack<K>(s: seq<K>, k: K, n: nat, j: nat)
    requires |s| - |Suffix(s, n)| <= j < |s| && s[j] == k
    requires k !in s[..|s| - |Suffix(s, n)|]
    ensures Suffix(MoveToBack(s, k), n) == MoveToBack(Suffix(s, n), k)
  {
    var d := |s| - |Suffix(s, n)|;
    var m := MoveToBack(s, k);
    assert |m| == |s| by {
      assert k in s;
    }
    SuffixSameLength(s, m, n);
    MoveToBackDrop(s, k, d, j);
    SuffixIsDrop(s, n);
  }

  /** In a duplicate-free order, a key found among the last n is moved to the
      back of those n exactly as it is moved in the whole order. */
  lemma MoveToBackOfSuffix<K>(s: seq<K>, k: K, n: nat)
    requires NoDup(s) && k in Suffix(s, n)
    ensures Suffix(MoveToBack(s, k), n) == MoveToBack(Suffix(s, n), k)
  {
    SuffixIsDrop(s, n);
    var d := |s| - |Suffix(s, n)|;
    var j := PositionAfter(s, k, d);
    NoDupSplit(s, d, j);
    SuffixMoveToBack(s, k, n, j);
  }

  /** An unlisted key written into a full list: the head of the last n is
      dropped and the key appended. */
  lemma EvictionFollowsLru<K>(s: seq<K>, k: K, n: nat)
    requires n >= 1 && k !in Suffix(s, n) && |Suffix(s, n)| == n
    ensures Suffix(MoveToBack(s, k), n) == Suffix(s, n)[1..] + [k]
  {
    SuffixIsDrop(s, n);
    if k in s {
      EvictionOfOlderKey(s, k, |s| - n);
    } else {
      EvictionOfNewKey(s, k, |s| - n);
    }
  }

  /** EvictionFollowsLru for a key used before the last n. */
  lemma EvictionOfOlderKey<K>(s: seq<K>, k: K, d: nat)
    requires d < |s| && k in s && k !in s[d..]
    ensures MoveToBack(s, k)[d..] == s[d..][1..] + [k]
  {
    assert s == s[..d] + s[d..];
    assert k in s[..d];
    WithoutInPrefix(s, k, d);
    var w := Without(s, k);
    assert (w + [k])[d..] == w[d..] + [k];
    assert w[d..] == w[d - 1..][1..];
  }

  /** EvictionFollowsLru for a key never used. */
  lemma EvictionOfNewKey<K>(s: seq<K>, k: K, d: nat)
    requires d < |s| && k !in s
    ensures MoveToBack(s, k)[d + 1..] == s[d..][1..] + [k]
  {
    assert Without(s, k) == s;
    assert (s + [k])[d + 1..] == s[d + 1..] + [k];
  }

  /** An unlisted key written into a list with room is appended. */
  lemma AppendFollowsLru<K>(s: seq<K>, k: K, n: nat)
    requires k !in Suffix(s, n) && |Suffix(s, n)| < n
    ensures Suffix(MoveToBack(s, k), n) == Suffix(s, n) + [k]
  {
    SuffixIsDrop(s, n);
    assert Without(s, k) == s;
  }

  /** add(k, v) on a list that follows the policy gives one that still does. */
  lemma PutFollowsLru<K, V>(c: Cache<K, V>, h: seq<K>, k: K, v: V)
    requires c.Valid() && c.recency == Recent(h, c.capacity)
    ensures Put(c, k, v).recency == Recent(h + [k], c.capacity)
  {
    var s, n, r := LastUses(h), c.capacity, c.recency;
    LastUsesNoDup(h);
    LastUsesSnoc(h, k);
    if k in r {
      MoveToBackOfSuffix(s, k, n);
      if Last(r) == k {
        MoveToBackOfLast(r, k);
      }
    } else if |r| >= n {
      EvictionFollowsLru(s, k, n);
    } else {
      AppendFollowsLru(s, k, n);
    }
  }

  /** A successful find on a list that follows the policy gives one that
      still does. */
  lemma GetFollowsLru<K, V>(c: Cache<K, V>, h: seq<K>, k: K)
    requires c.Valid() && k in c.recency && c.recency == Recent(h, c.capacity)
    ensures Get(c, k).1.recency == Recent(h + [k], c.capacity)
  {
    LastUsesNoDup(h);
    LastUsesSnoc(h, k);
    MoveToBackOfSuffix(LastUses(h), k, c.capacity);
  }

  lemma StepFollowsLru<K, V>(c: Cache<K, V>, h: seq<K>, call: Call<K, V>)
    requires c.Valid() && c.recency == Recent(h, c.capacity)
    ensures Step(c, call).1.recency == Recent(h + Used(c, call), c.capacity)
  {
    match call
    case AddCall(key, value) =>
      if key.Some? && value.Some? {
        PutFollowsLru(c, h, key.value, value.value);
      } else {
        assert h + [] == h;
      }
    case FindCall(key) =>
      if key.Some? && key.value in c.recency {
        GetFollowsLru(c, h, key.value);
      } else {
        assert h + [] == h;
      }
  }

  /** Concatenation is associative; stated apart so that the proofs that use
      it do not search for it among their other facts. */
  lemma ConcatAssoc<K>(a: seq<K>, b: seq<K>, c: seq<K>)
    ensures a + b + c == a + (b + c)
  {
  }

  /** Every run keeps the recency list equal to the policy's list. */
  lemma {:induction false} RunFollowsLru<K, V>(c: Cache<K, V>, h: seq<K>, calls: seq<Call<K, V>>)
    requires c.Valid() && c.recency == Recent(h, c.capacity)
    ensures Run(c, calls).1.recency == Recent(h + Uses(c, calls), c.capacity)
    decreases |calls|
  {
    if calls == [] {
      assert h + [] == h;
    } else {
      var c1 := Step(c, calls[0]).1;
      var used, later := Used(c, calls[0]), Uses(c1, calls[1..]);
      assert Run(c, calls).1 == Run(c1, calls[1..]).1;
      assert Uses(c, calls) == used + later;
      StepFollowsLru(c, h, calls[0]);
      RunFollowsLru(c1, h + used, calls[1..]);
      ConcatAssoc(h, used, later);
    }
  }

  /** Map union is associative; stated apart for the same reason. */
  lemma UnionAssoc<K, V>(a: map<K, V>, b: map<K, V>, c: map<K, V>)
    ensures (a + b) + c == a + (b + c)
  {
  }

  /** Every run stores in the map the values it writes on top of those it
      started with. */
  lemma {:induction false} RunEntries<K, V>(c: Cache<K, V>, calls: seq<Call<K, V>>)
    requires c.Valid()
    ensures Run(c, calls).1.entries == c.entries + Writes(calls)
    decreases |calls|
  {
    if calls == [] {
      assert c.entries + map[] == c.entries;
    } else {
      var c1 := Step(c, calls[0]).1;
      assert c1.entries == c.entries + Written(calls[0]);
      RunEntries(c1, calls[1..]);
      assert Run(c, calls).1 == Run(c1, calls[1..]).1;
      assert Writes(calls) == Written(calls[0]) + Writes(calls[1..]);
      UnionAssoc(c.entries, Written(calls[0]), Writes(calls[1..]));
    }
  }

  /** What a call uses, decided from the call and the keys the policy lists
      before it: an add with both arguments present uses its key, and a find
      uses its key when that key is listed. */
  function PolicyUsed<K(==), V>(listed: seq<K>, call: Call<K, V>): seq<K> {
    match call
    case AddCall(key, value) => if key.Some? && value.Some? then [key.value] else []
    case FindCall(key) => if key.Some? && key.value in listed then [key.value] else []
  }

  /** The keys a run of calls uses, read from the calls and the policy alone,
      starting from the history h, for a cache of capacity n. */
  function PolicyUses<K(==), V>(h: seq<K>, n: nat, calls: seq<Call<K, V>>): seq<K>
    decreases |calls|
  {
    if calls == [] then []
    else
      var u := PolicyUsed(Recent(h, n), calls[0]);
      u + PolicyUses(h + u, n, calls[1..])
  }

  /** The uses a run reads from the states it passes through are the uses the
      policy alone assigns to its calls. */
  lemma {:induction false} UsesFromCalls<K, V>(c: Cache<K, V>, h: seq<K>, calls: seq<Call<K, V>>)
    requires c.Valid() && c.recency == Recent(h, c.capacity)
    ensures Uses(c, calls) == PolicyUses(h, c.capacity, calls)
    decreases |calls|
  {
    if calls != [] {
      var u := Used(c, calls[0]);
      assert u == PolicyUsed(Recent(h, c.capacity), calls[0]);
      StepFollowsLru(c, h, calls[0]);
      UsesFromCalls(Step(c, calls[0]).1, h + u, calls[1..]);
    }
  }

  /** A map made by new ForgettingMap(n) and then the calls behaves as a least
      recently used cache: it lists exactly the n keys used last, and a find of
      a key answers with the value last written for it when the key is among
      them, and with KeyNotFound otherwise. */
  lemma BehavesAsLruCache<K, V>(n: int, calls: seq<Call<K, V>>, k: K)
    requires n >= 1
    ensures Run(Init<K, V>(n).value, calls).1.recency == Recent(Uses(Init<K, V>(n).value, calls), n)
    ensures k in Recent(Uses(Init<K, V>(n).value, calls), n) ==>
      k in Writes(calls) && FindStep(Run(Init<K, V>(n).value, calls).1, Some(k)).0 == Ok(Writes(calls)[k])
    ensures k !in Recent(Uses(Init<K, V>(n).value, calls), n) ==>
      FindStep(Run(Init<K, V>(n).value, calls).1, Some(k)).0 == Err(KeyNotFound)
    ensures Uses(Init<K, V>(n).value, calls) == PolicyUses([], n, calls)
  {
    var c := Init<K, V>(n).value;
    RunFollowsLru(c, [], calls);
    RunEntries(c, calls);
    assert [] + Uses(c, calls) == Uses(c, calls) && map[] + Writes(calls) == Writes(calls);
    FindOnListed(Run(c, calls).1, k);
    UsesFromCalls(c, [], calls);
  }

  /** Two states that list the same keys, with the same values for them, and
      have the same capacity; they may differ in stale map entries. */
  ghost predicate SameListed<K, V>(c: Cache<K, V>, d: Cache<K, V>) {
    && c.capacity == d.capacity
    && c.recency == d.recency
    && forall k :: k in c.recency ==> k in c.entries && k in d.entries && c.entries[k] == d.entries[k]
  }

  /** A write of stale-equivalent states answers alike and keeps them
      equivalent. */
  lemma PutSameListed<K, V>(c: Cache<K, V>, d: Cache<K, V>, k: K, v: V)
    requires c.Valid() && d.Valid() && SameListed(c, d)
    ensures SameListed(Put(c, k, v), Put(d, k, v))
  {
    var c', d' := Put(c, k, v), Put(d, k, v);
    assert c'.recency == d'.recency;
    forall x | x in c'.recency
      ensures x in c'.entries && x in d'.entries && c'.entries[x] == d'.entries[x]
    {
      assert x in c.recency || x == k;
    }
  }

  /** A successful find of stale-equivalent states answers alike and keeps
      them equivalent. */
  lemma GetSameListed<K, V>(c: Cache<K, V>, d: Cache<K, V>, k: K)
    requires c.Valid() && d.Valid() && SameListed(c, d) && k in c.recency
    ensures Get(c, k).0 == Get(d, k).0
    ensures SameListed(Get(c, k).1, Get(d, k).1)
  {
    MoveToBackNoDup(c.recency, k);
  }

  /** The values the map keeps for evicted keys are never observable: states
      that agree on the listed keys answer every call alike and still agree
      afterwards. */
  lemma StaleEntriesUnobservable<K, V>(c: Cache<K, V>, d: Cache<K, V>, call: Call<K, V>)
    requires c.Valid() && d.Valid() && SameListed(c, d)
    ensures Step(c, call).0 == Step(d, call).0
    ensures SameListed(Step(c, call).1, Step(d, call).1)
  {
    match call
    case AddCall(key, value) =>
      if key.Some? && value.Some? {
        PutSameListed(c, d, key.value, value.value);
      }
    case FindCall(key) =>
      if key.Some? && key.value in c.recency {
        GetSameListed(c, d, key.value);
      }
  }
}
