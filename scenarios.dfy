/** The scenarios of ForgettingMapTest, replayed on the model. Each scenario
    lemma runs the calls of one test from a new map, for any distinct keys,
    and states the answers the test expects; the step lemmas before them say
    what one add or find does to a state written out in full. The test that
    loops over many keys is stated, through AddAll and FindAll, for any
    capacity n, with batches of n distinct keys and any m <= n keys re-added;
    EvictionOrder covers any number of distinct adds. */
module Scenarios {
  import opened Exceptions
  import opened RecencyList
  import opened ForgettingMaps
  import opened Lru

  /** Adding an unlisted key while there is room appends it. */
  lemma AddNew<K, V>(c: Cache<K, V>, k: K, v: V, s: seq<K>)
    requires c.Valid() && k !in c.recency && c.Size() < c.capacity
    requires s == c.recency + [k]
    ensures AddStep(c, Some(k), Some(v)) == (Pass, Cache(c.capacity, c.entries[k := v], s))
  {
    PutNewKeyWithRoom(c, k, v);
  }

  /** Adding an unlisted key into a full list drops the head and appends it. */
  lemma AddEvicting<K, V>(c: Cache<K, V>, k: K, v: V, s: seq<K>)
    requires c.Valid() && k !in c.recency && c.Size() == c.capacity
    requires s == c.recency[1..] + [k]
    ensures AddStep(c, Some(k), Some(v)) == (Pass, Cache(c.capacity, c.entries[k := v], s))
  {
    PutNewKeyWhenFull(c, k, v);
  }

  /** Moving the key at position i to the tail cuts it out of its place. */
  lemma CutAt<K>(s: seq<K>, k: K, i: nat)
    requires NoDup(s) && i < |s| && s[i] == k
    ensures MoveToBack(s, k) == s[..i] + s[i + 1..] + [k]
  {
    assert k !in s[..i];
    WithoutAt(s, k, i);
  }

  /** Adding the tail only stores the value. */
  lemma AddTail<K, V>(c: Cache<K, V>, k: K, v: V)
    requires c.Valid() && |c.recency| > 0 && Last(c.recency) == k
    ensures AddStep(c, Some(k), Some(v)) == (Pass, Cache(c.capacity, c.entries[k := v], c.recency))
  {
  }

  /** Adding the key at position i, before the tail, moves it to the tail. */
  lemma AddAt<K, V>(c: Cache<K, V>, k: K, v: V, i: nat, s: seq<K>)
    requires c.Valid() && i + 1 < |c.recency| && c.recency[i] == k
    requires s == c.recency[..i] + c.recency[i + 1..] + [k]
    ensures AddStep(c, Some(k), Some(v)) == (Pass, Cache(c.capacity, c.entries[k := v], s))
  {
    CutAt(c.recency, k, i);
  }

  /** Finding the tail returns its value and changes nothing. */
  lemma FindTail<K, V>(c: Cache<K, V>, k: K)
    requires c.Valid() && |c.recency| > 0 && Last(c.recency) == k
    ensures FindStep(c, Some(k)) == (Ok(c.entries[k]), c)
  {
    MoveToBackOfLast(c.recency, k);
  }

  /** Finding the head returns its value and moves it to the tail. */
  lemma FindHead<K, V>(c: Cache<K, V>, k: K, s: seq<K>)
    requires c.Valid() && |c.recency| > 0 && c.recency[0] == k && s == c.recency[1..] + [k]
    ensures FindStep(c, Some(k)) == (Ok(c.entries[k]), Cache(c.capacity, c.entries, s))
  {
    WithoutAt(c.recency, k, 0);
    assert Without(c.recency, k) == c.recency[1..];
  }

  /** Finding the key at position i returns its value and moves it to the tail. */
  lemma FindAt<K, V>(c: Cache<K, V>, k: K, i: nat, s: seq<K>)
    requires c.Valid() && i < |c.recency| && c.recency[i] == k
    requires s == c.recency[..i] + c.recency[i + 1..] + [k]
    ensures FindStep(c, Some(k)) == (Ok(c.entries[k]), Cache(c.capacity, c.entries, s))
  {
    CutAt(c.recency, k, i);
  }

  /** find_shouldReturnValue_whenKeyFoundInForgettingMap: three keys added to
      a map of capacity three are all found, and the size reaches three. */
  lemma KeyFound<K, V>(a: K, b: K, c: K, x: V, y: V, z: V)
    requires a != b && b != c && a != c
    ensures var c0 := Init<K, V>(3).value;
            var c1 := AddStep(c0, Some(a), Some(x)).1;
            var c2 := AddStep(c1, Some(b), Some(y)).1;
            var c3 := AddStep(c2, Some(c), Some(z)).1;
            var (r1, c4) := FindStep(c3, Some(a));
            var (r2, c5) := FindStep(c4, Some(b));
            var (r3, c6) := FindStep(c5, Some(c));
            [r1, r2, r3] == [Ok(x), Ok(y), Ok(z)] && c6.capacity == 3 && c6.Size() == 3
  {
    var e := map[a := x, b := y, c := z];
    AddNew(Init<K, V>(3).value, a, x, [a]);
    AddNew(Cache(3, map[a := x], [a]), b, y, [a, b]);
    AddNew(Cache(3, map[a := x, b := y], [a, b]), c, z, [a, b, c]);
    FindHead(Cache(3, e, [a, b, c]), a, [b, c, a]);
    FindHead(Cache(3, e, [b, c, a]), b, [c, a, b]);
    FindHead(Cache(3, e, [c, a, b]), c, [a, b, c]);
  }

  /** find_shouldReturnValue_whenKeyFoundInForgettingMapMultipleTimes: adding
      the same key again replaces its value and keeps the size at one. */
  lemma KeyFoundMultipleTimes<K, V>(a: K, x: V, y: V, z: V)
    ensures var c0 := Init<K, V>(3).value;
            var c1 := AddStep(c0, Some(a), Some(x)).1;
            var (r1, c2) := FindStep(c1, Some(a));
            var c3 := AddStep(c2, Some(a), Some(y)).1;
            var (r2, c4) := FindStep(c3, Some(a));
            var c5 := AddStep(c4, Some(a), Some(z)).1;
            var (r3, c6) := FindStep(c5, Some(a));
            [r1, r2, r3] == [Ok(x), Ok(y), Ok(z)] && c6.capacity == 3 && c6.Size() == 1
  {
    AddNew(Init<K, V>(3).value, a, x, [a]);
    FindTail(Cache(3, map[a := x], [a]), a);
    AddTail(Cache(3, map[a := x], [a]), a, y);
    FindTail(Cache(3, map[a := x][a := y], [a]), a);
    AddTail(Cache(3, map[a := x][a := y], [a]), a, z);
    FindTail(Cache(3, map[a := x][a := y][a := z], [a]), a);
  }

  /** find_shouldReturnValue_whenKeyFoundInForgettingMapMoreThanCapacity, up
      to the first size check: a find of the tail changes nothing. */
  lemma MoreThanCapacityFirst<K>(a: K, b: K, c: K)
    requires a != b && b != c && a != c
    ensures var c0 := Init<K, int>(3).value;
            var c1 := AddStep(c0, Some(a), Some(1)).1;
            var c2 := AddStep(c1, Some(b), Some(2)).1;
            var (r1, c3) := FindStep(c2, Some(b));
            var c4 := AddStep(c3, Some(c), Some(3)).1;
            && r1 == Ok(2) && c4.Size() == 3
            && c4 == Cache(3, map[a := 1, b := 2, c := 3], [a, b, c])
  {
    AddNew(Init<K, int>(3).value, a, 1, [a]);
    AddNew(Cache(3, map[a := 1], [a]), b, 2, [a, b]);
    FindTail(Cache(3, map[a := 1, b := 2], [a, b]), b);
    AddNew(Cache(3, map[a := 1, b := 2], [a, b]), c, 3, [a, b, c]);
  }

  /** The same test, continued: adding a listed key keeps the size at three,
      and finds move each key read to the tail. */
  lemma MoreThanCapacitySecond<K>(a: K, b: K, c: K)
    requires a != b && b != c && a != c
    ensures var e := map[a := 1, b := 2, c := 3];
            var c0 := AddStep(Cache(3, e, [a, b, c]), Some(b), Some(4)).1;
            var (r1, c1) := FindStep(c0, Some(b));
            var (r2, c2) := FindStep(c1, Some(a));
            var (r3, c3) := FindStep(c2, Some(c));
            && c0.Size() == 3 && [r1, r2, r3] == [Ok(4), Ok(1), Ok(3)]
            && c3 == Cache(3, e[b := 4], [b, a, c])
  {
    var e := map[a := 1, b := 2, c := 3][b := 4];
    AddAt(Cache(3, map[a := 1, b := 2, c := 3], [a, b, c]), b, 4, 1, [a, c, b]);
    FindTail(Cache(3, e, [a, c, b]), b);
    FindHead(Cache(3, e, [a, c, b]), a, [c, b, a]);
    FindHead(Cache(3, e, [c, b, a]), c, [b, a, c]);
  }

  /** The same test, continued: a fourth key evicts b, the least recently
      used, so b is no longer found; finds in the middle move to the tail. */
  lemma MoreThanCapacityThird<K>(a: K, b: K, c: K, d: K)
    requires a != b && a != c && a != d && b != c && b != d && c != d
    ensures var e := map[a := 1, b := 2, c := 3][b := 4];
            var c0 := AddStep(Cache(3, e, [b, a, c]), Some(d), Some(5)).1;
            var (r1, c1) := FindStep(c0, Some(b));
            var (r2, c2) := FindStep(c1, Some(c));
            var (r3, c3) := FindStep(c2, Some(d));
            && [r1, r2, r3] == [Err(KeyNotFound), Ok(3), Ok(5)]
            && c3 == Cache(3, e[d := 5], [a, c, d])
  {
    var e := map[a := 1, b := 2, c := 3][b := 4][d := 5];
    AddEvicting(Cache(3, map[a := 1, b := 2, c := 3][b := 4], [b, a, c]), d, 5, [a, c, d]);
    FindAt(Cache(3, e, [a, c, d]), c, 1, [a, d, c]);
    FindAt(Cache(3, e, [a, d, c]), d, 1, [a, c, d]);
  }

  /** The end of the same test: adding b again evicts a, b is found with its
      new value, and capacity and size are three. */
  lemma MoreThanCapacityFourth<K>(a: K, b: K, c: K, d: K)
    requires a != b && a != c && a != d && b != c && b != d && c != d
    ensures var e := map[a := 1, b := 2, c := 3][b := 4][d := 5];
            var c0 := AddStep(Cache(3, e, [a, c, d]), Some(b), Some(6)).1;
            var (r1, c1) := FindStep(c0, Some(a));
            var (r2, c2) := FindStep(c1, Some(b));
            && [r1, r2] == [Err(KeyNotFound), Ok(6)]
            && c2.capacity == 3 && c2.Size() == 3
  {
    var e := map[a := 1, b := 2, c := 3][b := 4][d := 5];
    AddEvicting(Cache(3, e, [a, c, d]), b, 6, [c, d, b]);
    FindTail(Cache(3, e[b := 6], [c, d, b]), b);
  }

  /** find_shouldReturnValue_whenCapacityOne: each new key evicts the previous
      one, whose value nevertheless stays in the map. */
  lemma CapacityOneScenario<K, V>(a: K, b: K, x: V, y: V, z: V)
    requires a != b
    ensures var c0 := Init<K, V>(1).value;
            var c1 := AddStep(c0, Some(a), Some(x)).1;
            var (r1, c2) := FindStep(c1, Some(a));
            var c3 := AddStep(c2, Some(a), Some(y)).1;
            var (r2, c4) := FindStep(c3, Some(a));
            var c5 := AddStep(c4, Some(b), Some(z)).1;
            var (r3, c6) := FindStep(c5, Some(b));
            var (r4, c7) := FindStep(c6, Some(a));
            && [r1, r2, r3, r4] == [Ok(x), Ok(y), Ok(z), Err(KeyNotFound)]
            && c2.Size() == 1 && c4.Size() == 1 && c6.Size() == 1
            && a in c7.entries
  {
    AddNew(Init<K, V>(1).value, a, x, [a]);
    FindTail(Cache(1, map[a := x], [a]), a);
    AddTail(Cache(1, map[a := x], [a]), a, y);
    FindTail(Cache(1, map[a := x][a := y], [a]), a);
    AddEvicting(Cache(1, map[a := x][a := y], [a]), b, z, [b]);
    FindTail(Cache(1, map[a := x][a := y][b := z], [b]), b);
  }

  /** Eviction leaves the evicted key's value in the map, so the map can hold
      more keys than the capacity while the list holds exactly the capacity. */
  lemma MapOutgrowsCapacity<K, V>(a: K, b: K, x: V, y: V)
    requires a != b
    ensures var c2 := AddStep(AddStep(Init<K, V>(1).value, Some(a), Some(x)).1, Some(b), Some(y)).1;
            c2.recency == [b] && c2.entries == map[a := x, b := y] && |c2.entries| == 2 > c2.capacity
  {
    AddNew(Init<K, V>(1).value, a, x, [a]);
    AddEvicting(Cache(1, map[a := x], [a]), b, y, [b]);
    assert map[a := x, b := y].Keys == {a, b};
  }

  /** find_shouldThrowForgettingMapKeyNotFoundException_whenExpiredKeySearched:
      the fourth key evicts the first; the other three are found. */
  lemma ExpiredKeySearched<K, V>(a: K, b: K, c: K, d: K, w: V, x: V, y: V, z: V)
    requires a != b && a != c && a != d && b != c && b != d && c != d
    ensures var c0 := Init<K, V>(3).value;
            var c1 := AddStep(c0, Some(a), Some(w)).1;
            var c2 := AddStep(c1, Some(b), Some(x)).1;
            var c3 := AddStep(c2, Some(c), Some(y)).1;
            var c4 := AddStep(c3, Some(d), Some(z)).1;
            var (r1, c5) := FindStep(c4, Some(a));
            var (r2, c6) := FindStep(c5, Some(b));
            var (r3, c7) := FindStep(c6, Some(c));
            var (r4, c8) := FindStep(c7, Some(d));
            [r1, r2, r3, r4] == [Err(KeyNotFound), Ok(x), Ok(y), Ok(z)] && c8.Size() == 3
  {
    var e := map[a := w, b := x, c := y, d := z];
    AddNew(Init<K, V>(3).value, a, w, [a]);
    AddNew(Cache(3, map[a := w], [a]), b, x, [a, b]);
    AddNew(Cache(3, map[a := w, b := x], [a, b]), c, y, [a, b, c]);
    AddEvicting(Cache(3, map[a := w, b := x, c := y], [a, b, c]), d, z, [b, c, d]);
    FindHead(Cache(3, e, [b, c, d]), b, [c, d, b]);
    FindHead(Cache(3, e, [c, d, b]), c, [d, b, c]);
    FindHead(Cache(3, e, [d, b, c]), d, [b, c, d]);
  }

  /** The error tests: a key never added is not found, a null key or value is
      refused, and a capacity of zero or below is refused. */
  lemma ErrorScenarios<K, V>(k: K, v: V)
    ensures FindStep(Init<K, V>(3).value, Some(k)).0 == Err(KeyNotFound)
    ensures FindStep(Init<K, V>(3).value, None).0 == Err(KeyNull)
    ensures AddStep(Init<K, V>(3).value, None, Some(v)).0 == Fail(KeyNull)
    ensures AddStep(Init<K, V>(3).value, Some(k), None).0 == Fail(ValueNull)
    ensures Init<K, V>(-1) == Err(NotInitialized) && Init<K, V>(0) == Err(NotInitialized)
  {
  }

  /** The adds of a loop: key ks[i] with value vs[i], in order of i. */
  function AddAll<K(==), V>(c: Cache<K, V>, ks: seq<K>, vs: seq<V>): (r: Cache<K, V>)
    requires c.Valid() && |ks| == |vs|
    ensures r.Valid() && r.capacity == c.capacity
    decreases |ks|
  {
    if ks == [] then c
    else
      var m := |ks| - 1;
      AddStep(AddAll(c, ks[..m], vs[..m]), Some(ks[m]), Some(vs[m])).1
  }

  /** The finds of a loop: key ks[i], in order of i; the answers in that
      order and the last state. A find never changes the map. */
  function FindAll<K(==), V>(c: Cache<K, V>, ks: seq<K>): (r: (seq<Result<V>>, Cache<K, V>))
    requires c.Valid()
    ensures r.1.Valid() && r.1.capacity == c.capacity && r.1.entries == c.entries && |r.0| == |ks|
    decreases |ks|
  {
    if ks == [] then ([], c)
    else
      var m := |ks| - 1;
      var (rs, d) := FindAll(c, ks[..m]);
      var (r, e) := FindStep(d, Some(ks[m]));
      (rs + [r], e)
  }

  /** The last element of a list without repeats is not in the rest. */
  lemma NoDupLast<K>(s: seq<K>)
    requires NoDup(s) && |s| > 0
    ensures NoDup(s[..|s| - 1]) && Last(s) !in s[..|s| - 1]
  {
    var t := s[..|s| - 1];
    assert forall i :: 0 <= i < |t| ==> t[i] == s[i];
  }

  /** A prefix of a list without repeats has none. */
  lemma NoDupPrefix<K>(s: seq<K>, j: nat)
    requires NoDup(s) && j <= |s|
    ensures NoDup(s[..j])
  {
    assert forall i :: 0 <= i < j ==> s[..j][i] == s[i];
  }

  /** The two parts of a list without repeats have none and share no key. */
  lemma NoDupParts<K>(a: seq<K>, b: seq<K>)
    requires NoDup(a + b)
    ensures NoDup(a) && NoDup(b)
    ensures forall i :: 0 <= i < |a| ==> a[i] !in b
    ensures forall i :: 0 <= i < |b| ==> b[i] !in a
  {
    assert forall i :: 0 <= i < |a| ==> (a + b)[i] == a[i];
    assert forall i :: 0 <= i < |b| ==> (a + b)[|a| + i] == b[i];
  }

  /** In a list without repeats, the element at i is in the part from d on
      exactly when i is at least d. */
  lemma SliceMembers<K>(s: seq<K>, d: nat, i: nat)
    requires NoDup(s) && d <= |s| && i < |s|
    ensures s[i] in s[d..] <==> i >= d
  {
    if i >= d {
      assert s[d..][i - d] == s[i];
    } else {
      assert forall j :: 0 <= j < |s| - d ==> s[d..][j] == s[d + j];
    }
  }

  /** An unlisted key is appended, after the head is dropped if the list is
      full. */
  lemma AddUnlisted<K, V>(c: Cache<K, V>, k: K, v: V)
    requires c.Valid() && k !in c.recency
    ensures AddStep(c, Some(k), Some(v)).1.recency ==
      if c.Size() < c.capacity then c.recency + [k] else c.recency[1..] + [k]
  {
    if c.Size() < c.capacity {
      PutNewKeyWithRoom(c, k, v);
    } else {
      PutNewKeyWhenFull(c, k, v);
    }
  }

  /** The last n elements hold no key that is not in the list. */
  lemma SuffixMembers<K>(s: seq<K>, n: nat)
    ensures |Suffix(s, n)| == if |s| <= n then |s| else n
    ensures forall x :: x in Suffix(s, n) ==> x in s
  {
  }

  /** Appending one element to s, dropping the first when n are there, gives
      the last n elements of the longer list. */
  lemma SuffixSnoc<K>(s: seq<K>, k: K, n: nat)
    requires n >= 1
    ensures (if |Suffix(s, n)| < n then Suffix(s, n) + [k] else Suffix(s, n)[1..] + [k]) == Suffix(s + [k], n)
  {
    if |s| >= n {
      assert Suffix(s, n)[1..] + [k] == (s + [k])[|s| + 1 - n..];
    }
  }

  /** The last n elements of a + b, where a has n elements and b at most n. */
  lemma SuffixOfFull<K>(a: seq<K>, b: seq<K>, n: nat)
    requires |a| == n && |b| <= n
    ensures Suffix(a + b, n) == a[|b|..] + b
  {
    if b != [] {
      assert (a + b)[|b|..] == a[|b|..] + b;
    }
  }

  /** Splitting off the last element of b in a + b. */
  lemma FrontOfConcat<K>(a: seq<K>, b: seq<K>)
    requires |b| > 0
    ensures (a + b)[..|a + b| - 1] == a + b[..|b| - 1]
    ensures (a + b[..|b| - 1]) + [b[|b| - 1]] == a + b
  {
  }

  /** Writing keys that are new and distinct lists the last capacity keys of
      the list followed by the keys written, in that order. */
  lemma {:induction false} AddDistinctKeys<K, V>(c: Cache<K, V>, ks: seq<K>, vs: seq<V>)
    requires c.Valid() && |ks| == |vs| && NoDup(c.recency + ks)
    ensures AddAll(c, ks, vs).recency == Suffix(c.recency + ks, c.capacity)
    decreases |ks|
  {
    if ks == [] {
      assert c.recency + ks == c.recency;
    } else {
      var m := |ks| - 1;
      var s := c.recency + ks;
      FrontOfConcat(c.recency, ks);
      NoDupLast(s);
      AddDistinctKeys(c, ks[..m], vs[..m]);
      var d := AddAll(c, ks[..m], vs[..m]);
      assert AddAll(c, ks, vs) == AddStep(d, Some(ks[m]), Some(vs[m])).1;
      SuffixMembers(c.recency + ks[..m], c.capacity);
      assert ks[m] !in d.recency;
      AddUnlisted(d, ks[m], vs[m]);
      SuffixSnoc(c.recency + ks[..m], ks[m], c.capacity);
    }
  }

  /** After the adds, every key written holds the value written for it, and
      every other key keeps its value. */
  lemma {:induction false} AddAllEntries<K, V>(c: Cache<K, V>, ks: seq<K>, vs: seq<V>)
    requires c.Valid() && |ks| == |vs| && NoDup(ks)
    ensures forall i :: 0 <= i < |ks| ==> ks[i] in AddAll(c, ks, vs).entries && AddAll(c, ks, vs).entries[ks[i]] == vs[i]
    ensures forall x :: x in c.entries && x !in ks ==> x in AddAll(c, ks, vs).entries && AddAll(c, ks, vs).entries[x] == c.entries[x]
    decreases |ks|
  {
    if ks != [] {
      var m := |ks| - 1;
      NoDupLast(ks);
      AddAllEntries(c, ks[..m], vs[..m]);
      assert forall i :: 0 <= i < m ==> ks[..m][i] == ks[i] && vs[..m][i] == vs[i];
      assert forall x :: x !in ks ==> x !in ks[..m] && x != ks[m];
    }
  }

  /** The list after j finds of t[0], t[1], ... from a list p + t + q. */
  lemma BlockStep<K>(p: seq<K>, t: seq<K>, q: seq<K>, j: nat)
    requires j < |t|
    ensures var w := p + t[j..] + q + t[..j];
            |p| < |w| && w[|p|] == t[j] && w[..|p|] + w[|p| + 1..] + [t[j]] == p + t[j + 1..] + q + t[..j + 1]
  {
    var w := p + t[j..] + q + t[..j];
    assert t[j..] == [t[j]] + t[j + 1..];
    assert w == p + [t[j]] + (t[j + 1..] + q + t[..j]);
    assert w[..|p|] == p;
    assert w[|p| + 1..] == t[j + 1..] + q + t[..j];
    assert t[..j + 1] == t[..j] + [t[j]];
  }

  /** Finding the listed keys t[0], t[1], ..., t[j - 1] in turn, from a list
      p + t + q: each answers its value, and each moves to the tail. */
  lemma {:induction false} FindBlock<K, V>(c: Cache<K, V>, p: seq<K>, t: seq<K>, q: seq<K>, j: nat)
    requires c.Valid() && c.recency == p + t + q && j <= |t|
    ensures FindAll(c, t[..j]).1.recency == p + t[j..] + q + t[..j]
    ensures forall i :: 0 <= i < j ==> FindAll(c, t[..j]).0[i] == Ok(c.entries[t[i]])
    decreases j
  {
    if j == 0 {
      assert t[..0] == [] && t[0..] == t;
    } else {
      var i := j - 1;
      assert t[..j][..i] == t[..i];
      FindBlock(c, p, t, q, i);
      var (rs, d) := FindAll(c, t[..i]);
      BlockStep(p, t, q, i);
      FindAt(d, t[i], |p|, p + t[j..] + q + t[..j]);
      assert FindAll(c, t[..j]) == (rs + [Ok(c.entries[t[i]])], Cache(c.capacity, c.entries, p + t[j..] + q + t[..j]));
    }
  }

  /** Finding all of the block t in turn from p + t + q leaves p + q + t. */
  lemma FindBlockAll<K, V>(c: Cache<K, V>, p: seq<K>, t: seq<K>, q: seq<K>)
    requires c.Valid() && c.recency == p + t + q
    ensures FindAll(c, t).1.recency == p + q + t
    ensures forall i :: 0 <= i < |t| ==> FindAll(c, t).0[i] == Ok(c.entries[t[i]])
  {
    FindBlock(c, p, t, q, |t|);
    assert t[..|t|] == t && t[|t|..] == [];
    assert p + [] + q + t == p + q + t;
  }

  /** Finding every listed key in list order answers each stored value and
      gives back the same state. */
  lemma FindAllListed<K, V>(c: Cache<K, V>)
    requires c.Valid()
    ensures FindAll(c, c.recency).1 == c
    ensures forall i :: 0 <= i < |c.recency| ==> FindAll(c, c.recency).0[i] == Ok(c.entries[c.recency[i]])
  {
    assert c.recency == [] + c.recency + [];
    FindBlockAll(c, [], c.recency, []);
    assert [] + [] + c.recency == c.recency;
  }

  /** The empty list is a unit at either end of, or between, two lists. */
  lemma EmptyEnds<K>(a: seq<K>, b: seq<K>)
    ensures a + b + [] == a + b && [] + a + b == a + b && a + [] + b == a + b
  {
  }

  /** Finding unlisted keys answers KeyNotFound each time and changes
      nothing. */
  lemma {:induction false} FindAbsent<K, V>(c: Cache<K, V>, ks: seq<K>)
    requires c.Valid() && forall i :: 0 <= i < |ks| ==> ks[i] !in c.recency
    ensures FindAll(c, ks).1 == c
    ensures forall i :: 0 <= i < |ks| ==> FindAll(c, ks).0[i] == Err(KeyNotFound)
    decreases |ks|
  {
    if ks != [] {
      var m := |ks| - 1;
      assert forall i :: 0 <= i < m ==> ks[..m][i] == ks[i];
      FindAbsent(c, ks[..m]);
    }
  }

  /** Distinct adds into a new map of capacity n, for any n and any number of
      keys: a key written more than n adds ago is not found, the last n keys
      written are found with their values, a key never written is not found,
      and the size is the smaller of n and the number of adds. */
  lemma EvictionOrder<K, V>(n: nat, ks: seq<K>, vs: seq<V>, k: K)
    requires n >= 1 && |ks| == |vs| && NoDup(ks)
    ensures var c := AddAll(Init<K, V>(n).value, ks, vs);
            && c.Size() == (if |ks| <= n then |ks| else n)
            && (forall i :: 0 <= i < |ks| ==>
                 FindStep(c, Some(ks[i])).0 == if i < |ks| - n then Err(KeyNotFound) else Ok(vs[i]))
            && (k !in ks ==> FindStep(c, Some(k)).0 == Err(KeyNotFound))
  {
    var c0 := Init<K, V>(n).value;
    var c := AddAll(c0, ks, vs);
    AddFromEmpty(c0, ks, vs);
    AddAllEntries(c0, ks, vs);
    var d := if |ks| <= n then 0 else |ks| - n;
    assert c.recency == ks[d..];
    forall i | 0 <= i < |ks|
      ensures FindStep(c, Some(ks[i])).0 == if i < |ks| - n then Err(KeyNotFound) else Ok(vs[i])
    {
      FoundIffRecent(c, ks, vs, d, i);
    }
    assert k !in ks ==> k !in c.recency by {
      assert forall x :: x in ks[d..] ==> x in ks;
    }
    FindOnListed(c, k);
  }

  /** Distinct adds into an empty map list the last keys written, as many as
      the capacity. */
  lemma AddFromEmpty<K, V>(c: Cache<K, V>, ks: seq<K>, vs: seq<V>)
    requires c.Valid() && c.recency == [] && |ks| == |vs| && NoDup(ks)
    ensures AddAll(c, ks, vs).recency == Suffix(ks, c.capacity)
  {
    assert c.recency + ks == ks;
    AddDistinctKeys(c, ks, vs);
  }

  /** When the list is ks from position d on and every key of ks holds its
      value, a key of ks is found with its value exactly when it stands at
      d or later. */
  lemma FoundIffRecent<K, V>(c: Cache<K, V>, ks: seq<K>, vs: seq<V>, d: nat, i: nat)
    requires c.Valid() && NoDup(ks) && |ks| == |vs| && d <= |ks| && i < |ks| && c.recency == ks[d..]
    requires forall j :: 0 <= j < |ks| ==> ks[j] in c.entries && c.entries[ks[j]] == vs[j]
    ensures FindStep(c, Some(ks[i])).0 == if i < d then Err(KeyNotFound) else Ok(vs[i])
  {
    SliceMembers(ks, d, i);
    FindOnListed(c, ks[i]);
  }

  /** find_shouldReturnValue_whenOldValuesRemoved, the first two loops, for
      any capacity n and any n distinct keys: the adds fill the map, the size
      growing by one with each; finding the keys in the order written
      answers each value and gives back the same state. */
  lemma OldValuesRemovedFill<K, V>(n: nat, ks1: seq<K>, vs1: seq<V>)
    requires n >= 1 && |ks1| == |vs1| == n && NoDup(ks1)
    ensures var c1 := AddAll(Init<K, V>(n).value, ks1, vs1);
            && (forall j :: 0 <= j <= n ==> AddAll(Init<K, V>(n).value, ks1[..j], vs1[..j]).Size() == j)
            && (forall i :: 0 <= i < n ==> FindAll(c1, ks1).0[i] == Ok(vs1[i]))
            && FindAll(c1, ks1).1 == c1
            && c1.recency == ks1
  {
    var c0 := Init<K, V>(n).value;
    FirstFill(c0, ks1, vs1);
    FindAllListed(AddAll(c0, ks1, vs1));
  }

  /** The same test, the next two loops, from the full map the first two
      leave: n adds of new distinct keys keep the size at n and evict every
      earlier key; the earlier keys are then not found, and the new ones are
      found, in the order written, with their values, leaving them listed in
      that order. */
  lemma OldValuesRemovedReplace<K, V>(c: Cache<K, V>, ks1: seq<K>, ks2: seq<K>, vs2: seq<V>)
    requires c.Valid() && c.recency == ks1 && |ks1| == |ks2| == |vs2| == c.capacity && NoDup(ks1 + ks2)
    ensures var c3 := AddAll(c, ks2, vs2);
            var c4 := FindAll(c3, ks1).1;
            var c5 := FindAll(c4, ks2).1;
            && (forall j :: 0 <= j <= |ks2| ==> AddAll(c, ks2[..j], vs2[..j]).Size() == c.capacity)
            && (forall i :: 0 <= i < |ks1| ==> FindAll(c3, ks1).0[i] == Err(KeyNotFound))
            && (forall i :: 0 <= i < |ks2| ==> FindAll(c4, ks2).0[i] == Ok(vs2[i]))
            && c5.recency == ks2
            && (forall i :: 0 <= i < |ks2| ==> ks2[i] in c5.entries && c5.entries[ks2[i]] == vs2[i])
  {
    NoDupParts(ks1, ks2);
    SecondFillSizes(c, ks1, ks2, vs2);
    SecondFill(c, ks1, ks2, vs2);
    var c3 := AddAll(c, ks2, vs2);
    FindAbsent(c3, ks1);
    FindAllListed(c3);
  }

  /** find_shouldReturnValue_whenOldValuesRemoved end to end, for any
      capacity n, n distinct keys ks1 written first, n further distinct keys
      ks2 that replace them, and the first m keys of ks1 written again with
      their first values: the three phases above chain, so the re-added keys
      are found with their values, the keys of ks2 from position m on are
      found with theirs, and the first m keys of ks2 are not found. */
  lemma OldValuesRemoved<K, V>(n: nat, ks1: seq<K>, vs1: seq<V>, ks2: seq<K>, vs2: seq<V>, m: nat)
    requires n >= 1 && |ks1| == |vs1| == |ks2| == |vs2| == n && NoDup(ks1 + ks2) && m <= n
    ensures var c2 := FindAll(AddAll(Init<K, V>(n).value, ks1, vs1), ks1).1;
            var c5 := FindAll(FindAll(AddAll(c2, ks2, vs2), ks1).1, ks2).1;
            ReAddAnswered(c5, ks2, vs2, ks1[..m], vs1[..m], m)
  {
    NoDupParts(ks1, ks2);
    OldValuesRemovedFill(n, ks1, vs1);
    var c1 := AddAll(Init<K, V>(n).value, ks1, vs1);
    var c2 := FindAll(c1, ks1).1;
    assert c2 == c1;
    OldValuesRemovedReplace(c2, ks1, ks2, vs2);
    var c5 := FindAll(FindAll(AddAll(c2, ks2, vs2), ks1).1, ks2).1;
    ReAddedKeysDistinct(ks1, ks2, m);
    OldValuesRemovedReAdd(c5, ks2, vs2, ks1[..m], vs1[..m], m);
  }

  /** Keys written first and not repeated afterwards can be written again
      after the later ones without a repeat. */
  lemma ReAddedKeysDistinct<K>(ks1: seq<K>, ks2: seq<K>, m: nat)
    requires NoDup(ks1 + ks2) && m <= |ks1|
    ensures NoDup(ks2 + ks1[..m])
  {
    NoDupParts(ks1, ks2);
    NoDupPrefix(ks1, m);
    var t := ks1[..m];
    forall i | 0 <= i < |t|
      ensures t[i] !in ks2
    {
      assert t[i] == ks1[i];
    }
    NoDupJoin(ks2, t);
  }

  /** Two lists without repeats that share no key join into one. */
  lemma NoDupJoin<K>(a: seq<K>, b: seq<K>)
    requires NoDup(a) && NoDup(b) && forall i :: 0 <= i < |b| ==> b[i] !in a
    ensures NoDup(a + b)
  {
    forall i, j | 0 <= i < j < |a + b|
      ensures (a + b)[i] != (a + b)[j]
    {
      if j >= |a| {
        assert (a + b)[j] == b[j - |a|];
        if i >= |a| {
          assert (a + b)[i] == b[i - |a|];
        } else {
          assert (a + b)[i] == a[i];
        }
      }
    }
  }

  /** Distinct adds into an empty map with room for all of them: after j adds
      the size is j, and the keys are listed in the order written. */
  lemma FirstFill<K, V>(c: Cache<K, V>, ks: seq<K>, vs: seq<V>)
    requires c.Valid() && c.recency == [] && |ks| == |vs| == c.capacity && NoDup(ks)
    ensures forall j :: 0 <= j <= |ks| ==> AddAll(c, ks[..j], vs[..j]).Size() == j
    ensures AddAll(c, ks, vs).recency == ks
    ensures forall i :: 0 <= i < |ks| ==> ks[i] in AddAll(c, ks, vs).entries && AddAll(c, ks, vs).entries[ks[i]] == vs[i]
  {
    forall j | 0 <= j <= |ks|
      ensures AddAll(c, ks[..j], vs[..j]).Size() == j
    {
      NoDupPrefix(ks, j);
      assert c.recency + ks[..j] == ks[..j];
      AddDistinctKeys(c, ks[..j], vs[..j]);
    }
    assert c.recency + ks == ks;
    AddDistinctKeys(c, ks, vs);
    AddAllEntries(c, ks, vs);
  }

  /** Distinct new adds into a full map listing ks1 each keep the size at
      the capacity. */
  lemma SecondFillSizes<K, V>(c: Cache<K, V>, ks1: seq<K>, ks2: seq<K>, vs2: seq<V>)
    requires c.Valid() && c.recency == ks1 && |ks1| == |ks2| == |vs2| == c.capacity && NoDup(ks1 + ks2)
    ensures forall j :: 0 <= j <= |ks2| ==> AddAll(c, ks2[..j], vs2[..j]).Size() == c.capacity
  {
    forall j | 0 <= j <= |ks2|
      ensures AddAll(c, ks2[..j], vs2[..j]).Size() == c.capacity
    {
      assert (ks1 + ks2)[..|ks1| + j] == ks1 + ks2[..j];
      NoDupPrefix(ks1 + ks2, |ks1| + j);
      AddDistinctKeys(c, ks2[..j], vs2[..j]);
      SuffixMembers(ks1 + ks2[..j], c.capacity);
    }
  }

  /** After as many distinct new adds into a full map listing ks1 as the
      capacity, only the new keys are listed, in the order written, with
      their values. */
  lemma SecondFill<K, V>(c: Cache<K, V>, ks1: seq<K>, ks2: seq<K>, vs2: seq<V>)
    requires c.Valid() && c.recency == ks1 && |ks1| == |ks2| == |vs2| == c.capacity && NoDup(ks1 + ks2)
    ensures AddAll(c, ks2, vs2).recency == ks2
    ensures forall i :: 0 <= i < |ks2| ==> ks2[i] in AddAll(c, ks2, vs2).entries && AddAll(c, ks2, vs2).entries[ks2[i]] == vs2[i]
  {
    AddDistinctKeys(c, ks2, vs2);
    SuffixOfFull(ks1, ks2, c.capacity);
    assert ks1[|ks2|..] + ks2 == ks2;
    NoDupParts(ks1, ks2);
    AddAllEntries(c, ks2, vs2);
  }

  /** What the last four loops of find_shouldReturnValue_whenOldValuesRemoved
      observe, from a state c: after adding ks1 with the values vs1, finding
      ks1 answers vs1, then finding ks2 from position m on answers vs2 from m
      on, then finding the first m keys of ks2 answers KeyNotFound each time. */
  ghost predicate ReAddAnswered<K, V>(c: Cache<K, V>, ks2: seq<K>, vs2: seq<V>, ks1: seq<K>, vs1: seq<V>, m: nat)
    requires c.Valid() && m <= |ks2| <= |vs2| && |ks1| == |vs1| == m
  {
    var c6 := AddAll(c, ks1, vs1);
    var rs4, c7 := FindAll(c6, ks1).0, FindAll(c6, ks1).1;
    var rs5, c8 := FindAll(c7, ks2[m..]).0, FindAll(c7, ks2[m..]).1;
    var rs6 := FindAll(c8, ks2[..m]).0;
    && (forall i :: 0 <= i < m ==> rs4[i] == Ok(vs1[i]))
    && (forall i :: 0 <= i < |ks2| - m ==> rs5[i] == Ok(vs2[m + i]))
    && (forall i :: 0 <= i < m ==> rs6[i] == Err(KeyNotFound))
  }

  /** find_shouldReturnValue_whenOldValuesRemoved, the last four loops,
      from the state the first four leave (a full map listing ks2
      with the values vs2): m earlier keys ks1 are added again; they are then
      found with their new values, the keys of ks2 not evicted are found with
      their values, and the first m keys of ks2, evicted, are not found. */
  lemma OldValuesRemovedReAdd<K, V>(c: Cache<K, V>, ks2: seq<K>, vs2: seq<V>, ks1: seq<K>, vs1: seq<V>, m: nat)
    requires c.Valid() && c.recency == ks2 && |ks2| == |vs2| == c.capacity
    requires forall i :: 0 <= i < |ks2| ==> ks2[i] in c.entries && c.entries[ks2[i]] == vs2[i]
    requires m <= |ks2| && |ks1| == |vs1| == m && NoDup(ks2 + ks1)
    ensures ReAddAnswered(c, ks2, vs2, ks1, vs1, m)
  {
    var c6 := AddAll(c, ks1, vs1);
    ReAddState(c, ks2, vs2, ks1, vs1, m);
    FindNewThenRest(c6, ks2[m..], ks1);
    var c8 := FindAll(FindAll(c6, ks1).1, ks2[m..]).1;
    forall i | 0 <= i < m
      ensures ks2[..m][i] !in c8.recency
    {
      EvictedNotListed(ks2, ks1, m, i);
    }
    FindAbsent(c8, ks2[..m]);
  }

  /** Finding the back block t of a list p + t answers the stored values
      and leaves the list as it was. */
  lemma FindBack<K, V>(c: Cache<K, V>, p: seq<K>, t: seq<K>)
    requires c.Valid() && c.recency == p + t
    ensures FindAll(c, t).1.recency == p + t
    ensures forall i :: 0 <= i < |t| ==> FindAll(c, t).0[i] == Ok(c.entries[t[i]])
  {
    EmptyEnds(p, t);
    FindBlockAll(c, p, t, []);
  }

  /** Finding the front block t of a list t + q answers the stored values
      and moves t behind q. */
  lemma FindFront<K, V>(c: Cache<K, V>, t: seq<K>, q: seq<K>)
    requires c.Valid() && c.recency == t + q
    ensures FindAll(c, t).1.recency == q + t
    ensures forall i :: 0 <= i < |t| ==> FindAll(c, t).0[i] == Ok(c.entries[t[i]])
  {
    EmptyEnds(t, q);
    EmptyEnds(q, t);
    FindBlockAll(c, [], t, q);
  }

  /** Finding the back block t of a list p + t and then the front block p
      answers the stored values and leaves the list t + p. */
  lemma FindNewThenRest<K, V>(c: Cache<K, V>, p: seq<K>, t: seq<K>)
    requires c.Valid() && c.recency == p + t
    ensures forall i :: 0 <= i < |t| ==> FindAll(c, t).0[i] == Ok(c.entries[t[i]])
    ensures forall i :: 0 <= i < |p| ==> FindAll(FindAll(c, t).1, p).0[i] == Ok(c.entries[p[i]])
    ensures FindAll(FindAll(c, t).1, p).1.recency == t + p
  {
    FindBack(c, p, t);
    FindFront(FindAll(c, t).1, p, t);
  }

  /** Re-adding m new keys into a full map listing ks2 lists the rest of ks2
      and then the new keys, and keeps the values of both. */
  lemma ReAddState<K, V>(c: Cache<K, V>, ks2: seq<K>, vs2: seq<V>, ks1: seq<K>, vs1: seq<V>, m: nat)
    requires c.Valid() && c.recency == ks2 && |ks2| == |vs2| == c.capacity
    requires forall i :: 0 <= i < |ks2| ==> ks2[i] in c.entries && c.entries[ks2[i]] == vs2[i]
    requires m <= |ks2| && |ks1| == |vs1| == m && NoDup(ks2 + ks1)
    ensures AddAll(c, ks1, vs1).recency == ks2[m..] + ks1
    ensures forall i :: 0 <= i < m ==> ks1[i] in AddAll(c, ks1, vs1).entries && AddAll(c, ks1, vs1).entries[ks1[i]] == vs1[i]
    ensures forall i :: 0 <= i < |ks2| - m ==>
      ks2[m..][i] in AddAll(c, ks1, vs1).entries && AddAll(c, ks1, vs1).entries[ks2[m..][i]] == vs2[m + i]
  {
    NoDupParts(ks2, ks1);
    AddDistinctKeys(c, ks1, vs1);
    SuffixOfFull(ks2, ks1, c.capacity);
    AddAllEntries(c, ks1, vs1);
    UnwrittenKeep(c, ks2, vs2, ks1, vs1, m);
  }

  /** Adding keys ks1 that are not in ks2 keeps the values of ks2 from
      position m on. */
  lemma UnwrittenKeep<K, V>(c: Cache<K, V>, ks2: seq<K>, vs2: seq<V>, ks1: seq<K>, vs1: seq<V>, m: nat)
    requires c.Valid() && |ks2| == |vs2| && m <= |ks2| && |ks1| == |vs1| && NoDup(ks2 + ks1)
    requires forall i :: 0 <= i < |ks2| ==> ks2[i] in c.entries && c.entries[ks2[i]] == vs2[i]
    ensures forall i :: 0 <= i < |ks2| - m ==>
      ks2[m..][i] in AddAll(c, ks1, vs1).entries && AddAll(c, ks1, vs1).entries[ks2[m..][i]] == vs2[m + i]
  {
    NoDupParts(ks2, ks1);
    AddAllEntries(c, ks1, vs1);
    forall i | 0 <= i < |ks2| - m
      ensures ks2[m..][i] == ks2[m + i] && ks2[m + i] !in ks1
    {
    }
  }

  /** A key of a list without repeats ks2 + ks1 that stands before position
      m of ks2 is neither in ks1 nor in the rest of ks2 from m on. */
  lemma EvictedNotListed<K>(ks2: seq<K>, ks1: seq<K>, m: nat, i: nat)
    requires NoDup(ks2 + ks1) && i < m <= |ks2|
    ensures ks2[..m][i] !in ks1 + ks2[m..]
  {
    NoDupParts(ks2, ks1);
    SliceMembers(ks2, m, i);
  }

  /** In a list without repeats, the second element is neither the first nor
      any later one. */
  lemma SecondNotLater<K>(s: seq<K>)
    requires NoDup(s) && |s| >= 2
    ensures s[1] != s[0] && s[1] !in s[2..]
  {
    assert forall j :: 0 <= j < |s| - 2 ==> s[2..][j] == s[j + 2];
  }

  /** On a full list, a find of the head and then the write of a new key
      drop the second oldest key and keep the one read. */
  lemma FindHeadThenAdd<K, V>(c: Cache<K, V>, k: K, v: V)
    requires c.Valid() && |c.recency| == c.capacity >= 2 && k !in c.recency
    ensures var c3 := AddStep(FindStep(c, Some(c.recency[0])).1, Some(k), Some(v)).1;
            c3.recency == c.recency[2..] + [c.recency[0], k] && c3.entries == c.entries[k := v]
  {
    var s := c.recency[1..] + [c.recency[0]];
    FindHead(c, c.recency[0], s);
    var c2 := Cache(c.capacity, c.entries, s);
    assert k !in c2.recency;
    PutNewKeyWhenFull(c2, k, v);
    assert s[1..] + [k] == c.recency[2..] + [c.recency[0], k];
  }

  /** Recency refresh on a read: fill a map of capacity n with n distinct keys,
      read the oldest, then write a new key; the key evicted is the second
      oldest, and the one read is still found. */
  lemma ReadRefreshes<K, V>(ks: seq<K>, vs: seq<V>, k: K, v: V)
    requires |ks| == |vs| >= 2 && NoDup(ks) && k !in ks
    ensures var c1 := AddAll(Init<K, V>(|ks|).value, ks, vs);
            var c2 := FindStep(c1, Some(ks[0])).1;
            var c3 := AddStep(c2, Some(k), Some(v)).1;
            && FindStep(c3, Some(ks[1])).0 == Err(KeyNotFound)
            && FindStep(c3, Some(ks[0])).0 == Ok(vs[0])
            && FindStep(c3, Some(k)).0 == Ok(v)
  {
    var c0 := Init<K, V>(|ks|).value;
    var c1 := AddAll(c0, ks, vs);
    FirstFill(c0, ks, vs);
    FindHeadThenAdd(c1, k, v);
    var c3 := AddStep(FindStep(c1, Some(ks[0])).1, Some(k), Some(v)).1;
    FindOnListed(c3, ks[1]);
    FindOnListed(c3, ks[0]);
    FindOnListed(c3, k);
    SecondNotLater(ks);
  }
}
