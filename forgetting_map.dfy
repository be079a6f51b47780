/** ForgettingMap: a fixed-capacity key-value cache that forgets the least
    recently used key. Its state is the capacity, a map of values and the
    recency list; the list alone decides membership and size, while the map
    may keep values of keys that were evicted from the list. */
module ForgettingMaps {
  import opened Exceptions
  import opened RecencyList

  /** The three fields of a ForgettingMap, as one value. */
  datatype Cache<K(==), V> = Cache(capacity: int, entries: map<K, V>, recency: seq<K>) {

    /** The invariant every completed operation restores: a positive capacity
        that bounds the list, no key listed twice, and a value for every listed
        key. The map's key set may be larger than the list. */
    ghost predicate Valid() {
      && capacity >= 1
      && |recency| <= capacity
      && NoDup(recency)
      && (forall k :: k in recency ==> k in entries)
    }

    /** getSize: the length of the recency list, which a valid state keeps
        within the capacity. */
    function Size(): (r: int)
      ensures r >= 0
      ensures Valid() ==> r <= capacity
    {
      |recency|
    }
  }

  /** The constructor: a capacity below one throws NotInitialized, any other
      capacity gives an empty map and list. */
  function Init<K(==), V>(capacity: int): (r: Result<Cache<K, V>>)
    ensures r.Err? <==> capacity < 1
    ensures r.Err? ==> r.error == NotInitialized
    ensures r.Ok? ==> r.value.Valid() && r.value.capacity == capacity && r.value.Size() == 0
    ensures r.Ok? ==> r.value.entries == map[] && r.value.recency == []
  {
    if capacity < 1 then Err(NotInitialized) else Ok(Cache(capacity, map[], []))
  }

  /** moveTheKeyToTopAndRemoveOldestElement: always store the value; keep the
      list as it is when k is already its tail; otherwise unlink k if it is
      listed, or else drop the head when the list is full; then append k. The
      dropped head keeps its value in the map. */
  function Put<K(==), V>(c: Cache<K, V>, k: K, v: V): (r: Cache<K, V>)
    requires c.Valid()
    ensures r.Valid() && r.capacity == c.capacity
    ensures r.entries == c.entries[k := v]
    ensures |r.recency| > 0 && Last(r.recency) == k
    ensures forall x :: x in r.recency ==> x in c.recency || x == k
  {
    var entries := c.entries[k := v];
    if |c.recency| > 0 && Last(c.recency) == k then
      c.(entries := entries)
    else if |c.recency| > 0 && k in c.recency then
      MoveToBackNoDup(c.recency, k);
      c.(entries := entries, recency := MoveToBack(c.recency, k))
    else if |c.recency| >= c.capacity then
      assert NoDup(c.recency[1..]) && k !in c.recency[1..];
      NoDupSnoc(c.recency[1..], k);
      c.(entries := entries, recency := c.recency[1..] + [k])
    else
      NoDupSnoc(c.recency, k);
      c.(entries := entries, recency := c.recency + [k])
  }

  /** moveTheKeyToTopAndFindValue: move a listed key to the tail and return
      its value; the map is untouched. */
  function Get<K(==), V>(c: Cache<K, V>, k: K): (r: (V, Cache<K, V>))
    requires c.Valid() && k in c.recency
    ensures r.1.Valid() && r.1.capacity == c.capacity && r.1.entries == c.entries
    ensures r.0 == c.entries[k]
    ensures r.1.Size() == c.Size()
    ensures Last(r.1.recency) == k
  {
    MoveToBackNoDup(c.recency, k);
    (c.entries[k], c.(recency := MoveToBack(c.recency, k)))
  }

  /** add: a null key throws KeyNull and a null value throws ValueNull, both
      before any change; otherwise the key is written. */
  function AddStep<K(==), V>(c: Cache<K, V>, key: Option<K>, value: Option<V>): (r: (Outcome, Cache<K, V>))
    requires c.Valid()
    ensures r.1.Valid() && r.1.capacity == c.capacity
    ensures key.None? ==> r == (Fail(KeyNull), c)
    ensures key.Some? && value.None? ==> r == (Fail(ValueNull), c)
    ensures r.0.Pass? <==> key.Some? && value.Some?
    ensures r.0.Pass? ==> r.1.entries == c.entries[key.value := value.value]
    ensures r.0.Pass? ==> |r.1.recency| > 0 && Last(r.1.recency) == key.value
  {
    if key.None? then (Fail(KeyNull), c)
    else if value.None? then (Fail(ValueNull), c)
    else (Pass, Put(c, key.value, value.value))
  }

  /** find: a null key throws KeyNull, a key missing from the list throws
      KeyNotFound, both without a change; a listed key is moved to the tail and
      its value returned. */
  function FindStep<K(==), V>(c: Cache<K, V>, key: Option<K>): (r: (Result<V>, Cache<K, V>))
    requires c.Valid()
    ensures r.1.Valid() && r.1.capacity == c.capacity && r.1.entries == c.entries
    ensures r.1.Size() == c.Size()
    ensures key.None? ==> r == (Err(KeyNull), c)
    ensures key.Some? && key.value !in c.recency ==> r == (Err(KeyNotFound), c)
    ensures r.0.Ok? <==> key.Some? && key.value in c.recency
    ensures r.0.Ok? ==> r.0.value == c.entries[key.value] && Last(r.1.recency) == key.value
  {
    if key.None? then (Err(KeyNull), c)
    else if key.value !in c.recency then (Err(KeyNotFound), c)
    else
      var (v, c') := Get(c, key.value);
      (Ok(v), c')
  }

  /** A value just written is the value a following find returns. */
  lemma AddThenFind<K, V>(c: Cache<K, V>, k: K, v: V)
    requires c.Valid()
    ensures FindStep(AddStep(c, Some(k), Some(v)).1, Some(k)).0 == Ok(v)
  {
  }

  /** Writing a listed key: nothing is evicted, the size stays, and the other
      keys keep their relative order. */
  lemma PutListedKey<K, V>(c: Cache<K, V>, k: K, v: V)
    requires c.Valid() && k in c.recency
    ensures Put(c, k, v).Size() == c.Size()
    ensures forall x :: x in c.recency <==> x in Put(c, k, v).recency
    ensures Without(Put(c, k, v).recency, k) == Without(c.recency, k)
  {
    MoveToBackNoDup(c.recency, k);
    if Last(c.recency) == k {
      MoveToBackOfLast(c.recency, k);
    }
    WithoutMoveToBack(c.recency, k);
  }

  /** Writing an unlisted key into a list with room appends it and evicts
      nothing. */
  lemma PutNewKeyWithRoom<K, V>(c: Cache<K, V>, k: K, v: V)
    requires c.Valid() && k !in c.recency && c.Size() < c.capacity
    ensures Put(c, k, v).recency == c.recency + [k]
    ensures Put(c, k, v).Size() == c.Size() + 1
  {
  }

  /** Writing an unlisted key into a full list evicts exactly its head, which
      is never the key being written; the size stays at the capacity and a
      find of the evicted key fails with KeyNotFound, although its value stays
      in the map. */
  lemma PutNewKeyWhenFull<K, V>(c: Cache<K, V>, k: K, v: V)
    requires c.Valid() && k !in c.recency && c.Size() == c.capacity
    ensures Put(c, k, v).recency == c.recency[1..] + [k]
    ensures Put(c, k, v).Size() == c.capacity
    ensures c.recency[0] != k && c.recency[0] !in Put(c, k, v).recency
    ensures FindStep(Put(c, k, v), Some(c.recency[0])).0 == Err(KeyNotFound)
    ensures c.recency[0] in Put(c, k, v).entries
  {
    assert c.recency == [c.recency[0]] + c.recency[1..];
    NoDupCons(c.recency[0], c.recency[1..]);
  }

  /** Writing the key that is already the tail only updates its value, and
      the list it keeps is the one the general path (unlink, then append)
      would have built. */
  lemma PutTailKey<K, V>(c: Cache<K, V>, k: K, v: V)
    requires c.Valid() && c.Size() > 0 && Last(c.recency) == k
    ensures Put(c, k, v).recency == c.recency
    ensures Put(c, k, v).recency == MoveToBack(c.recency, k)
  {
    MoveToBackOfLast(c.recency, k);
  }

  /** A successful find leaves every key listed, moves the key read to the
      tail and keeps the others in their relative order. */
  lemma FindListedKey<K, V>(c: Cache<K, V>, k: K)
    requires c.Valid() && k in c.recency
    ensures FindStep(c, Some(k)).1.recency == MoveToBack(c.recency, k)
    ensures forall x :: x in c.recency <==> x in FindStep(c, Some(k)).1.recency
    ensures Without(FindStep(c, Some(k)).1.recency, k) == Without(c.recency, k)
  {
    MoveToBackNoDup(c.recency, k);
    WithoutMoveToBack(c.recency, k);
  }

  /** What a find answers, read off the list and the map. */
  lemma FindOnListed<K, V>(c: Cache<K, V>, k: K)
    requires c.Valid()
    ensures k in c.recency ==> k in c.entries && FindStep(c, Some(k)).0 == Ok(c.entries[k])
    ensures k !in c.recency ==> FindStep(c, Some(k)).0 == Err(KeyNotFound)
  {
  }

  /** A find never adds or drops a listed key: the list after it is a
      permutation of the list before. */
  lemma FindPermutes<K, V>(c: Cache<K, V>, key: Option<K>)
    requires c.Valid()
    ensures multiset(FindStep(c, key).1.recency) == multiset(c.recency)
  {
    if key.Some? && key.value in c.recency {
      MoveToBackPermutes(c.recency, key.value);
    }
  }

  /** With capacity one only the key last written or read is listed. */
  lemma CapacityOne<K, V>(c: Cache<K, V>, k: K, v: V)
    requires c.Valid() && c.capacity == 1
    ensures Put(c, k, v).recency == [k]
    ensures k in c.recency ==> FindStep(c, Some(k)).1.recency == [k]
  {
  }

  /** The class the Java code defines: the capacity is final, the map of
      values and the recency list are updated in place. */
  class ForgettingMap<K(==), V> {
    const capacity: int
    var entries: map<K, V>
    var recency: seq<K>

    /** The fields as a Cache value. */
    function Model(): Cache<K, V>
      reads this
    {
      Cache(capacity, entries, recency)
    }

    ghost predicate Valid()
      reads this
    {
      Model().Valid()
    }

    /** The field initialisers of the Java constructor; reached only through
        New, after the capacity has been checked. */
    constructor (capacity: int)
      requires capacity >= 1
      ensures Valid()
      ensures Init<K, V>(capacity) == Ok(Model())
    {
      this.capacity := capacity;
      entries := map[];
      recency := [];
    }

    /** new ForgettingMap(capacity): throws NotInitialized for a capacity
        below one and otherwise yields a new, empty map. */
    static method New(capacity: int) returns (r: Result<ForgettingMap<K, V>>)
      ensures r.Err? <==> capacity < 1
      ensures r.Err? ==> r.error == NotInitialized
      ensures r.Ok? ==> fresh(r.value) && r.value.Valid() && Init<K, V>(capacity) == Ok(r.value.Model())
    {
      if capacity < 1 {
        return Err(NotInitialized);
      }
      var m := new ForgettingMap(capacity);
      return Ok(m);
    }

    /** add(key, value). */
    method Add(key: Option<K>, value: Option<V>) returns (r: Outcome)
      requires Valid()
      modifies this
      ensures (r, Model()) == AddStep(old(Model()), key, value)
      ensures Valid()
    {
      if key.None? {
        return Fail(KeyNull);
      }
      if value.None? {
        return Fail(ValueNull);
      }
      MoveTheKeyToTopAndRemoveOldestElement(key.value, value.value);
      return Pass;
    }

    /** find(key). */
    method Find(key: Option<K>) returns (r: Result<V>)
      requires Valid()
      modifies this
      ensures (r, Model()) == FindStep(old(Model()), key)
      ensures Valid()
    {
      if key.None? {
        return Err(KeyNull);
      }
      var listed := Contains(recency, key.value);
      if !listed {
        return Err(KeyNotFound);
      }
      var v := MoveTheKeyToTopAndFindValue(key.value);
      return Ok(v);
    }

    /** getSize(): the number of listed keys, never above the capacity. */
    function GetSize(): (n: int)
      reads this
      requires Valid()
      ensures n == |recency| && 0 <= n <= capacity
    {
      |recency|
    }

    /** getCapacity(): the capacity given at construction, at least one. */
    function GetCapacity(): (n: int)
      reads this
      requires Valid()
      ensures n == capacity && n >= 1
    {
      capacity
    }

    /** The private moveTheKeyToTopAndFindValue. */
    method MoveTheKeyToTopAndFindValue(k: K) returns (v: V)
      requires Valid() && k in recency
      modifies this
      ensures (v, Model()) == Get(old(Model()), k)
      ensures Valid()
    {
      recency := Remove(recency, k);
      recency := recency + [k];
      v := entries[k];
    }

    /** The private moveTheKeyToTopAndRemoveOldestElement. */
    method MoveTheKeyToTopAndRemoveOldestElement(k: K, v: V)
      requires Valid()
      modifies this
      ensures Model() == Put(old(Model()), k, v)
      ensures Valid()
    {
      entries := entries[k := v];
      if |recency| > 0 && recency[|recency| - 1] == k {
        return;
      }
      var listed := false;
      if |recency| > 0 {
        listed := Contains(recency, k);
      }
      if listed {
        recency := Remove(recency, k);
      } else if |recency| >= capacity {
        recency := recency[1..];
      }
      recency := recency + [k];
    }
  }
}
