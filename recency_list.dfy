/** The recency list of ForgettingMap (a java.util.LinkedList of keys, head
    least recently used, tail most recently used) as a sequence, with the
    list operations the map relies on. */
module RecencyList {

  /** No key occurs twice. */
  ghost predicate NoDup<K>(s: seq<K>) {
    forall i, j :: 0 <= i < j < |s| ==> s[i] != s[j]
  }

  /** The tail of the list: LinkedList.peekLast on a non-empty list. */
  function Last<K>(s: seq<K>): (r: K)
    requires |s| > 0
    ensures r in s
  {
    s[|s| - 1]
  }

  /** LinkedList.remove(Object): drop the first occurrence of k, if any. */
  function Without<K(==)>(s: seq<K>, k: K): (r: seq<K>)
    ensures k !in s ==> r == s
    ensures |r| == if k in s then |s| - 1 else |s|
  {
    if s == [] then []
    else
      assert s == [s[0]] + s[1..];
      if s[0] == k then s[1..] else [s[0]] + Without(s[1..], k)
  }

  /** Without takes away one occurrence of k and nothing else. */
  lemma {:induction false} WithoutMultiset<K>(s: seq<K>, k: K)
    ensures multiset(Without(s, k)) == multiset(s) - multiset{k}
  {
    if s != [] {
      assert s == [s[0]] + s[1..];
      WithoutMultiset(s[1..], k);
    }
  }

  /** Remove k wherever it is, then append it as the newest element. */
  function MoveToBack<K(==)>(s: seq<K>, k: K): (r: seq<K>)
    ensures |r| == if k in s then |s| else |s| + 1
    ensures r[|r| - 1] == k
  {
    Without(s, k) + [k]
  }

  /** Removing the first occurrence, stated by its position. */
  lemma {:induction false} WithoutAt<K>(s: seq<K>, k: K, i: nat)
    requires i < |s| && s[i] == k && k !in s[..i]
    ensures Without(s, k) == s[..i] + s[i + 1..]
  {
    if i > 0 {
      var t := s[1..];
      assert s[0] == s[..i][0];
      assert s[0] != k;
      assert t[..i - 1] == s[1..i];
      assert k !in t[..i - 1] by {
        assert forall x :: x in s[1..i] ==> x in s[..i];
      }
      WithoutAt(t, k, i - 1);
      calc {
        Without(s, k);
        [s[0]] + Without(t, k);
        [s[0]] + (t[..i - 1] + t[i..]);
        { assert s[..i] == [s[0]] + t[..i - 1]; assert t[i..] == s[i + 1..]; }
        s[..i] + s[i + 1..];
      }
    }
  }

  /** A list headed by a is free of duplicates exactly when its rest is and
      does not hold a. */
  lemma NoDupCons<K>(a: K, t: seq<K>)
    ensures NoDup([a] + t) <==> a !in t && NoDup(t)
  {
    var s := [a] + t;
    if NoDup(s) {
      forall j | 0 <= j < |t| ensures t[j] != a {
        assert s[j + 1] == t[j] && s[0] == a;
      }
      forall i, j | 0 <= i < j < |t| ensures t[i] != t[j] {
        assert s[i + 1] == t[i] && s[j + 1] == t[j];
      }
    }
    if a !in t && NoDup(t) {
      forall i, j | 0 <= i < j < |s| ensures s[i] != s[j] {
        assert s[j] == t[j - 1];
        if i > 0 {
          assert s[i] == t[i - 1];
        }
      }
    }
  }

  /** Without keeps the list free of duplicates and removes exactly k. */
  lemma {:induction false} WithoutNoDup<K>(s: seq<K>, k: K)
    requires NoDup(s)
    ensures NoDup(Without(s, k))
    ensures forall x :: x in Without(s, k) ==> x in s && x != k
    ensures forall x :: x in s && x != k ==> x in Without(s, k)
  {
    if s != [] {
      assert s == [s[0]] + s[1..];
      NoDupCons(s[0], s[1..]);
      if s[0] != k {
        WithoutNoDup(s[1..], k);
        NoDupCons(s[0], Without(s[1..], k));
      }
    }
  }

  /** Appending a key that is not listed keeps the list free of duplicates. */
  lemma NoDupSnoc<K>(s: seq<K>, k: K)
    requires NoDup(s) && k !in s
    ensures NoDup(s + [k])
  {
  }

  /** MoveToBack keeps the keys, free of duplicates, with k as the tail. */
  lemma {:induction false} MoveToBackNoDup<K>(s: seq<K>, k: K)
    requires NoDup(s)
    ensures NoDup(MoveToBack(s, k))
    ensures forall x :: x in MoveToBack(s, k) ==> x in s || x == k
    ensures forall x :: x in s ==> x in MoveToBack(s, k)
    ensures Last(MoveToBack(s, k)) == k
  {
    WithoutNoDup(s, k);
    NoDupSnoc(Without(s, k), k);
  }

  /** Moving a listed key to the back is a permutation. */
  lemma MoveToBackPermutes<K>(s: seq<K>, k: K)
    requires k in s
    ensures multiset(MoveToBack(s, k)) == multiset(s)
  {
    WithoutMultiset(s, k);
  }

  /** When k is already the tail of a duplicate-free list, moving it to the
      back changes nothing: the shortcut of ForgettingMap.add agrees with its
      general remove-then-append path. */
  lemma {:induction false} MoveToBackOfLast<K>(s: seq<K>, k: K)
    requires NoDup(s) && |s| > 0 && Last(s) == k
    ensures MoveToBack(s, k) == s
  {
    var i := |s| - 1;
    assert k !in s[..i];
    WithoutAt(s, k, i);
    assert s[i + 1..] == [];
    assert Without(s, k) == s[..i];
    assert s[..i] + [s[i]] == s;
  }

  /** Moving an element that was already removed once more is harmless:
      the keys other than k keep their relative order. */
  lemma {:induction false} WithoutMoveToBack<K>(s: seq<K>, k: K)
    requires NoDup(s)
    ensures Without(MoveToBack(s, k), k) == Without(s, k)
  {
    var w := Without(s, k);
    WithoutNoDup(s, k);
    assert (w + [k])[..|w|] == w;
    WithoutAt(w + [k], k, |w|);
  }

  /** LinkedList.contains: a linear scan from the head. */
  method Contains<K(==)>(s: seq<K>, k: K) returns (found: bool)
    ensures found <==> k in s
  {
    var i := 0;
    while i < |s|
      invariant 0 <= i <= |s|
      invariant k !in s[..i]
    {
      if s[i] == k {
        return true;
      }
      assert s[..i + 1] == s[..i] + [s[i]];
      i := i + 1;
    }
    assert s[..i] == s;
    return false;
  }

  /** LinkedList.remove(Object): scan from the head and unlink the first
      node holding k; the list is unchanged when k is absent. */
  method Remove<K(==)>(s: seq<K>, k: K) returns (r: seq<K>)
    ensures r == Without(s, k)
  {
    var i := 0;
    while i < |s|
      invariant 0 <= i <= |s|
      invariant k !in s[..i]
    {
      if s[i] == k {
        WithoutAt(s, k, i);
        return s[..i] + s[i + 1..];
      }
      assert s[..i + 1] == s[..i] + [s[i]];
      i := i + 1;
    }
    assert s[..i] == s;
    return s;
  }
}
