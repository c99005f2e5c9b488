/**
 * Array.prototype.sort with a comparator `(a, b) => key(a) - key(b)`: the
 * language guarantees a stable sort, so equal keys keep their input order.
 */
module StableSort {

  predicate SortedBy<T>(s: seq<T>, key: T -> nat) {
    forall i, j :: 0 <= i < j < |s| ==> key(s[i]) <= key(s[j])
  }

  /** The elements of s whose key is k, in their order in s. */
  function WithKey<T>(s: seq<T>, key: T -> nat, k: nat): seq<T>
  {
    if s == [] then []
    else (if key(s[0]) == k then [s[0]] else []) + WithKey(s[1..], key, k)
  }

  /** WithKey keeps exactly the elements with key k. */
  lemma {:induction false} WithKeyMembers<T>(s: seq<T>, key: T -> nat, k: nat)
    ensures forall i :: 0 <= i < |WithKey(s, key, k)| ==> WithKey(s, key, k)[i] in s && key(WithKey(s, key, k)[i]) == k
    ensures forall i :: 0 <= i < |s| && key(s[i]) == k ==> s[i] in WithKey(s, key, k)
  {
    if s != [] {
      WithKeyMembers(s[1..], key, k);
      var head := if key(s[0]) == k then [s[0]] else [];
      assert WithKey(s, key, k) == head + WithKey(s[1..], key, k);
      forall i | 0 <= i < |s| && key(s[i]) == k ensures s[i] in WithKey(s, key, k) {
        if i > 0 { assert s[i] == s[1..][i - 1]; }
      }
    }
  }

  /**
   * Puts x in front of the first element whose key is at least x's, so x
   * goes ahead of the elements that share its key.
   */
  function Insert<T>(x: T, s: seq<T>, key: T -> nat): seq<T>
  {
    if s == [] then [x]
    else if key(x) <= key(s[0]) then [x] + s
    else [s[0]] + Insert(x, s[1..], key)
  }

  /** Insert adds exactly x. */
  lemma {:induction false} InsertMultiset<T>(x: T, s: seq<T>, key: T -> nat)
    ensures multiset(Insert(x, s, key)) == multiset(s) + multiset{x}
  {
    if s != [] && key(x) > key(s[0]) {
      InsertMultiset(x, s[1..], key);
      assert s == [s[0]] + s[1..];
    }
  }

  /** Inserting into a sorted sequence keeps it sorted. */
  lemma {:induction false} InsertSorted<T>(x: T, s: seq<T>, key: T -> nat)
    requires SortedBy(s, key)
    ensures SortedBy(Insert(x, s, key), key)
  {
    if s != [] && key(x) > key(s[0]) {
      var t := Insert(x, s[1..], key);
      InsertSorted(x, s[1..], key);
      InsertMultiset(x, s[1..], key);
      assert s == [s[0]] + s[1..];
      var r := [s[0]] + t;
      forall j | 0 < j < |r| ensures key(s[0]) <= key(r[j]) {
        assert r[j] == t[j - 1];
        assert t[j - 1] in multiset(t);
        if t[j - 1] != x {
          assert t[j - 1] in multiset(s[1..]);
        }
      }
    }
  }

  lemma WithKeyCons<T>(x: T, s: seq<T>, key: T -> nat, k: nat)
    ensures WithKey([x] + s, key, k) == (if key(x) == k then [x] else []) + WithKey(s, key, k)
  {
    assert ([x] + s)[1..] == s;
  }

  /** The entries of Insert(x, s) with key k: x first if it has that key, then those of s. */
  lemma {:induction false} InsertWithKey<T>(x: T, s: seq<T>, key: T -> nat, k: nat)
    ensures WithKey(Insert(x, s, key), key, k) == (if key(x) == k then [x] else []) + WithKey(s, key, k)
  {
    if s == [] {
      WithKeyCons(x, [], key, k);
    } else if key(x) <= key(s[0]) {
      WithKeyCons(x, s, key, k);
    } else {
      var t := Insert(x, s[1..], key);
      InsertWithKey(x, s[1..], key, k);
      WithKeyCons(s[0], t, key, k);
      assert Insert(x, s, key) == [s[0]] + t;
      assert WithKey(s, key, k) == (if key(s[0]) == k then [s[0]] else []) + WithKey(s[1..], key, k);
      if key(x) == k {
        assert key(s[0]) != k;
      } else {
        assert WithKey(t, key, k) == WithKey(s[1..], key, k);
      }
    }
  }

  /** Insertion sort; it is stable. */
  function SortBy<T>(s: seq<T>, key: T -> nat): (r: seq<T>)
    ensures multiset(r) == multiset(s)
    ensures SortedBy(r, key)
  {
    if s == [] then []
    else
      assert s == [s[0]] + s[1..];
      var t := SortBy(s[1..], key);
      InsertSorted(s[0], t, key);
      InsertMultiset(s[0], t, key);
      Insert(s[0], t, key)
  }

  /** Stability: within each key, SortBy keeps the input order. */
  lemma {:induction false} SortByIsStable<T>(s: seq<T>, key: T -> nat, k: nat)
    ensures WithKey(SortBy(s, key), key, k) == WithKey(s, key, k)
  {
    if s != [] {
      SortByIsStable(s[1..], key, k);
      InsertWithKey(s[0], SortBy(s[1..], key), key, k);
    }
  }

  /** Two sorted sequences with the same elements per key start with the same key. */
  lemma SameFirstKey<T>(a: seq<T>, b: seq<T>, key: T -> nat)
    requires SortedBy(a, key) && SortedBy(b, key) && a != [] && b != []
    requires forall k :: WithKey(a, key, k) == WithKey(b, key, k)
    ensures key(a[0]) == key(b[0])
  {
    var ka, kb := key(a[0]), key(b[0]);
    WithKeyMembers(a, key, kb);
    WithKeyMembers(b, key, kb);
    WithKeyMembers(a, key, ka);
    WithKeyMembers(b, key, ka);
    assert b[0] in WithKey(a, key, kb);
    assert a[0] in WithKey(b, key, ka);
  }

  /** Removing heads with the same key, the tails still agree on key k. */
  lemma TailsAgreeOn<T>(a: seq<T>, b: seq<T>, key: T -> nat, k: nat)
    requires a != [] && b != [] && key(a[0]) == key(b[0])
    requires WithKey(a, key, k) == WithKey(b, key, k)
    ensures WithKey(a[1..], key, k) == WithKey(b[1..], key, k)
  {
    var wa, wb := WithKey(a[1..], key, k), WithKey(b[1..], key, k);
    if k == key(a[0]) {
      assert WithKey(a, key, k) == [a[0]] + wa && WithKey(b, key, k) == [b[0]] + wb;
      assert ([a[0]] + wa)[1..] == wa && ([b[0]] + wb)[1..] == wb;
    } else {
      assert WithKey(a, key, k) == [] + wa && WithKey(b, key, k) == [] + wb;
      assert [] + wa == wa && [] + wb == wb;
    }
  }

  /** Sequences whose heads share a key and that agree on it have the same head. */
  lemma SameHead<T>(a: seq<T>, b: seq<T>, key: T -> nat)
    requires a != [] && b != [] && key(a[0]) == key(b[0])
    requires WithKey(a, key, key(a[0])) == WithKey(b, key, key(a[0]))
    ensures a[0] == b[0]
  {
    var wa, wb := WithKey(a[1..], key, key(a[0])), WithKey(b[1..], key, key(a[0]));
    assert WithKey(a, key, key(a[0])) == [a[0]] + wa && WithKey(b, key, key(a[0])) == [b[0]] + wb;
    assert ([a[0]] + wa)[0] == a[0] && ([b[0]] + wb)[0] == b[0];
  }

  /**
   * A sequence sorted by key is determined by the order of its elements
   * within each key, so every stable sort gives the same result as SortBy.
   */
  lemma {:induction false} StableSortIsUnique<T>(a: seq<T>, b: seq<T>, key: T -> nat)
    requires SortedBy(a, key) && SortedBy(b, key)
    requires forall k :: WithKey(a, key, k) == WithKey(b, key, k)
    ensures a == b
  {
    if a == [] || b == [] {
      if a != [] {
        WithKeyMembers(a, key, key(a[0]));
        assert false;
      }
      if b != [] {
        WithKeyMembers(b, key, key(b[0]));
        assert false;
      }
    } else {
      SameFirstKey(a, b, key);
      SameHead(a, b, key);
      forall k ensures WithKey(a[1..], key, k) == WithKey(b[1..], key, k) {
        TailsAgreeOn(a, b, key, k);
      }
      StableSortIsUnique(a[1..], b[1..], key);
      assert a == [a[0]] + a[1..] && b == [b[0]] + b[1..];
    }
  }
}
