/** Sorting by a key, as `List<T>.Sort` with a comparer and `std::sort` do:
    neither is stable, so the only promise is that the result is a permutation
    of the input ordered by the key. */
module Sorting {

  ghost predicate SortedBy<T>(s: seq<T>, key: T -> real)
  {
    forall i, j :: 0 <= i < j < |s| ==> key(s[i]) <= key(s[j])
  }

  /** Inserts `x` into the already ordered `s`, after every element whose key is
      not greater than `x`'s. */
  method Insert<T>(s: seq<T>, x: T, key: T -> real) returns (r: seq<T>)
    requires SortedBy(s, key)
    ensures SortedBy(r, key)
    ensures multiset(r) == multiset(s) + multiset{x}
    ensures |r| == |s| + 1
  {
    var k := 0;
    while k < |s| && key(s[k]) <= key(x)
      invariant 0 <= k <= |s|
      invariant forall i :: 0 <= i < k ==> key(s[i]) <= key(x)
    {
      k := k + 1;
    }
    r := s[..k] + [x] + s[k..];
    InsertAt(s, k, x, key);
  }

  lemma InsertAt<T>(s: seq<T>, k: nat, x: T, key: T -> real)
    requires SortedBy(s, key) && k <= |s|
    requires forall i :: 0 <= i < k ==> key(s[i]) <= key(x)
    requires k < |s| ==> key(x) < key(s[k])
    ensures SortedBy(s[..k] + [x] + s[k..], key)
    ensures multiset(s[..k] + [x] + s[k..]) == multiset(s) + multiset{x}
  {
    var r := s[..k] + [x] + s[k..];
    InsertedElements(s, k, x);
    InsertedSorted(s, k, x, key, r);
    InsertedMultiset(s, k, x);
  }

  lemma InsertedElements<T>(s: seq<T>, k: nat, x: T)
    requires k <= |s|
    ensures var r := s[..k] + [x] + s[k..];
      && |r| == |s| + 1 && r[k] == x
      && (forall i :: 0 <= i < k ==> r[i] == s[i])
      && (forall i :: k < i < |r| ==> r[i] == s[i - 1])
  {
    var r := s[..k] + [x] + s[k..];
    forall i | 0 <= i < k ensures r[i] == s[i] {
      assert r[i] == s[..k][i];
    }
    forall i | k < i < |r| ensures r[i] == s[i - 1] {
      assert r[i] == s[k..][i - k - 1];
    }
  }

  lemma InsertedMultiset<T>(s: seq<T>, k: nat, x: T)
    requires k <= |s|
    ensures multiset(s[..k] + [x] + s[k..]) == multiset(s) + multiset{x}
  {
    calc {
      multiset(s[..k] + [x] + s[k..]);
      multiset(s[..k]) + multiset{x} + multiset(s[k..]);
      { assert s == s[..k] + s[k..]; }
      multiset(s) + multiset{x};
    }
  }

  lemma InsertedSorted<T>(s: seq<T>, k: nat, x: T, key: T -> real, r: seq<T>)
    requires SortedBy(s, key) && k <= |s| && |r| == |s| + 1
    requires forall i :: 0 <= i < k ==> key(s[i]) <= key(x)
    requires k < |s| ==> key(x) < key(s[k])
    requires forall i :: 0 <= i < k ==> r[i] == s[i]
    requires r[k] == x
    requires forall i :: k < i < |r| ==> r[i] == s[i - 1]
    ensures SortedBy(r, key)
  {
    forall i, j | 0 <= i < j < |r| ensures key(r[i]) <= key(r[j]) {
      if j < k {
        assert r[i] == s[i] && r[j] == s[j];
      } else if j == k {
        assert r[i] == s[i] && r[j] == x;
      } else if i < k {
        assert r[i] == s[i] && r[j] == s[j - 1];
        assert key(s[i]) <= key(s[j - 1]);
      } else if i == k {
        assert r[i] == x && r[j] == s[j - 1];
        assert key(s[k]) <= key(s[j - 1]);
      } else {
        assert r[i] == s[i - 1] && r[j] == s[j - 1];
      }
    }
  }

  /** Some permutation of `s` ordered by `key`. */
  method SortByKey<T>(s: seq<T>, key: T -> real) returns (r: seq<T>)
    ensures multiset(r) == multiset(s)
    ensures |r| == |s|
    ensures SortedBy(r, key)
  {
    r := [];
    var i := 0;
    while i < |s|
      invariant 0 <= i <= |s|
      invariant multiset(r) == multiset(s[..i])
      invariant |r| == i
      invariant SortedBy(r, key)
    {
      r := Insert(r, s[i], key);
      assert s[..i + 1] == s[..i] + [s[i]];
      i := i + 1;
    }
    assert s[..i] == s;
  }
}
