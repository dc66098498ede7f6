/** `list.sort(key=..., reverse=True)` on lists whose keys are lists of
    integers compared as Python compares lists. The sort is stable: the
    `reverse` flag still keeps elements of equal key in their original
    order. Its result is therefore the insertion of each element, in input
    order, before the first element whose key is strictly smaller. */
module StableSort {
  import opened VersionKey
  import opened Subsequences

  function InsertByKey<T>(s: seq<T>, x: T, key: T -> seq<int>): (r: seq<T>)
    ensures multiset(r) == multiset(s) + multiset{x}
  {
    if s == [] then [x]
    else if KeyLess(key(s[0]), key(x)) then [x] + s
    else
      assert s == [s[0]] + s[1..];
      [s[0]] + InsertByKey(s[1..], x, key)
  }

  function SortByKeyDesc<T>(xs: seq<T>, key: T -> seq<int>): (r: seq<T>)
    ensures multiset(r) == multiset(xs)
  {
    if xs == [] then []
    else
      assert xs == xs[..|xs| - 1] + [xs[|xs| - 1]];
      InsertByKey(SortByKeyDesc(xs[..|xs| - 1], key), xs[|xs| - 1], key)
  }

  /** Non-increasing keys. */
  predicate SortedByKeyDesc<T>(s: seq<T>, key: T -> seq<int>) {
    forall i, j :: 0 <= i < j < |s| ==> !KeyLess(key(s[i]), key(s[j]))
  }

  lemma {:induction false} InsertByKeySorted<T>(s: seq<T>, x: T, key: T -> seq<int>)
    requires SortedByKeyDesc(s, key)
    ensures SortedByKeyDesc(InsertByKey(s, x, key), key)
  {
    var r := InsertByKey(s, x, key);
    if s == [] {
    } else if KeyLess(key(s[0]), key(x)) {
      FrontSorted(s, x, key);
    } else {
      var t := s[1..];
      var tail := InsertByKey(t, x, key);
      SortedTail(s, key);
      InsertByKeySorted(t, x, key);
      assert r == [s[0]] + tail;
      assert NoneAbove(t, key, key(s[0])) by {
        forall j | 0 <= j < |t| ensures !KeyLess(key(s[0]), key(t[j])) {
          assert t[j] == s[j + 1];
        }
      }
      InsertByKeyNoneAbove(t, x, key, key(s[0]));
      ConsSorted(s[0], tail, key);
    }
  }

  /** A sorted list with no key above `y`'s stays sorted with `y` in front. */
  lemma ConsSorted<T>(y: T, s: seq<T>, key: T -> seq<int>)
    requires SortedByKeyDesc(s, key) && NoneAbove(s, key, key(y))
    ensures SortedByKeyDesc([y] + s, key)
  {
    var r := [y] + s;
    forall i, j | 0 <= i < j < |r| ensures !KeyLess(key(r[i]), key(r[j])) {
      if i > 0 {
        assert r[i] == s[i - 1] && r[j] == s[j - 1];
      } else {
        assert r[j] == s[j - 1];
      }
    }
  }

  /** An element whose key is above the first key of a sorted list can go
      in front of it. */
  lemma FrontSorted<T>(s: seq<T>, x: T, key: T -> seq<int>)
    requires SortedByKeyDesc(s, key) && s != [] && KeyLess(key(s[0]), key(x))
    ensures SortedByKeyDesc([x] + s, key)
  {
    var r := [x] + s;
    forall i, j | 0 <= i < j < |r| ensures !KeyLess(key(r[i]), key(r[j])) {
      if i == 0 {
        if j == 1 {
          KeyLessAsymmetric(key(s[0]), key(x));
        } else if KeyLess(key(x), key(s[j - 1])) {
          KeyLessTransitive(key(s[0]), key(x), key(s[j - 1]));
        }
      } else {
        assert r[i] == s[i - 1] && r[j] == s[j - 1];
      }
    }
  }

  lemma SortedTail<T>(s: seq<T>, key: T -> seq<int>)
    requires SortedByKeyDesc(s, key) && s != []
    ensures SortedByKeyDesc(s[1..], key)
  {
    var t := s[1..];
    forall i, j | 0 <= i < j < |t| ensures !KeyLess(key(t[i]), key(t[j])) {
      assert t[i] == s[i + 1] && t[j] == s[j + 1];
    }
  }

  /** No key of `s` is above `k0`. */
  predicate NoneAbove<T>(s: seq<T>, key: T -> seq<int>, k0: seq<int>) {
    forall i :: 0 <= i < |s| ==> !KeyLess(k0, key(s[i]))
  }

  /** Inserting an element whose key is not above `k0` keeps every key at
      most `k0`. */
  lemma {:induction false} InsertByKeyNoneAbove<T>(s: seq<T>, x: T, key: T -> seq<int>, k0: seq<int>)
    requires NoneAbove(s, key, k0) && !KeyLess(k0, key(x))
    ensures NoneAbove(InsertByKey(s, x, key), key, k0)
  {
    var r := InsertByKey(s, x, key);
    if s == [] {
    } else if KeyLess(key(s[0]), key(x)) {
      forall i | 0 <= i < |r| ensures !KeyLess(k0, key(r[i])) {
        if i > 0 {
          assert r[i] == s[i - 1];
        }
      }
    } else {
      var t := s[1..];
      assert NoneAbove(t, key, k0) by {
        forall i | 0 <= i < |t| ensures !KeyLess(k0, key(t[i])) {
          assert t[i] == s[i + 1];
        }
      }
      InsertByKeyNoneAbove(t, x, key, k0);
      var it := InsertByKey(t, x, key);
      assert r == [s[0]] + it;
      forall i | 0 <= i < |r| ensures !KeyLess(k0, key(r[i])) {
        if i > 0 {
          assert r[i] == it[i - 1];
        }
      }
    }
  }

  /** The sort orders by non-increasing key. */
  lemma {:induction false} SortByKeyDescSorted<T>(xs: seq<T>, key: T -> seq<int>)
    ensures SortedByKeyDesc(SortByKeyDesc(xs, key), key)
  {
    if xs != [] {
      SortByKeyDescSorted(xs[..|xs| - 1], key);
      InsertByKeySorted(SortByKeyDesc(xs[..|xs| - 1], key), xs[|xs| - 1], key);
    }
  }

  /** The elements whose key is `k`. */
  function HasKey<T>(key: T -> seq<int>, k: seq<int>): T -> bool {
    x => key(x) == k
  }

  lemma {:induction false} KeepNone<T>(xs: seq<T>, p: T -> bool)
    requires forall i :: 0 <= i < |xs| ==> !p(xs[i])
    ensures Keep(xs, p) == []
  {
    if xs != [] {
      KeepNone(xs[..|xs| - 1], p);
    }
  }

  /** In a sorted list whose first key is below `k`, no key is `k`. */
  lemma NoneOfGreaterKey<T>(s: seq<T>, key: T -> seq<int>, k: seq<int>)
    requires SortedByKeyDesc(s, key) && s != [] && KeyLess(key(s[0]), k)
    ensures forall i :: 0 <= i < |s| ==> !HasKey(key, k)(s[i])
  {
    KeyLessIrreflexive(k);
    forall i | 0 < i < |s| ensures key(s[i]) != k {
      assert !KeyLess(key(s[0]), key(s[i]));
    }
  }

  lemma {:induction false} InsertByKeyStable<T>(s: seq<T>, x: T, key: T -> seq<int>, k: seq<int>)
    requires SortedByKeyDesc(s, key)
    ensures Keep(InsertByKey(s, x, key), HasKey(key, k)) ==
      if key(x) == k then Keep(s, HasKey(key, k)) + [x] else Keep(s, HasKey(key, k))
  {
    var p := HasKey(key, k);
    if s == [] {
      KeepCons(x, s, p);
    } else if KeyLess(key(s[0]), key(x)) {
      KeepCons(x, s, p);
      if key(x) == k {
        NoneOfGreaterKey(s, key, k);
        KeepNone(s, p);
      }
    } else {
      var t := s[1..];
      var it := InsertByKey(t, x, key);
      assert s == [s[0]] + t;
      assert InsertByKey(s, x, key) == [s[0]] + it;
      SortedTail(s, key);
      InsertByKeyStable(t, x, key, k);
      KeepCons(s[0], t, p);
      KeepCons(s[0], it, p);
      if p(s[0]) && key(x) == k {
        AppendAssoc([s[0]], Keep(t, p), [x]);
      }
    }
  }

  /** The sort is stable: for every key, the elements of that key appear in
      the same order as in the input. */
  lemma {:induction false} SortByKeyDescStable<T>(xs: seq<T>, key: T -> seq<int>, k: seq<int>)
    ensures Keep(SortByKeyDesc(xs, key), HasKey(key, k)) == Keep(xs, HasKey(key, k))
  {
    if xs != [] {
      var n := |xs| - 1;
      SortByKeyDescStable(xs[..n], key, k);
      SortByKeyDescSorted(xs[..n], key);
      InsertByKeyStable(SortByKeyDesc(xs[..n], key), xs[n], key, k);
    }
  }
}
