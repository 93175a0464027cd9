/** Stable sorting of a sequence by a real-valued key.

    Both kd-tree builders sort by one coordinate before picking the median:
    the Python builder with `list.sort` (stable), the C++ builder with
    `std::sort` (tie order unspecified).  `SortBy` is a stable insertion sort;
    the C++ model only relies on it being a sorted permutation. */
module Sorting {

  /** `s` is non-decreasing under `key`. */
  ghost predicate SortedBy<T>(s: seq<T>, key: T -> real) {
    forall i, j :: 0 <= i < j < |s| ==> key(s[i]) <= key(s[j])
  }

  /** Inserts `x` after every element of `s` whose key is at most `key(x)`. */
  function Insert<T>(x: T, s: seq<T>, key: T -> real): (r: seq<T>)
    ensures |r| == |s| + 1
    ensures multiset(r) == multiset(s) + multiset{x}
  {
    if s == [] || key(x) < key(s[0]) then [x] + s
    else
      assert s == [s[0]] + s[1..];
      [s[0]] + Insert(x, s[1..], key)
  }

  /** Insertion sort, taking the elements of `s` from first to last. */
  function SortBy<T>(s: seq<T>, key: T -> real): (r: seq<T>)
    ensures |r| == |s|
    ensures multiset(r) == multiset(s)
  {
    if s == [] then []
    else
      assert s == s[..|s| - 1] + [s[|s| - 1]];
      Insert(s[|s| - 1], SortBy(s[..|s| - 1], key), key)
  }

  /** The elements of `s` whose key is exactly `v`, in their order in `s`. */
  function WithKey<T>(s: seq<T>, key: T -> real, v: real): (r: seq<T>)
    ensures |r| <= |s|
    ensures forall i :: 0 <= i < |r| ==> key(r[i]) == v
  {
    if s == [] then []
    else (if key(s[0]) == v then [s[0]] else []) + WithKey(s[1..], key, v)
  }

  lemma {:induction false} InsertSorted<T>(x: T, s: seq<T>, key: T -> real)
    requires SortedBy(s, key)
    ensures SortedBy(Insert(x, s, key), key)
  {
    if s == [] || key(x) < key(s[0]) {
    } else {
      var tail := Insert(x, s[1..], key);
      InsertSorted(x, s[1..], key);
      forall j | 0 <= j < |tail|
        ensures key(s[0]) <= key(tail[j])
      {
        assert tail[j] in multiset(tail);
        if tail[j] != x {
          assert tail[j] in multiset(s[1..]);
          var i :| 0 <= i < |s[1..]| && s[1..][i] == tail[j];
          assert s[i + 1] == tail[j];
        }
      }
    }
  }

  /** The result of `SortBy` is sorted. */
  lemma {:induction false} SortBySorted<T>(s: seq<T>, key: T -> real)
    ensures SortedBy(SortBy(s, key), key)
  {
    if s != [] {
      SortBySorted(s[..|s| - 1], key);
      InsertSorted(s[|s| - 1], SortBy(s[..|s| - 1], key), key);
    }
  }

  lemma {:induction false} WithKeyAppend<T>(a: seq<T>, b: seq<T>, key: T -> real, v: real)
    ensures WithKey(a + b, key, v) == WithKey(a, key, v) + WithKey(b, key, v)
  {
    if a == [] {
      assert a + b == b;
    } else {
      assert (a + b)[1..] == a[1..] + b;
      WithKeyAppend(a[1..], b, key, v);
    }
  }

  lemma {:induction false} WithKeyNone<T>(s: seq<T>, key: T -> real, v: real)
    requires forall i :: 0 <= i < |s| ==> key(s[i]) != v
    ensures WithKey(s, key, v) == []
  {
    if s != [] {
      WithKeyNone(s[1..], key, v);
    }
  }

  lemma WithKeyCons<T>(y: T, s: seq<T>, key: T -> real, v: real)
    ensures WithKey([y] + s, key, v) == WithKey([y], key, v) + WithKey(s, key, v)
  {
    assert ([y] + s)[1..] == s;
    assert WithKey([y], key, v) == (if key(y) == v then [y] else []) + WithKey([], key, v);
  }

  lemma SortedTail<T>(s: seq<T>, key: T -> real)
    requires SortedBy(s, key) && s != []
    ensures SortedBy(s[1..], key)
    ensures forall i :: 0 <= i < |s| ==> key(s[0]) <= key(s[i])
  {
    forall i, j | 0 <= i < j < |s[1..]| ensures key(s[1..][i]) <= key(s[1..][j]) {
      assert s[1..][i] == s[i + 1] && s[1..][j] == s[j + 1];
    }
  }

  lemma InsertStableFront<T>(x: T, s: seq<T>, key: T -> real, v: real)
    requires forall i :: 0 <= i < |s| ==> key(x) < key(s[i])
    ensures WithKey([x] + s, key, v) == WithKey(s, key, v) + WithKey([x], key, v)
  {
    WithKeyCons(x, s, key, v);
    WithKeyCons(x, [], key, v);
    assert [x] + [] == [x];
    if key(x) == v {
      WithKeyNone(s, key, v);
    }
  }

  lemma InsertStableCons<T>(x: T, s: seq<T>, key: T -> real, v: real)
    requires s != [] && key(s[0]) <= key(x)
    requires WithKey(Insert(x, s[1..], key), key, v) == WithKey(s[1..], key, v) + WithKey([x], key, v)
    ensures WithKey(Insert(x, s, key), key, v) == WithKey(s, key, v) + WithKey([x], key, v)
  {
    var tail := Insert(x, s[1..], key);
    assert Insert(x, s, key) == [s[0]] + tail;
    WithKeyCons(s[0], tail, key, v);
    WithKeyCons(s[0], s[1..], key, v);
    assert s == [s[0]] + s[1..];
    ConcatAssoc(WithKey([s[0]], key, v), WithKey(s[1..], key, v), WithKey([x], key, v));
  }

  lemma ConcatAssoc<T>(a: seq<T>, b: seq<T>, c: seq<T>)
    ensures a + (b + c) == (a + b) + c
  {
  }

  lemma {:induction false} InsertStable<T>(x: T, s: seq<T>, key: T -> real, v: real)
    requires SortedBy(s, key)
    ensures WithKey(Insert(x, s, key), key, v) == WithKey(s, key, v) + WithKey([x], key, v)
  {
    if s == [] {
      assert Insert(x, s, key) == [x] + s;
      InsertStableFront(x, s, key, v);
    } else if key(x) < key(s[0]) {
      assert Insert(x, s, key) == [x] + s;
      SortedTail(s, key);
      InsertStableFront(x, s, key, v);
    } else {
      SortedTail(s, key);
      InsertStable(x, s[1..], key, v);
      InsertStableCons(x, s, key, v);
    }
  }

  /** `SortBy` is stable: the elements sharing any one key keep their relative order. */
  lemma {:induction false} SortByStable<T>(s: seq<T>, key: T -> real, v: real)
    ensures WithKey(SortBy(s, key), key, v) == WithKey(s, key, v)
  {
    if s != [] {
      var init, last := s[..|s| - 1], s[|s| - 1];
      SortBySorted(init, key);
      InsertStable(last, SortBy(init, key), key, v);
      SortByStable(init, key, v);
      assert s == init + [last];
      WithKeyAppend(init, [last], key, v);
    }
  }

  lemma {:induction false} InsertAtEnd<T>(x: T, s: seq<T>, key: T -> real)
    requires forall i :: 0 <= i < |s| ==> key(s[i]) <= key(x)
    ensures Insert(x, s, key) == s + [x]
  {
    if s != [] {
      InsertAtEnd(x, s[1..], key);
    }
  }

  /** Sorting an already sorted sequence changes nothing. */
  lemma {:induction false} SortBySortedIsIdentity<T>(s: seq<T>, key: T -> real)
    requires SortedBy(s, key)
    ensures SortBy(s, key) == s
  {
    if s != [] {
      var init, last := s[..|s| - 1], s[|s| - 1];
      assert SortedBy(init, key) by {
        forall i, j | 0 <= i < j < |init| ensures key(init[i]) <= key(init[j]) {
          assert init[i] == s[i] && init[j] == s[j];
        }
      }
      SortBySortedIsIdentity(init, key);
      forall i | 0 <= i < |init| ensures key(init[i]) <= key(last) {
        assert init[i] == s[i];
      }
      InsertAtEnd(last, init, key);
      SplitLast(s);
      calc {
        SortBy(s, key);
        Insert(last, SortBy(init, key), key);
        Insert(last, init, key);
        init + [last];
        s;
      }
    }
  }

  lemma SplitLast<T>(s: seq<T>)
    requires s != []
    ensures s == s[..|s| - 1] + [s[|s| - 1]]
  {
  }

  /** Cutting a sequence around position `m`. */
  lemma SplitAround<T>(s: seq<T>, m: nat)
    requires m < |s|
    ensures s == s[..m] + [s[m]] + s[m + 1..]
    ensures multiset(s) == multiset(s[..m]) + multiset{s[m]} + multiset(s[m + 1..])
  {
    assert s == s[..m] + [s[m]] + s[m + 1..];
  }

  /** In a sorted sequence, everything before position `m` has a key at most
      `key(s[m])` and everything after it a key at least `key(s[m])`. */
  lemma SortedAround<T>(s: seq<T>, key: T -> real, m: nat)
    requires SortedBy(s, key) && m < |s|
    ensures forall x | x in multiset(s[..m]) :: key(x) <= key(s[m])
    ensures forall x | x in multiset(s[m + 1..]) :: key(s[m]) <= key(x)
  {
    forall x | x in multiset(s[..m]) ensures key(x) <= key(s[m]) {
      var front := s[..m];
      assert x in front;
      var i :| 0 <= i < |front| && front[i] == x;
      assert s[i] == x;
    }
    forall x | x in multiset(s[m + 1..]) ensures key(s[m]) <= key(x) {
      var back := s[m + 1..];
      assert x in back;
      var i :| 0 <= i < |back| && back[i] == x;
      assert s[m + 1 + i] == x;
    }
  }
}
