/** `Array.prototype.sort` with a comparator `key(a) - key(b)`, which the language requires
    to be stable: the result is ordered by the key, holds the same elements, and elements
    with equal keys keep their order. Written as insertion sort over sequences. */
module Sorting {

  predicate SortedBy<T>(s: seq<T>, key: T -> int) {
    forall i, j :: 0 <= i < j < |s| ==> key(s[i]) <= key(s[j])
  }

  /** The elements of `s` whose key is `k`, in order. */
  function WithKey<T>(s: seq<T>, key: T -> int, k: int): seq<T> {
    if |s| == 0 then []
    else WithKey(s[..|s| - 1], key, k) + (if key(s[|s| - 1]) == k then [s[|s| - 1]] else [])
  }

  /** `x` placed after every element of `t` whose key is not larger. */
  function InsertByKey<T>(x: T, t: seq<T>, key: T -> int): seq<T> {
    if |t| == 0 || key(t[|t| - 1]) <= key(x) then t + [x]
    else InsertByKey(x, t[..|t| - 1], key) + [t[|t| - 1]]
  }

  function SortByKey<T>(s: seq<T>, key: T -> int): seq<T> {
    if |s| == 0 then []
    else InsertByKey(s[|s| - 1], SortByKey(s[..|s| - 1], key), key)
  }

  lemma {:induction false} InsertByKeyKeeps<T>(x: T, t: seq<T>, key: T -> int)
    ensures multiset(InsertByKey(x, t, key)) == multiset(t) + multiset{x}
    ensures |InsertByKey(x, t, key)| == |t| + 1
  {
    if |t| > 0 && key(t[|t| - 1]) > key(x) {
      InsertByKeyKeeps(x, t[..|t| - 1], key);
      assert t == t[..|t| - 1] + [t[|t| - 1]];
    }
  }

  lemma {:induction false} InsertByKeySorted<T>(x: T, t: seq<T>, key: T -> int)
    requires SortedBy(t, key)
    ensures SortedBy(InsertByKey(x, t, key), key)
  {
    if |t| > 0 && key(t[|t| - 1]) > key(x) {
      var t' := t[..|t| - 1];
      var last := t[|t| - 1];
      InsertByKeySorted(x, t', key);
      InsertByKeyKeeps(x, t', key);
      var r' := InsertByKey(x, t', key);
      forall i | 0 <= i < |r'|
        ensures key(r'[i]) <= key(last)
      {
        assert r'[i] in multiset(r');
        if r'[i] != x {
          assert r'[i] in multiset(t');
          var j :| 0 <= j < |t'| && t'[j] == r'[i];
          assert t'[j] == t[j];
        }
      }
    } else if |t| > 0 {
      forall i | 0 <= i < |t|
        ensures key(t[i]) <= key(x)
      {
        assert key(t[i]) <= key(t[|t| - 1]);
      }
    }
  }

  lemma {:induction false} WithKeyAppend<T>(a: seq<T>, b: seq<T>, key: T -> int, k: int)
    ensures WithKey(a + b, key, k) == WithKey(a, key, k) + WithKey(b, key, k)
    decreases |b|
  {
    if |b| == 0 {
      assert a + b == a;
    } else {
      var b' := b[..|b| - 1];
      assert (a + b)[..|a + b| - 1] == a + b';
      WithKeyAppend(a, b', key, k);
    }
  }

  /** Inserting `x` appends it to the elements of its own key and changes no other key's. */
  lemma {:induction false} InsertByKeyStable<T>(x: T, t: seq<T>, key: T -> int, k: int)
    ensures WithKey(InsertByKey(x, t, key), key, k) == WithKey(t, key, k) + (if key(x) == k then [x] else [])
  {
    if |t| == 0 || key(t[|t| - 1]) <= key(x) {
      WithKeyAppend(t, [x], key, k);
      assert WithKey([x], key, k) == WithKey([], key, k) + (if key(x) == k then [x] else []);
    } else {
      var t' := t[..|t| - 1];
      var last := t[|t| - 1];
      InsertByKeyStable(x, t', key, k);
      WithKeyAppend(InsertByKey(x, t', key), [last], key, k);
      WithKeyAppend(t', [last], key, k);
      assert t' + [last] == t;
      assert WithKey([last], key, k) == WithKey([], key, k) + (if key(last) == k then [last] else []);
    }
  }

  /** The sort orders by the key and only reorders. */
  lemma {:induction false} SortByKeyPermutes<T>(s: seq<T>, key: T -> int)
    ensures SortedBy(SortByKey(s, key), key)
    ensures multiset(SortByKey(s, key)) == multiset(s)
    ensures |SortByKey(s, key)| == |s|
  {
    if |s| > 0 {
      var init := s[..|s| - 1];
      SortByKeyPermutes(init, key);
      InsertByKeySorted(s[|s| - 1], SortByKey(init, key), key);
      InsertByKeyKeeps(s[|s| - 1], SortByKey(init, key), key);
      assert s == init + [s[|s| - 1]];
    }
  }

  /** The sort is stable: the elements of any one key come out in their original order. */
  lemma {:induction false} SortByKeyStable<T>(s: seq<T>, key: T -> int, k: int)
    ensures WithKey(SortByKey(s, key), key, k) == WithKey(s, key, k)
  {
    if |s| > 0 {
      SortByKeyStable(s[..|s| - 1], key, k);
      InsertByKeyStable(s[|s| - 1], SortByKey(s[..|s| - 1], key), key, k);
    }
  }
}
