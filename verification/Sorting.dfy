/** Python's `sorted(xs, key=...)`: the stable sort both the message merge, the mailbox
    collectors, the nonce eviction and the gate store rely on. */
module Sorting {

  /** Inserts `x` behind every element whose key is not greater: equal keys keep their order. */
  function Insert<T>(s: seq<T>, x: T, key: T -> real): (r: seq<T>)
    ensures |r| == |s| + 1
  {
    if s == [] || key(s[|s| - 1]) <= key(x) then s + [x]
    else Insert(s[..|s| - 1], x, key) + [s[|s| - 1]]
  }

  function StableSort<T>(s: seq<T>, key: T -> real): (r: seq<T>)
    ensures |r| == |s|
  {
    if s == [] then [] else Insert(StableSort(s[..|s| - 1], key), s[|s| - 1], key)
  }

  ghost predicate Sorted<T>(s: seq<T>, key: T -> real) {
    forall i, j :: 0 <= i < j < |s| ==> key(s[i]) <= key(s[j])
  }

  /** The elements of `s` with key `v`, in their order. */
  function WithKey<T>(s: seq<T>, key: T -> real, v: real): seq<T> {
    if s == [] then []
    else WithKey(s[..|s| - 1], key, v) + if key(s[|s| - 1]) == v then [s[|s| - 1]] else []
  }

  lemma {:induction false} InsertMultiset<T>(s: seq<T>, x: T, key: T -> real)
    ensures multiset(Insert(s, x, key)) == multiset(s) + multiset{x}
  {
    if s == [] || key(s[|s| - 1]) <= key(x) {
    } else {
      InsertMultiset(s[..|s| - 1], x, key);
      assert s == s[..|s| - 1] + [s[|s| - 1]];
    }
  }

  lemma {:induction false} InsertSorted<T>(s: seq<T>, x: T, key: T -> real)
    requires Sorted(s, key)
    ensures Sorted(Insert(s, x, key), key)
    ensures forall i :: 0 <= i < |s| + 1 ==>
              key(Insert(s, x, key)[i]) <= key(x) || (s != [] && key(Insert(s, x, key)[i]) <= key(s[|s| - 1]))
  {
    if s == [] || key(s[|s| - 1]) <= key(x) {
    } else {
      InsertSorted(s[..|s| - 1], x, key);
    }
  }

  lemma {:induction false} InsertWithKey<T>(s: seq<T>, x: T, key: T -> real, v: real)
    requires Sorted(s, key)
    ensures WithKey(Insert(s, x, key), key, v) == WithKey(s, key, v) + if key(x) == v then [x] else []
  {
    if s == [] || key(s[|s| - 1]) <= key(x) {
      assert (s + [x])[..|s|] == s;
    } else {
      var init, last := s[..|s| - 1], s[|s| - 1];
      InsertWithKey(init, x, key, v);
      assert (Insert(init, x, key) + [last])[..|s|] == Insert(init, x, key);
      // `last` and `x` have different keys, so at most one of them has key `v`
    }
  }

  /** The sort permutes, sorts, and keeps the order of equal keys. */
  lemma {:induction false} StableSortCorrect<T>(s: seq<T>, key: T -> real)
    ensures multiset(StableSort(s, key)) == multiset(s)
    ensures Sorted(StableSort(s, key), key)
    ensures forall v :: WithKey(StableSort(s, key), key, v) == WithKey(s, key, v)
  {
    if s != [] {
      var init, last := s[..|s| - 1], s[|s| - 1];
      assert s == init + [last];
      StableSortCorrect(init, key);
      InsertMultiset(StableSort(init, key), last, key);
      InsertSorted(StableSort(init, key), last, key);
      forall v ensures WithKey(StableSort(s, key), key, v) == WithKey(s, key, v) {
        InsertWithKey(StableSort(init, key), last, key, v);
      }
    }
  }

  lemma {:induction false} SortedIsFixed<T>(s: seq<T>, key: T -> real)
    requires Sorted(s, key)
    ensures StableSort(s, key) == s
  {
    if s != [] {
      SortedIsFixed(s[..|s| - 1], key);
      assert s == s[..|s| - 1] + [s[|s| - 1]];
    }
  }

  lemma {:induction false} WithKeyMember<T>(s: seq<T>, key: T -> real, v: real, x: T)
    ensures x in WithKey(s, key, v) <==> x in s && key(x) == v
  {
    if s != [] {
      WithKeyMember(s[..|s| - 1], key, v, x);
      assert s == s[..|s| - 1] + [s[|s| - 1]];
    }
  }

  lemma AppendCancels<T>(a: seq<T>, b: seq<T>, tail: seq<T>)
    requires a + tail == b + tail
    ensures a == b
  {
    assert |a| == |b|;
    assert a == (a + tail)[..|a|] && b == (b + tail)[..|b|];
  }

  /** Sortedness and stability determine the result: no other list satisfies both. */
  lemma {:induction false} StableSortUnique<T>(a: seq<T>, b: seq<T>, key: T -> real)
    requires Sorted(a, key) && Sorted(b, key)
    requires forall v :: WithKey(a, key, v) == WithKey(b, key, v)
    ensures a == b
  {
    if a == [] || b == [] {
      if a != [] {
        assert WithKey(a, key, key(a[0])) == WithKey(b, key, key(a[0])) == [];
        WithKeyMember(a, key, key(a[0]), a[0]);
      }
      if b != [] {
        assert WithKey(b, key, key(b[0])) == WithKey(a, key, key(b[0])) == [];
        WithKeyMember(b, key, key(b[0]), b[0]);
      }
    } else {
      var x, y := a[|a| - 1], b[|b| - 1];
      WithKeyMember(a, key, key(x), x);
      WithKeyMember(b, key, key(x), x);
      WithKeyMember(b, key, key(y), y);
      WithKeyMember(a, key, key(y), y);
      assert x in WithKey(b, key, key(x)) && y in WithKey(a, key, key(y));
      assert key(x) == key(y);
      assert WithKey(a, key, key(x))[|WithKey(a, key, key(x))| - 1] == x;
      assert WithKey(b, key, key(x))[|WithKey(b, key, key(x))| - 1] == y;
      assert x == y;
      var a', b' := a[..|a| - 1], b[..|b| - 1];
      forall v ensures WithKey(a', key, v) == WithKey(b', key, v) {
        assert WithKey(a, key, v) == WithKey(b, key, v);
        var tail := if key(x) == v then [x] else [];
        AppendCancels(WithKey(a', key, v), WithKey(b', key, v), tail);
      }
      StableSortUnique(a', b', key);
      assert a == a' + [x] && b == b' + [y];
    }
  }
}
