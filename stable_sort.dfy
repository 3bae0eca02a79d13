/** Python's `list.sort(key=...)`, which is stable. It is modelled by an
    insertion sort whose result is proved sorted, a permutation of its input,
    and order-preserving among elements with equal keys. Any result with
    those properties is the same sequence, so this sort gives exactly what
    Python's sort gives. */
module StableSort {

  predicate SortedBy<T>(s: seq<T>, key: T -> int)
  {
    forall i, j :: 0 <= i < j < |s| ==> key(s[i]) <= key(s[j])
  }

  /** The elements of `s` whose key is `k`, in their order in `s`. */
  function WithKey<T>(s: seq<T>, key: T -> int, k: int): seq<T>
  {
    if s == [] then [] else (if key(s[0]) == k then [s[0]] else []) + WithKey(s[1..], key, k)
  }

  function Insert<T>(x: T, s: seq<T>, key: T -> int): (r: seq<T>)
    ensures multiset(r) == multiset(s) + multiset{x}
  {
    if s == [] || key(x) < key(s[0]) then [x] + s
    else
      assert s == [s[0]] + s[1..];
      [s[0]] + Insert(x, s[1..], key)
  }

  /** Sorts `s` by ascending key, keeping equal-key elements in input order. */
  function SortBy<T>(s: seq<T>, key: T -> int): (r: seq<T>)
    ensures multiset(r) == multiset(s)
    ensures SortedBy(r, key)
  {
    if s == [] then []
    else
      var init := SortBy(s[..|s| - 1], key);
      InsertSorted(s[|s| - 1], init, key);
      assert s == s[..|s| - 1] + [s[|s| - 1]];
      Insert(s[|s| - 1], init, key)
  }

  lemma {:induction false} InsertSorted<T>(x: T, s: seq<T>, key: T -> int)
    requires SortedBy(s, key)
    ensures SortedBy(Insert(x, s, key), key)
  {
    if s != [] && key(x) >= key(s[0]) {
      var t := Insert(x, s[1..], key);
      InsertSorted(x, s[1..], key);
      InsertMembers(x, s[1..], key);
      forall j | 0 <= j < |t| ensures key(s[0]) <= key(t[j]) {
        if t[j] != x {
          assert t[j] in t && t[j] in s[1..];
          var i :| 0 <= i < |s[1..]| && s[1..][i] == t[j];
          assert s[i + 1] == t[j];
        }
      }
      SortedCons(s[0], t, key);
    }
  }

  lemma InsertMembers<T>(x: T, s: seq<T>, key: T -> int)
    ensures forall y :: y in Insert(x, s, key) ==> y == x || y in s
  {
    var r := Insert(x, s, key);
    forall y | y in r ensures y == x || y in s {
      assert y in multiset(r);
    }
  }

  lemma SortedCons<T>(a: T, t: seq<T>, key: T -> int)
    requires SortedBy(t, key) && forall j :: 0 <= j < |t| ==> key(a) <= key(t[j])
    ensures SortedBy([a] + t, key)
  {
    var r := [a] + t;
    forall i, j | 0 <= i < j < |r| ensures key(r[i]) <= key(r[j]) {
      assert r[j] == t[j - 1];
      if i > 0 { assert r[i] == t[i - 1]; }
    }
  }

  lemma {:induction false} WithKeyAppend<T>(s: seq<T>, y: T, key: T -> int, k: int)
    ensures WithKey(s + [y], key, k) == WithKey(s, key, k) + (if key(y) == k then [y] else [])
  {
    if s != [] {
      WithKeyAppend(s[1..], y, key, k);
      assert (s + [y])[1..] == s[1..] + [y];
    }
  }

  lemma {:induction false} WithKeyBelowSorted<T>(s: seq<T>, key: T -> int, k: int)
    requires SortedBy(s, key) && s != [] && k < key(s[0])
    ensures WithKey(s, key, k) == []
  {
    if |s| > 1 {
      WithKeyBelowSorted(s[1..], key, k);
    }
  }

  lemma WithKeyCons<T>(y: T, t: seq<T>, key: T -> int, k: int)
    ensures WithKey([y] + t, key, k) == (if key(y) == k then [y] else []) + WithKey(t, key, k)
  {
    assert ([y] + t)[0] == y && ([y] + t)[1..] == t;
  }

  lemma {:induction false} WithKeyInsert<T>(x: T, s: seq<T>, key: T -> int, k: int)
    requires SortedBy(s, key)
    ensures WithKey(Insert(x, s, key), key, k) == WithKey(s, key, k) + (if key(x) == k then [x] else [])
  {
    if s == [] {
      WithKeyCons(x, [], key, k);
    } else if key(x) < key(s[0]) {
      if key(x) == k { WithKeyBelowSorted(s, key, k); }
      WithKeyCons(x, s, key, k);
    } else {
      WithKeyInsert(x, s[1..], key, k);
      WithKeyInsertBehind(x, s, key, k);
    }
  }

  /** The step of `WithKeyInsert` where `x` goes behind the head of `s`. */
  lemma WithKeyInsertBehind<T>(x: T, s: seq<T>, key: T -> int, k: int)
    requires s != [] && key(x) >= key(s[0])
    requires WithKey(Insert(x, s[1..], key), key, k) ==
      WithKey(s[1..], key, k) + (if key(x) == k then [x] else [])
    ensures WithKey(Insert(x, s, key), key, k) == WithKey(s, key, k) + (if key(x) == k then [x] else [])
  {
    var t := Insert(x, s[1..], key);
    var head := if key(s[0]) == k then [s[0]] else [];
    var tail := if key(x) == k then [x] else [];
    InsertBehind(x, s, key);
    WithKeyCons(s[0], t, key, k);
    WithKeyUncons(s, key, k);
    AppendAssoc(head, WithKey(s[1..], key, k), tail);
  }

  lemma InsertBehind<T>(x: T, s: seq<T>, key: T -> int)
    requires s != [] && key(x) >= key(s[0])
    ensures Insert(x, s, key) == [s[0]] + Insert(x, s[1..], key)
  {
  }

  lemma AppendAssoc<T>(a: seq<T>, b: seq<T>, c: seq<T>)
    ensures a + (b + c) == (a + b) + c
  {
  }

  lemma WithKeyUncons<T>(s: seq<T>, key: T -> int, k: int)
    requires s != []
    ensures WithKey(s, key, k) == (if key(s[0]) == k then [s[0]] else []) + WithKey(s[1..], key, k)
  {
  }

  /** Stability: for every key, the elements carrying it appear in the
      sorted result in the same order as in the input. */
  lemma {:induction false} SortByStable<T>(s: seq<T>, key: T -> int, k: int)
    ensures WithKey(SortBy(s, key), key, k) == WithKey(s, key, k)
  {
    if s != [] {
      var init, last := s[..|s| - 1], s[|s| - 1];
      var sortedInit := SortBy(init, key);
      var tail := if key(last) == k then [last] else [];
      calc {
        WithKey(SortBy(s, key), key, k);
        WithKey(Insert(last, sortedInit, key), key, k);
        { WithKeyInsert(last, sortedInit, key, k); }
        WithKey(sortedInit, key, k) + tail;
        { SortByStable(init, key, k); }
        WithKey(init, key, k) + tail;
        { WithKeyAppend(init, last, key, k); }
        WithKey(init + [last], key, k);
        { assert s == init + [last]; }
        WithKey(s, key, k);
      }
    }
  }

  lemma {:induction false} WithKeyHead<T>(s: seq<T>, key: T -> int)
    requires s != []
    ensures WithKey(s, key, key(s[0])) != [] && WithKey(s, key, key(s[0]))[0] == s[0]
  {
  }

  lemma {:induction false} WithKeyMembers<T>(s: seq<T>, key: T -> int, k: int, y: T)
    requires y in WithKey(s, key, k)
    ensures y in s && key(y) == k
  {
    if s != [] {
      if key(s[0]) == k && y == s[0] {
      } else {
        WithKeyMembers(s[1..], key, k, y);
      }
    }
  }

  lemma {:induction false} WithKeyTail<T>(s: seq<T>, key: T -> int, k: int)
    requires s != []
    ensures WithKey(s[1..], key, k) ==
      if key(s[0]) == k then WithKey(s, key, k)[1..] else WithKey(s, key, k)
  {
  }

  /** A sorted sequence is determined by what it holds under each key: two
      sorted sequences that agree on every `WithKey` are equal. */
  lemma {:induction false} SortedByKeysUnique<T>(a: seq<T>, b: seq<T>, key: T -> int)
    requires SortedBy(a, key) && SortedBy(b, key)
    requires forall k :: WithKey(a, key, k) == WithKey(b, key, k)
    ensures a == b
    decreases |a|
  {
    if a == [] && b == [] {
    } else if a == [] {
      WithKeyHead(b, key);
      assert false;
    } else if b == [] {
      WithKeyHead(a, key);
      assert false;
    } else {
      SortedHeadsAgree(a, b, key);
      forall k ensures WithKey(a[1..], key, k) == WithKey(b[1..], key, k) {
        WithKeyTail(a, key, k);
        WithKeyTail(b, key, k);
      }
      SortedByKeysUnique(a[1..], b[1..], key);
      assert a == [a[0]] + a[1..] && b == [b[0]] + b[1..];
    }
  }

  /** Two sorted sequences that agree on every `WithKey` start alike. */
  lemma SortedHeadsAgree<T>(a: seq<T>, b: seq<T>, key: T -> int)
    requires a != [] && b != [] && SortedBy(a, key) && SortedBy(b, key)
    requires forall k :: WithKey(a, key, k) == WithKey(b, key, k)
    ensures a[0] == b[0]
  {
    var ka, kb := key(a[0]), key(b[0]);
    WithKeyHead(a, key);
    WithKeyHead(b, key);
    var wa, wb := WithKey(a, key, ka), WithKey(b, key, kb);
    assert wa == WithKey(b, key, ka) && wb == WithKey(a, key, kb);
    assert a[0] in WithKey(b, key, ka) by { assert wa[0] == a[0]; }
    WithKeyMembers(b, key, ka, a[0]);
    HeadKeyIsLeast(b, key, a[0]);
    assert b[0] in WithKey(a, key, kb) by { assert wb[0] == b[0]; }
    WithKeyMembers(a, key, kb, b[0]);
    HeadKeyIsLeast(a, key, b[0]);
  }

  lemma HeadKeyIsLeast<T>(s: seq<T>, key: T -> int, y: T)
    requires SortedBy(s, key) && y in s
    ensures key(s[0]) <= key(y)
  {
    var j :| 0 <= j < |s| && s[j] == y;
    if j > 0 {
      assert key(s[0]) <= key(s[j]);
    }
  }

  /** Any stable sort of `s` (sorted, and keeping the per-key order of `s`)
      returns exactly `SortBy(s, key)`. */
  lemma StableSortIsSortBy<T>(s: seq<T>, r: seq<T>, key: T -> int)
    requires SortedBy(r, key)
    requires forall k :: WithKey(r, key, k) == WithKey(s, key, k)
    ensures r == SortBy(s, key)
  {
    forall k ensures WithKey(r, key, k) == WithKey(SortBy(s, key), key, k) {
      SortByStable(s, key, k);
    }
    SortedByKeysUnique(r, SortBy(s, key), key);
  }
}
