/**
 * Stable sorting of a sequence by an integer key.
 *
 * `Array.prototype.sort` has been required to be stable since ECMAScript 2019,
 * so with a comparator `(a, b) => key(a) - key(b)` it must return the one
 * ordering that is non-decreasing in the key and keeps elements of equal key in
 * their input order. `SortBy` computes that ordering by insertion, and
 * `SortUnique` shows that any ordering with those two properties is `SortBy`'s.
 */
module StableSort {

  /** Keys never decrease from left to right. */
  ghost predicate SortedBy<T>(s: seq<T>, key: T -> int) {
    forall i, j :: 0 <= i < j < |s| ==> key(s[i]) <= key(s[j])
  }

  /** The elements of `s` whose key is `k`, in their order in `s`. */
  function WithKey<T>(s: seq<T>, key: T -> int, k: int): (r: seq<T>)
    ensures |r| <= |s|
    ensures forall i :: 0 <= i < |r| ==> key(r[i]) == k
  {
    if s == [] then [] else (if key(s[0]) == k then [s[0]] else []) + WithKey(s[1..], key, k)
  }

  /** `t` lists the elements of each key in the same order as `s` does. */
  ghost predicate SameOrderPerKey<T>(t: seq<T>, s: seq<T>, key: T -> int) {
    forall k :: WithKey(t, key, k) == WithKey(s, key, k)
  }

  /** `x` placed before the first element of `s` whose key is not smaller. */
  function Insert<T>(x: T, s: seq<T>, key: T -> int): (r: seq<T>)
    ensures |r| == |s| + 1
    ensures multiset(r) == multiset(s) + multiset{x}
  {
    if s == [] || key(x) <= key(s[0]) then [x] + s
    else
      assert s == [s[0]] + s[1..];
      [s[0]] + Insert(x, s[1..], key)
  }

  /** Inserting into a key-sorted sequence keeps it key-sorted. */
  lemma {:induction false} InsertSorted<T>(x: T, s: seq<T>, key: T -> int)
    requires SortedBy(s, key)
    ensures SortedBy(Insert(x, s, key), key)
  {
    if s == [] || key(x) <= key(s[0]) {
      ConsSorted(x, s, key);
    } else {
      var t := Insert(x, s[1..], key);
      InsertPastHead(x, s, key);
      assert SortedBy(s[1..], key);
      InsertSorted(x, s[1..], key);
      assert forall i :: 0 <= i < |s[1..]| ==> key(s[0]) <= key(s[1..][i]);
      InsertLowerBound(x, s[1..], key, key(s[0]));
      ConsSorted(s[0], t, key);
    }
  }

  /** A key bound that holds for `x` and all of `s` holds for all of `Insert(x, s, key)`. */
  lemma {:induction false} InsertLowerBound<T>(x: T, s: seq<T>, key: T -> int, b: int)
    requires b <= key(x) && forall i :: 0 <= i < |s| ==> b <= key(s[i])
    ensures forall i :: 0 <= i < |Insert(x, s, key)| ==> b <= key(Insert(x, s, key)[i])
  {
    var r := Insert(x, s, key);
    if s == [] || key(x) <= key(s[0]) {
      assert r == [x] + s;
      forall i | 0 < i < |r| ensures b <= key(r[i]) {
        assert r[i] == s[i - 1];
      }
    } else {
      InsertPastHead(x, s, key);
      var t := Insert(x, s[1..], key);
      assert forall i :: 0 <= i < |s[1..]| ==> b <= key(s[1..][i]);
      InsertLowerBound(x, s[1..], key, b);
      assert r == [s[0]] + t;
      forall i | 0 < i < |r| ensures b <= key(r[i]) {
        assert r[i] == t[i - 1];
      }
    }
  }

  /** Putting a key no larger than all of a sorted `t` in front keeps it sorted. */
  lemma ConsSorted<T>(y: T, t: seq<T>, key: T -> int)
    requires SortedBy(t, key) && forall i :: 0 <= i < |t| ==> key(y) <= key(t[i])
    ensures SortedBy([y] + t, key)
  {
    var r := [y] + t;
    forall i, j | 0 <= i < j < |r| ensures key(r[i]) <= key(r[j]) {
      assert r[j] == t[j - 1];
      if i > 0 { assert r[i] == t[i - 1]; }
    }
  }

  /** The stable sort of `s` by `key`: insertion from the back. */
  function SortBy<T>(s: seq<T>, key: T -> int): (r: seq<T>)
    ensures |r| == |s|
    ensures multiset(r) == multiset(s)
    ensures SortedBy(r, key)
  {
    if s == [] then []
    else
      var t := SortBy(s[1..], key);
      InsertSorted(s[0], t, key);
      assert s == [s[0]] + s[1..];
      assert multiset(s) == multiset(s[1..]) + multiset{s[0]};
      Insert(s[0], t, key)
  }

  /** `[x]` if `x` has key `k`, else nothing: one step of `WithKey`. */
  function OneWithKey<T>(x: T, key: T -> int, k: int): (r: seq<T>)
    ensures r == WithKey([x], key, k)
  {
    if key(x) == k then [x] else []
  }

  lemma WithKeyCons<T>(x: T, s: seq<T>, key: T -> int, k: int)
    ensures WithKey([x] + s, key, k) == OneWithKey(x, key, k) + WithKey(s, key, k)
  {
    assert ([x] + s)[0] == x && ([x] + s)[1..] == s;
  }

  lemma {:induction false} WithKeyAppend<T>(a: seq<T>, b: seq<T>, key: T -> int, k: int)
    ensures WithKey(a + b, key, k) == WithKey(a, key, k) + WithKey(b, key, k)
  {
    if a == [] {
      assert a + b == b;
    } else {
      assert a + b == [a[0]] + (a[1..] + b) && a == [a[0]] + a[1..];
      WithKeyCons(a[0], a[1..] + b, key, k);
      WithKeyCons(a[0], a[1..], key, k);
      WithKeyAppend(a[1..], b, key, k);
    }
  }

  /** Inserting `x` keeps it ahead of every element of the same key. */
  lemma {:induction false} InsertKeepsKeyOrder<T>(x: T, s: seq<T>, key: T -> int, k: int)
    ensures WithKey(Insert(x, s, key), key, k) == WithKey([x] + s, key, k)
  {
    if s != [] && key(x) > key(s[0]) {
      var y, rest := s[0], s[1..];
      InsertPastHead(x, s, key);
      InsertKeepsKeyOrder(x, rest, key, k);
      WithKeyCons(y, Insert(x, rest, key), key, k);
      WithKeyCons(x, rest, key, k);
      WithKeyCons(y, rest, key, k);
      WithKeyCons(x, s, key, k);
      SwapFronts(OneWithKey(y, key, k), OneWithKey(x, key, k), WithKey(rest, key, k));
    }
  }

  /** Past a head with a smaller key, insertion goes on in the tail. */
  lemma InsertPastHead<T>(x: T, s: seq<T>, key: T -> int)
    requires s != [] && key(x) > key(s[0])
    ensures s == [s[0]] + s[1..]
    ensures Insert(x, s, key) == [s[0]] + Insert(x, s[1..], key)
  {
    assert s == [s[0]] + s[1..];
  }

  lemma SwapFronts<T>(a: seq<T>, b: seq<T>, c: seq<T>)
    requires a == [] || b == []
    ensures a + (b + c) == b + (a + c)
  {
    if a == [] {
      assert a + (b + c) == b + c && a + c == c;
    } else {
      assert b + c == c && b + (a + c) == a + c;
    }
  }

  /** The sort is stable: elements of equal key keep their input order. */
  lemma {:induction false} SortStable<T>(s: seq<T>, key: T -> int)
    ensures SameOrderPerKey(SortBy(s, key), s, key)
  {
    forall k ensures WithKey(SortBy(s, key), key, k) == WithKey(s, key, k) {
      SortKeepsKeyOrder(s, key, k);
    }
  }

  lemma {:induction false} SortKeepsKeyOrder<T>(s: seq<T>, key: T -> int, k: int)
    ensures WithKey(SortBy(s, key), key, k) == WithKey(s, key, k)
  {
    if s != [] {
      var t := SortBy(s[1..], key);
      SortCons(s, key);
      SortKeepsKeyOrder(s[1..], key, k);
      InsertKeepsKeyOrder(s[0], t, key, k);
      WithKeyCons(s[0], t, key, k);
      WithKeyCons(s[0], s[1..], key, k);
    }
  }

  /** One step of `SortBy`: the head is inserted into the sorted tail. */
  lemma SortCons<T>(s: seq<T>, key: T -> int)
    requires s != []
    ensures s == [s[0]] + s[1..]
    ensures SortBy(s, key) == Insert(s[0], SortBy(s[1..], key), key)
  {
    assert s == [s[0]] + s[1..];
  }

  /** Sorting a sequence that is already in key order returns it unchanged. */
  lemma {:induction false} SortIdempotent<T>(s: seq<T>, key: T -> int)
    requires SortedBy(s, key)
    ensures SortBy(s, key) == s
  {
    if s != [] {
      assert SortedBy(s[1..], key);
      SortIdempotent(s[1..], key);
    }
  }

  /** An element of key `k` in `s` makes `WithKey(s, key, k)` non-empty, and back. */
  lemma {:induction false} WithKeyNonEmpty<T>(s: seq<T>, key: T -> int, k: int)
    ensures WithKey(s, key, k) != [] <==> exists i :: 0 <= i < |s| && key(s[i]) == k
  {
    if s != [] {
      WithKeyNonEmpty(s[1..], key, k);
      if key(s[0]) != k && exists i :: 0 <= i < |s| && key(s[i]) == k {
        var i :| 0 <= i < |s| && key(s[i]) == k;
        assert s[1..][i - 1] == s[i];
      }
    }
  }

  /** Two key-sorted sequences that agree key by key are the same sequence. */
  lemma {:induction false} SortedAgreeingEqual<T>(t: seq<T>, u: seq<T>, key: T -> int)
    requires SortedBy(t, key) && SortedBy(u, key)
    requires SameOrderPerKey(t, u, key)
    ensures t == u
    decreases |t| + |u|
  {
    if t != [] && u != [] {
      HeadsEqual(t, u, key);
      TailsAgree(t, u, key);
      assert SortedBy(t[1..], key) && SortedBy(u[1..], key);
      SortedAgreeingEqual(t[1..], u[1..], key);
      assert t == [t[0]] + t[1..] && u == [u[0]] + u[1..];
    } else if t != [] {
      WithKeyNonEmpty(t, key, key(t[0]));
      WithKeyNonEmpty(u, key, key(t[0]));
    } else if u != [] {
      WithKeyNonEmpty(u, key, key(u[0]));
      WithKeyNonEmpty(t, key, key(u[0]));
    }
  }

  /** Two key-sorted sequences that agree key by key start with the same element. */
  lemma HeadsEqual<T>(t: seq<T>, u: seq<T>, key: T -> int)
    requires t != [] && u != []
    requires SortedBy(t, key) && SortedBy(u, key)
    requires SameOrderPerKey(t, u, key)
    ensures t[0] == u[0]
  {
    var k, k' := key(t[0]), key(u[0]);
    WithKeyNonEmpty(t, key, k);
    WithKeyNonEmpty(u, key, k);
    var j :| 0 <= j < |u| && key(u[j]) == k;
    WithKeyNonEmpty(u, key, k');
    WithKeyNonEmpty(t, key, k');
    var i :| 0 <= i < |t| && key(t[i]) == k';
    assert k <= k' <= k;
    assert WithKey(t, key, k)[0] == t[0] && WithKey(u, key, k)[0] == u[0];
  }

  /** Dropping the same head from two sequences that agree key by key leaves tails that agree. */
  lemma TailsAgree<T>(t: seq<T>, u: seq<T>, key: T -> int)
    requires t != [] && u != [] && t[0] == u[0]
    requires SameOrderPerKey(t, u, key)
    ensures SameOrderPerKey(t[1..], u[1..], key)
  {
    assert t == [t[0]] + t[1..] && u == [u[0]] + u[1..];
    forall k ensures WithKey(t[1..], key, k) == WithKey(u[1..], key, k) {
      assert WithKey(t, key, k) == WithKey(u, key, k);
      WithKeyCons(t[0], t[1..], key, k);
      WithKeyCons(u[0], u[1..], key, k);
      var h := OneWithKey(t[0], key, k);
      assert WithKey(t[1..], key, k) == WithKey(t, key, k)[|h|..];
      assert WithKey(u[1..], key, k) == WithKey(u, key, k)[|h|..];
    }
  }

  /**
   * Whatever stable sort produced `t` (TimSort in today's engines, say), `t`
   * is exactly `SortBy(s, key)`.
   */
  lemma SortUnique<T>(s: seq<T>, t: seq<T>, key: T -> int)
    requires SortedBy(t, key)
    requires SameOrderPerKey(t, s, key)
    ensures t == SortBy(s, key)
  {
    SortStable(s, key);
    SortedAgreeingEqual(t, SortBy(s, key), key);
  }

  /** `f` applied to every element. */
  function Map<T, U>(s: seq<T>, f: T -> U): (r: seq<U>)
    ensures |r| == |s| && forall i :: 0 <= i < |s| ==> r[i] == f(s[i])
  {
    if s == [] then [] else [f(s[0])] + Map(s[1..], f)
  }

  /** Sorting commutes with a mapping that the key reads through. */
  lemma {:induction false} InsertMap<T, U>(x: T, s: seq<T>, f: T -> U, keyU: U -> int, keyT: T -> int)
    requires forall y :: keyT(y) == keyU(f(y))
    ensures Map(Insert(x, s, keyT), f) == Insert(f(x), Map(s, f), keyU)
  {
    if s != [] && keyT(x) > keyT(s[0]) {
      InsertMap(x, s[1..], f, keyU, keyT);
      assert Map(s, f)[1..] == Map(s[1..], f);
    }
  }

  lemma {:induction false} SortMap<T, U>(s: seq<T>, f: T -> U, keyU: U -> int, keyT: T -> int)
    requires forall y :: keyT(y) == keyU(f(y))
    ensures Map(SortBy(s, keyT), f) == SortBy(Map(s, f), keyU)
  {
    if s != [] {
      SortMap(s[1..], f, keyU, keyT);
      InsertMap(s[0], SortBy(s[1..], keyT), f, keyU, keyT);
      assert Map(s, f)[1..] == Map(s[1..], f);
    }
  }
}
