/** A stable sort by key, the behaviour of JavaScript's `Array.prototype.sort`
    with a consistent comparator, also used for SQL `ORDER BY` (ties keep scan order). */
module Sorting {
  import Seqs

  /** `lt` is a strict total order. */
  ghost predicate StrictTotalOrder<K(!new)>(lt: (K, K) -> bool)
  {
    && (forall a :: !lt(a, a))
    && (forall a, b, c :: lt(a, b) && lt(b, c) ==> lt(a, c))
    && (forall a, b :: a != b ==> lt(a, b) || lt(b, a))
  }

  /** The reverse of an order, for descending sorts. */
  function Reverse<K>(lt: (K, K) -> bool): (K, K) -> bool
  {
    (a, b) => lt(b, a)
  }

  lemma ReverseIsOrder<K(!new)>(lt: (K, K) -> bool)
    requires StrictTotalOrder(lt)
    ensures StrictTotalOrder(Reverse(lt))
  {
  }

  /** No element is followed by one with a smaller key. */
  predicate SortedBy<T, K>(s: seq<T>, key: T -> K, lt: (K, K) -> bool)
  {
    forall i, j | 0 <= i < j < |s| :: !lt(key(s[j]), key(s[i]))
  }

  /** The elements with key `k`, in order. */
  function WithKey<T, K(==)>(s: seq<T>, key: T -> K, k: K): seq<T>
  {
    Seqs.Filter(s, KeyIs(key, k))
  }

  function KeyIs<T, K(==)>(key: T -> K, k: K): T -> bool
  {
    y => key(y) == k
  }

  /** `lt` is irreflexive. */
  ghost predicate Irreflexive<K(!new)>(lt: (K, K) -> bool)
  {
    forall a :: !lt(a, a)
  }

  /** Inserts `x` before the first element whose key is not smaller than its own. */
  function Insert<T, K>(x: T, t: seq<T>, key: T -> K, lt: (K, K) -> bool): (r: seq<T>)
    ensures multiset(r) == multiset(t) + multiset{x}
    ensures |r| == |t| + 1
    decreases |t|
  {
    if |t| == 0 then [x]
    else if lt(key(t[0]), key(x)) then
      assert t == [t[0]] + t[1..];
      [t[0]] + Insert(x, t[1..], key, lt)
    else [x] + t
  }

  lemma {:induction false} InsertSorted<T, K(!new)>(x: T, t: seq<T>, key: T -> K, lt: (K, K) -> bool)
    requires StrictTotalOrder(lt)
    requires SortedBy(t, key, lt)
    ensures SortedBy(Insert(x, t, key, lt), key, lt)
    decreases |t|
  {
    if |t| > 0 {
      var r := Insert(x, t, key, lt);
      if lt(key(t[0]), key(x)) {
        var rest := Insert(x, t[1..], key, lt);
        InsertSorted(x, t[1..], key, lt);
        assert r == [t[0]] + rest;
        forall j | 0 < j < |r| ensures !lt(key(r[j]), key(t[0])) {
          assert r[j] in multiset(rest);
          assert r[j] == x || r[j] in t[1..];
          if r[j] != x {
            var m :| 0 <= m < |t[1..]| && t[1..][m] == r[j];
            assert t[m + 1] == r[j];
          }
        }
        forall i, j | 0 <= i < j < |r| ensures !lt(key(r[j]), key(r[i])) {
          if i > 0 {
            assert r[i] == rest[i - 1] && r[j] == rest[j - 1];
          }
        }
      } else {
        assert r == [x] + t;
        forall j | 0 < j < |r| ensures !lt(key(r[j]), key(x)) {
          assert r[j] == t[j - 1];
          if j > 1 {
            assert !lt(key(t[j - 1]), key(t[0]));
          }
        }
      }
    }
  }

  /** Stable sort by key (insertion sort). */
  function SortBy<T, K>(s: seq<T>, key: T -> K, lt: (K, K) -> bool): (r: seq<T>)
    ensures multiset(r) == multiset(s)
    ensures |r| == |s|
    decreases |s|
  {
    if |s| == 0 then []
    else
      assert s == [s[0]] + s[1..];
      Insert(s[0], SortBy(s[1..], key, lt), key, lt)
  }

  /** The result is ordered by key. */
  lemma {:induction false} SortBySorted<T, K(!new)>(s: seq<T>, key: T -> K, lt: (K, K) -> bool)
    requires StrictTotalOrder(lt)
    ensures SortedBy(SortBy(s, key, lt), key, lt)
    decreases |s|
  {
    if |s| > 0 {
      SortBySorted(s[1..], key, lt);
      InsertSorted(s[0], SortBy(s[1..], key, lt), key, lt);
    }
  }

  lemma {:induction false} InsertWithKey<T, K(!new)>(x: T, t: seq<T>, key: T -> K, lt: (K, K) -> bool, k: K)
    requires Irreflexive(lt)
    ensures WithKey(Insert(x, t, key, lt), key, k)
         == (if key(x) == k then [x] else []) + WithKey(t, key, k)
    decreases |t|
  {
    var p := KeyIs(key, k);
    if |t| == 0 {
      Seqs.FilterCons(x, [], p);
    } else if lt(key(t[0]), key(x)) {
      InsertWithKey(x, t[1..], key, lt, k);
      InsertWithKeyPast(x, t, key, lt, k);
    } else {
      assert Insert(x, t, key, lt) == [x] + t;
      Seqs.FilterCons(x, t, p);
    }
  }

  /** The step of `InsertWithKey` where `x` moves past the first element. */
  lemma InsertWithKeyPast<T, K(!new)>(x: T, t: seq<T>, key: T -> K, lt: (K, K) -> bool, k: K)
    requires Irreflexive(lt)
    requires |t| > 0 && lt(key(t[0]), key(x))
    requires WithKey(Insert(x, t[1..], key, lt), key, k)
          == (if key(x) == k then [x] else []) + WithKey(t[1..], key, k)
    ensures WithKey(Insert(x, t, key, lt), key, k)
         == (if key(x) == k then [x] else []) + WithKey(t, key, k)
  {
    assert [t[0]] + t[1..] == t;
    InsertPast(x, t, key, lt);
    WithKeyCons(t[0], Insert(x, t[1..], key, lt), t[1..], x, key, lt, k);
  }

  /** Putting `y` in front of both sides, when `y` sorts strictly before `x`. */
  lemma WithKeyCons<T, K(!new)>(y: T, rest: seq<T>, tail: seq<T>, x: T, key: T -> K, lt: (K, K) -> bool, k: K)
    requires Irreflexive(lt) && lt(key(y), key(x))
    requires WithKey(rest, key, k) == (if key(x) == k then [x] else []) + WithKey(tail, key, k)
    ensures WithKey([y] + rest, key, k) == (if key(x) == k then [x] else []) + WithKey([y] + tail, key, k)
  {
    assert !(key(y) == k && key(x) == k) by {
      assert !lt(key(x), key(x));
    }
    var p := KeyIs(key, k);
    var h: seq<T> := if key(y) == k then [y] else [];
    var w: seq<T> := if key(x) == k then [x] else [];
    Seqs.FilterCons(y, rest, p);
    Seqs.FilterCons(y, tail, p);
    SwapEmpty(h, w, WithKey(tail, key, k));
  }

  lemma SwapEmpty<T>(h: seq<T>, w: seq<T>, tail: seq<T>)
    requires h == [] || w == []
    ensures h + (w + tail) == w + (h + tail)
  {
  }

  lemma InsertPast<T, K>(x: T, t: seq<T>, key: T -> K, lt: (K, K) -> bool)
    requires |t| > 0 && lt(key(t[0]), key(x))
    ensures Insert(x, t, key, lt) == [t[0]] + Insert(x, t[1..], key, lt)
  {
  }

  /** Elements with equal keys keep their input order. */
  lemma {:induction false} SortByStable<T, K(!new)>(s: seq<T>, key: T -> K, lt: (K, K) -> bool, k: K)
    requires Irreflexive(lt)
    ensures WithKey(SortBy(s, key, lt), key, k) == WithKey(s, key, k)
    decreases |s|
  {
    if |s| > 0 {
      SortByStable(s[1..], key, lt, k);
      InsertWithKey(s[0], SortBy(s[1..], key, lt), key, lt, k);
      assert s == [s[0]] + s[1..];
      Seqs.FilterCons(s[0], s[1..], KeyIs(key, k));
    }
  }
  /** Deleting elements from a sorted sequence keeps it sorted. */
  lemma {:induction false} SortedSubseq<T, K>(a: seq<T>, b: seq<T>, key: T -> K, lt: (K, K) -> bool)
    requires Seqs.IsSubseq(a, b) && SortedBy(b, key, lt)
    ensures SortedBy(a, key, lt)
    decreases |b|
  {
    if |a| > 0 && |b| > 0 {
      assert SortedBy(b[1..], key, lt) by {
        forall i, j | 0 <= i < j < |b[1..]| ensures !lt(key(b[1..][j]), key(b[1..][i])) {
          assert b[1..][j] == b[j + 1] && b[1..][i] == b[i + 1];
        }
      }
      if a[0] == b[0] {
        SortedSubseq(a[1..], b[1..], key, lt);
        Seqs.SubseqMembers(a[1..], b[1..]);
        forall i, j | 0 <= i < j < |a| ensures !lt(key(a[j]), key(a[i])) {
          assert a[j] == a[1..][j - 1];
          assert a[j] in b[1..];
          var m :| 0 <= m < |b[1..]| && b[1..][m] == a[j];
          assert b[m + 1] == a[j];
          if i > 0 {
            assert a[i] == a[1..][i - 1];
          }
        }
      } else {
        SortedSubseq(a, b[1..], key, lt);
      }
    }
  }
}
