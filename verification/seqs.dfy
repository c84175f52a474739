/** Sequence operations that mirror JavaScript's `Array.prototype.filter`,
    `slice(0, n)`, SQL `LIMIT`, and "keep the first occurrence" de-duplication. */
module Seqs {

  /** `s.filter(p)`: the elements of `s` satisfying `p`, in their original order. */
  function Filter<T>(s: seq<T>, p: T -> bool): (r: seq<T>)
    ensures |r| <= |s|
    ensures forall i :: 0 <= i < |r| ==> p(r[i])
    ensures forall x | x in r :: x in s
    ensures forall i | 0 <= i < |s| && p(s[i]) :: s[i] in r
  {
    if |s| == 0 then [] else (if p(s[0]) then [s[0]] else []) + Filter(s[1..], p)
  }

  /** `a` is obtained from `b` by deleting elements, without reordering. */
  predicate IsSubseq<T(==)>(a: seq<T>, b: seq<T>)
    decreases |b|
  {
    if |a| == 0 then true
    else if |b| == 0 then false
    else if a[0] == b[0] then IsSubseq(a[1..], b[1..])
    else IsSubseq(a, b[1..])
  }

  lemma {:induction false} FilterIsSubseq<T>(s: seq<T>, p: T -> bool)
    ensures IsSubseq(Filter(s, p), s)
  {
    if |s| > 0 {
      FilterIsSubseq(s[1..], p);
      if p(s[0]) {
        assert Filter(s, p) == [s[0]] + Filter(s[1..], p);
        assert Filter(s, p)[1..] == Filter(s[1..], p);
      } else {
        assert Filter(s, p) == Filter(s[1..], p);
      }
    }
  }

  lemma {:induction false} FilterConcat<T>(a: seq<T>, b: seq<T>, p: T -> bool)
    ensures Filter(a + b, p) == Filter(a, p) + Filter(b, p)
  {
    if |a| == 0 {
      assert a + b == b;
    } else {
      assert (a + b)[1..] == a[1..] + b;
      FilterConcat(a[1..], b, p);
    }
  }

  /** Filtering twice by predicates that agree on the filtered elements is filtering once. */
  lemma {:induction false} FilterFilter<T>(s: seq<T>, p: T -> bool, q: T -> bool)
    requires forall x :: p(x) ==> q(x)
    ensures Filter(Filter(s, p), q) == Filter(s, p)
  {
    if |s| > 0 {
      FilterFilter(s[1..], p, q);
      if p(s[0]) {
        assert Filter(s, p) == [s[0]] + Filter(s[1..], p);
        FilterConcat([s[0]], Filter(s[1..], p), q);
        assert q(s[0]);
        assert [s[0]][1..] == [];
        var e: seq<T> := [];
        assert Filter(e, q) == [];
        assert Filter([s[0]], q) == [s[0]] + Filter(e, q);
      } else {
        assert Filter(s, p) == Filter(s[1..], p);
      }
    }
  }

  lemma {:induction false} IsSubseqTransitive<T>(a: seq<T>, b: seq<T>, c: seq<T>)
    requires IsSubseq(a, b) && IsSubseq(b, c)
    ensures IsSubseq(a, c)
    decreases |c|
  {
    if |a| > 0 && |b| > 0 && |c| > 0 {
      if b[0] == c[0] {
        if a[0] == b[0] {
          IsSubseqTransitive(a[1..], b[1..], c[1..]);
        } else {
          IsSubseqTransitive(a, b[1..], c[1..]);
          SubseqExtend(a, c);
        }
      } else {
        IsSubseqTransitive(a, b, c[1..]);
        SubseqExtend(a, c);
      }
    }
  }

  /** A subsequence of the tail of `b` is a subsequence of `b`. */
  lemma {:induction false} SubseqExtend<T>(a: seq<T>, b: seq<T>)
    requires |b| > 0 && IsSubseq(a, b[1..])
    ensures IsSubseq(a, b)
    decreases |b|, |a|
  {
    if |a| > 0 && a[0] == b[0] {
      SubseqTail(a, b[1..]);
    }
  }

  /** Dropping the first element of a subsequence keeps it a subsequence. */
  lemma {:induction false} SubseqTail<T>(a: seq<T>, b: seq<T>)
    requires |a| > 0 && IsSubseq(a, b)
    ensures IsSubseq(a[1..], b)
    decreases |b|, |a|
  {
    if a[0] == b[0] {
      SubseqExtend(a[1..], b);
    } else {
      SubseqTail(a, b[1..]);
      SubseqExtend(a[1..], b);
    }
  }

  /** The first `n` elements (all of them when there are fewer): SQL `LIMIT n`, `slice(0, n)`. */
  function Take<T>(s: seq<T>, n: nat): (r: seq<T>)
    ensures |r| <= n && |r| <= |s|
    ensures |s| <= n ==> r == s
    ensures n <= |s| ==> |r| == n
    ensures forall i :: 0 <= i < |r| ==> r[i] == s[i]
  {
    if |s| <= n then s else s[..n]
  }

  lemma TakeIsSubseq<T>(s: seq<T>, n: nat)
    ensures IsSubseq(Take(s, n), s)
  {
    PrefixIsSubseq(Take(s, n), s);
  }

  lemma {:induction false} PrefixIsSubseq<T>(a: seq<T>, b: seq<T>)
    requires a <= b
    ensures IsSubseq(a, b)
  {
    if |a| > 0 {
      PrefixIsSubseq(a[1..], b[1..]);
    }
  }

  /** `s.map(f)` */
  function Map<T, U>(s: seq<T>, f: T -> U): (r: seq<U>)
    ensures |r| == |s|
    ensures forall i | 0 <= i < |s| :: r[i] == f(s[i])
  {
    seq(|s|, i requires 0 <= i < |s| => f(s[i]))
  }

  lemma AppendAssoc<T>(a: seq<T>, b: seq<T>, c: seq<T>)
    ensures (a + b) + c == a + (b + c)
  {
  }

  lemma MapConcat<T, U>(a: seq<T>, b: seq<T>, f: T -> U)
    ensures Map(a + b, f) == Map(a, f) + Map(b, f)
  {
  }

  /** The keys of the elements of `s`. */
  function Keys<T, K>(s: seq<T>, key: T -> K): set<K>
  {
    set i | 0 <= i < |s| :: key(s[i])
  }

  lemma KeysCons<T, K>(s: seq<T>, key: T -> K)
    requires |s| > 0
    ensures Keys(s, key) == {key(s[0])} + Keys(s[1..], key)
  {
    forall k | k in Keys(s, key)
      ensures k in {key(s[0])} + Keys(s[1..], key)
    {
      var i :| 0 <= i < |s| && key(s[i]) == k;
      if i > 0 {
        assert s[1..][i - 1] == s[i];
      }
    }
    forall k | k in Keys(s[1..], key)
      ensures k in Keys(s, key)
    {
      var i :| 0 <= i < |s[1..]| && key(s[1..][i]) == k;
      assert s[1..][i] == s[i + 1];
    }
  }

  /** No two elements of `s` share a key. */
  predicate DistinctKeys<T, K(==)>(s: seq<T>, key: T -> K)
  {
    forall i, j :: 0 <= i < j < |s| ==> key(s[i]) != key(s[j])
  }

  /** Keeps, left to right, each element whose key is not in `seen` nor carried by
      an element already kept. */
  function DedupFrom<T, K(==)>(s: seq<T>, key: T -> K, seen: set<K>): (r: seq<T>)
    ensures |r| <= |s|
    ensures forall i :: 0 <= i < |r| ==> key(r[i]) !in seen
    ensures DistinctKeys(r, key)
    ensures Keys(r, key) == Keys(s, key) - seen
    ensures IsSubseq(r, s)
  {
    if |s| == 0 then []
    else if key(s[0]) in seen then
      var r := DedupFrom(s[1..], key, seen);
      KeysCons(s, key);
      SubseqExtend(r, s);
      r
    else
      var r := [s[0]] + DedupFrom(s[1..], key, seen + {key(s[0])});
      KeysCons(s, key);
      assert r[1..] == DedupFrom(s[1..], key, seen + {key(s[0])});
      KeysCons(r, key);
      r
  }

  /** `s.filter((x, i, self) => i === self.findIndex(y => key(y) === key(x)))`:
      the first element of each key, in input order. */
  function DedupBy<T, K(==)>(s: seq<T>, key: T -> K): (r: seq<T>)
    ensures DistinctKeys(r, key)
    ensures Keys(r, key) == Keys(s, key)
    ensures IsSubseq(r, s)
  {
    DedupFrom(s, key, {})
  }

  /** Reference definition, read off the `findIndex` test: the last element is kept
      exactly when no earlier element carries its key. */
  function KeepFirst<T, K(==)>(s: seq<T>, key: T -> K): seq<T>
  {
    if |s| == 0 then []
    else
      var init := s[..|s| - 1];
      KeepFirst(init, key) + (if key(s[|s| - 1]) in Keys(init, key) then [] else [s[|s| - 1]])
  }

  lemma {:induction false} DedupFromSnoc<T, K>(s: seq<T>, x: T, key: T -> K, seen: set<K>)
    ensures DedupFrom(s + [x], key, seen)
         == DedupFrom(s, key, seen) + (if key(x) in seen + Keys(s, key) then [] else [x])
  {
    if |s| == 0 {
      assert s + [x] == [x];
    } else {
      assert (s + [x])[1..] == s[1..] + [x];
      KeysCons(s, key);
      if key(s[0]) in seen {
        DedupFromSnoc(s[1..], x, key, seen);
      } else {
        DedupFromSnoc(s[1..], x, key, seen + {key(s[0])});
      }
    }
  }

  /** The de-duplication keeps exactly the elements the `findIndex` test keeps. */
  lemma {:induction false} DedupByIsKeepFirst<T, K>(s: seq<T>, key: T -> K)
    ensures DedupBy(s, key) == KeepFirst(s, key)
  {
    if |s| > 0 {
      var init := s[..|s| - 1];
      assert s == init + [s[|s| - 1]];
      DedupByIsKeepFirst(init, key);
      DedupFromSnoc(init, s[|s| - 1], key, {});
      assert {} + Keys(init, key) == Keys(init, key);
    }
  }

  /** A sequence without repeated keys is left unchanged. */
  lemma {:induction false} DedupByDistinct<T, K>(s: seq<T>, key: T -> K)
    requires DistinctKeys(s, key)
    ensures DedupBy(s, key) == s
  {
    DedupFromDistinct(s, key, {});
  }

  lemma {:induction false} DedupFromDistinct<T, K>(s: seq<T>, key: T -> K, seen: set<K>)
    requires DistinctKeys(s, key)
    requires Keys(s, key) !! seen
    ensures DedupFrom(s, key, seen) == s
  {
    if |s| > 0 {
      assert key(s[0]) in Keys(s, key);
      assert Keys(s[1..], key) !! seen + {key(s[0])} by {
        forall i | 0 <= i < |s[1..]|
          ensures key(s[1..][i]) !in seen + {key(s[0])}
        {
          assert key(s[1..][i]) == key(s[i + 1]);
          assert key(s[i + 1]) in Keys(s, key);
        }
      }
      DedupFromDistinct(s[1..], key, seen + {key(s[0])});
    }
  }

  /** De-duplicating is idempotent. */
  lemma DedupByIdempotent<T, K>(s: seq<T>, key: T -> K)
    ensures DedupBy(DedupBy(s, key), key) == DedupBy(s, key)
  {
    DedupByDistinct(DedupBy(s, key), key);
  }

  /** Every element of `s` is in `s'` when `s` is a subsequence of `s'`. */
  lemma {:induction false} SubseqMembers<T>(a: seq<T>, b: seq<T>)
    requires IsSubseq(a, b)
    ensures forall x | x in a :: x in b
    decreases |b|
  {
    if |a| > 0 && |b| > 0 {
      if a[0] == b[0] {
        SubseqMembers(a[1..], b[1..]);
        assert forall x | x in a :: x == a[0] || x in a[1..];
      } else {
        SubseqMembers(a, b[1..]);
      }
    }
  }

  /** Filtering by `p` and then by a stronger `q` is filtering by `q` alone. */
  lemma {:induction false} FilterStronger<T>(s: seq<T>, p: T -> bool, q: T -> bool)
    requires forall x :: q(x) ==> p(x)
    ensures Filter(Filter(s, p), q) == Filter(s, q)
  {
    if |s| > 0 {
      FilterStronger(s[1..], p, q);
      if p(s[0]) {
        assert Filter(s, p) == [s[0]] + Filter(s[1..], p);
        FilterConcat([s[0]], Filter(s[1..], p), q);
        var e: seq<T> := [];
        assert [s[0]][1..] == e;
        assert Filter([s[0]], q) == (if q(s[0]) then [s[0]] else []) + Filter(e, q);
      } else {
        assert Filter(s, p) == Filter(s[1..], p);
        assert !q(s[0]);
      }
    }
  }

  /** `rel` holds between the elements at each position of two equally long sequences. */
  predicate Pairwise<A, B>(xs: seq<A>, ys: seq<B>, rel: (A, B) -> bool)
  {
    |xs| == |ys| && forall i | 0 <= i < |xs| :: rel(xs[i], ys[i])
  }

  lemma PairwiseCons<A, B>(x: A, xs: seq<A>, ys: seq<B>, rel: (A, B) -> bool)
    requires |ys| > 0 && rel(x, ys[0]) && Pairwise(xs, ys[1..], rel)
    ensures Pairwise([x] + xs, ys, rel)
  {
    forall i | 0 <= i < |ys| ensures rel(([x] + xs)[i], ys[i]) {
      if i > 0 {
        assert ([x] + xs)[i] == xs[i - 1];
        assert ys[1..][i - 1] == ys[i];
      }
    }
  }

  lemma FilterCons<T>(x: T, s: seq<T>, p: T -> bool)
    ensures Filter([x] + s, p) == (if p(x) then [x] else []) + Filter(s, p)
  {
    assert ([x] + s)[1..] == s;
  }

  /** Filtering by a predicate every element satisfies keeps everything. */
  lemma {:induction false} FilterAll<T>(s: seq<T>, p: T -> bool)
    requires forall i | 0 <= i < |s| :: p(s[i])
    ensures Filter(s, p) == s
  {
    if |s| > 0 {
      FilterAll(s[1..], p);
      FilterCons(s[0], s[1..], p);
      assert s == [s[0]] + s[1..];
    }
  }

  /** No element occurs twice. */
  predicate Distinct<T(==)>(s: seq<T>)
  {
    forall i, j | 0 <= i < j < |s| :: s[i] != s[j]
  }

  lemma {:induction false} DistinctCount<T>(s: seq<T>, x: T)
    requires Distinct(s)
    ensures multiset(s)[x] <= 1
  {
    if |s| > 0 {
      assert s == [s[0]] + s[1..];
      assert Distinct(s[1..]) by {
        forall i, j | 0 <= i < j < |s[1..]| ensures s[1..][i] != s[1..][j] {
          assert s[1..][i] == s[i + 1] && s[1..][j] == s[j + 1];
        }
      }
      DistinctCount(s[1..], x);
      if s[0] == x {
        assert x !in s[1..];
      }
    }
  }

  lemma RepeatCount<T>(s: seq<T>, i: nat, j: nat)
    requires i < j < |s| && s[i] == s[j]
    ensures multiset(s)[s[i]] >= 2
  {
    assert s == s[..i] + [s[i]] + s[i + 1..j] + [s[j]] + s[j + 1..];
  }

  /** A permutation of a sequence without repetitions has none either. */
  lemma DistinctPermutation<T>(a: seq<T>, b: seq<T>)
    requires multiset(a) == multiset(b) && Distinct(b)
    ensures Distinct(a)
  {
    forall i, j | 0 <= i < j < |a| ensures a[i] != a[j] {
      if a[i] == a[j] {
        RepeatCount(a, i, j);
        DistinctCount(b, a[i]);
      }
    }
  }
}
