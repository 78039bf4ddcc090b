/** Inclusion between cache sizes: a larger cache run on the same calls, clock and TTL always
    contains the smaller one, in the same recency order, and so never answers fewer calls. */
module LruInclusion {
  import opened Common
  import opened LruSpec
  import opened LruRuns

  /** `s` is `l` with some elements left out. */
  ghost predicate Subsequence<X>(s: seq<X>, l: seq<X>) {
    s == [] || (l != [] && ((s[0] == l[0] && Subsequence(s[1..], l[1..])) || Subsequence(s, l[1..])))
  }

  lemma {:induction false} SkipFirst<X>(s: seq<X>, l: seq<X>)
    requires Subsequence(s, l) && s != []
    ensures l != [] && Subsequence(s[1..], l)
  {
    if s[0] == l[0] && Subsequence(s[1..], l[1..]) {
      if s[1..] != [] { assert Subsequence(s[1..], l[1..]); }
    } else {
      SkipFirst(s, l[1..]);
    }
  }

  lemma {:induction false} Grow<X>(s: seq<X>, x: X, l: seq<X>)
    requires Subsequence(s, l)
    ensures Subsequence(s, [x] + l) && Subsequence([x] + s, [x] + l)
  {
    assert ([x] + l)[1..] == l && ([x] + s)[1..] == s;
  }

  lemma {:induction false} SubsequenceSize<X>(s: seq<X>, l: seq<X>)
    requires Subsequence(s, l)
    ensures |s| <= |l| && forall x | x in s :: x in l
  {
    if s != [] {
      assert s == [s[0]] + s[1..] && l == [l[0]] + l[1..];
      if s[0] == l[0] && Subsequence(s[1..], l[1..]) {
        SubsequenceSize(s[1..], l[1..]);
      } else {
        SubsequenceSize(s, l[1..]);
      }
    }
  }

  lemma {:induction false} PrefixIsSubsequence<X>(s: seq<X>, l: seq<X>, n: nat)
    requires Subsequence(s, l) && n <= |s|
    ensures Subsequence(s[..n], l)
  {
    if n > 0 {
      if s[0] == l[0] && Subsequence(s[1..], l[1..]) {
        PrefixIsSubsequence(s[1..], l[1..], n - 1);
        assert s[..n][1..] == s[1..][..n - 1];
      } else {
        PrefixIsSubsequence(s, l[1..], n);
      }
    }
  }

  lemma {:induction false} DropLasts<X>(s: seq<X>, l: seq<X>)
    requires Subsequence(s, l) && s != []
    ensures l != [] && Subsequence(s[..|s| - 1], l[..|l| - 1])
  {
    var s', l' := s[..|s| - 1], l[..|l| - 1];
    if |s| > 1 {
      if s[0] == l[0] && Subsequence(s[1..], l[1..]) {
        DropLasts(s[1..], l[1..]);
        assert s'[1..] == s[1..][..|s| - 2] && l'[1..] == l[1..][..|l| - 2];
      } else {
        DropLasts(s, l[1..]);
        assert l'[1..] == l[1..][..|l| - 2];
      }
    }
  }

  lemma {:induction false} WithoutBoth<K, V>(s: seq<Item<K, V>>, l: seq<Item<K, V>>, k: K)
    requires Subsequence(s, l)
    ensures Subsequence(Without(s, k), Without(l, k))
  {
    if s != [] {
      if s[0] == l[0] && Subsequence(s[1..], l[1..]) {
        WithoutBoth(s[1..], l[1..], k);
        Grow(Without(s[1..], k), s[0], Without(l[1..], k));
      } else {
        WithoutBoth(s, l[1..], k);
        Grow(Without(s, k), l[0], Without(l[1..], k));
      }
    }
  }

  lemma {:induction false} FindBoth<K, V>(s: seq<Item<K, V>>, l: seq<Item<K, V>>, k: K)
    requires Subsequence(s, l) && DistinctKeys(l)
    ensures Find(s, k).Some? ==> Find(l, k) == Find(s, k)
  {
    if s != [] {
      if s[0] == l[0] && Subsequence(s[1..], l[1..]) {
        FindBoth(s[1..], l[1..], k);
      } else {
        FindBoth(s, l[1..], k);
        SubsequenceSize(s, l[1..]);
      }
    }
  }

  /** `small` has a size limit no larger than that of `large`, if `large` has one at all. */
  predicate SmallerLimit(small: int, large: int) {
    0 < small && (large <= 0 || small <= large)
  }

  ghost predicate Includes<K, V>(large: Cache<K, V>, small: Cache<K, V>) {
    && Good(large) && Good(small)
    && SmallerLimit(small.maxSize, large.maxSize) && large.ttl == small.ttl
    && Subsequence(small.items, large.items)
    && (large.maxSize > 0 ==> |large.items| - |small.items| <= large.maxSize - small.maxSize)
    && small.hits <= large.hits
  }

  lemma GetKeepsIncludes<K, V>(large: Cache<K, V>, small: Cache<K, V>, k: K, now: int)
    requires Includes(large, small)
    ensures Includes(Get(large, k, now).0, Get(small, k, now).0)
    ensures Get(small, k, now).1.Some? ==> Get(large, k, now).1 == Get(small, k, now).1
  {
    hide Find, Without, DistinctKeys, Subsequence, Keys;
    GetKeepsGood(large, k, now);
    GetKeepsGood(small, k, now);
    FindBoth(small.items, large.items, k);
    WithoutBoth(small.items, large.items, k);
    WithoutDistinct(large.items, k);
    WithoutDistinct(small.items, k);
    if Find(small.items, k).None? { WithoutAbsent(small.items, k); }
    if Find(large.items, k).Some? {
      Grow(Without(small.items, k), Find(large.items, k).value, Without(large.items, k));
    }
  }

  lemma FrontKeepsSubsequence<X>(s: seq<X>, l: seq<X>)
    requires Subsequence(s, l) && s != [] && l != []
    ensures Subsequence(s[..|s| - 1], l) && Subsequence(s[..|s| - 1], l[..|l| - 1])
  {
    PrefixIsSubsequence(s, l, |s| - 1);
    DropLasts(s, l);
  }

  lemma PutKeepsIncludes<K, V>(large: Cache<K, V>, small: Cache<K, V>, k: K, v: V, now: int)
    requires Includes(large, small)
    ensures Includes(Put(large, k, v, now), Put(small, k, v, now))
  {
    hide Find, Without, DistinctKeys, Subsequence, Keys;
    PutKeepsGood(large, k, v, now);
    PutKeepsGood(small, k, v, now);
    var it := Item(k, v, now);
    var rest, tail := Without(large.items, k), Without(small.items, k);
    FindBoth(small.items, large.items, k);
    WithoutBoth(small.items, large.items, k);
    WithoutDistinct(large.items, k);
    WithoutDistinct(small.items, k);
    if Find(small.items, k).None? { WithoutAbsent(small.items, k); }
    if Find(large.items, k).None? { WithoutAbsent(large.items, k); }
    Grow(tail, it, rest);
    FrontKeepsSubsequence([it] + tail, [it] + rest);
  }

  lemma DeleteKeepsIncludes<K, V>(large: Cache<K, V>, small: Cache<K, V>, k: K)
    requires Includes(large, small)
    ensures Includes(Delete(large, k), Delete(small, k))
  {
    hide Find, Without, DistinctKeys, Subsequence, Keys;
    DeleteKeepsGood(large, k);
    DeleteKeepsGood(small, k);
    FindBoth(small.items, large.items, k);
    WithoutBoth(small.items, large.items, k);
    WithoutDistinct(large.items, k);
    WithoutDistinct(small.items, k);
  }

  /** The inclusion property, over every run. */
  lemma {:induction false} LargerIncludesSmaller<K, V>(n: int, m: int, ttl: int, ops: seq<Op<K, V>>)
    requires SmallerLimit(n, m)
    ensures Includes(After(NewCache<K, V>(m, ttl), ops), After(NewCache<K, V>(n, ttl), ops))
  {
    if ops != [] {
      var init, last := ops[..|ops| - 1], ops[|ops| - 1];
      var large, small := After(NewCache<K, V>(m, ttl), init), After(NewCache<K, V>(n, ttl), init);
      LargerIncludesSmaller<K, V>(n, m, ttl, init);
      match last
      case OpGet(k, now) => GetKeepsIncludes(large, small, k, now);
      case OpPut(k, v, now) => PutKeepsIncludes(large, small, k, v, now);
      case OpDelete(k) => DeleteKeepsIncludes(large, small, k);
      case OpClear =>
    }
  }

  /** Whatever the smaller cache answers, the larger one answers too. */
  lemma LargerAnswersMore<K, V>(n: int, m: int, ttl: int, ops: seq<Op<K, V>>, k: K, now: int)
    requires SmallerLimit(n, m)
    ensures var small := Get(After(NewCache<K, V>(n, ttl), ops), k, now).1;
            small.Some? ==> Get(After(NewCache<K, V>(m, ttl), ops), k, now).1 == small
  {
    LargerIncludesSmaller<K, V>(n, m, ttl, ops);
    GetKeepsIncludes(After(NewCache<K, V>(m, ttl), ops), After(NewCache<K, V>(n, ttl), ops), k, now);
  }
}
