/** Every run of one cache: what a hit returns, what an unlimited cache remembers, and how
    long an entry stays. The clock is whatever the calls say it is. */
module LruRuns {
  import opened Common
  import opened LruSpec

  datatype Op<K, V> =
    | OpGet(key: K, now: int)
    | OpPut(key: K, value: V, now: int)
    | OpDelete(key: K)
    | OpClear

  function Apply<K(==), V>(c: Cache<K, V>, op: Op<K, V>): (Cache<K, V>, Option<V>) {
    match op
    case OpGet(k, now) => Get(c, k, now)
    case OpPut(k, v, now) => (Put(c, k, v, now), None)
    case OpDelete(k) => (Delete(c, k), None)
    case OpClear => (Clear(c), None)
  }

  function After<K(==), V>(c: Cache<K, V>, ops: seq<Op<K, V>>): Cache<K, V> {
    if ops == [] then c else Apply(After(c, ops[..|ops| - 1]), ops[|ops| - 1]).0
  }

  lemma ApplyKeepsGood<K, V>(c: Cache<K, V>, op: Op<K, V>)
    requires Good(c)
    ensures Good(Apply(c, op).0) && Apply(c, op).0.ttl == c.ttl && Apply(c, op).0.maxSize == c.maxSize
  {
    match op
    case OpGet(k, now) => GetKeepsGood(c, k, now);
    case OpPut(k, v, now) => PutKeepsGood(c, k, v, now);
    case OpDelete(k) => DeleteKeepsGood(c, k);
    case OpClear =>
  }

  /** Keys stay distinct and the size bound holds in every run. */
  lemma {:induction false} AlwaysGood<K, V>(c: Cache<K, V>, ops: seq<Op<K, V>>)
    requires Good(c)
    ensures Good(After(c, ops)) && After(c, ops).ttl == c.ttl && After(c, ops).maxSize == c.maxSize
  {
    if ops != [] {
      AlwaysGood(c, ops[..|ops| - 1]);
      ApplyKeepsGood(After(c, ops[..|ops| - 1]), ops[|ops| - 1]);
    }
  }

  // ---------- What a hit returns ----------

  /** The value and time of the latest Put of `k` that no Delete or Clear followed: what
      the run says about `k`, read off the calls alone. */
  function LastPut<K(==), V>(ops: seq<Op<K, V>>, k: K): Option<(V, int)> {
    if ops == [] then None
    else
      var init, last := ops[..|ops| - 1], ops[|ops| - 1];
      match last
      case OpGet(_, _) => LastPut(init, k)
      case OpPut(k', v, now) => if k' == k then Some((v, now)) else LastPut(init, k)
      case OpDelete(k') => if k' == k then None else LastPut(init, k)
      case OpClear => None
  }

  /** Every resident entry is the last one put under its key; hits do not refresh its age. */
  lemma {:induction false} ResidentIsLastPut<K, V>(maxSize: int, ttl: int, ops: seq<Op<K, V>>, it: Item<K, V>)
    requires it in After(NewCache(maxSize, ttl), ops).items
    ensures LastPut(ops, it.key) == Some((it.value, it.stamp))
  {
    if ops != [] {
      var init, last := ops[..|ops| - 1], ops[|ops| - 1];
      var was := After(NewCache<K, V>(maxSize, ttl), init);
      if it in was.items {
        ResidentIsLastPut(maxSize, ttl, init, it);
        AlwaysGood(NewCache<K, V>(maxSize, ttl), init);
      }
    }
  }

  lemma HitReturnsLastPut<K, V>(maxSize: int, ttl: int, ops: seq<Op<K, V>>, k: K, now: int)
    ensures match Get(After(NewCache<K, V>(maxSize, ttl), ops), k, now).1
            case None => true
            case Some(v) =>
              exists stamp :: LastPut(ops, k) == Some((v, stamp)) && (ttl > 0 ==> now - stamp <= ttl)
  {
    var c := After(NewCache<K, V>(maxSize, ttl), ops);
    AlwaysGood(NewCache<K, V>(maxSize, ttl), ops);
    if Find(c.items, k).Some? {
      ResidentIsLastPut(maxSize, ttl, ops, Find(c.items, k).value);
    }
  }

  // ---------- Unlimited caches ----------

  /** The clock never runs backwards and has not passed `now`. */
  predicate Ticks<K, V>(ops: seq<Op<K, V>>, now: int) {
    ops == [] ||
    match ops[|ops| - 1]
    case OpGet(_, t) => t <= now && Ticks(ops[..|ops| - 1], t)
    case OpPut(_, _, t) => t <= now && Ticks(ops[..|ops| - 1], t)
    case _ => Ticks(ops[..|ops| - 1], now)
  }

  lemma {:induction false} UnlimitedForgetsOnlyExpired<K, V>(maxSize: int, ttl: int, ops: seq<Op<K, V>>, k: K, now: int)
    requires maxSize <= 0 && (ttl <= 0 || Ticks(ops, now))
    requires Find(After(NewCache<K, V>(maxSize, ttl), ops).items, k).None?
    ensures LastPut(ops, k).None? || (ttl > 0 && now - LastPut(ops, k).value.1 > ttl)
  {
    if ops != [] {
      var init, last := ops[..|ops| - 1], ops[|ops| - 1];
      var was := After(NewCache<K, V>(maxSize, ttl), init);
      AlwaysGood(NewCache<K, V>(maxSize, ttl), init);
      var time := match last case OpGet(_, t) => t case OpPut(_, _, t) => t case _ => now;
      if Find(was.items, k).None? {
        UnlimitedForgetsOnlyExpired(maxSize, ttl, init, k, time);
      } else {
        ResidentIsLastPut(maxSize, ttl, init, Find(was.items, k).value);
      }
    }
  }

  /** Without a size limit, and with a clock that does not run backwards when there is a
      TTL, the cache answers exactly what the calls so far determine. */
  lemma UnlimitedIsExact<K, V>(maxSize: int, ttl: int, ops: seq<Op<K, V>>, k: K, now: int)
    requires maxSize <= 0 && (ttl <= 0 || Ticks(ops, now))
    ensures Get(After(NewCache<K, V>(maxSize, ttl), ops), k, now).1
            == match LastPut(ops, k)
               case None => None
               case Some((v, stamp)) => if ttl > 0 && now - stamp > ttl then None else Some(v)
  {
    var c := After(NewCache<K, V>(maxSize, ttl), ops);
    AlwaysGood(NewCache<K, V>(maxSize, ttl), ops);
    if Find(c.items, k).None? {
      UnlimitedForgetsOnlyExpired(maxSize, ttl, ops, k, now);
    } else {
      ResidentIsLastPut(maxSize, ttl, ops, Find(c.items, k).value);
    }
  }

  // ---------- Counters ----------

  function Total<K(==), V>(c: Cache<K, V>, ops: seq<Op<K, V>>, count: (Cache<K, V>, Op<K, V>) -> nat): nat {
    if ops == [] then 0
    else Total(c, ops[..|ops| - 1], count) + count(After(c, ops[..|ops| - 1]), ops[|ops| - 1])
  }

  /** The calls counted as hits, as misses and as evictions: Gets that are answered, Gets that are
      not, and Puts of a new key into a full cache. */
  function Hits<K(==), V>(c: Cache<K, V>, op: Op<K, V>): nat {
    if op.OpGet? && Apply(c, op).1.Some? then 1 else 0
  }

  function Misses<K(==), V>(c: Cache<K, V>, op: Op<K, V>): nat {
    if op.OpGet? && Apply(c, op).1.None? then 1 else 0
  }

  function PushesOut<K(==), V>(c: Cache<K, V>, op: Op<K, V>): nat {
    if op.OpPut? && Find(c.items, op.key).None? && c.maxSize > 0 && |c.items| == c.maxSize then 1 else 0
  }

  lemma {:induction false} CountersExact<K, V>(maxSize: int, ttl: int, ops: seq<Op<K, V>>)
    ensures var c := NewCache<K, V>(maxSize, ttl);
            && After(c, ops).hits == Total(c, ops, Hits)
            && After(c, ops).misses == Total(c, ops, Misses)
            && After(c, ops).evictions == Total(c, ops, PushesOut)
  {
    if ops != [] {
      CountersExact(maxSize, ttl, ops[..|ops| - 1]);
      AlwaysGood(NewCache<K, V>(maxSize, ttl), ops[..|ops| - 1]);
    }
  }

  /** Every Get is counted once, as a hit or as a miss. */
  function Gets<K, V>(ops: seq<Op<K, V>>): nat {
    if ops == [] then 0 else Gets(ops[..|ops| - 1]) + if ops[|ops| - 1].OpGet? then 1 else 0
  }

  lemma {:induction false} CountersAddUp<K, V>(maxSize: int, ttl: int, ops: seq<Op<K, V>>)
    ensures After(NewCache<K, V>(maxSize, ttl), ops).hits + After(NewCache<K, V>(maxSize, ttl), ops).misses == Gets(ops)
  {
    if ops != [] {
      CountersAddUp(maxSize, ttl, ops[..|ops| - 1]);
    }
  }

  /** How many entries a call brings in, and how many it takes out other than by eviction. */
  function Inserts<K(==), V>(c: Cache<K, V>, op: Op<K, V>): nat {
    if op.OpPut? && Find(c.items, op.key).None? then 1 else 0
  }

  function TakesOut<K(==), V>(c: Cache<K, V>, op: Op<K, V>): nat {
    match op
    case OpGet(k, now) => if Find(c.items, k).Some? && Get(c, k, now).1.None? then 1 else 0
    case OpPut(_, _, _) => 0
    case OpDelete(k) => if Find(c.items, k).Some? then 1 else 0
    case OpClear => |c.items|
  }

  lemma EntryFlow<K, V>(c: Cache<K, V>, op: Op<K, V>)
    requires Good(c)
    ensures var t := Apply(c, op).0;
            |c.items| + c.evictions + Inserts(c, op) == |t.items| + t.evictions + TakesOut(c, op)
  {
    if !op.OpClear? {
      WithoutDistinct(c.items, op.key);
    }
  }

  /** Every entry ever put in is still there, was taken out, or is counted as evicted. */
  lemma {:induction false} EntriesConserved<K, V>(maxSize: int, ttl: int, ops: seq<Op<K, V>>)
    ensures var c := NewCache<K, V>(maxSize, ttl);
            Total(c, ops, Inserts) == |After(c, ops).items| + After(c, ops).evictions + Total(c, ops, TakesOut)
  {
    if ops != [] {
      var init, last := ops[..|ops| - 1], ops[|ops| - 1];
      EntriesConserved(maxSize, ttl, init);
      AlwaysGood(NewCache<K, V>(maxSize, ttl), init);
      EntryFlow(After(NewCache<K, V>(maxSize, ttl), init), last);
    }
  }

  // ---------- How long an entry stays ----------

  /** The key a call puts or hits. */
  function TouchedBy<K(==), V>(c: Cache<K, V>, op: Op<K, V>): set<K> {
    match op
    case OpGet(k, now) => if Get(c, k, now).1.Some? then {k} else {}
    case OpPut(k, _, _) => {k}
    case _ => {}
  }

  /** The keys put or hit by a run that starts in `c`. */
  function Touched<K(==), V>(c: Cache<K, V>, ops: seq<Op<K, V>>): set<K> {
    if ops == [] then {}
    else Touched(c, ops[..|ops| - 1]) + TouchedBy(After(c, ops[..|ops| - 1]), ops[|ops| - 1])
  }

  /** The call removes `k` other than by eviction: a Delete or Clear, or a Get that finds it expired. */
  predicate Removes<K(==), V>(c: Cache<K, V>, op: Op<K, V>, k: K) {
    match op
    case OpGet(k', now) => k' == k && Find(c.items, k).Some? && Expired(c, Find(c.items, k).value, now)
    case OpPut(_, _, _) => false
    case OpDelete(k') => k' == k
    case OpClear => true
  }

  ghost predicate Spared<K(!new), V(!new)>(c: Cache<K, V>, ops: seq<Op<K, V>>, k: K) {
    ops == [] || (Spared(c, ops[..|ops| - 1], k) && !Removes(After(c, ops[..|ops| - 1]), ops[|ops| - 1], k))
  }

  /** The keys used more recently than `k`. */
  function Ahead<K(==), V>(items: seq<Item<K, V>>, k: K): set<K> {
    if items == [] || items[0].key == k then {} else {items[0].key} + Ahead(items[1..], k)
  }

  lemma {:induction false} AheadKeys<K, V>(items: seq<Item<K, V>>, k: K)
    requires DistinctKeys(items)
    ensures Ahead(items, k) <= Keys(items) - {k}
    ensures |Ahead(items, k)| <= |items| - if Find(items, k).Some? then 1 else 0
  {
    if items != [] && items[0].key != k {
      AheadKeys(items[1..], k);
    }
  }

  lemma {:induction false} AheadWithout<K, V>(items: seq<Item<K, V>>, k: K, other: K)
    requires k != other && DistinctKeys(items)
    ensures Ahead(Without(items, other), k) == Ahead(items, k) - {other}
    ensures Find(Without(items, other), k) == Find(items, k)
  {
    if items != [] {
      AheadWithout(items[1..], k, other);
      if items[0].key == k {
      } else if items[0].key == other {
        WithoutAbsent(items[1..], other);
        AheadKeys(items[1..], k);
      }
    }
  }

  /** Dropping the last entry loses `k` only when every other entry is ahead of it. */
  lemma {:induction false} AheadPrefix<K, V>(items: seq<Item<K, V>>, k: K, n: nat)
    requires DistinctKeys(items) && |items| == n + 1 && Find(items, k).Some?
    ensures if |Ahead(items, k)| == n then Find(items[..n], k).None?
            else Find(items[..n], k).Some? && Ahead(items[..n], k) == Ahead(items, k)
  {
    if n > 0 {
      assert items[..n] == [items[0]] + items[1..][..n - 1];
      if items[0].key == k {
      } else {
        AheadPrefix(items[1..], k, n - 1);
        AheadKeys(items[1..], k);
      }
    }
  }

  lemma SubsetSize<T>(a: set<T>, b: set<T>)
    requires a <= b
    ensures |a| <= |b|
  {
    assert b == a + (b - a);
  }

  lemma WithoutAbsentKey<K, V>(items: seq<Item<K, V>>, k: K)
    ensures Find(items, k).None? ==> Without(items, k) == items
  {
    if Find(items, k).None? { WithoutAbsent(items, k); }
  }

  lemma GetFindsAhead<K, V>(c: Cache<K, V>, k': K, now: int, k: K)
    requires Good(c) && Find(c.items, k).Some? && !Removes(c, OpGet(k', now), k)
    ensures Find(Get(c, k', now).0.items, k).Some?
    ensures Ahead(Get(c, k', now).0.items, k) ==
              if k' == k then {}
              else if Get(c, k', now).1.Some? then Ahead(c.items, k) + {k'}
              else Ahead(c.items, k) - {k'}
  {
    if k' != k {
      AheadWithout(c.items, k, k');
      WithoutAbsentKey(c.items, k');
    }
  }

  lemma PushUnfolds<K, V>(items: seq<Item<K, V>>, it: Item<K, V>, k: K)
    requires DistinctKeys(items) && it.key != k && Find(items, it.key).None?
    ensures var all := [it] + items;
            DistinctKeys(all) && Find(all, k) == Find(items, k) && Ahead(all, k) == Ahead(items, k) + {it.key}
  {
    assert ([it] + items)[1..] == items;
  }

  lemma PushFindsAhead<K, V>(items: seq<Item<K, V>>, it: Item<K, V>, k: K)
    requires DistinctKeys(items) && Find(items, k).Some? && it.key != k && Find(items, it.key).None?
    ensures var all := [it] + items;
            && Find(all, k) == Find(items, k) && Ahead(all, k) == Ahead(items, k) + {it.key}
            && Ahead(all, k) - {k} == Ahead(all, k)
            && (Find(all[..|items|], k).Some? <==> |Ahead(all, k)| < |items|)
            && (Find(all[..|items|], k).Some? ==> Ahead(all[..|items|], k) == Ahead(all, k))
  {
    hide *;
    PushUnfolds(items, it, k);
    AheadPrefix([it] + items, k, |items|);
    AheadKeys([it] + items, k);
  }

  lemma PutFindsAhead<K, V>(c: Cache<K, V>, k': K, v: V, now: int, k: K)
    requires Good(c) && Find(c.items, k).Some?
    ensures (c.maxSize > 0 ==> |Ahead(c.items, k) + {k'} - {k}| < c.maxSize) ==> Find(Put(c, k', v, now).items, k).Some?
    ensures Find(Put(c, k', v, now).items, k).Some? ==>
              Ahead(Put(c, k', v, now).items, k) == if k' == k then {} else Ahead(c.items, k) + {k'}
  {
    if k' != k {
      AheadWithout(c.items, k, k');
      if Find(c.items, k').None? {
        PushFindsAhead(c.items, Item(k', v, now), k);
      }
    }
  }

  /** One call keeps `k` resident, with nothing ahead of it but what was ahead or is touched now,
      unless the call removes it or pushes it out. */
  lemma StaysOneStep<K, V>(c: Cache<K, V>, op: Op<K, V>, k: K, ahead: set<K>)
    requires Good(c) && Find(c.items, k).Some? && Ahead(c.items, k) <= ahead && !Removes(c, op, k)
    requires c.maxSize > 0 ==> |ahead + TouchedBy(c, op) - {k}| < c.maxSize
    ensures Find(Apply(c, op).0.items, k).Some?
    ensures Ahead(Apply(c, op).0.items, k) <= ahead + TouchedBy(c, op) - {k}
  {
    AheadKeys(c.items, k);
    match op
    case OpGet(k', now) => GetFindsAhead(c, k', now, k);
    case OpPut(k', v, now) =>
      SubsetSize(Ahead(c.items, k) + {k'} - {k}, ahead + {k'} - {k});
      PutFindsAhead(c, k', v, now, k);
    case OpDelete(k') => AheadWithout(c.items, k, k');
    case OpClear =>
  }

  lemma {:induction false} StaysFrom<K(!new), V(!new)>(c: Cache<K, V>, ops: seq<Op<K, V>>, k: K)
    requires Good(c) && c.items != [] && c.items[0].key == k && Spared(c, ops, k)
    requires c.maxSize > 0 ==> |Touched(c, ops) - {k}| < c.maxSize
    ensures Find(After(c, ops).items, k).Some? && Ahead(After(c, ops).items, k) <= Touched(c, ops) - {k}
  {
    if ops != [] {
      var init, last := ops[..|ops| - 1], ops[|ops| - 1];
      SubsetSize(Touched(c, init) - {k}, Touched(c, ops) - {k});
      StaysFrom(c, init, k);
      AlwaysGood(c, init);
      assert Touched(c, init) - {k} + TouchedBy(After(c, init), last) - {k} == Touched(c, ops) - {k};
      StaysOneStep(After(c, init), last, k, Touched(c, init) - {k});
    }
  }

  /** Residency: a key just put or hit stays resident, whatever happens, until it is deleted,
      cleared or found expired, or maxSize other keys have been put or hit since. */
  lemma StaysResident<K(!new), V(!new)>(c: Cache<K, V>, op: Op<K, V>, ops: seq<Op<K, V>>, k: K)
    requires Good(c) && k in TouchedBy(c, op)
    requires Spared(Apply(c, op).0, ops, k)
    requires c.maxSize > 0 ==> |Touched(Apply(c, op).0, ops) - {k}| < c.maxSize
    ensures Find(After(Apply(c, op).0, ops).items, k).Some?
  {
    ApplyKeepsGood(c, op);
    StaysFrom(Apply(c, op).0, ops, k);
  }

  /** No call of the run removes anything other than by eviction, and none touches `k`. */
  ghost predicate Undisturbed<K(!new), V(!new)>(c: Cache<K, V>, ops: seq<Op<K, V>>, k: K) {
    k !in Touched(c, ops) && forall k' :: Spared(c, ops, k')
  }

  lemma {:induction false} AheadIsTouched<K(!new), V(!new)>(c: Cache<K, V>, ops: seq<Op<K, V>>, k: K)
    requires Good(c) && c.items != [] && c.items[0].key == k && Undisturbed(c, ops, k)
    requires Find(After(c, ops).items, k).Some?
    ensures Ahead(After(c, ops).items, k) == Touched(c, ops)
  {
    if ops != [] {
      var init, last := ops[..|ops| - 1], ops[|ops| - 1];
      var was := After(c, init);
      AlwaysGood(c, init);
      assert forall k' :: Spared(c, init, k') by {
        assert forall k' :: Spared(c, ops, k') ==> Spared(c, init, k');
      }
      assert Spared(c, ops, k);
      assert last.OpDelete? ==> Spared(c, ops, last.key);
      match last
      case OpClear =>
      case OpDelete(k') =>
      case OpGet(k', now) =>
        assert Spared(c, ops, k');
        if Find(was.items, k).Some? {
          AheadIsTouched(c, init, k);
          GetFindsAhead(was, k', now, k);
          AheadKeys(was.items, k);
        }
      case OpPut(k', v, now) =>
        if Find(was.items, k).Some? {
          AheadIsTouched(c, init, k);
          PutFindsAhead(was, k', v, now, k);
        }
    }
  }

  /** The bound is exact: with no removals and `k` itself left alone, `k` is resident exactly
      as long as fewer than maxSize distinct keys have been put or hit since. */
  lemma ResidentIff<K(!new), V(!new)>(c: Cache<K, V>, ops: seq<Op<K, V>>, k: K)
    requires Good(c) && c.maxSize > 0 && c.items != [] && c.items[0].key == k && Undisturbed(c, ops, k)
    ensures Find(After(c, ops).items, k).Some? <==> |Touched(c, ops)| < c.maxSize
  {
    AlwaysGood(c, ops);
    if Find(After(c, ops).items, k).Some? {
      AheadIsTouched(c, ops, k);
      AheadKeys(After(c, ops).items, k);
    }
    if |Touched(c, ops)| < c.maxSize {
      assert Touched(c, ops) - {k} == Touched(c, ops);
      assert Spared(c, ops, k);
      StaysFrom(c, ops, k);
    }
  }
}
