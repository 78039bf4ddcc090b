/** The cache as a value: entries from most to least recently used, and the counters. */
module LruSpec {
  import opened Common

  datatype Item<K, V> = Item(key: K, value: V, stamp: int)

  datatype Cache<K, V> = Cache(
    maxSize: int, ttl: int, items: seq<Item<K, V>>, hits: nat, misses: nat, evictions: nat)

  function Find<K(==), V>(items: seq<Item<K, V>>, k: K): (r: Option<Item<K, V>>)
    ensures r.Some? ==> r.value in items && r.value.key == k
    ensures r.None? ==> forall it | it in items :: it.key != k
  {
    if items == [] then None
    else if items[0].key == k then Some(items[0])
    else Find(items[1..], k)
  }

  function Without<K(==), V>(items: seq<Item<K, V>>, k: K): (r: seq<Item<K, V>>)
    ensures (forall it | it in r :: it in items && it.key != k) && (forall it | it in items && it.key != k :: it in r)
    ensures |r| <= |items|
  {
    if items == [] then []
    else if items[0].key == k then Without(items[1..], k)
    else [items[0]] + Without(items[1..], k)
  }

  ghost function Keys<K, V>(items: seq<Item<K, V>>): set<K> {
    set it | it in items :: it.key
  }

  predicate Expired<K, V>(c: Cache<K, V>, it: Item<K, V>, now: int) {
    c.ttl > 0 && now - it.stamp > c.ttl
  }

  function Get<K(==), V>(c: Cache<K, V>, k: K, now: int): (Cache<K, V>, Option<V>) {
    match Find(c.items, k)
    case None => (c.(misses := c.misses + 1), None)
    case Some(it) =>
      if Expired(c, it, now) then (c.(items := Without(c.items, k), misses := c.misses + 1), None)
      else (c.(items := [it] + Without(c.items, k), hits := c.hits + 1), Some(it.value))
  }

  function Put<K(==), V>(c: Cache<K, V>, k: K, v: V, now: int): Cache<K, V> {
    var front := [Item(k, v, now)];
    if Find(c.items, k).Some? then c.(items := front + Without(c.items, k))
    else if c.maxSize > 0 && |c.items| + 1 > c.maxSize then
      c.(items := (front + c.items)[..|c.items|], evictions := c.evictions + 1)
    else c.(items := front + c.items)
  }

  function Delete<K(==), V>(c: Cache<K, V>, k: K): Cache<K, V> {
    c.(items := Without(c.items, k))
  }

  /** Clear drops the entries and keeps the counters. */
  function Clear<K, V>(c: Cache<K, V>): Cache<K, V> {
    c.(items := [])
  }

  function NewCache<K, V>(maxSize: int, ttl: int): Cache<K, V> {
    Cache(maxSize, ttl, [], 0, 0, 0)
  }

  ghost predicate DistinctKeys<K, V>(items: seq<Item<K, V>>) {
    items == [] || (Find(items[1..], items[0].key).None? && DistinctKeys(items[1..]))
  }

  ghost predicate Good<K, V>(c: Cache<K, V>) {
    DistinctKeys(c.items) && (c.maxSize > 0 ==> |c.items| <= c.maxSize)
  }

  // ---------- List lemmas ----------

  lemma {:induction false} FindAt<K, V>(items: seq<Item<K, V>>, i: nat)
    requires i < |items| && DistinctKeys(items)
    ensures Find(items, items[i].key) == Some(items[i])
  {
    if i > 0 {
      FindAt(items[1..], i - 1);
    }
  }

  lemma {:induction false} WithoutAbsent<K, V>(items: seq<Item<K, V>>, k: K)
    requires forall it | it in items :: it.key != k
    ensures Without(items, k) == items
  {
    if items != [] {
      WithoutAbsent(items[1..], k);
    }
  }

  lemma {:induction false} WithoutAt<K, V>(items: seq<Item<K, V>>, i: nat)
    requires i < |items| && DistinctKeys(items)
    ensures Without(items, items[i].key) == items[..i] + items[i + 1..]
  {
    if i == 0 {
      WithoutAbsent(items[1..], items[0].key);
    } else {
      WithoutAt(items[1..], i - 1);
      assert items[1..][..i - 1] == items[1..i];
    }
  }

  lemma {:induction false} WithoutDistinct<K, V>(items: seq<Item<K, V>>, k: K)
    requires DistinctKeys(items)
    ensures DistinctKeys(Without(items, k)) && Find(Without(items, k), k).None?
    ensures |Without(items, k)| == |items| - if Find(items, k).Some? then 1 else 0
    ensures Keys(Without(items, k)) == Keys(items) - {k}
  {
    if items != [] {
      WithoutDistinct(items[1..], k);
      if items[0].key == k { WithoutAbsent(items[1..], k); }
    }
  }

  lemma {:induction false} FindWithout<K, V>(items: seq<Item<K, V>>, k: K, other: K)
    requires k != other
    ensures Find(Without(items, other), k) == Find(items, k)
  {
    if items != [] {
      FindWithout(items[1..], k, other);
    }
  }

  lemma {:induction false} PrefixDistinct<K, V>(items: seq<Item<K, V>>, n: nat)
    requires DistinctKeys(items) && n <= |items|
    ensures DistinctKeys(items[..n])
  {
    if n > 0 {
      PrefixDistinct(items[1..], n - 1);
      assert items[..n] == [items[0]] + items[1..][..n - 1];
    }
  }

  // ---------- Invariant ----------

  lemma GetKeepsGood<K, V>(c: Cache<K, V>, k: K, now: int)
    requires Good(c)
    ensures Good(Get(c, k, now).0)
  {
    WithoutDistinct(c.items, k);
  }

  lemma PutKeepsGood<K, V>(c: Cache<K, V>, k: K, v: V, now: int)
    requires Good(c)
    ensures Good(Put(c, k, v, now))
  {
    WithoutDistinct(c.items, k);
    var front := [Item(k, v, now)] + c.items;
    if Find(c.items, k).None? {
      PrefixDistinct(front, |c.items|);
    }
  }

  lemma DeleteKeepsGood<K, V>(c: Cache<K, V>, k: K)
    requires Good(c)
    ensures Good(Delete(c, k))
  {
    WithoutDistinct(c.items, k);
  }
}
