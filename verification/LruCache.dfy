/** The TTL and size bounded cache over a hash map and a linked list (cache.go). */
module LruCache {
  import opened Common
  import opened LinkedList
  import S = LruSpec

  class Entry<K, V> {
    const key: K
    var value: V
    var timestamp: int

    ghost function Item(): S.Item<K, V>
      reads this
    {
      S.Item(key, value, timestamp)
    }

    constructor (key: K, value: V, timestamp: int)
      ensures Item() == S.Item(key, value, timestamp)
    {
      this.key, this.value, this.timestamp := key, value, timestamp;
    }
  }

  type Node<K, V> = Element<Entry?<K, V>>

  /** A list element paired with the entry it carries. */
  datatype Cell<K, V> = Cell(node: Node<K, V>, item: S.Item<K, V>)

  ghost function Items<K, V>(cells: seq<Cell<K, V>>): (r: seq<S.Item<K, V>>)
    ensures |r| == |cells|
  {
    if cells == [] then [] else [cells[0].item] + Items(cells[1..])
  }

  ghost function NodesOf<K, V>(cells: seq<Cell<K, V>>): (r: seq<Node<K, V>>)
    ensures |r| == |cells|
  {
    if cells == [] then [] else [cells[0].node] + NodesOf(cells[1..])
  }

  ghost function CellsWithout<K, V>(cells: seq<Cell<K, V>>, k: K): (r: seq<Cell<K, V>>)
    ensures forall c | c in r :: c in cells && c.item.key != k
  {
    if cells == [] then []
    else if cells[0].item.key == k then CellsWithout(cells[1..], k)
    else [cells[0]] + CellsWithout(cells[1..], k)
  }

  lemma {:induction false} RemoveCell<K, V>(cells: seq<Cell<K, V>>, k: K, e: Node<K, V>)
    requires forall c | c in cells :: c.item.key == k <==> c.node == e
    ensures Items(CellsWithout(cells, k)) == S.Without(Items(cells), k)
    ensures NodesOf(CellsWithout(cells, k)) == Drop(NodesOf(cells), e)
  {
    if cells != [] {
      RemoveCell(cells[1..], k, e);
    }
  }

  lemma {:induction false} CellAt<K, V>(cells: seq<Cell<K, V>>, i: nat)
    requires i < |cells|
    ensures Items(cells)[i] == cells[i].item && NodesOf(cells)[i] == cells[i].node
  {
    if i > 0 {
      CellAt(cells[1..], i - 1);
    }
  }

  lemma {:induction false} CellWithKey<K, V>(cells: seq<Cell<K, V>>, k: K) returns (c: Cell<K, V>)
    requires k in S.Keys(Items(cells))
    ensures c in cells && c.item.key == k && c.node in NodesOf(cells)
    ensures S.Find(Items(cells), k) == Option.Some(c.item)
  {
    if cells[0].item.key == k {
      c := cells[0];
    } else {
      assert Items(cells)[1..] == Items(cells[1..]);
      c := CellWithKey(cells[1..], k);
    }
  }

  /** The cells are the list elements in order, and map keys and cells are in bijection. */
  ghost predicate Consistent<K, V>(items: map<K, Node<K, V>>, elems: seq<Node<K, V>>, cells: seq<Cell<K, V>>) {
    && elems == NodesOf(cells)
    && (forall c | c in cells :: c.node.value != null && c.node.value.key == c.item.key)
    && (forall c | c in cells :: c.item.key in items && items[c.item.key] == c.node)
    && items.Keys == S.Keys(Items(cells))
    && S.DistinctKeys(Items(cells))
  }

  /** The cell of a cached key, and that only it has that key or that element. */
  lemma Locate<K, V>(items: map<K, Node<K, V>>, elems: seq<Node<K, V>>, cells: seq<Cell<K, V>>, key: K)
    returns (c: Cell<K, V>)
    requires Consistent(items, elems, cells) && key in items
    ensures c in cells && c.item.key == key && c.node == items[key] && c.node in elems
    ensures S.Find(Items(cells), key) == Option.Some(c.item)
    ensures forall d | d in cells :: d.item.key == key <==> d.node == c.node
  {
    c := CellWithKey(cells, key);
  }

  lemma Absent<K, V>(items: map<K, Node<K, V>>, elems: seq<Node<K, V>>, cells: seq<Cell<K, V>>, key: K)
    requires Consistent(items, elems, cells) && key !in items
    ensures S.Find(Items(cells), key) == Option.None && S.Without(Items(cells), key) == Items(cells)
  {
    assert key !in S.Keys(Items(cells));
    S.WithoutAbsent(Items(cells), key);
  }

  lemma ConsistentWithout<K, V>(items: map<K, Node<K, V>>, elems: seq<Node<K, V>>, cells: seq<Cell<K, V>>, key: K)
    returns (c: Cell<K, V>)
    requires Consistent(items, elems, cells) && key in items
    ensures c in cells && c.item.key == key && c.node == items[key] && c.node in elems
    ensures S.Find(Items(cells), key) == Option.Some(c.item)
    ensures Consistent(items - {key}, Drop(elems, items[key]), CellsWithout(cells, key))
    ensures Items(CellsWithout(cells, key)) == S.Without(Items(cells), key)
    ensures |CellsWithout(cells, key)| == |cells| - 1
  {
    c := Locate(items, elems, cells, key);
    S.WithoutDistinct(Items(cells), key);
    RemoveCell(cells, key, items[key]);
  }

  lemma ConsistentFront<K, V>(items: map<K, Node<K, V>>, elems: seq<Node<K, V>>, cells: seq<Cell<K, V>>, c: Cell<K, V>)
    requires Consistent(items, elems, cells) && c.item.key !in items
    requires c.node.value != null && c.node.value.key == c.item.key
    ensures Consistent(items[c.item.key := c.node], [c.node] + elems, [c] + cells)
    ensures Items([c] + cells) == [c.item] + Items(cells)
  {
    Absent(items, elems, cells, c.item.key);
    var more := [c] + cells;
    assert more[1..] == cells && Items(more) == [c.item] + Items(cells);
    assert Items(more)[1..] == Items(cells);
  }

  lemma SameLength<K, V>(items: map<K, Node<K, V>>, elems: seq<Node<K, V>>, cells: seq<Cell<K, V>>)
    requires Consistent(items, elems, cells)
    ensures |elems| == |cells| == |Items(cells)|
  {
  }

  /** The last element is mapped, and removing its key removes just the last entry. */
  lemma LastCell<K, V>(items: map<K, Node<K, V>>, elems: seq<Node<K, V>>, cells: seq<Cell<K, V>>)
    requires Consistent(items, elems, cells) && cells != []
    ensures |elems| == |cells| == |Items(cells)|
    ensures var e := elems[|elems| - 1];
            && e.value != null && e.value.key in items && items[e.value.key] == e
            && S.Without(Items(cells), e.value.key) == Items(cells)[..|cells| - 1]
  {
    var n := |cells| - 1;
    CellAt(cells, n);
    assert cells[n] in cells;
    S.WithoutAt(Items(cells), n);
    assert Items(cells)[n + 1..] == [];
  }

  class LruCache<K(==), V> {
    const maxSize: int
    const ttl: int
    var items: map<K, Node<K, V>>
    var lruList: List<Entry?<K, V>>
    var hits: nat
    var misses: nat
    var evictions: nat

    /** The elements from most to least recently used, with what they carry. */
    ghost var cells: seq<Cell<K, V>>
    ghost var Repr: set<object>

    ghost function Value(): S.Cache<K, V>
      reads this
    {
      S.Cache(maxSize, ttl, Items(cells), hits, misses, evictions)
    }

    /** Map, list and cells agree, and every entry object holds what its cell says. */
    ghost predicate Linked()
      reads this`items, this`lruList, this`cells, this`Repr, Repr - {this}
    {
      && this in Repr && lruList in Repr && lruList.Repr() <= Repr && lruList.Valid()
      && Consistent(items, lruList.elems, cells)
      && (forall c | c in cells :: c.node.value in Repr && c.node.value.Item() == c.item)
    }

    ghost predicate Valid()
      reads this, Repr
      ensures Valid() ==> this in Repr
    {
      Linked() && (maxSize > 0 ==> |cells| <= maxSize)
    }

    constructor (maxSize: int, ttl: int)
      ensures Valid() && fresh(Repr) && Value() == S.NewCache(maxSize, ttl)
    {
      this.maxSize, this.ttl := maxSize, ttl;
      items := map[];
      lruList := new List(null);
      hits, misses, evictions := 0, 0, 0;
      cells := [];
      new;
      Repr := {this} + lruList.Repr();
    }

    method Remove(key: K, elem: Node<K, V>)
      requires Linked() && key in items && items[key] == elem
      modifies this`items, this`cells, lruList, lruList.Nodes()
      ensures Linked() && |cells| == old(|cells|) - 1
      ensures Items(cells) == S.Without(old(Items(cells)), key)
    {
      hide S.Find, S.Without, S.Keys, Items, NodesOf, CellsWithout, Consistent, Drop, Distinct, Chained;
      ghost var c := ConsistentWithout(items, lruList.elems, cells, key);
      lruList.Remove(elem);
      items := items - {key};
      cells := CellsWithout(cells, key);
    }

    /** Move a key's element, which now carries `it`, to the front. */
    method MoveToFront(key: K, elem: Node<K, V>, ghost it: S.Item<K, V>)
      requires this in Repr && lruList in Repr && lruList.Repr() <= Repr && lruList.Valid()
      requires Consistent(items, lruList.elems, cells) && key in items && items[key] == elem && it.key == key
      requires elem.value != null && elem.value in Repr && elem.value.Item() == it
      requires forall c | c in cells && c.node != elem :: c.node.value in Repr && c.node.value.Item() == c.item
      modifies this`cells, lruList, lruList.Nodes()
      ensures Linked() && |cells| == old(|cells|)
      ensures Items(cells) == [it] + S.Without(old(Items(cells)), key)
    {
      hide S.Find, S.Without, S.Keys, Items, NodesOf, CellsWithout, Consistent, Drop, Distinct, Chained;
      ghost var c := ConsistentWithout(items, lruList.elems, cells, key);
      ghost var front := Cell(elem, it);
      ConsistentFront(items - {key}, Drop(lruList.elems, elem), CellsWithout(cells, key), front);
      assert (items - {key})[key := elem] == items;
      lruList.MoveToFront(elem);
      cells := [front] + CellsWithout(cells, key);
    }

    method Get(key: K, now: int) returns (r: Option<V>)
      requires Valid()
      modifies Repr
      ensures Valid() && fresh(Repr - old(Repr))
      ensures (Value(), r) == S.Get(old(Value()), key, now)
    {
      hide S.Find, S.Without, S.Keys, Items, NodesOf, CellsWithout, Consistent, Drop, Distinct, Chained;
      if key !in items {
        Absent(items, lruList.elems, cells, key);
        misses := misses + 1;
        return None;
      }
      ghost var c := Locate(items, lruList.elems, cells, key);
      var elem := items[key];
      var entry := elem.value;
      if ttl > 0 && now - entry.timestamp > ttl {
        Remove(key, elem);
        misses := misses + 1;
        return None;
      }
      MoveToFront(key, elem, c.item);
      hits := hits + 1;
      r := Some(entry.value);
    }

    /** Put of a new key, before any eviction. */
    method Push(key: K, value: V, now: int)
      requires Linked() && key !in items
      modifies Repr
      ensures Linked() && fresh(Repr - old(Repr)) && lruList.len == |cells| == old(|cells|) + 1
      ensures unchanged(this`hits, this`misses, this`evictions)
      ensures Items(cells) == [S.Item(key, value, now)] + old(Items(cells))
    {
      hide S.Find, S.Without, S.Keys, Items, NodesOf, CellsWithout, Consistent, Drop, Distinct, Chained;
      var entry := new Entry(key, value, now);
      ghost var elems := lruList.elems;
      var elem := lruList.PushFront(entry);
      ghost var c := Cell(elem, entry.Item());
      ConsistentFront(items, elems, cells, c);
      items := items[key := elem];
      cells := [c] + cells;
      Repr := Repr + {entry, elem};
      SameLength(items, lruList.elems, cells);
    }

    method EvictOldest()
      requires Linked()
      modifies this, lruList, lruList.Nodes()
      ensures Linked() && Repr == old(Repr)
      ensures unchanged(this`hits, this`misses)
      ensures if old(cells) == [] then cells == [] && evictions == old(evictions)
              else Items(cells) == old(Items(cells))[..old(|cells|) - 1] && evictions == old(evictions) + 1
    {
      hide S.Find, S.Without, S.Keys, Items, NodesOf, CellsWithout, Consistent, Drop, Distinct, Chained;
      var elem := lruList.Back();
      SameLength(items, lruList.elems, cells);
      if elem == null {
        return;
      }
      LastCell(items, lruList.elems, cells);
      var entry := elem.value;
      Remove(entry.key, elem);
      evictions := evictions + 1;
    }

    method Put(key: K, value: V, now: int)
      requires Valid()
      modifies Repr
      ensures Valid() && fresh(Repr - old(Repr))
      ensures Value() == S.Put(old(Value()), key, value, now)
    {
      hide S.Find, S.Without, S.Keys, Items, NodesOf, CellsWithout, Consistent, Drop, Distinct, Chained;
      if key in items {
        ghost var c := Locate(items, lruList.elems, cells, key);
        var elem := items[key];
        var entry := elem.value;
        entry.value := value;
        entry.timestamp := now;
        MoveToFront(key, elem, entry.Item());
        return;
      }
      Absent(items, lruList.elems, cells, key);
      Push(key, value, now);
      if maxSize > 0 && lruList.len > maxSize {
        EvictOldest();
      }
    }

    method Delete(key: K)
      requires Valid()
      modifies Repr
      ensures Valid() && fresh(Repr - old(Repr))
      ensures Value() == S.Delete(old(Value()), key)
    {
      hide S.Find, S.Without, S.Keys, Items, NodesOf, CellsWithout, Consistent, Drop, Distinct, Chained;
      if key in items {
        Remove(key, items[key]);
      } else {
        Absent(items, lruList.elems, cells, key);
      }
    }

    method Clear()
      requires Valid()
      modifies Repr
      ensures Valid() && fresh(Repr - old(Repr))
      ensures Value() == S.Clear(old(Value()))
    {
      items := map[];
      lruList := new List(null);
      cells := [];
      Repr := {this} + lruList.Repr();
    }

    method Len() returns (n: nat)
      requires Valid()
      ensures n == |Value().items|
    {
      n := lruList.len;
    }

    lemma ValidIsGood()
      requires Valid()
      ensures S.Good(Value())
    {
    }
  }
}
