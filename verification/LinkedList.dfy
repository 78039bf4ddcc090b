/** The doubly linked list the cache keeps its recency order in: a ring of elements
    through a sentinel, as in Go's container/list. */
module LinkedList {

  class Element<T> {
    var next: Element?<T>
    var prev: Element?<T>
    const value: T

    constructor (value: T)
      ensures this.value == value
    {
      this.value := value;
      next, prev := null, null;
    }
  }

  // ---------- Sequences without repetition ----------

  /** `s` without `x`. */
  ghost function Drop<X>(s: seq<X>, x: X): (r: seq<X>)
    ensures (forall y | y in r :: y in s && y != x) && (forall y | y in s && y != x :: y in r)
    ensures x !in s ==> r == s
  {
    if s == [] then []
    else if s[0] == x then Drop(s[1..], x)
    else [s[0]] + Drop(s[1..], x)
  }

  ghost predicate Distinct<X>(s: seq<X>) {
    s == [] || (s[0] !in s[1..] && Distinct(s[1..]))
  }

  lemma {:induction false} DropAt<X>(s: seq<X>, i: nat)
    requires i < |s| && Distinct(s)
    ensures Drop(s, s[i]) == s[..i] + s[i + 1..] && Distinct(Drop(s, s[i]))
  {
    if i > 0 {
      var rest := s[1..];
      DropAt(rest, i - 1);
      assert s[i] == rest[i - 1] && s[0] != s[i];
      assert s[..i] == [s[0]] + rest[..i - 1] && s[i + 1..] == rest[i..];
      assert Drop(s, s[i])[1..] == Drop(rest, s[i]);
    }
  }

  lemma {:induction false} DistinctPairs<X>(s: seq<X>)
    requires Distinct(s)
    ensures forall j, k :: 0 <= j < k < |s| ==> s[j] != s[k]
  {
    if s != [] {
      var rest := s[1..];
      DistinctPairs(rest);
      forall j, k | 0 <= j < k < |s| ensures s[j] != s[k] {
        assert s[k] == rest[k - 1];
        if j > 0 { assert s[j] == rest[j - 1]; }
      }
    }
  }

  /** Distinct elements never meet again around the ring, except for the sentinel at both ends. */
  lemma RingDistinct<X>(root: X, elems: seq<X>)
    requires Distinct(elems) && root !in elems
    ensures var ring := [root] + elems + [root];
            forall i, j :: 0 <= i < j < |ring| && !(i == 0 && j == |ring| - 1) ==> ring[i] != ring[j]
  {
    DistinctPairs(elems);
    var ring := [root] + elems + [root];
    forall i, j | 0 <= i < j < |ring| && !(i == 0 && j == |ring| - 1) ensures ring[i] != ring[j] {
      if i > 0 { assert ring[i] == elems[i - 1]; }
      if j < |ring| - 1 { assert ring[j] == elems[j - 1]; }
    }
  }

  // ---------- Links along a sequence ----------

  /** Neighbours in the sequence link to each other. */
  ghost predicate Chained<T>(ring: seq<Element<T>>)
    reads ring
  {
    |ring| < 2 || (ring[0].next == ring[1] && ring[1].prev == ring[0] && Chained(ring[1..]))
  }

  lemma {:induction false} LinksOf<T>(ring: seq<Element<T>>)
    requires Chained(ring)
    ensures forall i {:trigger ring[i].next} | 0 <= i < |ring| - 1 :: ring[i].next == ring[i + 1]
    ensures forall i {:trigger ring[i].prev} | 0 < i < |ring| :: ring[i].prev == ring[i - 1]
  {
    if |ring| >= 2 {
      var rest := ring[1..];
      LinksOf(rest);
      forall i {:trigger ring[i].next} | 0 <= i < |ring| - 1 ensures ring[i].next == ring[i + 1] {
        if i > 0 { assert ring[i] == rest[i - 1] && rest[i - 1].next == rest[i]; }
      }
      forall i {:trigger ring[i].prev} | 0 < i < |ring| ensures ring[i].prev == ring[i - 1] {
        if i > 1 { assert ring[i] == rest[i - 1] && rest[i - 1].prev == rest[i - 2]; }
      }
    }
  }

  lemma {:induction false} ChainedBy<T>(ring: seq<Element<T>>)
    requires forall i {:trigger ring[i].next} | 0 <= i < |ring| - 1 :: ring[i].next == ring[i + 1]
    requires forall i {:trigger ring[i].prev} | 0 < i < |ring| :: ring[i].prev == ring[i - 1]
    ensures Chained(ring)
  {
    if |ring| >= 2 {
      var rest := ring[1..];
      forall i {:trigger rest[i].next} | 0 <= i < |rest| - 1 ensures rest[i].next == rest[i + 1] {
        assert ring[i + 1].next == ring[i + 2];
      }
      forall i {:trigger rest[i].prev} | 0 < i < |rest| ensures rest[i].prev == rest[i - 1] {
        assert ring[i + 1].prev == ring[i];
      }
      ChainedBy(rest);
      assert ring[0].next == ring[1] && ring[1].prev == ring[0];
    }
  }

  /** With the two links to the i-th element redirected around it, the rest is chained. */
  lemma ChainedAround<T>(ring: seq<Element<T>>, i: nat)
    requires 0 < i < |ring| - 1
    requires ring[i - 1].next == ring[i + 1] && ring[i + 1].prev == ring[i - 1]
    requires forall j {:trigger ring[j].next} | 0 <= j < |ring| - 1 && j != i - 1 && j != i ::
               ring[j].next == ring[j + 1]
    requires forall j {:trigger ring[j].prev} | 0 < j < |ring| && j != i + 1 && j != i :: ring[j].prev == ring[j - 1]
    ensures Chained(ring[..i] + ring[i + 1..])
  {
    var rest := ring[..i] + ring[i + 1..];
    forall j {:trigger rest[j].next} | 0 <= j < |rest| - 1 ensures rest[j].next == rest[j + 1] {
      if j < i { assert rest[j] == ring[j]; } else { assert rest[j] == ring[j + 1]; }
    }
    forall j {:trigger rest[j].prev} | 0 < j < |rest| ensures rest[j].prev == rest[j - 1] {
      if j < i { assert rest[j] == ring[j]; } else { assert rest[j] == ring[j + 1]; }
    }
    ChainedBy(rest);
  }

  /** With `e` linked in after the first element, the longer sequence is chained. */
  lemma ChainedThrough<T>(ring: seq<Element<T>>, e: Element<T>)
    requires |ring| >= 2
    requires ring[0].next == e && e.prev == ring[0] && e.next == ring[1] && ring[1].prev == e
    requires forall j {:trigger ring[j].next} | 0 < j < |ring| - 1 :: ring[j].next == ring[j + 1]
    requires forall j {:trigger ring[j].prev} | 1 < j < |ring| :: ring[j].prev == ring[j - 1]
    ensures Chained([ring[0], e] + ring[1..])
  {
    var more := [ring[0], e] + ring[1..];
    forall j {:trigger more[j].next} | 0 <= j < |more| - 1 ensures more[j].next == more[j + 1] {
      if j > 1 { assert more[j] == ring[j - 1]; }
    }
    forall j {:trigger more[j].prev} | 0 < j < |more| ensures more[j].prev == more[j - 1] {
      if j > 2 { assert more[j] == ring[j - 1]; }
    }
    ChainedBy(more);
  }

  // ---------- The list ----------

  class List<T> {
    const root: Element<T>
    var len: nat
    /** The elements from front to back. */
    ghost var elems: seq<Element<T>>

    /** Once around: the sentinel, the elements, and the sentinel again. */
    ghost function Ring(): seq<Element<T>>
      reads this`elems
    {
      [root] + elems + [root]
    }

    ghost function Nodes(): set<object>
      reads this`elems
    {
      {root} + set e | e in elems
    }

    ghost function Repr(): set<object>
      reads this`elems
    {
      {this} + Nodes()
    }

    ghost predicate Linked()
      reads this`elems, Nodes()
    {
      Distinct(elems) && root !in elems && Chained(Ring())
    }

    ghost predicate Valid()
      reads this, Nodes()
    {
      Linked() && len == |elems|
    }

    constructor (zero: T)
      ensures Valid() && elems == [] && fresh(Repr())
    {
      var r := new Element(zero);
      root := r;
      len := 0;
      elems := [];
      new;
      r.next, r.prev := r, r;
      assert Ring()[1..] == [r];
    }

    method InsertFront(e: Element<T>)
      requires Linked() && e !in elems && e != root
      modifies this`elems, e, Nodes()
      ensures Linked() && elems == [e] + old(elems)
    {
      ghost var ring := Ring();
      LinksOf(ring);
      RingDistinct(root, elems);
      e.prev := root;
      e.next := root.next;
      e.prev.next := e;
      e.next.prev := e;
      ChainedThrough(ring, e);
      elems := [e] + elems;
      assert Ring() == [root, e] + ring[1..];
    }

    method PushFront(value: T) returns (e: Element<T>)
      requires Valid()
      modifies this, Nodes()
      ensures Valid() && fresh(e) && e.value == value
      ensures elems == [e] + old(elems)
    {
      e := new Element(value);
      InsertFront(e);
      len := len + 1;
    }

    method Unlink(e: Element<T>)
      requires Linked() && e in elems
      modifies this`elems, Nodes()
      ensures Linked() && elems == Drop(old(elems), e) && |elems| == old(|elems|) - 1
    {
      hide Distinct, Drop, Chained;
      ghost var i :| 0 <= i < |elems| && elems[i] == e;
      ghost var rest := Drop(elems, e);
      ghost var ring := Ring();
      assert Distinct(rest) && |rest| == |elems| - 1 && [root] + rest + [root] == ring[..i + 1] + ring[i + 2..] by {
        DropAt(elems, i);
      }
      LinksOf(ring);
      RingDistinct(root, elems);
      assert ring[i + 1] == e && e.prev == ring[i] && e.next == ring[i + 2];
      e.prev.next := e.next;
      e.next.prev := e.prev;
      assert ring[i].next == ring[i + 2] && ring[i + 2].prev == ring[i];
      ChainedAround(ring, i + 1);
      elems := rest;
    }

    method Remove(e: Element<T>)
      requires Valid() && e in elems
      modifies this, Nodes()
      ensures Valid() && elems == Drop(old(elems), e) && len == old(len) - 1
    {
      Unlink(e);
      e.next, e.prev := null, null;
      len := len - 1;
    }

    method MoveToFront(e: Element<T>)
      requires Valid() && e in elems
      modifies this, Nodes()
      ensures Valid() && elems == [e] + Drop(old(elems), e)
    {
      LinksOf(Ring());
      if root.next == e {
        assert Ring()[1] == e == elems[0] && Drop(elems, e) == elems[1..];
        return;
      }
      Unlink(e);
      InsertFront(e);
    }

    /** The last element, or null. */
    method Back() returns (e: Element?<T>)
      requires Valid()
      ensures e == null <==> elems == []
      ensures e != null ==> e == elems[|elems| - 1]
    {
      if len == 0 {
        return null;
      }
      LinksOf(Ring());
      assert Ring()[|elems| + 1].prev == Ring()[|elems|];
      e := root.prev;
    }
  }
}
