/** Inode identity over every run of GetInode and Clear, read off the calls and the numbers
    they returned. */
module InodeRuns {
  import opened Common
  import opened InodeSpec

  datatype Op = OpGet(path: Path, meta: Meta) | OpClear

  /** What callers see: which number a path and observation got, and where Clear happened. */
  datatype Event = Issued(path: Path, meta: Meta, number: nat) | Cleared

  function Step(s: Inodes, op: Op): Inodes {
    match op
    case OpGet(p, m) => GetInode(s, p, m).0
    case OpClear => Clear(s)
  }

  function After(ops: seq<Op>): Inodes {
    if ops == [] then NO_INODES else Step(After(ops[..|ops| - 1]), ops[|ops| - 1])
  }

  function EventOf(s: Inodes, op: Op): Event {
    match op
    case OpGet(p, m) => Issued(p, m, GetInode(s, p, m).1)
    case OpClear => Cleared
  }

  function Log(ops: seq<Op>): (log: seq<Event>)
    ensures |log| == |ops|
  {
    if ops == [] then []
    else Log(ops[..|ops| - 1]) + [EventOf(After(ops[..|ops| - 1]), ops[|ops| - 1])]
  }

  lemma {:induction false} AlwaysGood(ops: seq<Op>)
    ensures Good(After(ops))
  {
    if ops != [] {
      var init := ops[..|ops| - 1];
      AlwaysGood(init);
      match ops[|ops| - 1]
      case OpGet(p, m) => GetInodeKeepsGood(After(init), p, m);
      case OpClear => ClearKeepsGood(After(init));
    }
  }

  // ---------- Histories ----------

  /** Nothing in log[from..to] clears the manager or observes `p` differently from `m`. */
  ghost predicate Steady(log: seq<Event>, from: nat, to: nat, p: Path, m: Meta)
    requires from <= to <= |log|
  {
    forall k | from <= k < to :: !log[k].Cleared? && (log[k].path == p ==> log[k].meta == m)
  }

  /** Event `i` is the latest issue for `p`, with no Clear since. */
  ghost predicate Latest(log: seq<Event>, i: nat, p: Path)
    requires i < |log|
  {
    && log[i].Issued? && log[i].path == p
    && forall k | i < k < |log| :: log[k].Issued? && log[k].path != p
  }

  ghost predicate HasLatest(log: seq<Event>, p: Path) {
    exists i :: 0 <= i < |log| && Latest(log, i, p)
  }

  /** The maps hold exactly what the history implies: a path is live when it was issued a
      number after the last Clear, and its number and observation are those of its latest issue. */
  ghost predicate Remembers(s: Inodes, log: seq<Event>) {
    && (forall p :: p in s.byPath <==> HasLatest(log, p))
    && (forall p, i | 0 <= i < |log| && Latest(log, i, p) ::
          p in s.byPath && s.byPath[p] == log[i].number && SameFile(s, log[i].number, log[i].meta))
    && (forall k | 0 <= k < |log| && log[k].Issued? :: log[k].number <= s.next)
  }

  lemma LatestNext(log: seq<Event>, e: Event, p: Path)
    ensures HasLatest(log + [e], p) <==>
            (e.Issued? && e.path == p) || (e.Issued? && HasLatest(log, p))
    ensures forall i :: 0 <= i < |log| + 1 ==> (Latest(log + [e], i, p) <==>
              if i == |log| then e.Issued? && e.path == p
              else Latest(log, i, p) && e.Issued? && e.path != p)
  {
    var more := log + [e];
    assert more[|log|] == e;
    forall i | 0 <= i < |log|
      ensures Latest(more, i, p) <==> Latest(log, i, p) && e.Issued? && e.path != p
    {
      assert more[i] == log[i];
      assert forall k | i < k < |log| :: more[k] == log[k];
      if Latest(more, i, p) {
        forall k | i < k < |log| ensures log[k].Issued? && log[k].path != p { assert more[k] == log[k]; }
      }
    }
    if HasLatest(log, p) && e.Issued? && e.path != p {
      var i :| 0 <= i < |log| && Latest(log, i, p);
      assert Latest(more, i, p);
    }
    if e.Issued? && e.path == p {
      assert Latest(more, |log|, p);
    }
  }

  lemma RemembersNext(s: Inodes, log: seq<Event>, op: Op)
    requires Good(s) && Remembers(s, log)
    ensures Remembers(Step(s, op), log + [EventOf(s, op)])
  {
    var e, s' := EventOf(s, op), Step(s, op);
    var more := log + [e];
    forall p ensures p in s'.byPath <==> HasLatest(more, p) {
      LatestNext(log, e, p);
    }
    forall p, i | 0 <= i < |more| && Latest(more, i, p)
      ensures p in s'.byPath && s'.byPath[p] == more[i].number && SameFile(s', more[i].number, more[i].meta)
    {
      LatestNext(log, e, p);
      if i < |log| {
        assert Latest(log, i, p);
      }
    }
    forall k | 0 <= k < |more| && more[k].Issued? ensures more[k].number <= s'.next {
      if k < |log| { assert more[k] == log[k]; }
    }
  }

  lemma {:induction false} AlwaysRemembers(ops: seq<Op>)
    ensures Remembers(After(ops), Log(ops))
  {
    if ops != [] {
      var init, last := ops[..|ops| - 1], ops[|ops| - 1];
      AlwaysRemembers(init);
      AlwaysGood(init);
      RemembersNext(After(init), Log(init), last);
    }
  }

  // ---------- Identity ----------

  /** Two calls got the same number. */
  ghost predicate SameNumber(log: seq<Event>, i: nat, j: nat)
    requires i < |log| && j < |log|
  {
    log[i].Issued? && log[j].Issued? && log[i].number == log[j].number
  }

  ghost predicate SameEra(log: seq<Event>, i: nat, j: nat)
    requires i < j < |log|
  {
    log[i].Issued? && log[j].Issued? && log[i].path == log[j].path && Steady(log, i, j + 1, log[i].path, log[i].meta)
  }

  lemma SameEraExtends(log: seq<Event>, e: Event, l: nat, i: nat)
    requires l < |log| && i < |log| && e.Issued? && Latest(log, l, e.path)
    requires e.number == log[l].number && e.meta == log[l].meta
    requires forall a, b :: 0 <= a < b < |log| ==> (SameNumber(log, a, b) <==> SameEra(log, a, b))
    ensures SameNumber(log + [e], i, |log|) <==> SameEra(log + [e], i, |log|)
  {
    var more := log + [e];
    assert more[|log|] == e;
    assert forall k | 0 <= k < |log| :: more[k] == log[k];
    if i < l {
      assert SameNumber(log, i, l) <==> SameEra(log, i, l);
      if SameEra(log, i, l) {
        forall k | i <= k < |more|
          ensures !more[k].Cleared? && (more[k].path == e.path ==> more[k].meta == log[i].meta)
        {
          if k < |log| { assert more[k] == log[k]; }
        }
      }
      if SameEra(more, i, |log|) {
        forall k | i <= k < l + 1
          ensures !log[k].Cleared? && (log[k].path == log[i].path ==> log[k].meta == log[i].meta)
        {
          assert more[k] == log[k];
        }
      }
    } else if i == l {
      forall k | i <= k < |more| ensures !more[k].Cleared? && (more[k].path == e.path ==> more[k].meta == log[i].meta) {
        if k < |log| { assert more[k] == log[k]; }
      }
    } else {
      assert SameNumber(log, l, i) <==> SameEra(log, l, i);
    }
  }

  lemma {:induction false} NoLatestMeansCleared(log: seq<Event>, i: nat, p: Path)
    requires i < |log| && log[i].Issued? && log[i].path == p && !HasLatest(log, p)
    ensures exists k :: i < k < |log| && log[k].Cleared?
    decreases |log| - i
  {
    assert !Latest(log, i, p);
    var k :| i < k < |log| && !(log[k].Issued? && log[k].path != p);
    if !log[k].Cleared? {
      NoLatestMeansCleared(log, k, p);
      var c :| k < c < |log| && log[c].Cleared?;
    }
  }

  /** The call at the end of a run gets the number of an earlier call exactly when both are
      for the same path and nothing from one to the other cleared the manager or saw the
      path with another modification time or size. */
  lemma NumberOfLast(log: seq<Event>, s: Inodes, p: Path, m: Meta, i: nat)
    requires Good(s) && Remembers(s, log) && i < |log|
    requires forall a, b :: 0 <= a < b < |log| ==> (SameNumber(log, a, b) <==> SameEra(log, a, b))
    ensures var more := log + [EventOf(s, OpGet(p, m))];
            SameNumber(more, i, |log|) <==> SameEra(more, i, |log|)
  {
    var e := EventOf(s, OpGet(p, m));
    var more := log + [e];
    assert more[|log|] == e && forall k | 0 <= k < |log| :: more[k] == log[k];
    if HasLatest(log, p) {
      var l :| 0 <= l < |log| && Latest(log, l, p);
      assert more[l] == log[l];
      assert p in s.byPath && s.byPath[p] == log[l].number;
      if log[l].meta == m {
        assert e.number == log[l].number;
        SameEraExtends(log, e, l, i);
      } else {
        assert e.number == s.next + 1;
      }
    } else {
      assert e.number == s.next + 1;
      if SameEra(more, i, |log|) {
        NoLatestMeansCleared(log, i, p);
      }
    }
  }

  /** Identity: in every run two calls return the same number exactly when they are for the
      same path and, from the first to the second, nothing cleared the manager and every
      call for that path saw the same modification time and size. */
  lemma {:induction false} SameNumberIff(ops: seq<Op>, i: nat, j: nat)
    requires i < j < |ops|
    ensures SameNumber(Log(ops), i, j) <==> SameEra(Log(ops), i, j)
  {
    var init, last := ops[..|ops| - 1], ops[|ops| - 1];
    var log, more := Log(init), Log(ops);
    assert more == log + [EventOf(After(init), last)];
    if j < |init| {
      SameNumberIff(init, i, j);
      assert forall k | 0 <= k < |log| :: more[k] == log[k];
      assert log[i].Issued? ==>
          (Steady(log, i, j + 1, log[i].path, log[i].meta) <==> Steady(more, i, j + 1, log[i].path, log[i].meta)) by {
        assert forall k | i <= k < j + 1 :: more[k] == log[k];
      }
    } else {
      match last
      case OpClear => assert more[j] == Cleared;
      case OpGet(p, m) =>
        forall a, b | 0 <= a < b < |log| ensures SameNumber(log, a, b) <==> SameEra(log, a, b) {
          SameNumberIff(init, a, b);
        }
        AlwaysGood(init);
        AlwaysRemembers(init);
        NumberOfLast(log, After(init), p, m, i);
    }
  }

  /** Consequences a caller relies on: a number never names two files, and once a path has
      moved on to another number the old one is never issued again, not even after Clear. */
  lemma NumberNamesOneFile(ops: seq<Op>, i: nat, j: nat)
    requires i < j < |ops| && SameNumber(Log(ops), i, j)
    ensures Log(ops)[i].path == Log(ops)[j].path && Log(ops)[i].meta == Log(ops)[j].meta
  {
    SameNumberIff(ops, i, j);
    assert Steady(Log(ops), i, j + 1, Log(ops)[i].path, Log(ops)[i].meta);
  }

  lemma RetiredNumberStaysRetired(ops: seq<Op>, i: nat, j: nat, k: nat)
    requires i < j < k < |ops| && Log(ops)[i].Issued?
    requires Log(ops)[j].Cleared? || (Log(ops)[j].path == Log(ops)[i].path && !SameNumber(Log(ops), i, j))
    ensures !SameNumber(Log(ops), i, k)
  {
    var log := Log(ops);
    SameNumberIff(ops, i, k);
    if SameEra(log, i, k) {
      SameNumberIff(ops, i, j);
      assert Steady(log, i, j + 1, log[i].path, log[i].meta);
    }
  }

  /** The live number of a path is the largest ever issued for it. */
  lemma {:induction false} LiveNumberIsLargest(ops: seq<Op>, p: Path, k: nat)
    requires k < |ops| && Log(ops)[k].Issued? && Log(ops)[k].path == p && p in After(ops).byPath
    ensures Log(ops)[k].number <= After(ops).byPath[p]
  {
    var init, last := ops[..|ops| - 1], ops[|ops| - 1];
    var log, more := Log(init), Log(ops);
    assert more == log + [EventOf(After(init), last)];
    AlwaysRemembers(init);
    AlwaysGood(init);
    if k < |init| {
      assert more[k] == log[k];
      if p in After(init).byPath {
        LiveNumberIsLargest(init, p, k);
      }
      assert log[k].number <= After(init).next;
    }
  }
}
