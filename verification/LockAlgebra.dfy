/** How lock operations combine: what undoes what, what commutes, and what empties the table. */
module LockAlgebra {
  import opened Common
  import opened LockSpec
  import opened LockFacts

  // ---------- Cutting ----------

  lemma CutAllSnoc(a: seq<PosixLock>, l: PosixLock, o: UInt64, s: UInt64, e: UInt64)
    ensures CutAll(a + [l], o, s, e) == CutAll(a, o, s, e) + Cut(l, o, s, e)
  {
    assert (a + [l])[..|a|] == a;
  }

  lemma CutAllLast(a: seq<PosixLock>, init: seq<PosixLock>, last: PosixLock, o: UInt64, s: UInt64, e: UInt64)
    requires CutAll(a + init, o, s, e) == CutAll(a, o, s, e) + CutAll(init, o, s, e)
    ensures CutAll(a + (init + [last]), o, s, e) == CutAll(a, o, s, e) + CutAll(init + [last], o, s, e)
  {
    hide *;
    CutAllSnoc(init, last, o, s, e);
    CutAllSnoc(a + init, last, o, s, e);
    assert a + (init + [last]) == a + init + [last];
  }

  lemma {:induction false} CutAllConcat(a: seq<PosixLock>, b: seq<PosixLock>, o: UInt64, s: UInt64, e: UInt64)
    ensures CutAll(a + b, o, s, e) == CutAll(a, o, s, e) + CutAll(b, o, s, e)
  {
    if b == [] {
      assert a + b == a;
    } else {
      var init, last := b[..|b| - 1], b[|b| - 1];
      CutAllConcat(a, init, o, s, e);
      CutAllLast(a, init, last, o, s, e);
      assert init + [last] == b;
    }
  }

  ghost predicate Touches(l: PosixLock, o: UInt64, s: UInt64, e: UInt64) {
    l.owner == o && RangesOverlap(s, e, l.start, l.end)
  }

  /** Cutting leaves a list alone when, and for a non-empty range only when, it touches none of its locks. */
  lemma {:induction false} CutAllUntouched(locks: seq<PosixLock>, o: UInt64, s: UInt64, e: UInt64)
    requires forall l | l in locks :: !Touches(l, o, s, e)
    ensures CutAll(locks, o, s, e) == locks
  {
    if locks != [] {
      var init, last := locks[..|locks| - 1], locks[|locks| - 1];
      assert locks == init + [last];
      assert !Touches(last, o, s, e);
      CutAllUntouched(init, o, s, e);
      assert Cut(last, o, s, e) == [last];
    }
  }

  lemma CutAllLeavesUntouched(locks: seq<PosixLock>, o: UInt64, s: UInt64, e: UInt64)
    ensures forall x | x in CutAll(locks, o, s, e) :: !Touches(x, o, s, e)
  {
    forall x | x in CutAll(locks, o, s, e) ensures !Touches(x, o, s, e) {
      CutAllMember(locks, o, s, e, x);
      var l :| l in locks && x in Cut(l, o, s, e);
      CutShrinks(l, o, s, e, x);
    }
  }

  /** Inverting the range can only split locks, never drop one. */
  lemma {:induction false} InvertedCutGrows(locks: seq<PosixLock>, o: UInt64, s: UInt64, e: UInt64)
    requires s >= e
    ensures |CutAll(locks, o, s, e)| >= |locks|
  {
    if locks != [] {
      InvertedCutGrows(locks[..|locks| - 1], o, s, e);
    }
  }

  lemma CutShrinksAll(l: PosixLock, o: UInt64, s: UInt64, e: UInt64)
    ensures forall x | x in Cut(l, o, s, e) :: x.owner == l.owner && l.start <= x.start && x.end <= l.end
  {
  }

  lemma CutAllShort(locks: seq<PosixLock>, o: UInt64, s: UInt64, e: UInt64)
    requires |locks| <= 2
    ensures |locks| == 0 ==> CutAll(locks, o, s, e) == []
    ensures |locks| == 1 ==> CutAll(locks, o, s, e) == Cut(locks[0], o, s, e)
    ensures |locks| == 2 ==> CutAll(locks, o, s, e) == Cut(locks[0], o, s, e) + Cut(locks[1], o, s, e)
  {
    if |locks| > 0 {
      assert CutAll(locks[..|locks| - 1], o, s, e) + Cut(locks[|locks| - 1], o, s, e) == CutAll(locks, o, s, e);
    }
    if |locks| == 1 {
      assert CutAll([], o, s, e) == [];
      assert locks[..0] == [];
    }
    if |locks| == 2 {
      assert locks[..1] == [locks[0]];
      CutAllShort([locks[0]], o, s, e);
    }
  }

  lemma CutUntouched(l: PosixLock, o: UInt64, s: UInt64, e: UInt64, o': UInt64, s': UInt64, e': UInt64)
    requires !Touches(l, o, s, e)
    ensures CutAll(Cut(l, o, s, e), o', s', e') == Cut(l, o', s', e')
    ensures CutAll(Cut(l, o', s', e'), o, s, e) == Cut(l, o', s', e')
  {
    CutAllShort([l], o', s', e');
    CutShrinksAll(l, o', s', e');
    CutAllUntouched(Cut(l, o', s', e'), o, s, e);
  }

  const LAST: UInt64 := 0xFFFF_FFFF_FFFF_FFFF

  /** No lock can reach into the range: it ends at the first byte or starts at the last. */
  predicate OutOfReach(s: UInt64, e: UInt64) {
    e == 0 || s == LAST
  }

  /** Of a range and an inverted one. */
  predicate ClearOrSpanned(s: UInt64, e: UInt64, s': UInt64, e': UInt64) {
    e < e' || s' < s || (s <= e' && s' <= e)
  }

  /** When two ranges of one owner can be unlocked in either order: one of them is out of
      reach, or neither is inverted, or both are and they are equal or follow each other at
      both ends, or the one that is not lies clear of the inverted one or spans it. */
  predicate Swappable(s: UInt64, e: UInt64, s': UInt64, e': UInt64) {
    if OutOfReach(s, e) || OutOfReach(s', e') || (s <= e && s' <= e') then true
    else if s > e && s' > e' then (s == s' && e == e') || (s < s' && e < e') || (s' < s && e' < e)
    else if s > e then ClearOrSpanned(s', e', s, e)
    else ClearOrSpanned(s, e, s', e')
  }

  /** What a second cut leaves of a lock that the first one touched. */
  function CutPieces(l: PosixLock, o: UInt64, s: UInt64, e: UInt64, s': UInt64, e': UInt64): seq<PosixLock> {
    (if l.start < s then Cut(l.(end := s), o, s', e') else [])
    + (if l.end > e then Cut(l.(start := e), o, s', e') else [])
  }

  lemma CutsPieces(l: PosixLock, o: UInt64, s: UInt64, e: UInt64, s': UInt64, e': UInt64)
    requires Touches(l, o, s, e)
    ensures CutAll(Cut(l, o, s, e), o, s', e') == CutPieces(l, o, s, e, s', e')
  {
    hide CutAll;
    CutAllShort(Cut(l, o, s, e), o, s', e');
  }

  lemma PiecesCommute(l: PosixLock, o: UInt64, s: UInt64, e: UInt64, s': UInt64, e': UInt64)
    requires Touches(l, o, s, e) && Touches(l, o, s', e') && Swappable(s, e, s', e')
    ensures CutPieces(l, o, s, e, s', e') == CutPieces(l, o, s', e', s, e)
  {
  }

  /** The widest lock tells swappable ranges from the others. */
  lemma PiecesDiffer(l: PosixLock, o: UInt64, s: UInt64, e: UInt64, s': UInt64, e': UInt64)
    requires l.owner == o && l.start == 0 && l.end == LAST && !Swappable(s, e, s', e')
    ensures CutPieces(l, o, s, e, s', e') != CutPieces(l, o, s', e', s, e)
  {
  }

  lemma CutTwice(l: PosixLock, o: UInt64, s: UInt64, e: UInt64, o': UInt64, s': UInt64, e': UInt64)
    requires o == o' ==> Swappable(s, e, s', e')
    ensures CutAll(Cut(l, o, s, e), o', s', e') == CutAll(Cut(l, o', s', e'), o, s, e)
  {
    if !Touches(l, o, s, e) {
      CutUntouched(l, o, s, e, o', s', e');
    } else if !Touches(l, o', s', e') {
      CutUntouched(l, o', s', e', o, s, e);
    } else {
      CutsPieces(l, o, s, e, s', e');
      CutsPieces(l, o, s', e', s, e);
      PiecesCommute(l, o, s, e, s', e');
    }
  }

  lemma {:induction false} CutAllCommutes(locks: seq<PosixLock>, o: UInt64, s: UInt64, e: UInt64,
                                          o': UInt64, s': UInt64, e': UInt64)
    requires o == o' ==> Swappable(s, e, s', e')
    ensures CutAll(CutAll(locks, o, s, e), o', s', e') == CutAll(CutAll(locks, o', s', e'), o, s, e)
  {
    if locks != [] {
      var init, last := locks[..|locks| - 1], locks[|locks| - 1];
      CutAllCommutes(init, o, s, e, o', s', e');
      CutTwice(last, o, s, e, o', s', e');
      CutAllConcat(CutAll(init, o, s, e), Cut(last, o, s, e), o', s', e');
      CutAllConcat(CutAll(init, o', s', e'), Cut(last, o', s', e'), o, s, e);
    }
  }

  // ---------- Main laws ----------

  lemma AppendThenCutIff(before: seq<PosixLock>, added: PosixLock)
    ensures var o, s, e := added.owner, added.start, added.end;
            CutAll(before + [added], o, s, e) == before
            <==> s < e && forall l | l in before :: !Touches(l, o, s, e)
  {
    var o, s, e := added.owner, added.start, added.end;
    CutAllConcat(before, [added], o, s, e);
    CutAllShort([added], o, s, e);
    if s >= e {
      InvertedCutGrows(before, o, s, e);
    } else {
      assert Cut(added, o, s, e) == [];
      if forall l | l in before :: !Touches(l, o, s, e) {
        CutAllUntouched(before, o, s, e);
      } else {
        CutAllLeavesUntouched(before, o, s, e);
      }
    }
  }

  lemma StoreTwice(posix: PosixTable, p: Path, a: seq<PosixLock>, b: seq<PosixLock>)
    ensures Store(Store(posix, p, a), p, b) == Store(posix, p, b)
    ensures LocksAt(Store(posix, p, a), p) == a
  {
  }

  /** Locking a range and unlocking it again gives back the very same table exactly
      when the range is non-empty and the owner held no stored lock overlapping it. */
  lemma LockThenUnlockRestoresIff(t: Table, p: Path, o: UInt64, rq: Request)
    requires Good(t) && rq.typ != F_UNLCK && Setlk(t.posix, p, o, rq).1 == OK
    ensures Unlock(Setlk(t.posix, p, o, rq).0, p, o, rq.start, rq.end) == t.posix
            <==> rq.start < rq.end && forall l | l in LocksAt(t.posix, p) :: !Touches(l, o, rq.start, rq.end)
  {
    var before := LocksAt(t.posix, p);
    var added := PosixLock(o, rq.start, rq.end, rq.typ, rq.pid);
    var after := CutAll(before + [added], o, rq.start, rq.end);
    AppendThenCutIff(before, added);
    StoreTwice(t.posix, p, before + [added], after);
    StoreTwice(t.posix, p, before, after);
    assert Store(t.posix, p, before) == t.posix by {
      assert p in t.posix ==> GoodList(t.posix[p]);
    }
  }

  /** Unlocking the same range twice is unlocking it once, whatever the range. */
  lemma UnlockIdempotent(posix: PosixTable, p: Path, o: UInt64, s: UInt64, e: UInt64)
    ensures var once := Unlock(posix, p, o, s, e); Unlock(once, p, o, s, e) == once
  {
    var locks := LocksAt(posix, p);
    CutAllLeavesUntouched(locks, o, s, e);
    CutAllUntouched(CutAll(locks, o, s, e), o, s, e);
  }

  lemma StoresCommute(posix: PosixTable, p: Path, a: seq<PosixLock>, q: Path, b: seq<PosixLock>)
    requires p != q
    ensures Store(Store(posix, p, a), q, b) == Store(Store(posix, q, b), p, a)
    ensures LocksAt(Store(posix, p, a), q) == LocksAt(posix, q)
    ensures LocksAt(Store(posix, q, b), p) == LocksAt(posix, p)
  {
  }

  /** Two unlocks commute on the stored table itself, order of the list included, for different
      paths, for different owners and for swappable ranges. */
  lemma UnlocksCommute(posix: PosixTable, p: Path, o: UInt64, s: UInt64, e: UInt64,
                       p': Path, o': UInt64, s': UInt64, e': UInt64)
    requires p == p' && o == o' ==> Swappable(s, e, s', e')
    ensures Unlock(Unlock(posix, p, o, s, e), p', o', s', e') == Unlock(Unlock(posix, p', o', s', e'), p, o, s, e)
  {
    var locks := LocksAt(posix, p);
    if p == p' {
      CutAllCommutes(locks, o, s, e, o', s', e');
      StoreTwice(posix, p, CutAll(locks, o, s, e), CutAll(CutAll(locks, o, s, e), o', s', e'));
      StoreTwice(posix, p, CutAll(locks, o', s', e'), CutAll(CutAll(locks, o', s', e'), o, s, e));
    } else {
      StoresCommute(posix, p, CutAll(locks, o, s, e), p', CutAll(LocksAt(posix, p'), o', s', e'));
    }
  }

  /** For one owner's ranges on one path nothing weaker will do: unless they are swappable,
      the table with one lock over everything tells the two orders apart. */
  lemma UnlocksCommuteIff(p: Path, o: UInt64, typ: UInt32, s: UInt64, e: UInt64, s': UInt64, e': UInt64)
    ensures var posix := map[p := [PosixLock(o, 0, LAST, typ, 0)]];
            Unlock(Unlock(posix, p, o, s, e), p, o, s', e') == Unlock(Unlock(posix, p, o, s', e'), p, o, s, e)
            <==> Swappable(s, e, s', e')
  {
    var l := PosixLock(o, 0, LAST, typ, 0);
    var posix := map[p := [l]];
    if Swappable(s, e, s', e') {
      UnlocksCommute(posix, p, o, s, e, p, o, s', e');
    } else {
      var one, two := Cut(l, o, s, e), Cut(l, o, s', e');
      CutAllShort([l], o, s, e);
      CutAllShort([l], o, s', e');
      CutsPieces(l, o, s, e, s', e');
      CutsPieces(l, o, s', e', s, e);
      PiecesDiffer(l, o, s, e, s', e');
      StoreTwice(posix, p, one, CutAll(one, o, s', e'));
      StoreTwice(posix, p, two, CutAll(two, o, s, e));
      StoreTwice(posix, p, CutAll(one, o, s', e'), []);
      StoreTwice(posix, p, CutAll(two, o, s, e), []);
    }
  }

  /** Any two unlocks commute on the bytes held, even with empty or inverted ranges. */
  lemma UnlocksCommuteOnBytes(posix: PosixTable, p: Path, o: UInt64, s: UInt64, e: UInt64,
                              p': Path, o': UInt64, s': UInt64, e': UInt64,
                              q: Path, a: UInt64, b: int, t: UInt32)
    ensures Held(Unlock(Unlock(posix, p, o, s, e), p', o', s', e'), q, a, b, t)
            <==> Held(Unlock(Unlock(posix, p', o', s', e'), p, o, s, e), q, a, b, t)
  {
    var one, two := Unlock(posix, p, o, s, e), Unlock(posix, p', o', s', e');
    UnlockRemovesBytes(posix, p, o, s, e, q, a, b, t);
    UnlockRemovesBytes(one, p', o', s', e', q, a, b, t);
    UnlockRemovesBytes(posix, p', o', s', e', q, a, b, t);
    UnlockRemovesBytes(two, p, o, s, e, q, a, b, t);
  }

  // ---------- Releasing owners ----------

  lemma {:induction false} ExceptTwice(locks: seq<PosixLock>, a: set<UInt64>, b: set<UInt64>)
    ensures Except(Except(locks, a), b) == Except(locks, a + b)
  {
    if locks != [] {
      var init, last := locks[..|locks| - 1], locks[|locks| - 1];
      ExceptTwice(init, a, b);
      var kept := Except(init, a);
      if last.owner in a {
        assert Except(locks, a) == kept;
      } else {
        assert Except(locks, a) == kept + [last];
        assert (kept + [last])[..|kept|] == kept;
      }
    }
  }

  lemma {:induction false} ExceptNone(locks: seq<PosixLock>)
    ensures Except(locks, {}) == locks
  {
    if locks != [] {
      ExceptNone(locks[..|locks| - 1]);
    }
  }

  lemma PosixExceptTwice(posix: PosixTable, a: set<UInt64>, b: set<UInt64>)
    ensures PosixExcept(PosixExcept(posix, a), b) == PosixExcept(posix, a + b)
  {
    forall p | p in posix
      ensures Except(Except(posix[p], a), b) == Except(posix[p], a + b)
      ensures Except(posix[p], a) == [] ==> Except(posix[p], a + b) == []
    {
      ExceptTwice(posix[p], a, b);
    }
  }

  lemma FlocksExceptTwice(flocks: FlockTable, a: set<UInt64>, b: set<UInt64>)
    ensures FlocksExcept(FlocksExcept(flocks, a), b) == FlocksExcept(flocks, a + b)
  {
    forall p | p in flocks ensures (flocks[p].owners - a) - b == flocks[p].owners - (a + b) { }
  }

  lemma ReleaseTwice(t: Table, a: set<UInt64>, b: set<UInt64>)
    ensures ReleaseOwners(ReleaseOwners(t, a), b) == ReleaseOwners(t, a + b)
  {
    PosixExceptTwice(t.posix, a, b);
    FlocksExceptTwice(t.flocks, a, b);
  }

  /** ReleaseOwner called once for each listed owner. */
  function ReleaseEach(t: Table, owners: seq<UInt64>): Table {
    if owners == [] then t
    else Apply(ReleaseEach(t, owners[..|owners| - 1]), OpRelease(owners[|owners| - 1])).0
  }

  function Members(owners: seq<UInt64>): set<UInt64> {
    set o | o in owners
  }

  /** Releasing owners one by one depends only on which owners are released, not on
      order or repetition. */
  lemma {:induction false} ReleaseEachIsSet(t: Table, owners: seq<UInt64>)
    requires Good(t)
    ensures ReleaseEach(t, owners) == ReleaseOwners(t, Members(owners))
  {
    if owners == [] {
      forall p | p in t.posix ensures Except(t.posix[p], {}) == t.posix[p] { ExceptNone(t.posix[p]); }
      forall p | p in t.flocks ensures t.flocks[p].owners - {} == t.flocks[p].owners { }
      assert PosixExcept(t.posix, {}) == t.posix;
      assert FlocksExcept(t.flocks, {}) == t.flocks;
      assert Members(owners) == {};
    } else {
      var init, last := owners[..|owners| - 1], owners[|owners| - 1];
      ReleaseEachIsSet(t, init);
      ReleaseTwice(t, Members(init), {last});
      assert Members(owners) == Members(init) + {last};
    }
  }

  ghost predicate Appears(t: Table, o: UInt64) {
    || (exists p :: p in t.flocks && o in t.flocks[p].owners)
    || (exists p :: p in t.posix && exists l | l in t.posix[p] :: l.owner == o)
  }

  /** The tables drain: after ReleaseOwner for some owners, in any order, both maps
      are empty exactly when every owner that appeared was among them. */
  lemma DrainedIff(t: Table, owners: seq<UInt64>)
    requires Good(t)
    ensures ReleaseEach(t, owners) == EMPTY_TABLE <==> forall o :: Appears(t, o) ==> o in owners
  {
    ReleaseEachIsSet(t, owners);
    var all := Members(owners);
    var left := ReleaseOwners(t, all);
    if forall o :: Appears(t, o) ==> o in owners {
      forall p | p in t.posix ensures Except(t.posix[p], all) == [] {
        if Except(t.posix[p], all) != [] {
          var x := Except(t.posix[p], all)[0];
          ExceptMember(t.posix[p], all, x);
          assert Appears(t, x.owner);
        }
      }
      forall p | p in t.flocks ensures t.flocks[p].owners - all == {} {
        forall o | o in t.flocks[p].owners ensures o in all {
          assert Appears(t, o);
        }
      }
      assert left.posix == map[] && left.flocks == map[];
    }
    if o :| Appears(t, o) && o !in owners {
      if p :| p in t.flocks && o in t.flocks[p].owners {
        assert o in t.flocks[p].owners - all;
        assert p in left.flocks;
      } else {
        var p, l :| p in t.posix && l in t.posix[p] && l.owner == o;
        ExceptMember(t.posix[p], all, l);
        assert p in left.posix;
      }
    }
  }
}
