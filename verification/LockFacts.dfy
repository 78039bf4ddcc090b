/** What single transitions of the lock table mean byte by byte, and the invariant they keep. */
module LockFacts {
  import opened Common
  import opened LockSpec

  // ---------- List lemmas ----------

  /** Overlap says what it should except on empty ranges: two ranges share a byte
      exactly when they overlap and neither is empty. */
  lemma SharedByteIff(s1: UInt64, e1: UInt64, s2: UInt64, e2: UInt64)
    ensures (exists b :: InRange(b, s1, e1) && InRange(b, s2, e2))
            <==> RangesOverlap(s1, e1, s2, e2) && s1 < e1 && s2 < e2
  {
    if RangesOverlap(s1, e1, s2, e2) && s1 < e1 && s2 < e2 {
      var b := if s1 < s2 then s2 else s1;
      assert InRange(b, s1, e1) && InRange(b, s2, e2);
    }
  }

  lemma {:induction false} CutAllMember(locks: seq<PosixLock>, o: UInt64, s: UInt64, e: UInt64, x: PosixLock)
    ensures x in CutAll(locks, o, s, e) <==> exists l | l in locks :: x in Cut(l, o, s, e)
  {
    if locks != [] {
      var n := |locks| - 1;
      CutAllMember(locks[..n], o, s, e, x);
      assert locks == locks[..n] + [locks[n]];
    }
  }

  lemma {:induction false} ExceptMember(locks: seq<PosixLock>, owners: set<UInt64>, x: PosixLock)
    ensures x in Except(locks, owners) <==> x in locks && x.owner !in owners
  {
    if locks != [] {
      var n := |locks| - 1;
      ExceptMember(locks[..n], owners, x);
      assert locks == locks[..n] + [locks[n]];
    }
  }

  /** The pieces of one lock cover its bytes outside the range unlocked by its owner. */
  lemma CutHeld(l: PosixLock, o: UInt64, s: UInt64, e: UInt64, b: int)
    ensures (exists x | x in Cut(l, o, s, e) :: InRange(b, x.start, x.end))
            <==> InRange(b, l.start, l.end) && !(l.owner == o && InRange(b, s, e))
    ensures forall x | x in Cut(l, o, s, e) :: x.owner == l.owner && x.typ == l.typ
  {
    if InRange(b, l.start, l.end) && !(l.owner == o && InRange(b, s, e)) {
      var x := if l.owner != o || !RangesOverlap(s, e, l.start, l.end) then l
               else if b < s then l.(end := s) else l.(start := e);
      assert x in Cut(l, o, s, e) && InRange(b, x.start, x.end);
    }
  }

  /** Removing a range from a list removes exactly the owner's bytes in the range. */
  lemma CutAllHeld(locks: seq<PosixLock>, o: UInt64, s: UInt64, e: UInt64, o': UInt64, b: int, t: UInt32)
    ensures HeldIn(CutAll(locks, o, s, e), o', b, t)
            <==> HeldIn(locks, o', b, t) && !(o' == o && InRange(b, s, e))
  {
    hide CutAll;
    var after := CutAll(locks, o, s, e);
    if HeldIn(after, o', b, t) {
      var x :| x in after && x.owner == o' && x.typ == t && InRange(b, x.start, x.end);
      CutAllMember(locks, o, s, e, x);
      var l :| l in locks && x in Cut(l, o, s, e);
      CutHeld(l, o, s, e, b);
      assert l.owner == o' && l.typ == t && InRange(b, l.start, l.end);
    }
    if HeldIn(locks, o', b, t) && !(o' == o && InRange(b, s, e)) {
      var l :| l in locks && l.owner == o' && l.typ == t && InRange(b, l.start, l.end);
      CutHeld(l, o, s, e, b);
      var x :| x in Cut(l, o, s, e) && x.owner == o' && x.typ == t && InRange(b, x.start, x.end);
      CutAllMember(locks, o, s, e, x);
    }
  }

  /** A piece of a lock reaches no further than the lock, so it overlaps nothing new. */
  lemma CutShrinks(l: PosixLock, o: UInt64, s: UInt64, e: UInt64, x: PosixLock)
    requires x in Cut(l, o, s, e)
    ensures x.owner == l.owner && x.typ == l.typ && x.pid == l.pid
    ensures l.start <= x.start && x.end <= l.end
    ensures x.owner == o ==> !RangesOverlap(s, e, x.start, x.end)
    ensures l.start < l.end ==> x.start < x.end
  {
  }

  lemma ExceptHeld(locks: seq<PosixLock>, owners: set<UInt64>, o: UInt64, b: int, t: UInt32)
    ensures HeldIn(Except(locks, owners), o, b, t) <==> HeldIn(locks, o, b, t) && o !in owners
  {
    if HeldIn(Except(locks, owners), o, b, t) {
      var x :| x in Except(locks, owners) && x.owner == o && x.typ == t && InRange(b, x.start, x.end);
      ExceptMember(locks, owners, x);
    }
    if HeldIn(locks, o, b, t) && o !in owners {
      var x :| x in locks && x.owner == o && x.typ == t && InRange(b, x.start, x.end);
      ExceptMember(locks, owners, x);
    }
  }

  /** Exclusive ends leave the last byte of the 64-bit range out: the bytes a request can ask
      for are all the others. */
  lemma LockableIff(b: int)
    ensures (exists rq: Request :: InRange(b, rq.start, rq.end)) <==> 0 <= b < 0xFFFF_FFFF_FFFF_FFFF
  {
    if 0 <= b < 0xFFFF_FFFF_FFFF_FFFF {
      var rq := Request(b, b + 1, F_RDLCK, 0);
      assert InRange(b, rq.start, rq.end);
    }
  }

  // ---------- Byte equations of the operations ----------

  /** A granted lock adds exactly its bytes, in its mode, for its owner. */
  lemma GrantAddsBytes(posix: PosixTable, p: Path, o: UInt64, rq: Request,
                       p': Path, o': UInt64, b: int, t: UInt32)
    requires rq.typ != F_UNLCK && Setlk(posix, p, o, rq).1 == OK
    ensures Held(Setlk(posix, p, o, rq).0, p', o', b, t)
            <==> Held(posix, p', o', b, t) || (p' == p && o' == o && t == rq.typ && InRange(b, rq.start, rq.end))
  {
    var added := PosixLock(o, rq.start, rq.end, rq.typ, rq.pid);
    var before, after := LocksAt(posix, p), LocksAt(posix, p) + [added];
    assert LocksAt(Setlk(posix, p, o, rq).0, p) == after;
    if p' == p {
      if HeldIn(before, o', b, t) {
        var l :| l in before && l.owner == o' && l.typ == t && InRange(b, l.start, l.end);
        assert l in after;
      }
      assert added in after;
    }
  }

  /** Unlocking removes exactly that owner's bytes in the range, in any mode. */
  lemma UnlockRemovesBytes(posix: PosixTable, p: Path, o: UInt64, s: UInt64, e: UInt64,
                           p': Path, o': UInt64, b: int, t: UInt32)
    ensures Held(Unlock(posix, p, o, s, e), p', o', b, t)
            <==> Held(posix, p', o', b, t) && !(p' == p && o' == o && InRange(b, s, e))
  {
    CutAllHeld(LocksAt(posix, p), o, s, e, o', b, t);
  }

  /** Releasing owners removes exactly their bytes, on every path. */
  lemma ReleaseRemovesBytes(posix: PosixTable, owners: set<UInt64>, p: Path, o: UInt64, b: int, t: UInt32)
    ensures Held(PosixExcept(posix, owners), p, o, b, t) <==> Held(posix, p, o, b, t) && o !in owners
  {
    ExceptHeld(LocksAt(posix, p), owners, o, b, t);
  }

  // ---------- Invariant ----------

  lemma CutAllCompatible(locks: seq<PosixLock>, o: UInt64, s: UInt64, e: UInt64)
    requires locks == [] || GoodList(locks)
    ensures CutAll(locks, o, s, e) == [] || GoodList(CutAll(locks, o, s, e))
  {
    var after := CutAll(locks, o, s, e);
    forall x | x in after ensures x.typ != F_UNLCK {
      CutAllMember(locks, o, s, e, x);
    }
    forall x, y | x in after && y in after ensures Compatible(x, y) {
      CutAllMember(locks, o, s, e, x);
      CutAllMember(locks, o, s, e, y);
      var l :| l in locks && x in Cut(l, o, s, e);
      var m :| m in locks && y in Cut(m, o, s, e);
      CutShrinks(l, o, s, e, x);
      CutShrinks(m, o, s, e, y);
      assert Compatible(l, m);
    }
  }

  lemma ExceptCompatible(locks: seq<PosixLock>, owners: set<UInt64>)
    requires GoodList(locks)
    ensures Except(locks, owners) == [] || GoodList(Except(locks, owners))
  {
    forall x | x in Except(locks, owners) ensures x in locks {
      ExceptMember(locks, owners, x);
    }
  }

  lemma SetlkKeepsGood(t: Table, p: Path, o: UInt64, rq: Request)
    requires Good(t)
    ensures Good(t.(posix := Setlk(t.posix, p, o, rq).0))
  {
    var locks := LocksAt(t.posix, p);
    if rq.typ == F_UNLCK {
      CutAllCompatible(locks, o, rq.start, rq.end);
    } else if FirstConflict(locks, o, rq).None? {
      var added := PosixLock(o, rq.start, rq.end, rq.typ, rq.pid);
      forall l | l in locks ensures Compatible(l, added) && Compatible(added, l) {
        assert !Conflicts(l, o, rq);
      }
    }
  }

  lemma SingletonIs(s: set<UInt64>, x: UInt64)
    requires |s| == 1 && x in s
    ensures s == {x}
  {
    assert |s - {x}| == 0;
  }

  lemma DropKeepsGood(f: Flock, owners: set<UInt64>)
    requires GoodFlock(f)
    ensures DropOwners(f, owners).owners == {} || GoodFlock(DropOwners(f, owners))
  {
    if f.mode.Exclusive? && f.owners - owners != {} {
      var o :| o in f.owners - owners;
      SingletonIs(f.owners, o);
      assert f.owners - owners == {o};
    }
  }

  lemma FlockKeepsGood(t: Table, p: Path, o: UInt64, rq: FlockRequest)
    requires Good(t)
    ensures Good(t.(flocks := DoFlock(t.flocks, p, o, rq).0))
  {
    if p in t.flocks {
      DropKeepsGood(t.flocks[p], {o});
    }
    assert |{o}| == 1;
  }

  lemma ReleaseKeepsGood(t: Table, owners: set<UInt64>)
    requires Good(t)
    ensures Good(ReleaseOwners(t, owners))
  {
    forall p | p in t.posix ensures Except(t.posix[p], owners) == [] || GoodList(Except(t.posix[p], owners)) {
      ExceptCompatible(t.posix[p], owners);
    }
    forall p | p in t.flocks
      ensures DropOwners(t.flocks[p], owners).owners == {} || GoodFlock(DropOwners(t.flocks[p], owners))
    {
      DropKeepsGood(t.flocks[p], owners);
    }
  }

  lemma ApplyKeepsGood(t: Table, op: Op)
    requires Good(t)
    ensures Good(Apply(t, op).0)
  {
    match op
    case OpSetlk(p, o, rq) => SetlkKeepsGood(t, p, o, rq);
    case OpFlock(p, o, frq) => FlockKeepsGood(t, p, o, frq);
    case OpRelease(o) => ReleaseKeepsGood(t, {o});
  }

  // ---------- Decisions ----------

  lemma {:induction false} FirstConflictIsFirst(locks: seq<PosixLock>, o: UInt64, rq: Request)
    requires FirstConflict(locks, o, rq).Some?
    ensures exists i ::
              && 0 <= i < |locks| && Some(locks[i]) == FirstConflict(locks, o, rq)
              && forall j :: 0 <= j < i ==> !Conflicts(locks[j], o, rq)
  {
    if !Conflicts(locks[0], o, rq) {
      var rest := locks[1..];
      FirstConflictIsFirst(rest, o, rq);
      var i :| && 0 <= i < |rest| && Some(rest[i]) == FirstConflict(rest, o, rq)
               && forall j :: 0 <= j < i ==> !Conflicts(rest[j], o, rq);
      assert locks[i + 1] == rest[i];
      forall j | 0 <= j < i + 1 ensures !Conflicts(locks[j], o, rq) {
        if j > 0 { assert locks[j] == rest[j - 1]; }
      }
    } else {
      assert Some(locks[0]) == FirstConflict(locks, o, rq);
    }
  }

  /** Getlk predicts Setlk: apart from asking it about an unlock, the probe answers
      F_UNLCK exactly when the request would be granted. */
  lemma GetlkIsOracle(t: Table, p: Path, o: UInt64, rq: Request)
    requires Good(t)
    ensures (Getlk(t.posix, p, o, rq).typ == F_UNLCK <==> Setlk(t.posix, p, o, rq).1 == OK)
            <==> (rq.typ != F_UNLCK || forall l | l in LocksAt(t.posix, p) :: !Conflicts(l, o, rq))
    ensures Getlk(t.posix, p, o, rq).typ != F_UNLCK ==>
              exists i ::
                && 0 <= i < |LocksAt(t.posix, p)|
                && var l := LocksAt(t.posix, p)[i];
                && Conflicts(l, o, rq)
                && Getlk(t.posix, p, o, rq) == Request(l.start, l.end, l.typ, l.pid)
                && forall j :: 0 <= j < i ==> !Conflicts(LocksAt(t.posix, p)[j], o, rq)
  {
    if FirstConflict(LocksAt(t.posix, p), o, rq).Some? {
      FirstConflictIsFirst(LocksAt(t.posix, p), o, rq);
    }
  }

  /** When no stored lock is in the way the probe answers the request itself, only its type changed. */
  lemma GetlkKeepsRequest(posix: PosixTable, p: Path, o: UInt64, rq: Request)
    requires forall l | l in LocksAt(posix, p) :: !Conflicts(l, o, rq)
    ensures var r := Getlk(posix, p, o, rq);
            r.typ == F_UNLCK && r.start == rq.start && r.end == rq.end && r.pid == rq.pid
  {
  }

  /** Another owner holds a byte of the requested range, and one of the two modes is a write. */
  ghost predicate ByteConflict(posix: PosixTable, p: Path, o: UInt64, rq: Request) {
    exists o', b, t ::
      && Held(posix, p, o', b, t) && o' != o
      && InRange(b, rq.start, rq.end) && (rq.typ == F_WRLCK || t == F_WRLCK)
  }

  lemma ByteConflictIff(posix: PosixTable, p: Path, o: UInt64, rq: Request)
    ensures ByteConflict(posix, p, o, rq)
            <==> rq.start < rq.end && exists l | l in LocksAt(posix, p) :: Conflicts(l, o, rq) && l.start < l.end
  {
    if rq.start < rq.end {
      if l :| l in LocksAt(posix, p) && Conflicts(l, o, rq) && l.start < l.end {
        SharedByteIff(rq.start, rq.end, l.start, l.end);
        var b :| InRange(b, rq.start, rq.end) && InRange(b, l.start, l.end);
        assert Held(posix, p, l.owner, b, l.typ);
      }
    }
    if o', b, t :| && Held(posix, p, o', b, t) && o' != o
                   && InRange(b, rq.start, rq.end) && (rq.typ == F_WRLCK || t == F_WRLCK) {
      var l :| l in LocksAt(posix, p) && l.owner == o' && l.typ == t && InRange(b, l.start, l.end);
      assert Conflicts(l, o, rq);
    }
  }

  /** A request is decided by the bytes held, granted exactly when no byte conflicts, unless
      it is refused for the sake of an empty range: the stored locks in its way are all
      empty, or it is empty itself. */
  lemma DecidedByBytesIff(posix: PosixTable, p: Path, o: UInt64, rq: Request)
    requires rq.typ != F_UNLCK
    ensures (Setlk(posix, p, o, rq).1 == OK <==> !ByteConflict(posix, p, o, rq))
            <==> ((exists l | l in LocksAt(posix, p) :: Conflicts(l, o, rq)) ==>
                    rq.start < rq.end && exists l | l in LocksAt(posix, p) :: Conflicts(l, o, rq) && l.start < l.end)
  {
    ByteConflictIff(posix, p, o, rq);
  }

  /** After a granted request its owner holds a byte of the range in one mode only exactly
      when it held that byte in no other mode before: nothing is replaced. */
  lemma OneModeIff(posix: PosixTable, p: Path, o: UInt64, rq: Request, b: int)
    requires rq.typ != F_UNLCK && Setlk(posix, p, o, rq).1 == OK && InRange(b, rq.start, rq.end)
    ensures (forall t :: Held(Setlk(posix, p, o, rq).0, p, o, b, t) ==> t == rq.typ)
            <==> (forall t :: Held(posix, p, o, b, t) ==> t == rq.typ)
  {
    forall t: UInt32
      ensures Held(Setlk(posix, p, o, rq).0, p, o, b, t) <==> Held(posix, p, o, b, t) || t == rq.typ
    {
      GrantAddsBytes(posix, p, o, rq, p, o, b, t);
    }
  }

  /** No owner holds a byte in two modes. */
  ghost predicate OneMode(posix: PosixTable) {
    forall p, o, b, t, t' :: Held(posix, p, o, b, t) && Held(posix, p, o, b, t') ==> t == t'
  }

  /** The call is granted a lock of some byte its owner holds in another mode. */
  ghost predicate MixesModes(posix: PosixTable, op: Op) {
    && op.OpSetlk? && op.rq.typ != F_UNLCK && Setlk(posix, op.path, op.owner, op.rq).1 == OK
    && exists b, t :: InRange(b, op.rq.start, op.rq.end) && Held(posix, op.path, op.owner, b, t) && t != op.rq.typ
  }

  lemma StillHeld(t: Table, op: Op, p: Path, o: UInt64, b: int, m: UInt32)
    requires Held(Apply(t, op).0.posix, p, o, b, m)
    ensures || Held(t.posix, p, o, b, m)
            || (&& op.OpSetlk? && op.rq.typ == m != F_UNLCK && Setlk(t.posix, op.path, op.owner, op.rq).1 == OK
                && op.path == p && op.owner == o && InRange(b, op.rq.start, op.rq.end))
  {
    match op
    case OpSetlk(q, a, rq) =>
      if rq.typ == F_UNLCK {
        UnlockRemovesBytes(t.posix, q, a, rq.start, rq.end, p, o, b, m);
      } else if Setlk(t.posix, q, a, rq).1 == OK {
        GrantAddsBytes(t.posix, q, a, rq, p, o, b, m);
      }
    case OpFlock(_, _, _) =>
    case OpRelease(a) => ReleaseRemovesBytes(t.posix, {a}, p, o, b, m);
  }

  /** So a call keeps one mode for every owner and byte exactly unless it is granted a lock
      over bytes its owner holds in another mode. */
  lemma StepOneModeIff(t: Table, op: Op)
    requires OneMode(t.posix)
    ensures OneMode(Apply(t, op).0.posix) <==> !MixesModes(t.posix, op)
  {
    var posix' := Apply(t, op).0.posix;
    if MixesModes(t.posix, op) {
      var b, m :| InRange(b, op.rq.start, op.rq.end) && Held(t.posix, op.path, op.owner, b, m) && m != op.rq.typ;
      GrantAddsBytes(t.posix, op.path, op.owner, op.rq, op.path, op.owner, b, m);
      GrantAddsBytes(t.posix, op.path, op.owner, op.rq, op.path, op.owner, b, op.rq.typ);
    } else {
      hide Apply, Held;
      forall p, o, b, m, m' | Held(posix', p, o, b, m) && Held(posix', p, o, b, m') ensures m == m' {
        StillHeld(t, op, p, o, b, m);
        StillHeld(t, op, p, o, b, m');
      }
    }
  }

  /** A granted request frees nobody else's way, whatever mode it asks for: another owner
      is granted afterwards exactly what it would have been granted before and what does not
      conflict with the new lock. Asking for a read lock over one's own write lock is no downgrade. */
  lemma GrantOnlyRestricts(posix: PosixTable, p: Path, o: UInt64, rq: Request, o': UInt64, rq': Request)
    requires rq.typ != F_UNLCK && Setlk(posix, p, o, rq).1 == OK && rq'.typ != F_UNLCK
    ensures Setlk(Setlk(posix, p, o, rq).0, p, o', rq').1 == OK
            <==> && Setlk(posix, p, o', rq').1 == OK
                 && !Conflicts(PosixLock(o, rq.start, rq.end, rq.typ, rq.pid), o', rq')
  {
    var added := PosixLock(o, rq.start, rq.end, rq.typ, rq.pid);
    var before, after := LocksAt(posix, p), LocksAt(Setlk(posix, p, o, rq).0, p);
    assert after == before + [added];
    assert forall l :: l in after <==> l in before || l == added;
  }

  /** A refused request changes nothing. */
  lemma RefusalChangesNothing(t: Table, op: Op)
    requires Apply(t, op).1 != OK
    ensures Apply(t, op).0 == t
  {
  }

  /** A flock is granted exactly when it is compatible with what other owners hold. */
  lemma FlockGrantedIff(t: Table, p: Path, o: UInt64, m: FlockMode, nb: bool)
    requires Good(t)
    ensures DoFlock(t.flocks, p, o, Acquire(m, nb)).1 == OK
            <==> (forall o', m' :: o' != o && HoldsFlock(t.flocks, p, o', m') ==> m == Shared && m' == Shared)
    ensures DoFlock(t.flocks, p, o, Acquire(m, nb)).1 in {OK, if nb then EWOULDBLOCK else EAGAIN}
  {
    if p in t.flocks {
      var f := t.flocks[p];
      if o in f.owners {
        if |f.owners| == 1 {
          SingletonIs(f.owners, o);
        } else {
          assert f.owners != {o};
          var o' :| o' in f.owners && o' != o;
          assert HoldsFlock(t.flocks, p, o', f.mode);
        }
      } else {
        var o' :| o' in f.owners;
        assert HoldsFlock(t.flocks, p, o', f.mode);
      }
    }
  }

  /** What one flock call does to every owner's standing on every path. */
  lemma FlockStanding(t: Table, p: Path, o: UInt64, rq: FlockRequest, p': Path, o': UInt64, m: FlockMode)
    requires Good(t)
    ensures var r := DoFlock(t.flocks, p, o, rq);
            HoldsFlock(r.0, p', o', m)
            <==> if p' == p && o' == o && rq.Drop? then false
                 else if p' == p && o' == o && r.1 == OK then m == rq.mode
                 else HoldsFlock(t.flocks, p', o', m)
  {
    if p in t.flocks {
      var f := t.flocks[p];
      if o in f.owners && f.mode.Exclusive? { SingletonIs(f.owners, o); }
      if o in f.owners && |f.owners| == 1 { SingletonIs(f.owners, o); }
    }
  }

  /** What the bits of a flock call mean. With bit 8 the owner holds nothing afterwards. Otherwise
      bit 2 asks for an exclusive lock and its absence for a shared one, which is granted and
      held exactly when every other owner's lock and this one are shared; bit 4 chooses the
      error of a refusal. No other bit matters. */
  lemma FlockByFlags(t: Table, p: Path, o: UInt64, flags: bv32)
    requires Good(t)
    ensures var (after, errno) := Apply(t, OpFlock(p, o, Decode(flags)));
            var m := if flags & 2 != 0 then Exclusive else Shared;
            && after.posix == t.posix
            && (flags & 8 != 0 ==> errno == OK && forall m' :: !HoldsFlock(after.flocks, p, o, m'))
            && (flags & 8 == 0 ==>
                  && (errno == OK <==>
                        forall o', m' :: o' != o && HoldsFlock(t.flocks, p, o', m') ==> m == m' == Shared)
                  && (errno == OK ==> HoldsFlock(after.flocks, p, o, m))
                  && (errno != OK ==> after == t && errno == if flags & 4 != 0 then EWOULDBLOCK else EAGAIN))
            && (forall p', o', m' :: p' != p || o' != o ==>
                  (HoldsFlock(after.flocks, p', o', m') <==> HoldsFlock(t.flocks, p', o', m')))
  {
    var rq := Decode(flags);
    if flags & 8 == 0 {
      FlockGrantedIff(t, p, o, rq.mode, rq.nonBlocking);
    }
    hide DoFlock, HoldsFlock;
    forall p', o', m ensures var r := DoFlock(t.flocks, p, o, rq);
                             HoldsFlock(r.0, p', o', m)
                             <==> if p' == p && o' == o && rq.Drop? then false
                                  else if p' == p && o' == o && r.1 == OK then m == rq.mode
                                  else HoldsFlock(t.flocks, p', o', m)
    {
      FlockStanding(t, p, o, rq, p', o', m);
    }
    if DoFlock(t.flocks, p, o, rq).1 != OK {
      RefusalChangesNothing(t, OpFlock(p, o, rq));
    }
  }

  lemma ReleaseStanding(t: Table, owners: set<UInt64>, p: Path, o: UInt64, m: FlockMode)
    ensures HoldsFlock(ReleaseOwners(t, owners).flocks, p, o, m) <==> HoldsFlock(t.flocks, p, o, m) && o !in owners
  {
    if HoldsFlock(t.flocks, p, o, m) && o !in owners {
      assert o in t.flocks[p].owners - owners;
    }
  }
}
