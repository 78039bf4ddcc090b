/** Every run of the lock manager. Since a mutex serialises the calls of concurrent
    callers, a run is any finite sequence of requests. Histories are read off the
    requests and the answers alone, without looking at the table. */
module LockRuns {
  import opened Common
  import opened LockSpec
  import opened LockFacts

  datatype Event = Event(op: Op, answer: Errno)

  function After(ops: seq<Op>): Table {
    if ops == [] then EMPTY_TABLE else Apply(After(ops[..|ops| - 1]), ops[|ops| - 1]).0
  }

  /** What callers see: each request with its answer. */
  function Log(ops: seq<Op>): (log: seq<Event>)
    ensures |log| == |ops| && forall i | 0 <= i < |ops| :: log[i].op == ops[i]
  {
    if ops == [] then []
    else
      var init, last := ops[..|ops| - 1], ops[|ops| - 1];
      Log(init) + [Event(last, Apply(After(init), last).1)]
  }

  lemma {:induction false} AlwaysGood(ops: seq<Op>)
    ensures Good(After(ops))
  {
    if ops != [] {
      AlwaysGood(ops[..|ops| - 1]);
      ApplyKeepsGood(After(ops[..|ops| - 1]), ops[|ops| - 1]);
    }
  }

  // ---------- Bytes ----------

  /** The event granted owner `o` byte `b` of `p` in mode `t`. */
  predicate GrantsByte(e: Event, p: Path, o: UInt64, b: int, t: UInt32) {
    && e.op.OpSetlk? && e.op.path == p && e.op.owner == o && e.op.rq.typ == t != F_UNLCK
    && InRange(b, e.op.rq.start, e.op.rq.end) && e.answer == OK
  }

  /** The event unlocked byte `b` of `p` for owner `o`, or released the owner. */
  predicate FreesByte(e: Event, p: Path, o: UInt64, b: int) {
    || (e.op == OpRelease(o))
    || (&& e.op.OpSetlk? && e.op.path == p && e.op.owner == o && e.op.rq.typ == F_UNLCK
        && InRange(b, e.op.rq.start, e.op.rq.end))
  }

  ghost predicate ByteStands(log: seq<Event>, p: Path, o: UInt64, b: int, t: UInt32) {
    exists i :: 0 <= i < |log| && GrantsByte(log[i], p, o, b, t)
                && forall j :: i < j < |log| ==> !FreesByte(log[j], p, o, b)
  }

  lemma ByteStandsNext(log: seq<Event>, e: Event, p: Path, o: UInt64, b: int, t: UInt32)
    ensures ByteStands(log + [e], p, o, b, t)
            <==> GrantsByte(e, p, o, b, t) || (ByteStands(log, p, o, b, t) && !FreesByte(e, p, o, b))
  {
    var more := log + [e];
    if ByteStands(more, p, o, b, t) && !GrantsByte(e, p, o, b, t) {
      var i :| 0 <= i < |more| && GrantsByte(more[i], p, o, b, t)
               && forall j :: i < j < |more| ==> !FreesByte(more[j], p, o, b);
      assert more[|log|] == e && log[i] == more[i];
      forall j | i < j < |log| ensures !FreesByte(log[j], p, o, b) { assert more[j] == log[j]; }
    }
    if GrantsByte(e, p, o, b, t) {
      assert more[|log|] == e;
    } else if ByteStands(log, p, o, b, t) && !FreesByte(e, p, o, b) {
      var i :| 0 <= i < |log| && GrantsByte(log[i], p, o, b, t)
               && forall j :: i < j < |log| ==> !FreesByte(log[j], p, o, b);
      assert more[i] == log[i];
    }
  }

  lemma HeldIsNoUnlock(table: Table, p: Path, o: UInt64, b: int, t: UInt32)
    requires Good(table)
    ensures Held(table.posix, p, o, b, t) ==> t != F_UNLCK
  {
  }

  /** The lists of ranges mean exactly what the history says: an owner holds a byte in
      a mode when some request granted it and the owner gave it up by no later call. */
  lemma {:induction false} HeldIffGranted(ops: seq<Op>, p: Path, o: UInt64, b: int, t: UInt32)
    ensures Held(After(ops).posix, p, o, b, t) <==> ByteStands(Log(ops), p, o, b, t)
  {
    if ops != [] {
      var init, last := ops[..|ops| - 1], ops[|ops| - 1];
      var was := After(init).posix;
      var e := Event(last, Apply(After(init), last).1);
      HeldIffGranted(init, p, o, b, t);
      AlwaysGood(init);
      ByteStandsNext(Log(init), e, p, o, b, t);
      match last
      case OpSetlk(q, a, rq) =>
        if rq.typ == F_UNLCK {
          UnlockRemovesBytes(was, q, a, rq.start, rq.end, p, o, b, t);
          HeldIsNoUnlock(After(init), p, o, b, t);
        } else if Setlk(was, q, a, rq).1 == OK {
          GrantAddsBytes(was, q, a, rq, p, o, b, t);
        }
      case OpFlock(_, _, _) =>
      case OpRelease(a) => ReleaseRemovesBytes(was, {a}, p, o, b, t);
    }
  }

  lemma AskedFor(ops: seq<Op>, p: Path, o: UInt64, b: int, t: UInt32)
    requires Held(After(ops).posix, p, o, b, t)
    ensures t != F_UNLCK && exists op | op in ops :: op.OpSetlk? && op.rq.typ == t
  {
    HeldIffGranted(ops, p, o, b, t);
    var log := Log(ops);
    var i :| 0 <= i < |log| && GrantsByte(log[i], p, o, b, t);
    assert ops[i] in ops;
  }

  /** Mutual exclusion in every run: when two owners hold the same byte, neither holds it
      in write mode; if all locks asked for were read or write locks, both are read locks. */
  lemma MutualExclusion(ops: seq<Op>, p: Path, o1: UInt64, t1: UInt32, o2: UInt64, t2: UInt32, b: int)
    requires o1 != o2
    requires Held(After(ops).posix, p, o1, b, t1) && Held(After(ops).posix, p, o2, b, t2)
    ensures t1 != F_WRLCK && t2 != F_WRLCK
    ensures (forall op | op in ops && op.OpSetlk? :: op.rq.typ in {F_RDLCK, F_WRLCK, F_UNLCK})
            ==> t1 == F_RDLCK && t2 == F_RDLCK
  {
    AlwaysGood(ops);
    hide After, Log;
    var locks := After(ops).posix[p];
    var l :| l in locks && l.owner == o1 && l.typ == t1 && InRange(b, l.start, l.end);
    var m :| m in locks && m.owner == o2 && m.typ == t2 && InRange(b, m.start, m.end);
    assert Compatible(l, m);
    AskedFor(ops, p, o1, b, t1);
    AskedFor(ops, p, o2, b, t2);
  }

  // ---------- Stored locks ----------

  /** The event granted a lock of which `l` is what is left; only an empty lock leaves an empty one. */
  predicate GrantsLock(e: Event, p: Path, l: PosixLock) {
    && e.op.OpSetlk? && e.op.path == p && e.answer == OK
    && (e.op.owner, e.op.rq.typ, e.op.rq.pid) == (l.owner, l.typ, l.pid)
    && e.op.rq.start <= l.start && l.end <= e.op.rq.end && (e.op.rq.start < e.op.rq.end ==> l.start < l.end)
  }

  /** `l` is all or part of `x`. */
  predicate PartOf(l: PosixLock, x: PosixLock) {
    && (l.owner, l.typ, l.pid) == (x.owner, x.typ, x.pid)
    && x.start <= l.start && l.end <= x.end && (x.start < x.end ==> l.start < l.end)
  }

  lemma OriginOf(t: Table, op: Op, p: Path, l: PosixLock)
    requires l in LocksAt(Apply(t, op).0.posix, p)
    ensures GrantsLock(Event(op, Apply(t, op).1), p, l) || exists x | x in LocksAt(t.posix, p) :: PartOf(l, x)
  {
    var was := LocksAt(t.posix, p);
    if l !in was {
      match op
      case OpSetlk(q, o, rq) =>
        if rq.typ == F_UNLCK && q == p {
          CutAllMember(was, o, rq.start, rq.end, l);
          var x :| x in was && l in Cut(x, o, rq.start, rq.end);
          CutShrinks(x, o, rq.start, rq.end, l);
          assert PartOf(l, x);
        }
      case OpFlock(_, _, _) =>
      case OpRelease(o) => ExceptMember(was, {o}, l);
    } else {
      assert PartOf(l, l);
    }
  }

  /** Every stored lock, and so every lock Getlk reports, is what is left of one granted
      request: same owner, type and process, and within its range. */
  lemma {:induction false} StoredFromGrant(ops: seq<Op>, p: Path, l: PosixLock)
    requires l in LocksAt(After(ops).posix, p)
    ensures exists i :: 0 <= i < |ops| && GrantsLock(Log(ops)[i], p, l)
  {
    var init, last := ops[..|ops| - 1], ops[|ops| - 1];
    var t, log := After(init), Log(ops);
    assert log == Log(init) + [Event(last, Apply(t, last).1)];
    hide Apply, Log;
    OriginOf(t, last, p, l);
    if !GrantsLock(log[|init|], p, l) {
      var x :| x in LocksAt(t.posix, p) && PartOf(l, x);
      StoredFromGrant(init, p, x);
      var i :| 0 <= i < |init| && GrantsLock(Log(init)[i], p, x);
      assert log[i] == Log(init)[i];
    }
  }

  // ---------- The order of stored locks ----------

  ghost predicate Ascending(origin: seq<nat>) {
    forall i, j :: 0 <= i < j < |origin| ==> origin[i] <= origin[j]
  }

  /** Every lock is all or part of an earlier one of the same origin. */
  ghost predicate Derived(locks: seq<PosixLock>, origin: seq<nat>, was: seq<PosixLock>, wasOrigin: seq<nat>)
    requires |was| == |wasOrigin|
  {
    && |locks| == |origin| && Ascending(origin)
    && forall k :: 0 <= k < |locks| ==>
         exists j :: 0 <= j < |was| && origin[k] == wasOrigin[j] && PartOf(locks[k], was[j])
  }

  lemma Repeated(n: nat, i: nat) returns (origin: seq<nat>)
    ensures |origin| == n && forall k :: 0 <= k < n ==> origin[k] == i
  {
    origin := seq(n, k => i);
  }

  /** Replacing every lock by parts of it, in place, keeps the order of origins. */
  lemma DerivedNext(locks: seq<PosixLock>, origin: seq<nat>, init: seq<PosixLock>, initOrigin: seq<nat>,
                    last: PosixLock, i: nat, parts: seq<PosixLock>)
    returns (more: seq<nat>)
    requires |init| == |initOrigin| && Derived(locks, origin, init, initOrigin) && Ascending(initOrigin + [i])
    requires forall x | x in parts :: PartOf(x, last)
    ensures Derived(locks + parts, more, init + [last], initOrigin + [i])
  {
    var was, wasOrigin := init + [last], initOrigin + [i];
    var added := Repeated(|parts|, i);
    more := origin + added;
    assert wasOrigin[|init|] == i && was[|init|] == last;
    forall k | 0 <= k < |locks + parts|
      ensures exists j :: 0 <= j < |was| && more[k] == wasOrigin[j] && PartOf((locks + parts)[k], was[j])
    {
      if k < |locks| {
        var j :| 0 <= j < |init| && origin[k] == initOrigin[j] && PartOf(locks[k], init[j]);
        assert more[k] == wasOrigin[j] && was[j] == init[j];
      } else {
        assert parts[k - |locks|] in parts;
      }
    }
  }

  lemma {:induction false} CutAllDerived(locks: seq<PosixLock>, origin: seq<nat>, o: UInt64, s: UInt64, e: UInt64)
    returns (more: seq<nat>)
    requires |locks| == |origin| && Ascending(origin)
    ensures Derived(CutAll(locks, o, s, e), more, locks, origin)
  {
    if locks == [] {
      more := [];
    } else {
      var n := |locks| - 1;
      var rest := CutAllDerived(locks[..n], origin[..n], o, s, e);
      assert locks[..n] + [locks[n]] == locks && origin[..n] + [origin[n]] == origin;
      forall x | x in Cut(locks[n], o, s, e) ensures PartOf(x, locks[n]) { CutShrinks(locks[n], o, s, e, x); }
      more := DerivedNext(CutAll(locks[..n], o, s, e), rest, locks[..n], origin[..n], locks[n], origin[n],
                          Cut(locks[n], o, s, e));
    }
  }

  lemma {:induction false} ExceptDerived(locks: seq<PosixLock>, origin: seq<nat>, owners: set<UInt64>)
    returns (more: seq<nat>)
    requires |locks| == |origin| && Ascending(origin)
    ensures Derived(Except(locks, owners), more, locks, origin)
  {
    if locks == [] {
      more := [];
    } else {
      var n := |locks| - 1;
      var rest := ExceptDerived(locks[..n], origin[..n], owners);
      assert locks[..n] + [locks[n]] == locks && origin[..n] + [origin[n]] == origin;
      var kept := if locks[n].owner in owners then [] else [locks[n]];
      more := DerivedNext(Except(locks[..n], owners), rest, locks[..n], origin[..n], locks[n], origin[n], kept);
    }
  }

  /** Lock k of the list is what is left of the lock granted by event origin[k]. */
  ghost predicate FromGrants(log: seq<Event>, p: Path, locks: seq<PosixLock>, origin: seq<nat>) {
    && |locks| == |origin| && Ascending(origin)
    && forall k :: 0 <= k < |locks| ==> origin[k] < |log| && GrantsLock(log[origin[k]], p, locks[k])
  }

  lemma FromGrantsDerived(log: seq<Event>, e: Event, p: Path, was: seq<PosixLock>, wasOrigin: seq<nat>,
                          locks: seq<PosixLock>, origin: seq<nat>)
    requires FromGrants(log, p, was, wasOrigin) && Derived(locks, origin, was, wasOrigin)
    ensures FromGrants(log + [e], p, locks, origin)
  {
    forall k | 0 <= k < |locks| ensures origin[k] < |log| && GrantsLock((log + [e])[origin[k]], p, locks[k]) {
      var j :| 0 <= j < |was| && origin[k] == wasOrigin[j] && PartOf(locks[k], was[j]);
    }
  }

  lemma NextOrigin(t: Table, op: Op, p: Path, log: seq<Event>, wasOrigin: seq<nat>) returns (origin: seq<nat>)
    requires FromGrants(log, p, LocksAt(t.posix, p), wasOrigin)
    ensures FromGrants(log + [Event(op, Apply(t, op).1)], p, LocksAt(Apply(t, op).0.posix, p), origin)
  {
    var was, now := LocksAt(t.posix, p), LocksAt(Apply(t, op).0.posix, p);
    var e := Event(op, Apply(t, op).1);
    origin := wasOrigin;
    if now == was {
      assert forall k | 0 <= k < |log| :: (log + [e])[k] == log[k];
    } else if op.OpRelease? {
      origin := ExceptDerived(was, wasOrigin, {op.owner});
      FromGrantsDerived(log, e, p, was, wasOrigin, now, origin);
    } else if op.rq.typ == F_UNLCK {
      origin := CutAllDerived(was, wasOrigin, op.owner, op.rq.start, op.rq.end);
      FromGrantsDerived(log, e, p, was, wasOrigin, now, origin);
    } else {
      origin := wasOrigin + [|log|];
    }
  }

  /** In every run the locks of a path are stored in the order in which they were granted,
      however they have been split since. */
  lemma {:induction false} StoredInGrantOrder(ops: seq<Op>, p: Path) returns (origin: seq<nat>)
    ensures FromGrants(Log(ops), p, LocksAt(After(ops).posix, p), origin)
  {
    if ops == [] {
      origin := [];
    } else {
      var init, last := ops[..|ops| - 1], ops[|ops| - 1];
      var t := After(init);
      var was, log, e := LocksAt(t.posix, p), Log(init), Event(last, Apply(t, last).1);
      var wasOrigin := StoredInGrantOrder(init, p);
      origin := NextOrigin(t, last, p, log, wasOrigin);
      assert Log(ops) == log + [e];
    }
  }

  predicate Refused(t: Table, p: Path, o: UInt64, rq: Request) {
    Apply(t, OpSetlk(p, o, rq)).1 == EAGAIN
  }

  /** So what Getlk reports is left of the earliest granted lock that still stands in the way. */
  lemma GetlkReportsEarliest(ops: seq<Op>, p: Path, o: UInt64, rq: Request) returns (origin: seq<nat>, k: nat)
    requires Refused(After(ops), p, o, rq)
    ensures var locks := LocksAt(After(ops).posix, p);
            && FromGrants(Log(ops), p, locks, origin) && k < |locks|
            && Getlk(After(ops).posix, p, o, rq) == Request(locks[k].start, locks[k].end, locks[k].typ, locks[k].pid)
            && Conflicts(locks[k], o, rq)
            && forall j :: 0 <= j < |locks| && Conflicts(locks[j], o, rq) ==> origin[k] <= origin[j]
  {
    var locks := LocksAt(After(ops).posix, p);
    origin := StoredInGrantOrder(ops, p);
    FirstConflictIsFirst(locks, o, rq);
    k :| && 0 <= k < |locks| && Some(locks[k]) == FirstConflict(locks, o, rq)
         && forall j :: 0 <= j < k ==> !Conflicts(locks[j], o, rq);
  }

  // ---------- Grants, byte by byte ----------

  /** Another owner asks for an empty lock of `p`. */
  ghost predicate AsksEmpty(op: Op, p: Path, o: UInt64) {
    op.OpSetlk? && op.path == p && op.owner != o && op.rq.typ != F_UNLCK && op.rq.start >= op.rq.end
  }

  /** After any run a request is granted exactly when no byte conflicts, unless it is refused
      for the sake of an empty range. A caller with a non-empty range is safe from that as long
      as no other owner asked for an empty lock of the path. */
  lemma GrantedIffNoConflictingByte(ops: seq<Op>, p: Path, o: UInt64, rq: Request)
    requires rq.typ != F_UNLCK
    ensures var granted := Apply(After(ops), OpSetlk(p, o, rq)).1 == OK;
            var locks := LocksAt(After(ops).posix, p);
            && ((granted <==> !ByteConflict(After(ops).posix, p, o, rq))
                <==> ((exists l | l in locks :: Conflicts(l, o, rq)) ==>
                        rq.start < rq.end && exists l | l in locks :: Conflicts(l, o, rq) && l.start < l.end))
            && (rq.start < rq.end && (forall op | op in ops :: !AsksEmpty(op, p, o))
                ==> (granted <==> !ByteConflict(After(ops).posix, p, o, rq)))
  {
    var locks := LocksAt(After(ops).posix, p);
    DecidedByBytesIff(After(ops).posix, p, o, rq);
    AlwaysGood(ops);
    if l :| l in locks && Conflicts(l, o, rq) {
      StoredFromGrant(ops, p, l);
      var i :| 0 <= i < |ops| && GrantsLock(Log(ops)[i], p, l);
      assert ops[i] in ops;
    }
  }

  lemma AfterOne(op: Op)
    ensures After([op]) == Apply(EMPTY_TABLE, op).0
  {
    assert [op][..0] == [];
  }

  /** Empty requests escape that rule: one inside another owner's lock is refused although
      it asks for no byte. */
  lemma EmptyRequestRefused()
    ensures var ops := [OpSetlk([], 1, Request(0, 10, F_WRLCK, 0))];
            && Apply(After(ops), OpSetlk([], 2, Request(5, 5, F_RDLCK, 0))).1 == EAGAIN
            && forall b :: !InRange(b, 5, 5)
  {
    AfterOne(OpSetlk([], 1, Request(0, 10, F_WRLCK, 0)));
    assert Conflicts(PosixLock(1, 0, 10, F_WRLCK, 0), 2, Request(5, 5, F_RDLCK, 0));
  }

  /** And so do empty locks: one is granted, and from then on refuses another owner's request
      around it although nobody holds a byte. */
  lemma EmptyLockRefuses()
    ensures var empty := OpSetlk([], 1, Request(5, 5, F_WRLCK, 0));
            && Apply(After([]), empty).1 == OK
            && (forall p, o, b, t :: !Held(After([empty]).posix, p, o, b, t))
            && Apply(After([empty]), OpSetlk([], 2, Request(0, 10, F_RDLCK, 0))).1 == EAGAIN
  {
    AfterOne(OpSetlk([], 1, Request(5, 5, F_WRLCK, 0)));
    assert Conflicts(PosixLock(1, 5, 5, F_WRLCK, 0), 2, Request(0, 10, F_RDLCK, 0));
  }

  /** One owner, one byte, two modes: a read lock taken over one's own write lock is granted
      and changes nothing for others, who are still refused a read lock. */
  lemma DowngradeHasNoEffect()
    ensures var write, read := OpSetlk([], 1, Request(0, 10, F_WRLCK, 0)), OpSetlk([], 1, Request(0, 10, F_RDLCK, 0));
            var posix := After([write, read]).posix;
            && Apply(After([write]), read).1 == OK
            && Held(posix, [], 1, 3, F_WRLCK) && Held(posix, [], 1, 3, F_RDLCK)
            && Apply(After([write, read]), OpSetlk([], 2, Request(0, 10, F_RDLCK, 0))).1 == EAGAIN
  {
    var write, read := OpSetlk([], 1, Request(0, 10, F_WRLCK, 0)), OpSetlk([], 1, Request(0, 10, F_RDLCK, 0));
    var was := After([write]).posix;
    AfterOne(write);
    assert [write, read][..1] == [write];
    assert Held(was, [], 1, 3, F_WRLCK);
    GrantAddsBytes(was, [], 1, read.rq, [], 1, 3, F_WRLCK);
    GrantAddsBytes(was, [], 1, read.rq, [], 1, 3, F_RDLCK);
    GrantOnlyRestricts(was, [], 1, read.rq, 2, read.rq);
  }

  // ---------- Waiting ----------

  /** Another owner unlocks something on the path, or is released. */
  predicate MakesWay(op: Op, p: Path, o: UInt64) {
    match op
    case OpSetlk(q, a, rq) => q == p && a != o && rq.typ == F_UNLCK
    case OpFlock(_, _, _) => false
    case OpRelease(a) => a != o
  }

  lemma RefusedStep(t: Table, op: Op, p: Path, o: UInt64, rq: Request)
    requires Refused(t, p, o, rq) && !MakesWay(op, p, o)
    ensures Refused(Apply(t, op).0, p, o, rq)
  {
    var was, now := LocksAt(t.posix, p), LocksAt(Apply(t, op).0.posix, p);
    var l := FirstConflict(was, o, rq).value;
    match op
    case OpSetlk(q, a, r) =>
      if r.typ == F_UNLCK && q == p {
        CutAllMember(was, a, r.start, r.end, l);
        assert l in Cut(l, a, r.start, r.end);
      }
    case OpFlock(_, _, _) =>
    case OpRelease(a) => ExceptMember(was, {a}, l);
    assert l in now;
  }

  lemma AfterNext(ops: seq<Op>, op: Op)
    ensures After(ops + [op]) == Apply(After(ops), op).0
  {
    assert (ops + [op])[..|ops|] == ops;
  }

  /** Nothing is granted by waiting: in every run a refused request is refused again until
      some other owner unlocks on the path or is released, whoever asks for what in between. */
  lemma {:induction false} RefusedStaysRefused(ops: seq<Op>, more: seq<Op>, p: Path, o: UInt64, rq: Request)
    requires Refused(After(ops), p, o, rq)
    requires forall op | op in more :: !MakesWay(op, p, o)
    ensures Refused(After(ops + more), p, o, rq)
  {
    hide After, Apply, Refused;
    if more == [] {
      assert ops + more == ops;
    } else {
      var init, last := more[..|more| - 1], more[|more| - 1];
      RefusedStaysRefused(ops, init, p, o, rq);
      AfterNext(ops + init, last);
      assert ops + init + [last] == ops + more;
      RefusedStep(After(ops + init), last, p, o, rq);
    }
  }

  /** Deadlock: whenever the owners of a group are each refused what they ask for, retrying
      grants none of them anything, however long and in whatever order they go on. */
  lemma DeadlockLasts(ops: seq<Op>, waits: set<Op>, more: seq<Op>)
    requires forall w | w in waits :: w.OpSetlk? && Refused(After(ops), w.path, w.owner, w.rq)
    requires forall op | op in more :: op in waits
    ensures forall w | w in waits :: Refused(After(ops + more), w.path, w.owner, w.rq)
  {
    forall w | w in waits ensures Refused(After(ops + more), w.path, w.owner, w.rq) {
      RefusedStaysRefused(ops, more, w.path, w.owner, w.rq);
    }
  }

  /** And it is not prevented: two owners lock one file each and then ask for the other's. */
  lemma DeadlockExample(more: seq<Op>)
    requires var rq := Request(0, 10, F_WRLCK, 0);
             forall op | op in more :: op in {OpSetlk(["b"], 1, rq), OpSetlk(["a"], 2, rq)}
    ensures var rq := Request(0, 10, F_WRLCK, 0);
            var t := After([OpSetlk(["a"], 1, rq), OpSetlk(["b"], 2, rq)] + more);
            Refused(t, ["b"], 1, rq) && Refused(t, ["a"], 2, rq)
  {
    var rq := Request(0, 10, F_WRLCK, 0);
    var one, two := OpSetlk(["a"], 1, rq), OpSetlk(["b"], 2, rq);
    AfterOne(one);
    assert [one, two][..1] == [one];
    var t := After([one, two]);
    assert t == Apply(After([one]), two).0;
    assert PosixLock(1, 0, 10, F_WRLCK, 0) in LocksAt(t.posix, ["a"]);
    assert PosixLock(2, 0, 10, F_WRLCK, 0) in LocksAt(t.posix, ["b"]);
    DeadlockLasts([one, two], {OpSetlk(["b"], 1, rq), OpSetlk(["a"], 2, rq)}, more);
  }

  // ---------- Flocks ----------

  predicate GrantsFlock(e: Event, p: Path, o: UInt64, m: FlockMode) {
    && e.op.OpFlock? && e.op.path == p && e.op.owner == o
    && e.op.frq.Acquire? && e.op.frq.mode == m && e.answer == OK
  }

  /** The event ends the standing the owner had on the path before it: a newer grant, an
      unlock, or a release of the owner. */
  predicate EndsFlock(e: Event, p: Path, o: UInt64) {
    || e.op == OpRelease(o)
    || (e.op.OpFlock? && e.op.path == p && e.op.owner == o && (e.op.frq.Drop? || e.answer == OK))
  }

  ghost predicate FlockStands(log: seq<Event>, p: Path, o: UInt64, m: FlockMode) {
    exists i :: 0 <= i < |log| && GrantsFlock(log[i], p, o, m)
                && forall j :: i < j < |log| ==> !EndsFlock(log[j], p, o)
  }

  lemma FlockStandsNext(log: seq<Event>, e: Event, p: Path, o: UInt64, m: FlockMode)
    ensures FlockStands(log + [e], p, o, m)
            <==> GrantsFlock(e, p, o, m) || (FlockStands(log, p, o, m) && !EndsFlock(e, p, o))
  {
    var more := log + [e];
    if FlockStands(more, p, o, m) && !GrantsFlock(e, p, o, m) {
      var i :| 0 <= i < |more| && GrantsFlock(more[i], p, o, m)
               && forall j :: i < j < |more| ==> !EndsFlock(more[j], p, o);
      assert more[|log|] == e && log[i] == more[i];
      forall j | i < j < |log| ensures !EndsFlock(log[j], p, o) { assert more[j] == log[j]; }
    }
    if GrantsFlock(e, p, o, m) {
      assert more[|log|] == e;
    } else if FlockStands(log, p, o, m) && !EndsFlock(e, p, o) {
      var i :| 0 <= i < |log| && GrantsFlock(log[i], p, o, m)
               && forall j :: i < j < |log| ==> !EndsFlock(log[j], p, o);
      assert more[i] == log[i];
    }
  }

  /** One shared type per path is enough: an owner holds a path in mode `m` exactly when
      `m` is what its latest granted request there asked for, and it has not let go since. */
  lemma {:induction false} FlockIffGranted(ops: seq<Op>, p: Path, o: UInt64, m: FlockMode)
    ensures HoldsFlock(After(ops).flocks, p, o, m) <==> FlockStands(Log(ops), p, o, m)
  {
    if ops != [] {
      var init, last := ops[..|ops| - 1], ops[|ops| - 1];
      var e := Event(last, Apply(After(init), last).1);
      FlockIffGranted(init, p, o, m);
      AlwaysGood(init);
      FlockStandsNext(Log(init), e, p, o, m);
      match last
      case OpSetlk(_, _, _) =>
      case OpFlock(q, a, frq) => FlockStanding(After(init), q, a, frq, p, o, m);
      case OpRelease(a) => ReleaseStanding(After(init), {a}, p, o, m);
    }
  }

  /** In every run an exclusive flock excludes every other owner's flock on the path. */
  lemma FlockExclusion(ops: seq<Op>, p: Path, o1: UInt64, m1: FlockMode, o2: UInt64, m2: FlockMode)
    requires o1 != o2
    requires HoldsFlock(After(ops).flocks, p, o1, m1) && HoldsFlock(After(ops).flocks, p, o2, m2)
    ensures m1 == m2 == Shared
  {
    AlwaysGood(ops);
    if m1 == Exclusive {
      SingletonIs(After(ops).flocks[p].owners, o1);
    }
  }
}
