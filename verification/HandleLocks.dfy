/** Locks taken through file handles: what opening, locking and closing do to the lock table in
    a run of the adapter. */
module HandleLocks {
  import opened Common
  import opened AdapterSpec
  import opened BackingFs
  import opened Coherence
  import opened Conservation
  import H = HandleSpec
  import I = InodeSpec
  import L = LockSpec
  import LockFacts
  import LockRuns
  import S = LruSpec

  // ---------- The lock table of a run ----------

  /** The requests a call makes of the lock manager. Closing a handle, live or not, releases
      the owner with its number. */
  function RequestsOf(op: Op): seq<L.Op> {
    match op
    case OpLock(_, p, o, Setlk(rq)) => [L.OpSetlk(p, o, rq)]
    case OpLock(_, p, o, Flock(flags)) => [L.OpFlock(p, o, L.Decode(flags))]
    case OpRelease(fh, _) => [L.OpRelease(OwnerOf(fh))]
    case _ => []
  }

  function AllRequests(ops: seq<Op>): seq<L.Op> {
    if ops == [] then [] else AllRequests(ops[..|ops| - 1]) + RequestsOf(ops[|ops| - 1])
  }

  lemma OthersKeepLocks(s: Fs, op: Op)
    requires !op.OpUnmount? && !op.OpRelease? && !op.OpLock?
    ensures Apply(s, op).0.locks == s.locks
  {
    hide S.Get, S.Put, S.Delete, I.GetInode, Enter, OpenTree, MkdirTree, RemoveTree, RenameTree, LinkTree;
  }

  lemma StepLocks(s: Fs, op: Op)
    ensures Apply(s, op).0.locks ==
              if RequestsOf(op) == [] then s.locks else L.Apply(s.locks, RequestsOf(op)[0]).0
    ensures |RequestsOf(op)| <= 1
  {
    if op.OpUnmount? || op.OpRelease? || op.OpLock? {
    } else {
      OthersKeepLocks(s, op);
    }
  }

  /** In every run of the adapter the lock table is that of the same requests made of the lock
      manager alone, so everything proved about its runs holds here: bytes are held exactly as
      the requests and answers say and writers exclude everyone else. Unmount is not a request. */
  lemma {:induction false} LocksFollowRequests(tree: Tree, opts: Options, ops: seq<Op>)
    ensures After(Mounted(tree, opts), ops).locks == LockRuns.After(AllRequests(ops))
  {
    if ops != [] {
      var init, last := ops[..|ops| - 1], ops[|ops| - 1];
      LocksFollowRequests(tree, opts, init);
      StepLocks(After(Mounted(tree, opts), init), last);
      var made, more := AllRequests(init), RequestsOf(last);
      hide Apply;
      if more == [] {
        assert made + more == made;
      } else {
        assert (made + more)[..|made + more| - 1] == made && (made + more)[|made|] == more[0];
      }
    }
  }

  lemma HandlersExclude(tree: Tree, opts: Options, ops: seq<Op>,
                        p: Path, o1: UInt64, t1: UInt32, o2: UInt64, t2: UInt32, b: int)
    requires o1 != o2
    requires L.Held(After(Mounted(tree, opts), ops).locks.posix, p, o1, b, t1)
    requires L.Held(After(Mounted(tree, opts), ops).locks.posix, p, o2, b, t2)
    ensures t1 != L.F_WRLCK && t2 != L.F_WRLCK
  {
    LocksFollowRequests(tree, opts, ops);
    LockRuns.MutualExclusion(AllRequests(ops), p, o1, t1, o2, t2, b);
  }

  /** A stored lock of another owner overlaps the request and one of the two is a write lock,
      which is type 1. */
  predicate InTheWay(l: L.PosixLock, o: UInt64, rq: L.Request) {
    l.owner != o && rq.start < l.end && l.start < rq.end && (rq.typ == 1 || l.typ == 1)
  }

  /** What lock requests answer, mounted or unmounting: a lock is granted exactly when no stored
      lock is in its way and refused with EAGAIN otherwise, an unlock, which is type 2, always
      succeeds, and a probe answers the request unlocked when nothing is in the way. */
  lemma LockAnswers(s: Fs, p: Path, o: UInt64, rq: L.Request)
    ensures var clear := forall l | l in L.LocksAt(s.locks.posix, p) :: !InTheWay(l, o, rq);
            && (Lock(s, p, o, Setlk(rq)).1 == if rq.typ == 2 || clear then Done else Refused(EAGAIN))
            && (clear ==> Lock(s, p, o, Getlk(rq)) == (s, Probed(L.Request(rq.start, rq.end, 2, rq.pid))))
            && (!clear ==> exists l | l in L.LocksAt(s.locks.posix, p) ::
                             InTheWay(l, o, rq)
                             && Lock(s, p, o, Getlk(rq)) == (s, Probed(L.Request(l.start, l.end, l.typ, l.pid))))
  {
    assert forall l :: InTheWay(l, o, rq) <==> L.Conflicts(l, o, rq);
    if forall l | l in L.LocksAt(s.locks.posix, p) :: !L.Conflicts(l, o, rq) {
      LockFacts.GetlkKeepsRequest(s.locks.posix, p, o, rq);
    }
  }

  /** And what a flock answers, by the bits of its flags. */
  lemma FlockAnswers(s: Fs, p: Path, o: UInt64, flags: bv32)
    requires L.Good(s.locks)
    ensures var (t, answer) := Lock(s, p, o, Flock(flags));
            var m := if flags & 2 != 0 then L.Exclusive else L.Shared;
            var clear := forall o', m' :: o' != o && L.HoldsFlock(s.locks.flocks, p, o', m') ==> m == m' == L.Shared;
            && (flags & 8 != 0 ==> answer == Done && forall m' :: !L.HoldsFlock(t.locks.flocks, p, o, m'))
            && (flags & 8 == 0 && clear ==> answer == Done && L.HoldsFlock(t.locks.flocks, p, o, m))
            && (flags & 8 == 0 && !clear ==>
                  t == s && answer == Refused(if flags & 4 != 0 then EWOULDBLOCK else EAGAIN))
  {
    LockFacts.FlockByFlags(s.locks, p, o, flags);
    hide L.Apply, L.HoldsFlock, L.Decode;
  }

  // ---------- Closing a handle ----------

  /** Releasing a handle frees exactly the locks whose owner number is the handle's: bytes
      and flocks of every other owner stay held. */
  lemma ReleaseFreesOwner(s: Fs, fh: nat, closeError: Errno, p: Path, o: UInt64, b: int, t: UInt32, m: L.FlockMode)
    ensures var after, owner := Release(s, fh, closeError).0.locks, OwnerOf(fh);
            && (L.Held(after.posix, p, o, b, t) <==> L.Held(s.locks.posix, p, o, b, t) && o != owner)
            && (L.HoldsFlock(after.flocks, p, o, m) <==> L.HoldsFlock(s.locks.flocks, p, o, m) && o != owner)
  {
    var owner := OwnerOf(fh);
    LockFacts.ReleaseRemovesBytes(s.locks.posix, {owner}, p, o, b, t);
    LockFacts.ReleaseStanding(s.locks, {owner}, p, o, m);
  }

  /** The call takes byte `b` of `p` for owner `o` in mode `t` through handle `fh`. */
  ghost predicate Takes(s: Fs, op: Op, fh: nat, p: Path, o: UInt64, b: int, t: UInt32) {
    && op.OpLock? && op.fh == fh && op.path == p && op.owner == o && op.call.Setlk? && op.call.rq.typ == t != L.F_UNLCK
    && L.InRange(b, op.call.rq.start, op.call.rq.end) && Apply(s, op).1 == Done
  }

  /** The call gives the byte up for its owner, or closes the handle with the owner's number. */
  predicate GivesUp(op: Op, p: Path, o: UInt64, b: int) {
    match op
    case OpLock(_, q, a, Setlk(rq)) => q == p && a == o && rq.typ == L.F_UNLCK && L.InRange(b, rq.start, rq.end)
    case OpRelease(fh, _) => OwnerOf(fh) == o
    case _ => false
  }

  /** Some call of the run took the byte through `fh`, and no later call gave it up. */
  ghost predicate TakenThrough(s: Fs, ops: seq<Op>, fh: nat, p: Path, o: UInt64, b: int, t: UInt32) {
    ops != [] &&
    var init, last := ops[..|ops| - 1], ops[|ops| - 1];
    || Takes(After(s, init), last, fh, p, o, b, t)
    || (TakenThrough(s, init, fh, p, o, b, t) && !GivesUp(last, p, o, b))
  }

  lemma StepHeld(s: Fs, op: Op, p: Path, o: UInt64, b: int, t: UInt32)
    requires L.Good(s.locks)
    ensures L.Held(Apply(s, op).0.locks.posix, p, o, b, t)
            <==> (exists fh :: Takes(s, op, fh, p, o, b, t))
                 || (L.Held(s.locks.posix, p, o, b, t) && !GivesUp(op, p, o, b))
  {
    StepLocks(s, op);
    match op
    case OpLock(fh, q, a, Setlk(rq)) =>
      assert Takes(s, op, fh, p, o, b, t) <==> exists h :: Takes(s, op, h, p, o, b, t);
      if rq.typ == L.F_UNLCK {
        LockFacts.UnlockRemovesBytes(s.locks.posix, q, a, rq.start, rq.end, p, o, b, t);
      } else if L.Setlk(s.locks.posix, q, a, rq).1 == OK {
        LockFacts.GrantAddsBytes(s.locks.posix, q, a, rq, p, o, b, t);
      }
    case OpRelease(fh, _) => LockFacts.ReleaseRemovesBytes(s.locks.posix, {OwnerOf(fh)}, p, o, b, t);
    case _ =>
  }

  lemma RunsKeepLocksGood(tree: Tree, opts: Options, ops: seq<Op>)
    ensures L.Good(After(Mounted(tree, opts), ops).locks)
  {
    LocksFollowRequests(tree, opts, ops);
    LockRuns.AlwaysGood(AllRequests(ops));
  }

  ghost predicate Taken(s: Fs, ops: seq<Op>, p: Path, o: UInt64, b: int, t: UInt32) {
    exists fh :: TakenThrough(s, ops, fh, p, o, b, t)
  }

  lemma ThroughNext(s: Fs, init: seq<Op>, last: Op, fh: nat, p: Path, o: UInt64, b: int, t: UInt32)
    ensures TakenThrough(s, init + [last], fh, p, o, b, t)
            <==> Takes(After(s, init), last, fh, p, o, b, t)
                 || (TakenThrough(s, init, fh, p, o, b, t) && !GivesUp(last, p, o, b))
  {
    hide Apply, Takes, GivesUp, After;
    assert (init + [last])[..|init|] == init;
  }

  lemma TakenNext(s: Fs, init: seq<Op>, last: Op, p: Path, o: UInt64, b: int, t: UInt32)
    ensures Taken(s, init + [last], p, o, b, t)
            <==> (exists fh :: Takes(After(s, init), last, fh, p, o, b, t))
                 || (Taken(s, init, p, o, b, t) && !GivesUp(last, p, o, b))
  {
    hide Apply, Takes, GivesUp, After;
    var ops := init + [last];
    if Taken(s, ops, p, o, b, t) {
      var fh :| TakenThrough(s, ops, fh, p, o, b, t);
      ThroughNext(s, init, last, fh, p, o, b, t);
      assert Takes(After(s, init), last, fh, p, o, b, t) || Taken(s, init, p, o, b, t);
    }
    if fh :| Takes(After(s, init), last, fh, p, o, b, t) {
      ThroughNext(s, init, last, fh, p, o, b, t);
      assert Taken(s, ops, p, o, b, t);
    }
    if Taken(s, init, p, o, b, t) && !GivesUp(last, p, o, b) {
      var fh :| TakenThrough(s, init, fh, p, o, b, t);
      ThroughNext(s, init, last, fh, p, o, b, t);
      assert Taken(s, ops, p, o, b, t);
    }
  }

  /** In every run a byte is held exactly when it was taken through some handle and not given
      up since; whether that handle is still open does not matter. */
  lemma {:induction false} HeldIffTaken(tree: Tree, opts: Options, ops: seq<Op>, p: Path, o: UInt64, b: int, t: UInt32)
    ensures L.Held(After(Mounted(tree, opts), ops).locks.posix, p, o, b, t)
            <==> Taken(Mounted(tree, opts), ops, p, o, b, t)
  {
    if ops != [] {
      var init, last := ops[..|ops| - 1], ops[|ops| - 1];
      assert init + [last] == ops;
      HeldIffTaken(tree, opts, init, p, o, b, t);
      RunsKeepLocksGood(tree, opts, init);
      StepHeld(After(Mounted(tree, opts), init), last, p, o, b, t);
      TakenNext(Mounted(tree, opts), init, last, p, o, b, t);
      hide Apply, Takes, L.Held, Mounted, Taken;
    }
  }

  /** Closing a handle frees exactly the bytes locked through it, as intended, if and only if
      the bytes locked through it are exactly those of the owner with the handle's number. */
  lemma CloseFreesItsLocksIff(tree: Tree, opts: Options, ops: seq<Op>, fh: nat, closeError: Errno)
    ensures var s0 := Mounted(tree, opts);
            var was, now := After(s0, ops).locks.posix, After(s0, ops + [OpRelease(fh, closeError)]).locks.posix;
            (forall p, o, b, t | L.Held(was, p, o, b, t) ::
               L.Held(now, p, o, b, t) <==> !TakenThrough(s0, ops, fh, p, o, b, t))
            <==> (forall p, o, b, t | L.Held(was, p, o, b, t) ::
                    o == OwnerOf(fh) <==> TakenThrough(s0, ops, fh, p, o, b, t))
  {
    var s0, release := Mounted(tree, opts), OpRelease(fh, closeError);
    var s := After(s0, ops);
    assert (ops + [release])[..|ops|] == ops;
    assert After(s0, ops + [release]) == Apply(s, release).0;
    var now := Apply(s, release).0.locks.posix;
    forall p, o, b, t ensures L.Held(now, p, o, b, t) <==> L.Held(s.locks.posix, p, o, b, t) && o != OwnerOf(fh) {
      ReleaseFreesOwner(s, fh, closeError, p, o, b, t, L.Shared);
    }
    hide L.Held, TakenThrough;
  }

  /** Unmount closes every handle and leaves every lock: the table is as it was, and lock
      requests go on being answered as before. */
  lemma LocksOutliveUnmount(tree: Tree, opts: Options, ops: seq<Op>, serverError: Errno,
                            fh: nat, p: Path, o: UInt64, call: LockCall)
    ensures var s := After(Mounted(tree, opts), ops);
            var u := After(Mounted(tree, opts), ops + [OpUnmount(serverError)]);
            && u.handles.live == map[] && u.locks == s.locks
            && Apply(u, OpLock(fh, p, o, call)).1 == Apply(s, OpLock(fh, p, o, call)).1
  {
    assert (ops + [OpUnmount(serverError)])[..|ops|] == ops;
  }

  // ---------- Where it fails ----------

  const FILE_AT_F: Tree := map[[] := Dir, ["f"] := File]
  const READ_ONLY := OpenFlags(ReadOnly, false, false, false, false)
  const LOCK_10 := Setlk(L.Request(0, 10, L.F_WRLCK, 0))

  lemma FirstLock(s: Fs, o: UInt64)
    requires s.locks == L.EMPTY_TABLE
    ensures var r := Lock(s, ["f"], o, LOCK_10);
            && r.1 == Done && r.0 == s.(locks := r.0.locks) && L.Held(r.0.locks.posix, ["f"], o, 3, L.F_WRLCK)
  {
    assert L.LocksAt(Lock(s, ["f"], o, LOCK_10).0.locks.posix, ["f"]) == [L.PosixLock(o, 0, 10, L.F_WRLCK, 0)];
  }

  /** A lock taken through handle 1 by owner 7 stays held when handle 1, the only one, is closed. */
  lemma LockOutlivesHandleExample()
    ensures var (s1, a1) := Open(Mounted(FILE_AT_F, NO_LIMITS), ["f"], READ_ONLY, false);
            var (s2, a2) := Lock(s1, ["f"], 7, LOCK_10);
            var (s3, a3) := Release(s2, 1, OK);
            && a1 == Opened(1) && a2 == Done && a3 == Done && s3.handles.live == map[]
            && L.Held(s3.locks.posix, ["f"], 7, 3, L.F_WRLCK)
  {
    hide Lock, L.Apply, L.Held, L.HoldsFlock;
    var s1 := Open(Mounted(FILE_AT_F, NO_LIMITS), ["f"], READ_ONLY, false).0;
    var s2 := Lock(s1, ["f"], 7, LOCK_10).0;
    FirstLock(s1, 7);
    ReleaseFreesOwner(s2, 1, OK, ["f"], 7, 3, L.F_WRLCK, L.Shared);
  }

  /** A lock taken through handle 2 by owner 1 is freed by closing handle 1; handle 2 stays open. */
  lemma OtherHandleFreesExample()
    ensures var (s1, a1) := Open(Mounted(FILE_AT_F, NO_LIMITS), ["f"], READ_ONLY, false);
            var (s2, a2) := Open(s1, ["f"], READ_ONLY, false);
            var (s3, a3) := Lock(s2, ["f"], 1, LOCK_10);
            var (s4, a4) := Release(s3, 1, OK);
            && a1 == Opened(1) && a2 == Opened(2) && a3 == Done && a4 == Done
            && L.Held(s3.locks.posix, ["f"], 1, 3, L.F_WRLCK)
            && 2 in s4.handles.live && forall t :: !L.Held(s4.locks.posix, ["f"], 1, 3, t)
  {
    hide Lock, L.Apply, L.Held, L.HoldsFlock;
    var s1 := Open(Mounted(FILE_AT_F, NO_LIMITS), ["f"], READ_ONLY, false).0;
    var s2 := Open(s1, ["f"], READ_ONLY, false).0;
    var s3 := Lock(s2, ["f"], 1, LOCK_10).0;
    FirstLock(s2, 1);
    forall t ensures !L.Held(Release(s3, 1, OK).0.locks.posix, ["f"], 1, 3, t) {
      ReleaseFreesOwner(s3, 1, OK, ["f"], 1, 3, t, L.Shared);
    }
  }
}
