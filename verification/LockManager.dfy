/** The lock manager with its two mutable maps (locks.go). Its mutex makes every
    method one atomic step, so each method is given as one transition. */
module LockManager {
  import opened Common
  import T = LockSpec
  import Facts = LockFacts
  import Algebra = LockAlgebra

  /** The request structure, which Getlk overwrites with its answer. */
  class FileLock {
    var start: UInt64
    var end: UInt64
    var typ: UInt32
    var pid: UInt32

    ghost function Request(): T.Request
      reads this
    {
      T.Request(start, end, typ, pid)
    }

    constructor (start: UInt64, end: UInt64, typ: UInt32, pid: UInt32)
      ensures Request() == T.Request(start, end, typ, pid)
    {
      this.start, this.end, this.typ, this.pid := start, end, typ, pid;
    }
  }

  class FlockState {
    var lockType: T.FlockMode
    var owners: set<UInt64>

    ghost function Value(): T.Flock
      reads this
    {
      T.Flock(lockType, owners)
    }

    constructor (lockType: T.FlockMode, owners: set<UInt64>)
      ensures Value() == T.Flock(lockType, owners)
    {
      this.lockType, this.owners := lockType, owners;
    }
  }

  class LockManager {
    var flocks: map<Path, FlockState>
    var posixLocks: map<Path, seq<T.PosixLock>>

    ghost function Repr(): set<object>
      reads this
    {
      {this} + flocks.Values
    }

    ghost function Flocks(): T.FlockTable
      reads this`flocks, flocks.Values
    {
      map p | p in flocks :: flocks[p].Value()
    }

    ghost function Table(): T.Table
      reads this, flocks.Values
    {
      T.Table(Flocks(), posixLocks)
    }

    /** No two paths share a flock cell. */
    ghost predicate Separate()
      reads this`flocks
    {
      forall p, q | p in flocks && q in flocks && p != q :: flocks[p] != flocks[q]
    }

    ghost predicate Valid()
      reads this, flocks.Values
    {
      Separate() && T.Good(Table())
    }

    constructor ()
      ensures Valid() && fresh(Repr()) && Table() == T.EMPTY_TABLE
    {
      flocks, posixLocks := map[], map[];
    }

    method Getlk(path: Path, owner: UInt64, lk: FileLock)
      requires Valid()
      modifies lk
      ensures Valid() && Table() == old(Table())
      ensures lk.Request() == T.Getlk(posixLocks, path, owner, old(lk.Request()))
    {
      if path !in posixLocks {
        lk.typ := T.F_UNLCK;
        return;
      }
      var locks := posixLocks[path];
      ghost var rq := lk.Request();
      var i := 0;
      hide T.FirstConflict;
      while i < |locks|
        invariant 0 <= i <= |locks| && lk.Request() == rq
        invariant T.FirstConflict(locks, owner, rq) == T.FirstConflict(locks[i..], owner, rq)
      {
        var lock := locks[i];
        assert locks[i..][1..] == locks[i + 1..];
        if lock.owner != owner && T.RangesOverlap(lk.start, lk.end, lock.start, lock.end) {
          if lk.typ == T.F_WRLCK || lock.typ == T.F_WRLCK {
            lk.typ := lock.typ;
            lk.start := lock.start;
            lk.end := lock.end;
            lk.pid := lock.pid;
            return;
          }
        }
        i := i + 1;
      }
      lk.typ := T.F_UNLCK;
    }

    method UnlockPosix(path: Path, owner: UInt64, lk: FileLock) returns (errno: Errno)
      modifies this`posixLocks
      ensures errno == OK
      ensures posixLocks == T.Unlock(old(posixLocks), path, owner, lk.start, lk.end)
    {
      if path !in posixLocks {
        return OK;
      }
      var locks := posixLocks[path];
      var newLocks := [];
      var i := 0;
      while i < |locks|
        invariant 0 <= i <= |locks| && posixLocks == old(posixLocks)
        invariant newLocks == T.CutAll(locks[..i], owner, lk.start, lk.end)
      {
        var lock := locks[i];
        assert locks[..i + 1] == locks[..i] + [lock];
        Algebra.CutAllSnoc(locks[..i], lock, owner, lk.start, lk.end);
        i := i + 1;
        if lock.owner != owner {
          newLocks := newLocks + [lock];
          continue;
        }
        if !T.RangesOverlap(lk.start, lk.end, lock.start, lock.end) {
          newLocks := newLocks + [lock];
          continue;
        }
        if lock.start < lk.start {
          newLocks := newLocks + [T.PosixLock(lock.owner, lock.start, lk.start, lock.typ, lock.pid)];
        }
        if lock.end > lk.end {
          newLocks := newLocks + [T.PosixLock(lock.owner, lk.end, lock.end, lock.typ, lock.pid)];
        }
      }
      assert locks[..i] == locks;
      if |newLocks| == 0 {
        posixLocks := posixLocks - {path};
      } else {
        posixLocks := posixLocks[path := newLocks];
      }
      errno := OK;
    }

    method Setlk(path: Path, owner: UInt64, lk: FileLock) returns (errno: Errno)
      requires Valid()
      modifies this`posixLocks
      ensures Valid() && Repr() == old(Repr()) && flocks == old(flocks)
      ensures (Table(), errno) == T.Apply(old(Table()), T.OpSetlk(path, owner, lk.Request()))
    {
      Facts.SetlkKeepsGood(Table(), path, owner, lk.Request());
      if lk.typ == T.F_UNLCK {
        errno := UnlockPosix(path, owner, lk);
        return;
      }
      var locks := if path in posixLocks then posixLocks[path] else [];
      ghost var rq := lk.Request();
      var i := 0;
      while i < |locks|
        invariant 0 <= i <= |locks|
        invariant T.FirstConflict(locks, owner, rq) == T.FirstConflict(locks[i..], owner, rq)
      {
        var lock := locks[i];
        assert locks[i..][1..] == locks[i + 1..];
        if lock.owner != owner && T.RangesOverlap(lk.start, lk.end, lock.start, lock.end) {
          if lk.typ == T.F_WRLCK || lock.typ == T.F_WRLCK {
            return EAGAIN;
          }
        }
        i := i + 1;
      }
      var newLock := T.PosixLock(owner, lk.start, lk.end, lk.typ, lk.pid);
      posixLocks := posixLocks[path := locks + [newLock]];
      errno := OK;
    }

    method Setlkw(path: Path, owner: UInt64, lk: FileLock) returns (errno: Errno)
      requires Valid()
      modifies this`posixLocks
      ensures Valid() && Repr() == old(Repr()) && flocks == old(flocks)
      ensures (Table(), errno) == T.Apply(old(Table()), T.OpSetlk(path, owner, lk.Request()))
    {
      errno := Setlk(path, owner, lk);
    }

    /** Flock once the requested type is known. */
    method AcquireFlock(path: Path, owner: UInt64, requestedType: T.FlockMode, nonBlocking: bool)
      returns (errno: Errno)
      requires Separate() && (path in flocks ==> T.GoodFlock(flocks[path].Value()))
      modifies this`flocks, flocks.Values
      ensures Separate() && fresh(flocks.Values - old(flocks.Values))
      ensures (Flocks(), errno) == T.DoFlock(old(Flocks()), path, owner, T.Acquire(requestedType, nonBlocking))
    {
      if path !in flocks {
        var state := new FlockState(requestedType, {owner});
        flocks := flocks[path := state];
        assert Flocks() == old(Flocks())[path := T.Flock(requestedType, {owner})];
        return OK;
      }
      var state := flocks[path];
      if owner in state.owners {
        if requestedType == state.lockType {
          return OK;
        }
        if requestedType == T.Exclusive && state.lockType == T.Shared {
          if |state.owners| == 1 {
            state.lockType := T.Exclusive;
            assert Flocks() == old(Flocks())[path := state.Value()];
            return OK;
          }
          if nonBlocking {
            return EWOULDBLOCK;
          }
          return EAGAIN;
        }
        state.lockType := T.Shared;
        assert Flocks() == old(Flocks())[path := state.Value()];
        return OK;
      }
      if state.lockType == T.Exclusive {
        if nonBlocking {
          return EWOULDBLOCK;
        }
        return EAGAIN;
      }
      if requestedType == T.Shared {
        state.owners := state.owners + {owner};
        assert Flocks() == old(Flocks())[path := state.Value()];
        return OK;
      }
      if nonBlocking {
        return EWOULDBLOCK;
      }
      return EAGAIN;
    }

    /** The shared tail of flockUnlock and the flock loop of ReleaseOwner. */
    method DropOwner(path: Path, owner: UInt64)
      requires Separate() && path in flocks
      modifies this`flocks, flocks[path]
      ensures Separate()
      ensures flocks.Values <= old(flocks.Values)
      ensures var left := T.DropOwners(old(Flocks())[path], {owner});
              Flocks() == if left.owners == {} then old(Flocks()) - {path}
                                else old(Flocks())[path := left]
    {
      var state := flocks[path];
      state.owners := state.owners - {owner};
      assert Flocks() == old(Flocks())[path := state.Value()];
      if |state.owners| == 0 {
        flocks := flocks - {path};
        assert Flocks() == old(Flocks()) - {path};
      }
    }

    method FlockUnlock(path: Path, owner: UInt64) returns (errno: Errno)
      requires Valid()
      modifies this`flocks, flocks.Values
      ensures Valid() && Repr() <= old(Repr())
      ensures (Table(), errno) == T.Apply(old(Table()), T.OpFlock(path, owner, T.Drop))
    {
      Facts.FlockKeepsGood(Table(), path, owner, T.Drop);
      if path !in flocks {
        return OK;
      }
      DropOwner(path, owner);
      errno := OK;
    }

    method Flock(path: Path, owner: UInt64, flags: bv32) returns (errno: Errno)
      requires Valid()
      modifies this`flocks, flocks.Values
      ensures Valid() && fresh(Repr() - old(Repr()))
      ensures (Table(), errno) == T.Apply(old(Table()), T.OpFlock(path, owner, T.Decode(flags)))
    {
      Facts.FlockKeepsGood(Table(), path, owner, T.Decode(flags));
      if flags & T.LOCK_UN != 0 {
        errno := FlockUnlock(path, owner);
        return;
      }
      var requestedType := T.Shared;
      if flags & T.LOCK_EX != 0 {
        requestedType := T.Exclusive;
      }
      errno := AcquireFlock(path, owner, requestedType, flags & T.LOCK_NB != 0);
    }

    /** Releasing the owner on every path outside `pending`. */
    static ghost function ReleasedOutside(was: T.FlockTable, pending: set<Path>, owner: UInt64): T.FlockTable {
      map p | p in was && (p in pending || was[p].owners - {owner} != {}) ::
        if p in pending then was[p] else T.DropOwners(was[p], {owner})
    }

    static lemma ReleaseNext(was: T.FlockTable, pending: set<Path>, owner: UInt64, path: Path)
      requires path in pending && path in was
      ensures var before, left := ReleasedOutside(was, pending, owner), T.DropOwners(was[path], {owner});
              ReleasedOutside(was, pending - {path}, owner)
              == if left.owners == {} then before - {path} else before[path := left]
    {
    }

    /** The first loop of ReleaseOwner. */
    method ReleaseFlocks(owner: UInt64)
      requires Separate()
      modifies this`flocks, flocks.Values
      ensures Separate()
      ensures flocks.Values <= old(flocks.Values)
      ensures Flocks() == T.FlocksExcept(old(Flocks()), {owner})
    {
      ghost var was := Flocks();
      var pending := flocks.Keys;
      while pending != {}
        invariant Separate()
        invariant flocks.Values <= old(flocks.Values)
        invariant pending <= was.Keys
        invariant Flocks() == ReleasedOutside(was, pending, owner)
      {
        var path :| path in pending;
        assert path in Flocks();
        ReleaseNext(was, pending, owner, path);
        DropOwner(path, owner);
        pending := pending - {path};
      }
    }

    /** The second loop of ReleaseOwner. */
    method ReleasePosix(owner: UInt64)
      modifies this`posixLocks
      ensures posixLocks == T.PosixExcept(old(posixLocks), {owner})
    {
      ghost var was := posixLocks;
      var pending := posixLocks.Keys;
      while pending != {}
        invariant pending <= posixLocks.Keys <= was.Keys
        invariant forall p | p in pending :: posixLocks[p] == was[p]
        invariant forall p | p in was && p !in pending ::
                    p in posixLocks <==> T.Except(was[p], {owner}) != []
        invariant forall p | p in posixLocks && p !in pending :: posixLocks[p] == T.Except(was[p], {owner})
      {
        var path :| path in pending;
        var locks := posixLocks[path];
        var newLocks := [];
        var i := 0;
        while i < |locks|
          invariant 0 <= i <= |locks| && newLocks == T.Except(locks[..i], {owner})
        {
          assert locks[..i + 1][..i] == locks[..i];
          if locks[i].owner != owner {
            newLocks := newLocks + [locks[i]];
          }
          i := i + 1;
        }
        assert locks[..i] == locks;
        if |newLocks| == 0 {
          posixLocks := posixLocks - {path};
        } else {
          posixLocks := posixLocks[path := newLocks];
        }
        pending := pending - {path};
      }
    }

    method ReleaseOwner(owner: UInt64)
      requires Valid()
      modifies this, flocks.Values
      ensures Valid() && Repr() <= old(Repr())
      ensures Table() == T.Apply(old(Table()), T.OpRelease(owner)).0
    {
      ghost var was := Table();
      Facts.ReleaseKeepsGood(was, {owner});
      ReleaseFlocks(owner);
      ReleasePosix(owner);
    }
  }
}
