/** Values and transitions of the lock table: what a lock manager holds at one
    moment and what each request turns it into. */
module LockSpec {
  import opened Common

  // ---------- POSIX byte-range locks ----------

  const F_RDLCK: UInt32 := 0
  const F_WRLCK: UInt32 := 1
  const F_UNLCK: UInt32 := 2

  /** A stored lock; `end` is exclusive. */
  datatype PosixLock = PosixLock(owner: UInt64, start: UInt64, end: UInt64, typ: UInt32, pid: UInt32)

  /** The contents of a request structure. */
  datatype Request = Request(start: UInt64, end: UInt64, typ: UInt32, pid: UInt32)

  type PosixTable = map<Path, seq<PosixLock>>

  predicate InRange(b: int, start: UInt64, end: UInt64) {
    start <= b < end
  }

  predicate RangesOverlap(start1: UInt64, end1: UInt64, start2: UInt64, end2: UInt64) {
    // The two assignments of the original replace the all-ones end by itself.
    start1 < end2 && start2 < end1
  }

  predicate Conflicts(lock: PosixLock, owner: UInt64, rq: Request) {
    && lock.owner != owner
    && RangesOverlap(rq.start, rq.end, lock.start, lock.end)
    && (rq.typ == F_WRLCK || lock.typ == F_WRLCK)
  }

  /** The first stored lock, in list order, that stands in the way of a request. */
  function FirstConflict(locks: seq<PosixLock>, owner: UInt64, rq: Request): (r: Option<PosixLock>)
    ensures r.None? <==> forall l | l in locks :: !Conflicts(l, owner, rq)
    ensures r.Some? ==> r.value in locks && Conflicts(r.value, owner, rq)
  {
    if locks == [] then None
    else if Conflicts(locks[0], owner, rq) then Some(locks[0])
    else FirstConflict(locks[1..], owner, rq)
  }

  /** What unlocking [start, end) leaves of one stored lock. */
  function Cut(lock: PosixLock, owner: UInt64, start: UInt64, end: UInt64): seq<PosixLock> {
    if lock.owner != owner || !RangesOverlap(start, end, lock.start, lock.end) then [lock]
    else
      (if lock.start < start then [lock.(end := start)] else [])
      + (if lock.end > end then [lock.(start := end)] else [])
  }

  function CutAll(locks: seq<PosixLock>, owner: UInt64, start: UInt64, end: UInt64): seq<PosixLock> {
    if locks == [] then []
    else CutAll(locks[..|locks| - 1], owner, start, end) + Cut(locks[|locks| - 1], owner, start, end)
  }

  /** The locks of every owner outside `owners`, in order. */
  function Except(locks: seq<PosixLock>, owners: set<UInt64>): seq<PosixLock> {
    if locks == [] then []
    else
      var last := locks[|locks| - 1];
      Except(locks[..|locks| - 1], owners) + (if last.owner in owners then [] else [last])
  }

  function LocksAt(posix: PosixTable, path: Path): seq<PosixLock> {
    if path in posix then posix[path] else []
  }

  /** Store a list, dropping the key when the list is empty. */
  function Store(posix: PosixTable, path: Path, locks: seq<PosixLock>): PosixTable {
    if locks == [] then posix - {path} else posix[path := locks]
  }

  function Unlock(posix: PosixTable, path: Path, owner: UInt64, start: UInt64, end: UInt64): PosixTable {
    Store(posix, path, CutAll(LocksAt(posix, path), owner, start, end))
  }

  function Setlk(posix: PosixTable, path: Path, owner: UInt64, rq: Request): (PosixTable, Errno) {
    if rq.typ == F_UNLCK then (Unlock(posix, path, owner, rq.start, rq.end), OK)
    else if FirstConflict(LocksAt(posix, path), owner, rq).Some? then (posix, EAGAIN)
    else
      (posix[path := LocksAt(posix, path) + [PosixLock(owner, rq.start, rq.end, rq.typ, rq.pid)]], OK)
  }

  /** The request structure as Getlk leaves it. */
  function Getlk(posix: PosixTable, path: Path, owner: UInt64, rq: Request): Request {
    match FirstConflict(LocksAt(posix, path), owner, rq)
    case None => rq.(typ := F_UNLCK)
    case Some(l) => Request(l.start, l.end, l.typ, l.pid)
  }

  /** The table without any lock of `owners`; paths left without a lock lose their key. */
  function PosixExcept(posix: PosixTable, owners: set<UInt64>): PosixTable {
    map p | p in posix && Except(posix[p], owners) != [] :: Except(posix[p], owners)
  }

  // ---------- BSD flocks ----------

  datatype FlockMode = Shared | Exclusive
  datatype FlockRequest = Drop | Acquire(mode: FlockMode, nonBlocking: bool)
  datatype Flock = Flock(mode: FlockMode, owners: set<UInt64>)
  type FlockTable = map<Path, Flock>

  const LOCK_EX: bv32 := 2
  const LOCK_NB: bv32 := 4
  const LOCK_UN: bv32 := 8

  /** LOCK_UN wins over everything, then LOCK_EX; anything else asks for a shared lock. */
  function Decode(flags: bv32): FlockRequest {
    if flags & LOCK_UN != 0 then Drop
    else Acquire(if flags & LOCK_EX != 0 then Exclusive else Shared, flags & LOCK_NB != 0)
  }

  function Refusal(rq: FlockRequest): Errno
    requires rq.Acquire?
  {
    if rq.nonBlocking then EWOULDBLOCK else EAGAIN
  }

  function DropOwners(f: Flock, owners: set<UInt64>): Flock {
    f.(owners := f.owners - owners)
  }

  function DoFlock(flocks: FlockTable, path: Path, owner: UInt64, rq: FlockRequest): (FlockTable, Errno) {
    if rq.Drop? then
      if path !in flocks then (flocks, OK)
      else if DropOwners(flocks[path], {owner}).owners == {} then (flocks - {path}, OK)
      else (flocks[path := DropOwners(flocks[path], {owner})], OK)
    else if path !in flocks then (flocks[path := Flock(rq.mode, {owner})], OK)
    else
      var f := flocks[path];
      if owner in f.owners then
        if rq.mode == f.mode then (flocks, OK)
        else if rq.mode.Exclusive? then
          if |f.owners| == 1 then (flocks[path := f.(mode := Exclusive)], OK) else (flocks, Refusal(rq))
        else (flocks[path := f.(mode := Shared)], OK)
      else if f.mode.Exclusive? then (flocks, Refusal(rq))
      else if rq.mode.Shared? then (flocks[path := f.(owners := f.owners + {owner})], OK)
      else (flocks, Refusal(rq))
  }

  function FlocksExcept(flocks: FlockTable, owners: set<UInt64>): FlockTable {
    map p | p in flocks && flocks[p].owners - owners != {} :: DropOwners(flocks[p], owners)
  }

  // ---------- The whole table ----------

  datatype Table = Table(flocks: FlockTable, posix: PosixTable)

  const EMPTY_TABLE := Table(map[], map[])

  function ReleaseOwners(t: Table, owners: set<UInt64>): Table {
    Table(FlocksExcept(t.flocks, owners), PosixExcept(t.posix, owners))
  }

  datatype Op =
    | OpSetlk(path: Path, owner: UInt64, rq: Request)
    | OpFlock(path: Path, owner: UInt64, frq: FlockRequest)
    | OpRelease(owner: UInt64)

  function Apply(t: Table, op: Op): (Table, Errno) {
    match op
    case OpSetlk(p, o, rq) => var r := Setlk(t.posix, p, o, rq); (t.(posix := r.0), r.1)
    case OpFlock(p, o, frq) => var r := DoFlock(t.flocks, p, o, frq); (t.(flocks := r.0), r.1)
    case OpRelease(o) => (ReleaseOwners(t, {o}), OK)
  }

  // ---------- What the table means ----------

  /** Owner `o` holds byte `b` in mode `t` through some stored lock. */
  ghost predicate HeldIn(locks: seq<PosixLock>, o: UInt64, b: int, t: UInt32) {
    exists l | l in locks :: l.owner == o && l.typ == t && InRange(b, l.start, l.end)
  }

  ghost predicate Held(posix: PosixTable, p: Path, o: UInt64, b: int, t: UInt32) {
    HeldIn(LocksAt(posix, p), o, b, t)
  }

  predicate HoldsFlock(flocks: FlockTable, p: Path, o: UInt64, m: FlockMode) {
    p in flocks && o in flocks[p].owners && flocks[p].mode == m
  }

  /** Two stored locks of different owners may overlap only when neither is a write lock. */
  ghost predicate Compatible(l: PosixLock, m: PosixLock) {
    l.owner != m.owner && RangesOverlap(l.start, l.end, m.start, m.end)
    ==> l.typ != F_WRLCK && m.typ != F_WRLCK
  }

  ghost predicate GoodList(locks: seq<PosixLock>) {
    && locks != []
    && (forall l | l in locks :: l.typ != F_UNLCK)
    && (forall l, m | l in locks && m in locks :: Compatible(l, m))
  }

  ghost predicate GoodFlock(f: Flock) {
    f.owners != {} && (f.mode.Exclusive? ==> |f.owners| == 1)
  }

  ghost predicate Good(t: Table) {
    && (forall p | p in t.posix :: GoodList(t.posix[p]))
    && (forall p | p in t.flocks :: GoodFlock(t.flocks[p]))
  }
}
