/** The adapter's handlers as transitions. A handler runs as one step; what the outside
    decides (faults, observations, the clock, the order of a listing) is part of the call. */
module AdapterSpec {
  import opened Common
  import opened BackingFs
  import I = InodeSpec
  import H = HandleSpec
  import L = LockSpec
  import S = LruSpec

  type DirCache = S.Cache<Path, seq<DirEntry>>
  type AttrCache = S.Cache<Path, Attr>

  /** What the adapter is mounted with; `linkable` says whether the backing file system has links. */
  datatype Options = Options(attrCacheSize: int, dirCacheSize: int, attrTTL: int, dirTTL: int, linkable: bool)

  datatype Fs = Fs(
    tree: Tree, opens: nat, closes: multiset<nat>, // the backing file system
    inodes: I.Inodes, attrs: AttrCache, dirs: DirCache, handles: H.Handles, locks: L.Table,
    unmounting: bool, linkable: bool)

  /** What the backing file system reports about one child. */
  datatype FileInfo = FileInfo(name: string, kind: Kind, meta: I.Meta)

  datatype Answer =
    | Refused(errno: Errno)
    | Listing(entries: seq<DirEntry>)
    | Entry(ino: nat)
    | Created(newIno: nat, newHandle: nat)
    | Opened(handle: nat)
    | Cached(attr: Attr)
    | Probed(rq: L.Request)
    | Done

  /** A lock request made through a file handle. Setlkw is made as Setlk. */
  datatype LockCall = Getlk(rq: L.Request) | Setlk(rq: L.Request) | Flock(flags: bv32)

  datatype Op =
    | OpLookup(dir: Path, name: string, statFault: bool, meta: I.Meta)
    | OpGetattr(path: Path, now: int, later: int, statFault: bool, meta: I.Meta, reply: Attr)
    | OpSetattr(path: Path, fault: bool, now: int, later: int, statFault: bool, meta: I.Meta, reply: Attr)
    | OpReaddir(dir: Path, now: int, later: int, openFault: bool, readFault: bool, infos: seq<FileInfo>)
    | OpCreate(dir: Path, name: string, flags: OpenFlags, fault: bool, statFault: bool, meta: I.Meta)
    | OpMkdir(dir: Path, name: string, fault: bool, statFault: bool, meta: I.Meta)
    | OpUnlink(dir: Path, name: string, fault: bool)
    | OpRmdir(dir: Path, name: string, fault: bool)
    | OpRename(dir: Path, name: string, newDir: Option<Path>, newName: string, fault: bool)
    | OpLink(dir: Path, target: Option<Path>, name: string, fault: bool, statFault: bool, meta: I.Meta)
    | OpOpen(path: Path, flags: OpenFlags, fault: bool)
    | OpLock(fh: nat, path: Path, owner: UInt64, call: LockCall)
    | OpRelease(fh: nat, closeError: Errno)
    | OpUnmount(serverError: Errno)

  // ---------- Pieces ----------

  function InvalidateDir(s: Fs, d: Path): Fs {
    s.(dirs := S.Delete(s.dirs, d))
  }

  function TakeInode(s: Fs, p: Path, meta: I.Meta): (Fs, nat) {
    var r := I.GetInode(s.inodes, p, meta);
    (s.(inodes := r.0), r.1)
  }

  /** The listing Readdir builds, and the inodes it takes on the way. */
  function Enter(inodes: I.Inodes, d: Path, infos: seq<FileInfo>): (r: (I.Inodes, seq<DirEntry>))
    ensures |r.1| == |infos|
    ensures forall k | 0 <= k < |infos| :: r.1[k].name == infos[k].name && r.1[k].kind == infos[k].kind
  {
    if infos == [] then (inodes, [])
    else
      var init, last := infos[..|infos| - 1], infos[|infos| - 1];
      var r := Enter(inodes, d, init);
      var i := I.GetInode(r.0, Join(d, last.name), last.meta);
      (i.0, r.1 + [DirEntry(last.name, i.1, last.kind)])
  }

  // ---------- Handlers ----------

  /** Lookup answers the number of a child, which its observation may renew. */
  function Lookup(s: Fs, d: Path, name: string, statFault: bool, meta: I.Meta): (Fs, Answer) {
    var p := Join(d, name);
    if s.unmounting then (s, Refused(ENOTCONN))
    else if statFault || p !in s.tree then (s, Refused(EBackend))
    else
      var (s1, ino) := TakeInode(s, p, meta);
      (s1, Entry(ino))
  }

  /** Getattr answers the structure cached for the path, or fills and caches the reply's own. */
  function Getattr(s: Fs, p: Path, now: int, later: int, statFault: bool, meta: I.Meta, reply: Attr): (Fs, Answer) {
    if s.unmounting then (s, Refused(ENOTCONN))
    else
      var got := S.Get(s.attrs, p, now);
      var s1 := s.(attrs := got.0);
      if got.1.Some? then (s1, Cached(got.1.value))
      else if statFault || p !in s.tree then (s1, Refused(EBackend))
      else
        var (s2, ino) := TakeInode(s1, p, meta);
        (s2.(attrs := S.Put(s2.attrs, p, reply, later)), Entry(ino))
  }

  /** Setattr changes size, mode or times behind the adapter's back, then does what Getattr does. */
  function Setattr(s: Fs, p: Path, fault: bool, now: int, later: int, statFault: bool, meta: I.Meta, reply: Attr)
    : (Fs, Answer)
  {
    if s.unmounting then (s, Refused(ENOTCONN))
    else if fault then (s, Refused(EBackend))
    else Getattr(s, p, now, later, statFault, meta, reply)
  }

  function Readdir(s: Fs, d: Path, now: int, later: int, openFault: bool, readFault: bool, infos: seq<FileInfo>)
    : (Fs, Answer)
  {
    if s.unmounting then (s, Refused(ENOTCONN))
    else
      var got := S.Get(s.dirs, d, now);
      var s1 := s.(dirs := got.0);
      if got.1.Some? then (s1, Listing(got.1.value))
      else if openFault || OpenTree(s.tree, d, false, false).None? then (s1, Refused(EBackend))
      else
        // the directory is opened, and closed again on every way out
        var s2 := s1.(opens := s.opens + 1, closes := s.closes + multiset{s.opens});
        if readFault || s.tree[d] == File then (s2, Refused(EBackend))
        else
          var r := Enter(s.inodes, d, infos);
          (s2.(inodes := r.0, dirs := S.Put(s1.dirs, d, r.1, later)), Listing(r.1))
  }

  function Create(s: Fs, d: Path, name: string, flags: OpenFlags, fault: bool, statFault: bool, meta: I.Meta)
    : (Fs, Answer)
  {
    var p := Join(d, name);
    var r := OpenTree(s.tree, p, true, flags.excl);
    if s.unmounting then (s, Refused(ENOTCONN))
    else if fault || r.None? then (s, Refused(EBackend))
    else
      var s1 := InvalidateDir(s.(tree := r.value, opens := s.opens + 1), d);
      if statFault then (s1.(closes := s.closes + multiset{s.opens}), Refused(EBackend))
      else
        var (s2, ino) := TakeInode(s1, p, meta);
        var (handles, fh) := H.Add(s2.handles, H.OpenFile(s.opens, flags.(create := true), p));
        (s2.(handles := handles), Created(ino, fh))
  }

  function Mkdir(s: Fs, d: Path, name: string, fault: bool, statFault: bool, meta: I.Meta): (Fs, Answer) {
    var p := Join(d, name);
    var r := MkdirTree(s.tree, p);
    if s.unmounting then (s, Refused(ENOTCONN))
    else if fault || r.None? then (s, Refused(EBackend))
    else
      var s1 := InvalidateDir(s.(tree := r.value), d);
      if statFault then (s1, Refused(EBackend))
      else
        var (s2, ino) := TakeInode(s1, p, meta);
        (s2, Entry(ino))
  }

  /** Unlink and Rmdir, which differ only in their names. */
  function Remove(s: Fs, d: Path, name: string, fault: bool): (Fs, Answer) {
    var r := RemoveTree(s.tree, Join(d, name));
    if s.unmounting then (s, Refused(ENOTCONN))
    else if fault || r.None? then (s, Refused(EBackend))
    else (InvalidateDir(s.(tree := r.value), d), Done)
  }

  /** `newDir` is None when the new parent is not one of the adapter's nodes. */
  function Rename(s: Fs, d: Path, name: string, newDir: Option<Path>, newName: string, fault: bool): (Fs, Answer) {
    if s.unmounting then (s, Refused(ENOTCONN))
    else if newDir.None? then (s, Refused(EINVAL))
    else
      var r := RenameTree(s.tree, Join(d, name), Join(newDir.value, newName));
      if fault || r.None? then (s, Refused(EBackend))
      else (InvalidateDir(InvalidateDir(s.(tree := r.value), d), newDir.value), Done)
  }

  function Link(s: Fs, d: Path, target: Option<Path>, name: string, fault: bool, statFault: bool, meta: I.Meta)
    : (Fs, Answer)
  {
    var p := Join(d, name);
    if s.unmounting then (s, Refused(ENOTCONN))
    else if target.None? then (s, Refused(EINVAL))
    else if !s.linkable then (s, Refused(ENOTSUP))
    else
      var r := LinkTree(s.tree, target.value, p);
      if fault || r.None? then (s, Refused(EBackend))
      else
        var s1 := InvalidateDir(s.(tree := r.value), d);
        if statFault then (s1, Refused(EBackend))
        else
          var (s2, ino) := TakeInode(s1, p, meta);
          (s2, Entry(ino))
  }

  function Open(s: Fs, p: Path, flags: OpenFlags, fault: bool): (Fs, Answer) {
    var r := OpenTree(s.tree, p, flags.create, flags.excl);
    if s.unmounting then (s, Refused(ENOTCONN))
    else if fault || r.None? then (s, Refused(EBackend))
    else
      var (handles, fh) := H.Add(s.handles, H.OpenFile(s.opens, flags, p));
      (s.(tree := r.value, opens := s.opens + 1, handles := handles), Opened(fh))
  }

  function Result(errno: Errno): Answer {
    if errno == OK then Done else Refused(errno)
  }

  /** Lock requests are served whether or not the adapter is being unmounted, and for any handle;
      the handle only says on which path. */
  function Lock(s: Fs, p: Path, owner: UInt64, call: LockCall): (Fs, Answer) {
    match call
    case Getlk(rq) => (s, Probed(L.Getlk(s.locks.posix, p, owner, rq)))
    case Setlk(rq) =>
      var r := L.Apply(s.locks, L.OpSetlk(p, owner, rq));
      (s.(locks := r.0), Result(r.1))
    case Flock(flags) =>
      var r := L.Apply(s.locks, L.OpFlock(p, owner, L.Decode(flags)));
      (s.(locks := r.0), Result(r.1))
  }

  /** The owner number a handle's release frees: 64-bit, as the handle itself is in the original. */
  function OwnerOf(fh: nat): (o: UInt64)
    ensures fh < 0x1_0000_0000_0000_0000 ==> o == fh
  {
    fh % 0x1_0000_0000_0000_0000
  }

  /** Releasing a handle frees the locks whose owner number is the handle's, then the handle. */
  function Release(s: Fs, fh: nat, closeError: Errno): (Fs, Answer) {
    var s1 := s.(locks := L.Apply(s.locks, L.OpRelease(OwnerOf(fh))).0);
    if fh !in s.handles.live then (s1, Refused(EBADF))
    else
      var s2 := s1.(handles := H.Forget(s.handles, fh), closes := s.closes + multiset{s.handles.live[fh].file});
      (s2, Result(closeError))
  }

  /** `serverError` is what unmounting the server reports, OK when there is no server. */
  ghost function Unmount(s: Fs, serverError: Errno): (Fs, Answer) {
    (s.(unmounting := true,
        handles := H.Handles(map[], s.handles.next), closes := s.closes + H.Files(s.handles.live),
        inodes := I.Clear(s.inodes), attrs := S.Clear(s.attrs), dirs := S.Clear(s.dirs)),
     Result(serverError))
  }

  ghost function Apply(s: Fs, op: Op): (Fs, Answer) {
    match op
    case OpLookup(d, n, sf, m) => Lookup(s, d, n, sf, m)
    case OpGetattr(p, now, later, sf, m, reply) => Getattr(s, p, now, later, sf, m, reply)
    case OpSetattr(p, f, now, later, sf, m, reply) => Setattr(s, p, f, now, later, sf, m, reply)
    case OpReaddir(d, now, later, of, rf, infos) => Readdir(s, d, now, later, of, rf, infos)
    case OpCreate(d, n, fl, f, sf, m) => Create(s, d, n, fl, f, sf, m)
    case OpMkdir(d, n, f, sf, m) => Mkdir(s, d, n, f, sf, m)
    case OpUnlink(d, n, f) => Remove(s, d, n, f)
    case OpRmdir(d, n, f) => Remove(s, d, n, f)
    case OpRename(d, n, nd, nn, f) => Rename(s, d, n, nd, nn, f)
    case OpLink(d, t, n, f, sf, m) => Link(s, d, t, n, f, sf, m)
    case OpOpen(p, fl, f) => Open(s, p, fl, f)
    case OpLock(_, p, o, call) => Lock(s, p, o, call)
    case OpRelease(fh, ce) => Release(s, fh, ce)
    case OpUnmount(e) => Unmount(s, e)
  }

  /** A newly mounted adapter over an existing tree. */
  function Mounted(tree: Tree, opts: Options): Fs {
    Fs(tree, 0, multiset{}, I.NO_INODES,
       S.NewCache(opts.attrCacheSize, opts.attrTTL), S.NewCache(opts.dirCacheSize, opts.dirTTL),
       H.NO_HANDLES, L.EMPTY_TABLE, false, opts.linkable)
  }

  ghost function After(s: Fs, ops: seq<Op>): Fs {
    if ops == [] then s else Apply(After(s, ops[..|ops| - 1]), ops[|ops| - 1]).0
  }

  /** The one thing assumed of a listing the backing file system returns: it has every child
      of the directory once, with its kind. */
  ghost predicate IsListing(infos: seq<FileInfo>, t: Tree, d: Path) {
    && (forall i | i in infos :: Join(d, i.name) in t && t[Join(d, i.name)] == i.kind)
    && (forall n :: Join(d, n) in t ==> exists i | i in infos :: i.name == n)
    && (forall i, j :: 0 <= i < j < |infos| ==> infos[i].name != infos[j].name)
  }

  ghost predicate Honest(s: Fs, op: Op) {
    op.OpReaddir? && op.dir in s.tree && s.tree[op.dir] == Dir ==> IsListing(op.infos, s.tree, op.dir)
  }
}
