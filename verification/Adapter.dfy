/** The mounted adapter and its handlers (fuse.go, operations.go, mount.go). The receiver's
    path is the first argument of a node's handler. */
module Adapter {
  import opened Common
  import A = AdapterSpec
  import B = BackingFs
  import H = HandleSpec
  import I = InodeSpec
  import L = LockSpec
  import S = LruSpec
  import opened HandleTracker
  import opened InodeManager
  import opened LockManager
  import opened LruCache

  class FuseFS {
    const absFS: B.Backing
    const linkable: bool
    const inodeManager: InodeManager
    const handleTracker: HandleTracker
    const lockManager: LockManager
    var unmounting: bool

    ghost function Parts(): set<object>
      reads this, inodeManager, inodeManager.attrCache, inodeManager.dirCache, handleTracker, lockManager
    {
      {absFS} + inodeManager.Repr() + handleTracker.Repr() + lockManager.Repr()
    }

    /** The components are well formed and share nothing. */
    ghost predicate Valid()
      reads this, inodeManager, inodeManager.attrCache, inodeManager.dirCache, handleTracker, lockManager
      reads inodeManager.Repr(), handleTracker.Repr(), lockManager.Repr()
    {
      && handleTracker.backing == absFS
      && inodeManager.Valid() && handleTracker.Valid() && lockManager.Valid()
      && this !in Parts()
      && absFS !in inodeManager.Repr() + handleTracker.Repr() + lockManager.Repr()
      && inodeManager.Repr() !! handleTracker.Repr()
      && inodeManager.Repr() !! lockManager.Repr()
      && handleTracker.Repr() !! lockManager.Repr()
    }

    ghost function Value(): (v: A.Fs)
      reads this, absFS, inodeManager, inodeManager.attrCache, inodeManager.dirCache
      reads handleTracker, handleTracker.Repr(), lockManager, lockManager.Repr()
      ensures v.tree == absFS.tree && v.unmounting == unmounting && v.linkable == linkable
    {
      A.Fs(absFS.tree, absFS.opens, absFS.closes,
           inodeManager.Inodes(), inodeManager.attrCache.Value(), inodeManager.dirCache.Value(),
           handleTracker.Value(), lockManager.Table(),
           unmounting, linkable)
    }

    constructor (absFS: B.Backing, linkable: bool, inodes: InodeManager, tracker: HandleTracker, locks: LockManager)
      requires inodes.Valid() && tracker.Valid() && locks.Valid() && tracker.backing == absFS
      requires absFS !in inodes.Repr() + tracker.Repr() + locks.Repr()
      requires inodes.Repr() !! tracker.Repr() && inodes.Repr() !! locks.Repr() && tracker.Repr() !! locks.Repr()
      ensures Valid() && Parts() == {absFS} + inodes.Repr() + tracker.Repr() + locks.Repr()
      ensures Value() == A.Fs(absFS.tree, absFS.opens, absFS.closes, inodes.Inodes(), inodes.attrCache.Value(),
                              inodes.dirCache.Value(), tracker.Value(), locks.Table(), false, linkable)
    {
      hide InodeManager.Valid, HandleTracker.Valid, HandleTracker.Value, LockManager.Valid;
      this.absFS, this.linkable := absFS, linkable;
      inodeManager, handleTracker, lockManager := inodes, tracker, locks;
      unmounting := false;
    }

    static method NewFuseFS(absFS: B.Backing, opts: A.Options) returns (f: FuseFS)
      requires absFS.opens == 0 && absFS.closes == multiset{}
      ensures f.Valid() && fresh(f) && fresh(f.Parts() - {absFS})
      ensures f.Value() == A.Mounted(absFS.tree, opts)
    {
      hide InodeManager.Valid, HandleTracker.Valid, HandleTracker.Value, LockManager.Valid,
        FuseFS.Valid, FuseFS.Value, FuseFS.Parts;
      var inodes := new InodeManager(opts.attrCacheSize, opts.dirCacheSize, opts.attrTTL, opts.dirTTL);
      var tracker := new HandleTracker(absFS);
      var locks := new LockManager();
      f := new FuseFS(absFS, opts.linkable, inodes, tracker, locks);
    }

    // ---------- Calls into the components ----------

    method InvalidateDir(dir: Path)
      requires Valid()
      modifies Parts()
      ensures Valid() && (forall o | o in Parts() :: o in old(Parts()) || fresh(o))
      ensures Value() == A.InvalidateDir(old(Value()), dir)
    {
      hide InodeManager.Valid, HandleTracker.Valid, HandleTracker.Value, LockManager.Valid, S.Delete;
      inodeManager.InvalidateDir(dir);
    }

    method TakeInode(path: Path, meta: I.Meta) returns (ino: nat)
      requires Valid()
      modifies Parts()
      ensures Valid() && Parts() == old(Parts())
      ensures (Value(), ino) == A.TakeInode(old(Value()), path, meta)
    {
      hide InodeManager.Valid, HandleTracker.Valid, HandleTracker.Value, LockManager.Valid, I.GetInode;
      ino := inodeManager.GetInode(path, meta);
    }

    method GetDirCache(dir: Path, now: int) returns (entries: Option<seq<DirEntry>>)
      requires Valid()
      modifies Parts()
      ensures Valid() && (forall o | o in Parts() :: o in old(Parts()) || fresh(o))
      ensures var got := S.Get(old(Value()).dirs, dir, now);
              Value() == old(Value()).(dirs := got.0) && entries == got.1
    {
      hide InodeManager.Valid, HandleTracker.Valid, HandleTracker.Value, LockManager.Valid, S.Get;
      entries := inodeManager.GetDirCache(dir, now);
    }

    method CacheDir(dir: Path, entries: seq<DirEntry>, now: int)
      requires Valid()
      modifies Parts()
      ensures Valid() && (forall o | o in Parts() :: o in old(Parts()) || fresh(o))
      ensures Value() == old(Value()).(dirs := S.Put(old(Value()).dirs, dir, entries, now))
    {
      hide InodeManager.Valid, HandleTracker.Valid, HandleTracker.Value, LockManager.Valid, S.Put;
      inodeManager.CacheDir(dir, entries, now);
    }

    method GetAttrCache(path: Path, now: int) returns (attr: Option<Attr>)
      requires Valid()
      modifies Parts()
      ensures Valid() && (forall o | o in Parts() :: o in old(Parts()) || fresh(o))
      ensures var got := S.Get(old(Value()).attrs, path, now);
              Value() == old(Value()).(attrs := got.0) && attr == got.1
    {
      hide InodeManager.Valid, HandleTracker.Valid, HandleTracker.Value, LockManager.Valid, S.Get;
      attr := inodeManager.GetCached(path, now);
    }

    method CacheAttr(path: Path, attr: Attr, now: int)
      requires Valid()
      modifies Parts()
      ensures Valid() && (forall o | o in Parts() :: o in old(Parts()) || fresh(o))
      ensures Value() == old(Value()).(attrs := S.Put(old(Value()).attrs, path, attr, now))
    {
      hide InodeManager.Valid, HandleTracker.Valid, HandleTracker.Value, LockManager.Valid, S.Put;
      inodeManager.Cache(path, attr, now);
    }

    method AddHandle(file: nat, flags: OpenFlags, path: Path) returns (fh: nat)
      requires Valid()
      modifies Parts()
      ensures Valid() && (forall o | o in Parts() :: o in old(Parts()) || fresh(o))
      ensures var r := H.Add(old(Value()).handles, H.OpenFile(file, flags, path));
              Value() == old(Value()).(handles := r.0) && fh == r.1
    {
      hide InodeManager.Valid, HandleTracker.Valid, HandleTracker.Value, LockManager.Valid;
      fh := handleTracker.Add(file, flags, path);
    }

    method OpenFile(path: Path, create: bool, excl: bool, fault: bool) returns (file: Option<nat>)
      requires Valid()
      modifies Parts()
      ensures Valid() && Parts() == old(Parts())
      ensures var s, r := old(Value()), B.OpenTree(old(Value()).tree, path, create, excl);
              if fault || r.None? then file == None && Value() == s
              else file == Some(s.opens) && Value() == s.(tree := r.value, opens := s.opens + 1)
    {
      hide InodeManager.Valid, HandleTracker.Valid, HandleTracker.Value, LockManager.Valid, B.OpenTree;
      file := absFS.OpenFile(path, create, excl, fault);
    }

    method CloseFile(file: nat)
      requires Valid()
      modifies Parts()
      ensures Valid() && Parts() == old(Parts())
      ensures Value() == old(Value()).(closes := old(Value()).closes + multiset{file})
    {
      hide InodeManager.Valid, HandleTracker.Valid, HandleTracker.Value, LockManager.Valid;
      absFS.Close(file);
    }

    method SetUnmounting()
      requires Valid()
      modifies this
      ensures Valid() && Parts() == old(Parts()) && Value() == old(Value()).(unmounting := true)
    {
      hide InodeManager.Valid, HandleTracker.Valid, HandleTracker.Value, LockManager.Valid;
      unmounting := true;
    }

    lemma CounterOf()
      ensures handleTracker.nextHandle == handleTracker.Value().next
    {
    }

    method CloseHandles()
      requires Valid()
      modifies Parts()
      ensures Valid() && (forall o | o in Parts() :: o in old(Parts()) || fresh(o))
      ensures var s := old(Value());
              Value() == s.(handles := H.Handles(map[], s.handles.next), closes := s.closes + H.Files(s.handles.live))
    {
      hide InodeManager.Valid, HandleTracker.Valid, HandleTracker.Value, LockManager.Valid, H.Files;
      assert handleTracker.nextHandle == handleTracker.Value().next by { CounterOf(); }
      handleTracker.CloseAll();
    }

    method ClearInodes()
      requires Valid()
      modifies Parts()
      ensures Valid() && (forall o | o in Parts() :: o in old(Parts()) || fresh(o))
      ensures var s := old(Value());
              Value() == s.(inodes := I.Clear(s.inodes), attrs := S.Clear(s.attrs), dirs := S.Clear(s.dirs))
    {
      hide InodeManager.Valid, HandleTracker.Valid, HandleTracker.Value, LockManager.Valid, I.Clear, S.Clear;
      inodeManager.Clear();
    }

    method ReleaseHandle(fh: nat, closeError: Errno) returns (errno: Errno)
      requires Valid()
      modifies Parts()
      ensures Valid() && (forall o | o in Parts() :: o in old(Parts()) || fresh(o))
      ensures var s := old(Value());
              if fh !in s.handles.live then errno == EBADF && Value() == s
              else errno == closeError
                   && Value() == s.(handles := H.Forget(s.handles, fh),
                                    closes := s.closes + multiset{s.handles.live[fh].file})
    {
      hide InodeManager.Valid, HandleTracker.Valid, HandleTracker.Value, LockManager.Valid;
      errno := handleTracker.Release(fh, closeError);
    }

    method ReleaseLocks(owner: UInt64)
      requires Valid()
      modifies Parts()
      ensures Valid() && (forall o | o in Parts() :: o in old(Parts()) || fresh(o))
      ensures Value() == old(Value()).(locks := L.Apply(old(Value()).locks, L.OpRelease(owner)).0)
    {
      hide InodeManager.Valid, HandleTracker.Valid, HandleTracker.Value, LockManager.Valid, L.Apply;
      lockManager.ReleaseOwner(owner);
    }

    /** *out = *lk */
    method CopyRequest(lk: FileLock, reply: FileLock)
      requires Valid() && reply !in Parts()
      modifies reply
      ensures Valid() && Parts() == old(Parts()) && Value() == old(Value())
      ensures reply.Request() == old(lk.Request())
    {
      hide InodeManager.Valid, HandleTracker.Valid, HandleTracker.Value, LockManager.Valid, LockManager.Table;
      reply.start, reply.end, reply.typ, reply.pid := lk.start, lk.end, lk.typ, lk.pid;
    }

    method ProbeLock(path: Path, owner: UInt64, lk: FileLock)
      requires Valid() && lk !in Parts()
      modifies lk
      ensures Valid() && Parts() == old(Parts()) && Value() == old(Value())
      ensures lk.Request() == L.Getlk(Value().locks.posix, path, owner, old(lk.Request()))
    {
      hide InodeManager.Valid, HandleTracker.Valid, HandleTracker.Value, LockManager.Valid, L.Getlk;
      assert lockManager.posixLocks == lockManager.Table().posix;
      lockManager.Getlk(path, owner, lk);
    }

    /** Setlk, or Setlkw when `wait` is set. */
    method SetLock(path: Path, owner: UInt64, lk: FileLock, wait: bool) returns (errno: Errno)
      requires Valid()
      modifies Parts()
      ensures Valid() && (forall o | o in Parts() :: o in old(Parts()) || fresh(o))
      ensures var r := L.Apply(old(Value()).locks, L.OpSetlk(path, owner, old(lk.Request())));
              Value() == old(Value()).(locks := r.0) && errno == r.1
    {
      hide InodeManager.Valid, HandleTracker.Valid, HandleTracker.Value, LockManager.Valid, L.Apply;
      if wait {
        errno := lockManager.Setlkw(path, owner, lk);
      } else {
        errno := lockManager.Setlk(path, owner, lk);
      }
    }

    method SetFlock(path: Path, owner: UInt64, flags: bv32) returns (errno: Errno)
      requires Valid()
      modifies Parts()
      ensures Valid() && (forall o | o in Parts() :: o in old(Parts()) || fresh(o))
      ensures var r := L.Apply(old(Value()).locks, L.OpFlock(path, owner, L.Decode(flags)));
              Value() == old(Value()).(locks := r.0) && errno == r.1
    {
      hide InodeManager.Valid, HandleTracker.Valid, HandleTracker.Value, LockManager.Valid, L.Apply, L.Decode;
      errno := lockManager.Flock(path, owner, flags);
    }

    // ---------- Handlers ----------

    method Lookup(dir: Path, name: string, statFault: bool, meta: I.Meta) returns (answer: A.Answer)
      requires Valid()
      modifies this, Parts()
      ensures Valid() && (forall o | o in Parts() :: o in old(Parts()) || fresh(o))
      ensures (Value(), answer) == A.Lookup(old(Value()), dir, name, statFault, meta)
    {
      hide FuseFS.Valid, FuseFS.Value, FuseFS.Parts, I.GetInode;
      if unmounting {
        return A.Refused(ENOTCONN);
      }
      var fullPath := Join(dir, name);
      if statFault || fullPath !in absFS.tree {
        return A.Refused(EBackend);
      }
      var ino := TakeInode(fullPath, meta);
      answer := A.Entry(ino);
    }

    method FillAttr(reply: Attr, ino: nat, size: int, modTime: int)
      requires Valid() && reply !in Parts()
      modifies reply
      ensures Valid() && Parts() == old(Parts()) && Value() == old(Value())
      ensures (reply.ino, reply.size, reply.modTime) == (ino, size, modTime)
    {
      hide InodeManager.Valid, HandleTracker.Valid, HandleTracker.Value, LockManager.Valid;
      reply.ino, reply.size, reply.modTime := ino, size, modTime;
    }

    /** A hit copies the cached structure into the reply, a miss fills it with what was observed. */
    ghost predicate Answers(reply: Attr, answer: A.Answer, meta: I.Meta)
      reads reply, if answer.Cached? then {answer.attr} else {}
    {
      match answer
      case Cached(attr) => (reply.ino, reply.size, reply.modTime) == (attr.ino, attr.size, attr.modTime)
      case Entry(ino) => (reply.ino, reply.size, reply.modTime) == (ino, meta.size, meta.modTime)
      case _ => true
    }

    /** `reply` is the structure the attributes are answered in. On a miss the cache keeps it. */
    method Getattr(path: Path, now: int, later: int, statFault: bool, meta: I.Meta, reply: Attr)
      returns (answer: A.Answer)
      requires Valid() && reply !in Parts()
      modifies this, Parts(), reply
      ensures Valid() && (forall o | o in Parts() :: o in old(Parts()) || fresh(o))
      ensures (Value(), answer) == A.Getattr(old(Value()), path, now, later, statFault, meta, reply)
      ensures Answers(reply, answer, meta)
      ensures answer.Refused? ==> unchanged(reply)
    {
      hide FuseFS.Valid, FuseFS.Value, FuseFS.Parts, S.Get, S.Put, I.GetInode;
      if unmounting {
        return A.Refused(ENOTCONN);
      }
      var cached := GetAttrCache(path, now);
      if cached.Some? {
        FillAttr(reply, cached.value.ino, cached.value.size, cached.value.modTime);
        return A.Cached(cached.value);
      }
      if statFault || path !in absFS.tree {
        return A.Refused(EBackend);
      }
      var ino := TakeInode(path, meta);
      FillAttr(reply, ino, meta.size, meta.modTime);
      CacheAttr(path, reply, later);
      answer := A.Entry(ino);
    }

    method Setattr(path: Path, fault: bool, now: int, later: int, statFault: bool, meta: I.Meta, reply: Attr)
      returns (answer: A.Answer)
      requires Valid() && reply !in Parts()
      modifies this, Parts(), reply
      ensures Valid() && (forall o | o in Parts() :: o in old(Parts()) || fresh(o))
      ensures (Value(), answer) == A.Setattr(old(Value()), path, fault, now, later, statFault, meta, reply)
      ensures Answers(reply, answer, meta)
      ensures answer.Refused? ==> unchanged(reply)
    {
      hide FuseFS.Valid, FuseFS.Value, FuseFS.Parts, A.Getattr;
      if unmounting {
        return A.Refused(ENOTCONN);
      }
      if fault {
        return A.Refused(EBackend);
      }
      answer := Getattr(path, now, later, statFault, meta, reply);
    }

    /** The loop of Readdir that turns what the backing file system reports into entries. */
    method EnterAll(dir: Path, infos: seq<A.FileInfo>) returns (fuseEntries: seq<DirEntry>)
      requires Valid()
      modifies Parts()
      ensures Valid() && Parts() == old(Parts())
      ensures var r := A.Enter(old(Value()).inodes, dir, infos);
              Value() == old(Value()).(inodes := r.0) && fuseEntries == r.1
    {
      hide FuseFS.Valid, FuseFS.Value, FuseFS.Parts, I.GetInode;
      ghost var was := Value();
      fuseEntries := [];
      var i := 0;
      while i < |infos|
        invariant 0 <= i <= |infos|
        invariant Valid() && Parts() == old(Parts())
        invariant (Value(), fuseEntries) ==
                    (was.(inodes := A.Enter(was.inodes, dir, infos[..i]).0), A.Enter(was.inodes, dir, infos[..i]).1)
      {
        var info := infos[i];
        assert infos[..i + 1][..i] == infos[..i];
        var ino := TakeInode(Join(dir, info.name), info.meta);
        fuseEntries := fuseEntries + [DirEntry(info.name, ino, info.kind)];
        i := i + 1;
      }
      assert infos[..i] == infos;
    }

    method Readdir(dir: Path, now: int, later: int, openFault: bool, readFault: bool, infos: seq<A.FileInfo>)
      returns (answer: A.Answer)
      requires Valid()
      modifies this, Parts()
      ensures Valid() && (forall o | o in Parts() :: o in old(Parts()) || fresh(o))
      ensures (Value(), answer) == A.Readdir(old(Value()), dir, now, later, openFault, readFault, infos)
    {
      hide FuseFS.Valid, FuseFS.Value, FuseFS.Parts, S.Get, S.Put;
      if unmounting {
        return A.Refused(ENOTCONN);
      }
      var cached := GetDirCache(dir, now);
      if cached.Some? {
        return A.Listing(cached.value);
      }
      var file := OpenFile(dir, false, false, openFault);
      if file.None? {
        return A.Refused(EBackend);
      }
      if readFault || absFS.tree[dir] == File {
        CloseFile(file.value); // deferred
        return A.Refused(EBackend);
      }
      var fuseEntries := EnterAll(dir, infos);
      CacheDir(dir, fuseEntries, later);
      CloseFile(file.value); // deferred
      answer := A.Listing(fuseEntries);
    }

    method Create(dir: Path, name: string, flags: OpenFlags, fault: bool, statFault: bool, meta: I.Meta)
      returns (answer: A.Answer)
      requires Valid()
      modifies this, Parts()
      ensures Valid() && (forall o | o in Parts() :: o in old(Parts()) || fresh(o))
      ensures (Value(), answer) == A.Create(old(Value()), dir, name, flags, fault, statFault, meta)
    {
      hide FuseFS.Valid, FuseFS.Value, FuseFS.Parts, S.Delete, I.GetInode, B.OpenTree;
      if unmounting {
        return A.Refused(ENOTCONN);
      }
      var fullPath := Join(dir, name);
      var absFlags := flags.(create := true);
      var file := OpenFile(fullPath, absFlags.create, absFlags.excl, fault);
      if file.None? {
        return A.Refused(EBackend);
      }
      InvalidateDir(dir);
      if statFault {
        CloseFile(file.value);
        return A.Refused(EBackend);
      }
      var ino := TakeInode(fullPath, meta);
      var fh := AddHandle(file.value, absFlags, fullPath);
      answer := A.Created(ino, fh);
    }

    method Mkdir(dir: Path, name: string, fault: bool, statFault: bool, meta: I.Meta) returns (answer: A.Answer)
      requires Valid()
      modifies this, Parts()
      ensures Valid() && (forall o | o in Parts() :: o in old(Parts()) || fresh(o))
      ensures (Value(), answer) == A.Mkdir(old(Value()), dir, name, fault, statFault, meta)
    {
      hide InodeManager.Valid, HandleTracker.Valid, HandleTracker.Value, LockManager.Valid,
        S.Delete, I.GetInode, B.MkdirTree;
      if unmounting {
        return A.Refused(ENOTCONN);
      }
      var fullPath := Join(dir, name);
      var ok := absFS.Mkdir(fullPath, fault);
      if !ok {
        return A.Refused(EBackend);
      }
      InvalidateDir(dir);
      if statFault {
        return A.Refused(EBackend);
      }
      var ino := TakeInode(fullPath, meta);
      answer := A.Entry(ino);
    }

    method Unlink(dir: Path, name: string, fault: bool) returns (answer: A.Answer)
      requires Valid()
      modifies this, Parts()
      ensures Valid() && (forall o | o in Parts() :: o in old(Parts()) || fresh(o))
      ensures (Value(), answer) == A.Remove(old(Value()), dir, name, fault)
    {
      hide InodeManager.Valid, HandleTracker.Valid, HandleTracker.Value, LockManager.Valid, S.Delete, B.RemoveTree;
      if unmounting {
        return A.Refused(ENOTCONN);
      }
      var ok := absFS.Remove(Join(dir, name), fault);
      if !ok {
        return A.Refused(EBackend);
      }
      InvalidateDir(dir);
      answer := A.Done;
    }

    method Rmdir(dir: Path, name: string, fault: bool) returns (answer: A.Answer)
      requires Valid()
      modifies this, Parts()
      ensures Valid() && (forall o | o in Parts() :: o in old(Parts()) || fresh(o))
      ensures (Value(), answer) == A.Remove(old(Value()), dir, name, fault)
    {
      hide InodeManager.Valid, HandleTracker.Valid, HandleTracker.Value, LockManager.Valid, S.Delete, B.RemoveTree;
      if unmounting {
        return A.Refused(ENOTCONN);
      }
      var ok := absFS.Remove(Join(dir, name), fault);
      if !ok {
        return A.Refused(EBackend);
      }
      InvalidateDir(dir);
      answer := A.Done;
    }

    method Rename(dir: Path, name: string, newParent: Option<Path>, newName: string, fault: bool)
      returns (answer: A.Answer)
      requires Valid()
      modifies this, Parts()
      ensures Valid() && (forall o | o in Parts() :: o in old(Parts()) || fresh(o))
      ensures (Value(), answer) == A.Rename(old(Value()), dir, name, newParent, newName, fault)
    {
      hide InodeManager.Valid, HandleTracker.Valid, HandleTracker.Value, LockManager.Valid, S.Delete, B.RenameTree;
      if unmounting {
        return A.Refused(ENOTCONN);
      }
      if newParent.None? {
        return A.Refused(EINVAL);
      }
      var ok := absFS.Rename(Join(dir, name), Join(newParent.value, newName), fault);
      if !ok {
        return A.Refused(EBackend);
      }
      InvalidateDir(dir);
      InvalidateDir(newParent.value);
      answer := A.Done;
    }

    method Link(dir: Path, target: Option<Path>, name: string, fault: bool, statFault: bool, meta: I.Meta)
      returns (answer: A.Answer)
      requires Valid()
      modifies this, Parts()
      ensures Valid() && (forall o | o in Parts() :: o in old(Parts()) || fresh(o))
      ensures (Value(), answer) == A.Link(old(Value()), dir, target, name, fault, statFault, meta)
    {
      hide InodeManager.Valid, HandleTracker.Valid, HandleTracker.Value, LockManager.Valid,
        S.Delete, I.GetInode, B.LinkTree;
      if unmounting {
        return A.Refused(ENOTCONN);
      }
      if target.None? {
        return A.Refused(EINVAL);
      }
      if !linkable {
        return A.Refused(ENOTSUP);
      }
      var newPath := Join(dir, name);
      var ok := absFS.Link(target.value, newPath, fault);
      if !ok {
        return A.Refused(EBackend);
      }
      InvalidateDir(dir);
      if statFault {
        return A.Refused(EBackend);
      }
      var ino := TakeInode(newPath, meta);
      answer := A.Entry(ino);
    }

    method Open(path: Path, flags: OpenFlags, fault: bool) returns (answer: A.Answer)
      requires Valid()
      modifies this, Parts()
      ensures Valid() && (forall o | o in Parts() :: o in old(Parts()) || fresh(o))
      ensures (Value(), answer) == A.Open(old(Value()), path, flags, fault)
    {
      hide FuseFS.Valid, FuseFS.Value, FuseFS.Parts, B.OpenTree;
      if unmounting {
        return A.Refused(ENOTCONN);
      }
      var file := OpenFile(path, flags.create, flags.excl, fault);
      if file.None? {
        return A.Refused(EBackend);
      }
      var fh := AddHandle(file.value, flags, path);
      answer := A.Opened(fh);
    }

    /** The lock requests of a file handle of the node at `path`. */
    method Getlk(fh: nat, path: Path, owner: UInt64, lk: FileLock, reply: FileLock) returns (answer: A.Answer)
      requires Valid() && reply !in Parts()
      modifies reply
      ensures Valid() && Parts() == old(Parts())
      ensures (Value(), answer) == A.Lock(old(Value()), path, owner, A.Getlk(old(lk.Request())))
      ensures answer == A.Probed(reply.Request())
    {
      hide FuseFS.Valid, FuseFS.Value, FuseFS.Parts, L.Getlk;
      CopyRequest(lk, reply);
      ProbeLock(path, owner, reply);
      answer := A.Probed(L.Request(reply.start, reply.end, reply.typ, reply.pid));
    }

    method Setlk(fh: nat, path: Path, owner: UInt64, lk: FileLock) returns (answer: A.Answer)
      requires Valid()
      modifies this, Parts()
      ensures Valid() && (forall o | o in Parts() :: o in old(Parts()) || fresh(o))
      ensures (Value(), answer) == A.Lock(old(Value()), path, owner, A.Setlk(old(lk.Request())))
    {
      hide FuseFS.Valid, FuseFS.Value, FuseFS.Parts, L.Apply;
      var errno := SetLock(path, owner, lk, false);
      answer := A.Result(errno);
    }

    method Setlkw(fh: nat, path: Path, owner: UInt64, lk: FileLock) returns (answer: A.Answer)
      requires Valid()
      modifies this, Parts()
      ensures Valid() && (forall o | o in Parts() :: o in old(Parts()) || fresh(o))
      ensures (Value(), answer) == A.Lock(old(Value()), path, owner, A.Setlk(old(lk.Request())))
    {
      hide FuseFS.Valid, FuseFS.Value, FuseFS.Parts, L.Apply;
      var errno := SetLock(path, owner, lk, true);
      answer := A.Result(errno);
    }

    method Flock(fh: nat, path: Path, owner: UInt64, flags: bv32) returns (answer: A.Answer)
      requires Valid()
      modifies this, Parts()
      ensures Valid() && (forall o | o in Parts() :: o in old(Parts()) || fresh(o))
      ensures (Value(), answer) == A.Lock(old(Value()), path, owner, A.Flock(flags))
    {
      hide FuseFS.Valid, FuseFS.Value, FuseFS.Parts, L.Apply, L.Decode;
      var errno := SetFlock(path, owner, flags);
      answer := A.Result(errno);
    }

    method Release(fh: nat, closeError: Errno) returns (answer: A.Answer)
      requires Valid()
      modifies this, Parts()
      ensures Valid() && (forall o | o in Parts() :: o in old(Parts()) || fresh(o))
      ensures (Value(), answer) == A.Release(old(Value()), fh, closeError)
    {
      hide FuseFS.Valid, FuseFS.Value, FuseFS.Parts, L.Apply;
      ReleaseLocks(A.OwnerOf(fh));
      var errno := ReleaseHandle(fh, closeError);
      answer := A.Result(errno);
    }

    /** `serverError` is what unmounting the server reports, OK when there is no server. */
    method Unmount(serverError: Errno) returns (answer: A.Answer)
      requires Valid()
      modifies this, Parts()
      ensures Valid() && (forall o | o in Parts() :: o in old(Parts()) || fresh(o))
      ensures (Value(), answer) == A.Unmount(old(Value()), serverError)
    {
      hide FuseFS.Valid, FuseFS.Value, FuseFS.Parts, I.Clear, S.Clear, H.Files;
      SetUnmounting();
      CloseHandles();
      ClearInodes();
      answer := A.Result(serverError);
    }
  }
}
