/** The handle tracker with its mutable entries (handles.go). Files belong to the backing
    file system, which records how often each has been closed. */
module HandleTracker {
  import opened Common
  import H = HandleSpec
  import B = BackingFs

  class HandleEntry {
    const file: nat
    var refCount: int
    const flags: OpenFlags
    const path: Path

    ghost function Value(): H.OpenFile {
      H.OpenFile(file, flags, path)
    }

    constructor (file: nat, flags: OpenFlags, path: Path)
      ensures Value() == H.OpenFile(file, flags, path) && refCount == 1
    {
      this.file, this.refCount, this.flags, this.path := file, 1, flags, path;
    }
  }

  class HandleTracker {
    const backing: B.Backing
    var handles: map<nat, HandleEntry>
    var nextHandle: nat

    ghost function Repr(): set<object>
      reads this
    {
      {this} + handles.Values
    }

    ghost function Value(): H.Handles
      reads this
    {
      H.Handles(map fh | fh in handles :: handles[fh].Value(), nextHandle)
    }

    /** Each handle has its own entry, referenced once, and no number ahead of the counter is taken. */
    ghost predicate Valid()
      reads this, handles.Values
    {
      && (forall a, b | a in handles && b in handles && a != b :: handles[a] != handles[b])
      && (forall fh | fh in handles :: handles[fh].refCount == 1)
      && (forall fh | fh in handles :: 0 < fh <= nextHandle)
    }

    constructor (backing: B.Backing)
      ensures Valid() && fresh(Repr()) && Value() == H.NO_HANDLES && this.backing == backing
    {
      this.backing, handles, nextHandle := backing, map[], 0;
    }

    method Add(file: nat, flags: OpenFlags, path: Path) returns (fh: nat)
      requires Valid()
      modifies this
      ensures Valid() && fresh(Repr() - old(Repr()))
      ensures (Value(), fh) == H.Add(old(Value()), H.OpenFile(file, flags, path)) && fh !in old(handles)
      ensures fh in handles && handles == old(handles)[fh := handles[fh]]
    {
      nextHandle := nextHandle + 1;
      fh := nextHandle;
      var entry := new HandleEntry(file, flags, path);
      handles := handles[fh := entry];
      assert Value().live == old(Value()).live[fh := H.OpenFile(file, flags, path)];
    }

    method Get(fh: nat) returns (file: Option<nat>)
      requires Valid()
      ensures file == if fh in Value().live then Some(Value().live[fh].file) else None
    {
      if fh !in handles {
        return None;
      }
      file := Some(handles[fh].file);
    }

    /** The entry of a live handle, with the flags and path it was added with, or null. */
    method GetEntry(fh: nat) returns (entry: HandleEntry?)
      requires Valid()
      ensures entry == null <==> fh !in Value().live
      ensures entry != null ==> entry == handles[fh] && entry.Value() == Value().live[fh]
    {
      if fh !in handles {
        return null;
      }
      entry := handles[fh];
    }

    /** `closeError` is what closing the file reports, already mapped to an error number. */
    method Release(fh: nat, closeError: Errno) returns (errno: Errno)
      requires Valid()
      modifies this, handles.Values, backing`closes
      ensures Valid() && Repr() <= old(Repr())
      ensures if fh !in old(Value()).live then
                errno == EBADF && Value() == old(Value()) && backing.closes == old(backing.closes)
              else errno == closeError && Value() == H.Forget(old(Value()), fh) && handles == old(handles) - {fh}
                   && backing.closes == old(backing.closes) + multiset{old(Value()).live[fh].file}
    {
      if fh !in handles {
        return EBADF;
      }
      var entry := handles[fh];
      entry.refCount := entry.refCount - 1;
      if entry.refCount <= 0 {
        backing.Close(entry.file);
        handles := handles - {fh};
        return closeError;
      }
      errno := OK;
    }

    /** delete(handles, fh) */
    method Drop(fh: nat)
      requires Valid() && fh in handles
      modifies this`handles
      ensures Valid() && Repr() <= old(Repr()) && handles.Keys == old(handles.Keys) - {fh}
      ensures Value() == H.Forget(old(Value()), fh)
    {
      handles := handles - {fh};
    }

    /** One round of CloseAll. */
    method CloseOne(fh: nat)
      requires Valid() && fh in handles
      modifies this`handles, backing`closes
      ensures Valid() && Repr() <= old(Repr()) && handles.Keys == old(handles.Keys) - {fh}
      ensures backing.closes + H.Files(Value().live) == old(backing.closes) + H.Files(old(Value()).live)
    {
      hide H.Files;
      var entry := handles[fh];
      H.FilesRemove(Value().live, fh);
      backing.Close(entry.file);
      Drop(fh);
    }

    method CloseAll()
      requires Valid()
      modifies this, backing`closes
      ensures Valid() && Repr() <= old(Repr())
      ensures Value() == H.Handles(map[], old(nextHandle))
      ensures backing.closes == old(backing.closes) + H.Files(old(Value()).live)
    {
      hide H.Files;
      var pending := handles.Keys;
      while pending != {}
        invariant pending == handles.Keys && Valid() && Repr() <= old(Repr()) && nextHandle == old(nextHandle)
        invariant backing.closes + H.Files(Value().live) == old(backing.closes) + H.Files(old(Value()).live)
      {
        var fh :| fh in pending;
        CloseOne(fh);
        pending := pending - {fh};
      }
      assert Value().live == map[];
      H.FilesSize(map[]);
    }

    method Count() returns (n: nat)
      requires Valid()
      ensures n == |Value().live|
    {
      assert handles.Keys == Value().live.Keys;
      n := |handles|;
    }
  }
}
