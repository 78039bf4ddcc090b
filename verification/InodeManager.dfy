/** The inode manager with its maps and its two caches (inode.go). */
module InodeManager {
  import opened Common
  import I = InodeSpec
  import S = LruSpec
  import opened LruCache

  class InodeManager {
    var pathToInode: map<Path, nat>
    var inodeToPath: map<nat, Path>
    var nextInode: nat
    const attrCache: LruCache<Path, Attr>
    const dirCache: LruCache<Path, seq<DirEntry>>
    var inodeToMeta: map<nat, I.Meta>

    ghost function Repr(): set<object>
      reads this, attrCache, dirCache
    {
      {this} + attrCache.Repr + dirCache.Repr
    }

    ghost function Inodes(): I.Inodes
      reads this
    {
      I.Inodes(pathToInode, inodeToPath, inodeToMeta, nextInode)
    }

    ghost predicate Valid()
      reads this, attrCache, dirCache, attrCache.Repr, dirCache.Repr
    {
      && this !in attrCache.Repr && this !in dirCache.Repr && attrCache.Repr !! dirCache.Repr
      && attrCache.Valid() && dirCache.Valid()
      && I.Good(Inodes())
    }

    constructor (attrCacheSize: int, dirCacheSize: int, attrTTL: int, dirTTL: int)
      ensures Valid() && fresh(Repr()) && Inodes() == I.NO_INODES
      ensures attrCache.Value() == S.NewCache(attrCacheSize, attrTTL)
      ensures dirCache.Value() == S.NewCache(dirCacheSize, dirTTL)
    {
      hide LruCache<Path, Attr>.Linked, LruCache<Path, seq<DirEntry>>.Linked;
      pathToInode, inodeToPath, inodeToMeta := map[], map[], map[];
      nextInode := 1;
      attrCache := new LruCache(attrCacheSize, attrTTL);
      dirCache := new LruCache(dirCacheSize, dirTTL);
    }

    method IsSameFile(ino: nat, info: I.Meta) returns (same: bool)
      ensures same == I.SameFile(Inodes(), ino, info)
    {
      if ino !in inodeToMeta {
        return false;
      }
      var meta := inodeToMeta[ino];
      same := meta.modTime == info.modTime && meta.size == info.size;
    }

    method StoreMeta(ino: nat, info: I.Meta)
      modifies this`inodeToMeta
      ensures inodeToMeta == old(inodeToMeta)[ino := info]
    {
      inodeToMeta := inodeToMeta[ino := I.Meta(info.modTime, info.size)];
    }

    method DeleteMeta(ino: nat)
      modifies this`inodeToMeta
      ensures inodeToMeta == old(inodeToMeta) - {ino}
    {
      inodeToMeta := inodeToMeta - {ino};
    }

    method GetInode(path: Path, info: I.Meta) returns (ino: nat)
      requires Valid()
      modifies this
      ensures Valid() && Repr() == old(Repr())
      ensures unchanged(attrCache) && unchanged(dirCache)
      ensures (Inodes(), ino) == I.GetInode(old(Inodes()), path, info)
    {
      hide I.Good, LruCache<Path, Attr>.Valid, LruCache<Path, seq<DirEntry>>.Valid;
      I.GetInodeKeepsGood(Inodes(), path, info);
      if path in pathToInode {
        ino := pathToInode[path];
        var same := IsSameFile(ino, info);
        if same {
          return;
        }
        inodeToPath := inodeToPath - {ino};
        DeleteMeta(ino);
      } else {
        assert inodeToPath - {} == inodeToPath && inodeToMeta - {} == inodeToMeta;
      }
      nextInode := nextInode + 1;
      ino := nextInode;
      pathToInode := pathToInode[path := ino];
      inodeToPath := inodeToPath[ino := path];
      StoreMeta(ino, info);
    }

    method GetCached(path: Path, now: int) returns (attr: Option<Attr>)
      requires Valid()
      modifies attrCache.Repr
      ensures Valid() && fresh(Repr() - old(Repr()))
      ensures unchanged(this) && unchanged(dirCache)
      ensures (attrCache.Value(), attr) == S.Get(old(attrCache.Value()), path, now)
    {
      attr := attrCache.Get(path, now);
    }

    method Cache(path: Path, attr: Attr, now: int)
      requires Valid()
      modifies attrCache.Repr
      ensures Valid() && fresh(Repr() - old(Repr()))
      ensures unchanged(this) && unchanged(dirCache)
      ensures attrCache.Value() == S.Put(old(attrCache.Value()), path, attr, now)
    {
      attrCache.Put(path, attr, now);
    }

    method CacheDir(path: Path, entries: seq<DirEntry>, now: int)
      requires Valid()
      modifies dirCache.Repr
      ensures Valid() && fresh(Repr() - old(Repr()))
      ensures unchanged(this) && unchanged(attrCache)
      ensures dirCache.Value() == S.Put(old(dirCache.Value()), path, entries, now)
    {
      dirCache.Put(path, entries, now);
    }

    method GetDirCache(path: Path, now: int) returns (entries: Option<seq<DirEntry>>)
      requires Valid()
      modifies dirCache.Repr
      ensures Valid() && fresh(Repr() - old(Repr()))
      ensures unchanged(this) && unchanged(attrCache)
      ensures (dirCache.Value(), entries) == S.Get(old(dirCache.Value()), path, now)
    {
      entries := dirCache.Get(path, now);
    }

    method InvalidateDir(path: Path)
      requires Valid()
      modifies dirCache.Repr
      ensures Valid() && fresh(Repr() - old(Repr()))
      ensures unchanged(this) && unchanged(attrCache)
      ensures dirCache.Value() == S.Delete(old(dirCache.Value()), path)
    {
      dirCache.Delete(path);
    }

    method InvalidateAttr(path: Path)
      requires Valid()
      modifies attrCache.Repr
      ensures Valid() && fresh(Repr() - old(Repr()))
      ensures unchanged(this) && unchanged(dirCache)
      ensures attrCache.Value() == S.Delete(old(attrCache.Value()), path)
    {
      attrCache.Delete(path);
    }

    method Clear()
      requires Valid()
      modifies Repr()
      ensures Valid() && fresh(Repr() - old(Repr()))
      ensures Inodes() == I.Clear(old(Inodes()))
      ensures attrCache.Value() == S.Clear(old(attrCache.Value()))
      ensures dirCache.Value() == S.Clear(old(dirCache.Value()))
    {
      hide I.Good, LruCache<Path, Attr>.Linked, LruCache<Path, seq<DirEntry>>.Linked;
      I.ClearKeepsGood(Inodes());
      pathToInode := map[];
      inodeToPath := map[];
      attrCache.Clear();
      dirCache.Clear();
      inodeToMeta := map[];
    }
  }
}
