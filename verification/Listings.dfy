/** What Readdir answers from the directory cache, and which calls make it build a listing anew. */
module Listings {
  import opened Common
  import opened BackingFs
  import opened AdapterSpec
  import opened Outcomes
  import H = HandleSpec
  import I = InodeSpec
  import L = LockSpec
  import S = LruSpec

  /** The Readdir that finds nothing cached and gets the directory read, so that it builds and
      caches a listing. */
  ghost predicate Builds(s: Fs, op: Op) {
    op.OpReaddir? && !s.unmounting && Misses(s, op) && Served(s, op)
  }

  /** The backing file system has done what the call asked of it, whatever Stat reports then. */
  ghost predicate Performed(s: Fs, op: Op) {
    && !s.unmounting
    && match op
       case OpCreate(d, n, fl, f, _, _) => !f && CanOpen(s.tree, Join(d, n), true, fl.excl)
       case OpMkdir(d, n, f, _, _) => !f && CanMake(s.tree, Join(d, n))
       case OpLink(d, t, n, f, _, _) => t.Some? && s.linkable && !f && CanLink(s.tree, t.value, Join(d, n))
       case OpUnlink(_, _, _) => Served(s, op)
       case OpRmdir(_, _, _) => Served(s, op)
       case OpRename(_, _, nd, _, _) => nd.Some? && Served(s, op)
       case _ => false
  }

  /** The directories whose contents the call changes, as far as the adapter knows. */
  function Parents(op: Op): set<Path>
  {
    match op
    case OpCreate(d, _, _, _, _, _) => {d}
    case OpMkdir(d, _, _, _, _) => {d}
    case OpLink(d, _, _, _, _, _) => {d}
    case OpUnlink(d, _, _) => {d}
    case OpRmdir(d, _, _) => {d}
    case OpRename(d, _, Some(nd), _, _) => {d, nd}
    case _ => {}
  }

  /** The listing last built for `d`, and when, if no performed change of the directory and no
      Unmount followed. */
  ghost function LastListing(s: Fs, ops: seq<Op>, d: Path): Option<(seq<DirEntry>, int)> {
    if ops == [] then None
    else
      var init, last := ops[..|ops| - 1], ops[|ops| - 1];
      if last.OpUnmount? then None
      else if Builds(After(s, init), last) && last.dir == d then
        Some((Enter(After(s, init).inodes, d, last.infos).1, last.later))
      else if Performed(After(s, init), last) && d in Parents(last) then None
      else LastListing(s, init, d)
  }

  lemma RemovalShape(s: Fs, op: Op)
    requires WellFormed(s.tree) && (op.OpUnlink? || op.OpRmdir? || op.OpRename?)
    ensures Apply(s, op).0.dirs ==
              if !Performed(s, op) then s.dirs
              else if op.OpRename? then S.Delete(S.Delete(s.dirs, op.dir), op.newDir.value)
              else S.Delete(s.dirs, op.dir)
  {
    if op.OpRename? {
      if op.newDir.Some? { CanMoveIff(s.tree, Join(op.dir, op.name), Join(op.newDir.value, op.newName)); }
    } else {
      CanRemoveIff(s.tree, Join(op.dir, op.name));
    }
    hide RemoveTree, CanRemove, RenameTree, CanMove, S.Delete;
  }

  lemma MakingShape(s: Fs, op: Op)
    requires op.OpCreate? || op.OpMkdir? || op.OpLink?
    ensures Apply(s, op).0.dirs == if Performed(s, op) then S.Delete(s.dirs, op.dir) else s.dirs
  {
    hide S.Delete, I.GetInode;
  }

  lemma OthersShape(s: Fs, op: Op)
    requires op.OpLookup? || op.OpGetattr? || op.OpSetattr? || op.OpOpen? || op.OpLock? || op.OpRelease?
             || op.OpUnmount?
    ensures Apply(s, op).0.dirs == if op.OpUnmount? then S.Clear(s.dirs) else s.dirs
  {
    hide S.Get, S.Put, S.Clear, I.GetInode, I.Clear, L.Apply, L.Getlk, OpenTree, H.Files;
  }

  lemma DirsShape(s: Fs, op: Op)
    requires WellFormed(s.tree)
    ensures Apply(s, op).0.dirs ==
              if op.OpUnmount? then S.Clear(s.dirs)
              else if Builds(s, op) then
                S.Put(S.Get(s.dirs, op.dir, op.now).0, op.dir, Enter(s.inodes, op.dir, op.infos).1, op.later)
              else if op.OpReaddir? && !s.unmounting then S.Get(s.dirs, op.dir, op.now).0
              else if !Performed(s, op) then s.dirs
              else if op.OpRename? then S.Delete(S.Delete(s.dirs, op.dir), op.newDir.value)
              else S.Delete(s.dirs, op.dir)
  {
    if op.OpUnlink? || op.OpRmdir? || op.OpRename? {
      RemovalShape(s, op);
      hide Apply, S.Delete, Performed;
    } else if op.OpCreate? || op.OpMkdir? || op.OpLink? {
      MakingShape(s, op);
      hide Apply, S.Delete, Performed;
    } else if op.OpReaddir? {
      hide S.Get, S.Put, I.GetInode, Enter;
    } else {
      OthersShape(s, op);
      hide Apply, S.Clear;
    }
  }

  // ---------- What is cached ----------

  lemma GetEntries(c: DirCache, d: Path, now: int)
    ensures forall it | it in S.Get(c, d, now).0.items :: it in c.items
    ensures S.Get(c, d, now).0.ttl == c.ttl && S.Get(c, d, now).0.maxSize == c.maxSize
    ensures c.ttl <= 0 ==> S.Keys(S.Get(c, d, now).0.items) == S.Keys(c.items)
  {
  }

  lemma PutEntries(c: DirCache, d: Path, v: seq<DirEntry>, at: int)
    ensures forall it | it in S.Put(c, d, v, at).items :: it == S.Item(d, v, at) || (it in c.items && it.key != d)
    ensures S.Put(c, d, v, at).ttl == c.ttl && S.Put(c, d, v, at).maxSize == c.maxSize
    ensures c.maxSize <= 0 ==> S.Keys(S.Put(c, d, v, at).items) == S.Keys(c.items) + {d}
  {
    var t := S.Put(c, d, v, at);
    assert c.maxSize <= 0 ==> S.Item(d, v, at) == t.items[0];
    assert c.maxSize <= 0 ==> forall it | it in c.items && it.key != d :: it in t.items;
  }

  lemma DeleteEntries(c: DirCache, d: Path)
    ensures forall it :: it in S.Delete(c, d).items <==> it in c.items && it.key != d
    ensures S.Delete(c, d).ttl == c.ttl && S.Delete(c, d).maxSize == c.maxSize
    ensures S.Keys(S.Delete(c, d).items) == S.Keys(c.items) - {d}
  {
  }

  ghost predicate AreLastListings(s: Fs, ops: seq<Op>) {
    forall it | it in After(s, ops).dirs.items :: LastListing(s, ops, it.key) == Some((it.value, it.stamp))
  }

  /** Without limits the cache forgets nothing it should remember. */
  ghost predicate AllCached(s: Fs, ops: seq<Op>) {
    forall d :: LastListing(s, ops, d).Some? ==> d in S.Keys(After(s, ops).dirs.items)
  }

  lemma EntriesNext(s: Fs, op: Op)
    requires WellFormed(s.tree)
    ensures var t := Apply(s, op).0;
            && t.dirs.ttl == s.dirs.ttl && t.dirs.maxSize == s.dirs.maxSize
            && (forall it | it in t.dirs.items ::
                  if Builds(s, op) && it.key == op.dir then
                    it == S.Item(op.dir, Enter(s.inodes, op.dir, op.infos).1, op.later)
                  else it in s.dirs.items && !op.OpUnmount? && !(Performed(s, op) && it.key in Parents(op)))
            && (s.dirs.ttl <= 0 && s.dirs.maxSize <= 0 && !op.OpUnmount? ==>
                  (Builds(s, op) ==> op.dir in S.Keys(t.dirs.items))
                  && forall d | d in S.Keys(s.dirs.items) && !(Performed(s, op) && d in Parents(op)) ::
                       d in S.Keys(t.dirs.items))
  {
    DirsShape(s, op);
    if op.OpReaddir? {
      var got := S.Get(s.dirs, op.dir, op.now).0;
      GetEntries(s.dirs, op.dir, op.now);
      PutEntries(got, op.dir, Enter(s.inodes, op.dir, op.infos).1, op.later);
    } else if op.OpRename? && op.newDir.Some? {
      DeleteEntries(s.dirs, op.dir);
      DeleteEntries(S.Delete(s.dirs, op.dir), op.newDir.value);
    } else if op.OpCreate? || op.OpMkdir? || op.OpLink? || op.OpUnlink? || op.OpRmdir? {
      DeleteEntries(s.dirs, op.dir);
    }
    hide Apply, S.Get, S.Put, S.Delete, S.Keys, Served, Enter;
  }

  /** Every cached listing is the last one built for its directory, with its time, and no change
      of the directory made through the adapter has followed; without limits every such listing
      is cached. */
  lemma {:induction false} RunsKeepLastListings(tree: Tree, opts: Options, ops: seq<Op>)
    requires WellFormed(tree)
    ensures var s0 := Mounted(tree, opts);
            && AreLastListings(s0, ops) && After(s0, ops).dirs.ttl == opts.dirTTL
            && After(s0, ops).dirs.maxSize == opts.dirCacheSize
            && (opts.dirTTL <= 0 && opts.dirCacheSize <= 0 ==> AllCached(s0, ops))
  {
    if ops != [] {
      var s0, init, last := Mounted(tree, opts), ops[..|ops| - 1], ops[|ops| - 1];
      RunsKeepLastListings(tree, opts, init);
      RunsKeepWellFormed(s0, init);
      EntriesNext(After(s0, init), last);
      hide Apply, Builds, Performed, Parents, Mounted, Enter, S.Keys;
    }
  }

  /** What a hit means, in every run: the answer is the listing last built for the directory, not
      older than the lifetime asked for, and the adapter has made no change there since. Without
      limits every such listing is answered. */
  lemma CachedListingIsLast(tree: Tree, opts: Options, ops: seq<Op>, op: Op)
    requires WellFormed(tree) && op.OpReaddir?
    ensures var s0 := Mounted(tree, opts);
            var s, last := After(s0, ops), LastListing(s0, ops, op.dir);
            && (!s.unmounting && !Misses(s, op) ==>
                  && last.Some? && Apply(s, op).1 == Listing(last.value.0)
                  && (opts.dirTTL > 0 ==> op.now - last.value.1 <= opts.dirTTL))
            && (opts.dirTTL <= 0 && opts.dirCacheSize <= 0 ==> (last.Some? <==> !Misses(s, op)))
  {
    RunsKeepLastListings(tree, opts, ops);
    var s := After(Mounted(tree, opts), ops);
    hide LastListing, After, Mounted;
    var found := S.Find(s.dirs.items, op.dir);
    assert found.Some? ==> found.value in s.dirs.items && found.value.key == op.dir;
    assert found.None? ==> op.dir !in S.Keys(s.dirs.items);
  }
}
