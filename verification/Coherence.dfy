/** The directory cache against the backing file system, when every change goes through the
    adapter: when a cached listing is what the directory holds now. */
module Coherence {
  import opened Common
  import opened BackingFs
  import opened AdapterSpec
  import L = LockSpec
  import S = LruSpec

  /** Every cached listing, expired or not, lists the current children of its path. The
      listing of a path that no longer is a directory must be empty. */
  ghost predicate Coherent(s: Fs) {
    forall it | it in s.dirs.items :: Lists(it.value, s.tree, it.key)
  }

  ghost predicate Sound(s: Fs) {
    WellFormed(s.tree) && S.Good(s.dirs)
  }

  ghost predicate Resident(s: Fs, d: Path) {
    exists it | it in s.dirs.items :: it.key == d
  }

  // ---------- Which calls can hurt ----------

  /** Renaming src to dst carries off a listing when a cached path lies in the moved subtree,
      before or after the move, at a directory that has children. */
  ghost predicate Carried(t: Tree, src: Path, dst: Path, k: Path) {
    || (Under(src, k) && HasChild(t, k))
    || (Under(dst, k) && HasChild(t, src + k[|dst|..]))
  }

  /** What a caller can check before a call to know that the cache stays coherent. Only two
      calls can break it: opening a missing file with the create flag while its directory is
      cached, and renaming a subtree that contains, or lands on, a cached listing. */
  ghost predicate Harmless(s: Fs, op: Op) {
    match op
    case OpOpen(p, flags, fault) =>
      s.unmounting || fault || OpenTree(s.tree, p, flags.create, flags.excl).None? || p in s.tree
      || !Resident(s, Parent(p))
    case OpRename(d, n, Some(nd), nn, fault) =>
      var src, dst := Join(d, n), Join(nd, nn);
      s.unmounting || fault || RenameTree(s.tree, src, dst).None? || src == dst
      || forall it | it in s.dirs.items :: !Carried(s.tree, src, dst, it.key)
    case _ => true
  }

  // ---------- The cache operations on entries ----------

  lemma GetMembers(c: DirCache, k: Path, now: int)
    ensures forall it | it in S.Get(c, k, now).0.items :: it in c.items
    ensures S.Get(c, k, now).1.Some? ==>
              exists it | it in c.items :: it.key == k && it.value == S.Get(c, k, now).1.value
  {
  }

  lemma PutMembers(c: DirCache, k: Path, v: seq<DirEntry>, now: int)
    ensures forall it | it in S.Put(c, k, v, now).items ::
              (it.key == k && it.value == v) || (it in c.items && it.key != k)
  {
  }

  // ---------- One call ----------

  lemma InvalidateMembers(s: Fs, d: Path)
    ensures forall it :: it in InvalidateDir(s, d).dirs.items <==> it in s.dirs.items && it.key != d
  {
  }

  /** A change of one path is made good by invalidating its parent. */
  lemma ChangeThenInvalidate(s: Fs, t: Tree, p: Path)
    requires Coherent(s) && p != []
    requires forall q | q != p :: (q in s.tree <==> q in t) && (q in s.tree ==> s.tree[q] == t[q])
    ensures Coherent(InvalidateDir(s.(tree := t), Parent(p)))
  {
    forall it | it in s.dirs.items && it.key != Parent(p) ensures Lists(it.value, t, it.key) {
      OneChange(s.tree, p, t, it.key);
      SameChildrenLists(it.value, s.tree, t, it.key);
    }
  }

  lemma LookupCoherent(s: Fs, d: Path, n: string, sf: bool, m: I.Meta)
    requires Sound(s) && Coherent(s)
    ensures Sound(Lookup(s, d, n, sf, m).0) && Coherent(Lookup(s, d, n, sf, m).0)
  {
  }

  lemma GetattrCoherent(s: Fs, p: Path, now: int, later: int, sf: bool, m: I.Meta, reply: Attr)
    requires Sound(s) && Coherent(s)
    ensures Sound(Getattr(s, p, now, later, sf, m, reply).0) && Coherent(Getattr(s, p, now, later, sf, m, reply).0)
  {
    hide S.Get, S.Put, I.GetInode;
  }

  lemma SetattrCoherent(s: Fs, p: Path, f: bool, now: int, later: int, sf: bool, m: I.Meta, reply: Attr)
    requires Sound(s) && Coherent(s)
    ensures var t := Setattr(s, p, f, now, later, sf, m, reply).0; Sound(t) && Coherent(t)
  {
    hide Getattr;
    GetattrCoherent(s, p, now, later, sf, m, reply);
  }

  lemma LockCoherent(s: Fs, p: Path, o: UInt64, call: LockCall)
    requires Sound(s) && Coherent(s)
    ensures Sound(Lock(s, p, o, call).0) && Coherent(Lock(s, p, o, call).0)
  {
    hide L.Apply, L.Getlk;
  }

  lemma EnterLists(inodes: I.Inodes, t: Tree, d: Path, infos: seq<FileInfo>)
    requires IsListing(infos, t, d)
    ensures Lists(Enter(inodes, d, infos).1, t, d)
  {
    var entries := Enter(inodes, d, infos).1;
    forall e | e in entries ensures Join(d, e.name) in t && t[Join(d, e.name)] == e.kind {
      var k :| 0 <= k < |entries| && entries[k] == e;
      assert infos[k] in infos;
    }
    forall n | Join(d, n) in t ensures exists e | e in entries :: e.name == n {
      var i :| i in infos && i.name == n;
      var k :| 0 <= k < |infos| && infos[k] == i;
      assert entries[k] in entries;
    }
  }

  lemma ReaddirCoherent(s: Fs, d: Path, now: int, later: int, of: bool, rf: bool, infos: seq<FileInfo>)
    requires Sound(s) && Coherent(s) && Honest(s, OpReaddir(d, now, later, of, rf, infos))
    ensures var r := Readdir(s, d, now, later, of, rf, infos);
            && Sound(r.0) && Coherent(r.0) && r.0.tree == s.tree
            && (r.1.Listing? ==> Lists(r.1.entries, s.tree, d))
  {
    hide S.Get, S.Put, S.Find, S.Without, Lists, IsListing, Enter, I.GetInode;
    var got := S.Get(s.dirs, d, now);
    GetMembers(s.dirs, d, now);
    S.GetKeepsGood(s.dirs, d, now);
    if IsListing(infos, s.tree, d) {
      var r := Enter(s.inodes, d, infos);
      EnterLists(s.inodes, s.tree, d, infos);
      PutMembers(got.0, d, r.1, later);
      S.PutKeepsGood(got.0, d, r.1, later);
    }
  }

  lemma NewFileListing(t: Tree, p: Path, entries: seq<DirEntry>, k: Path)
    requires p != [] && p !in t && Lists(entries, t, k)
    ensures Lists(entries, t[p := File], k) <==> k != Parent(p)
  {
    var t' := t[p := File];
    if k != Parent(p) {
      OneChange(t, p, t', k);
      SameChildrenLists(entries, t, t', k);
    } else {
      var n := p[|p| - 1];
      assert p == Join(k, n);
      assert forall e | e in entries :: Join(k, e.name) in t && e.name != n;
      assert Join(k, n) in t';
    }
  }

  /** Opening a missing file with the create flag changes a directory without invalidating it. */
  lemma OpenCoherentIff(s: Fs, p: Path, flags: OpenFlags, fault: bool)
    requires Sound(s) && Coherent(s)
    ensures Sound(Open(s, p, flags, fault).0)
    ensures Coherent(Open(s, p, flags, fault).0) <==> Harmless(s, OpOpen(p, flags, fault))
  {
    if !s.unmounting && !fault && OpenTree(s.tree, p, flags.create, flags.excl).Some? && p !in s.tree {
      AddKeepsWellFormed(s.tree, p, File);
      forall it | it in s.dirs.items ensures Lists(it.value, s.tree[p := File], it.key) <==> it.key != Parent(p) {
        NewFileListing(s.tree, p, it.value, it.key);
      }
    }
  }

  lemma UnderJoin(a: Path, k: Path, n: string)
    ensures Under(a, Join(k, n)) ==> Under(a, k) || a == Join(k, n)
  {
    if |a| <= |k| { assert Join(k, n)[..|a|] == k[..|a|]; }
  }

  lemma NotUnderBoth(src: Path, dst: Path, k: Path)
    ensures Under(src, k) && Under(dst, k) ==> Under(src, dst) || Under(dst, src)
  {
    if |src| <= |dst| <= |k| { assert k[..|dst|][..|src|] == k[..|src|]; }
    if |dst| <= |src| <= |k| { assert k[..|src|][..|dst|] == k[..|dst|]; }
  }

  lemma BothUnder(src: Path, dst: Path, k: Path, n: string)
    requires !Under(src, dst) && !Under(dst, src) && Under(src, k)
    ensures Under(src, Join(k, n)) && !Under(dst, Join(k, n))
  {
    assert src == Join(k, n)[..|src|];
    NotUnderBoth(src, dst, Join(k, n));
  }

  /** A rename between different paths leaves coherent exactly the listings it does not carry off. */
  lemma RenamedListing(t: Tree, src: Path, dst: Path, entries: seq<DirEntry>, k: Path)
    requires WellFormed(t) && RenameTree(t, src, dst).Some? && src != dst
    requires Lists(entries, t, k) && k != Parent(src) && k != Parent(dst)
    ensures Lists(entries, Moved(t, src, dst), k) <==> !Carried(t, src, dst, k)
  {
    RenameApart(t, src, dst);
    var t' := Moved(t, src, dst);
    if Under(src, k) {
      forall n ensures Join(k, n) !in t' {
        MovedMember(t, src, dst, Join(k, n));
        BothUnder(src, dst, k, n);
      }
      NotUnderBoth(src, dst, k);
      HasChildIff(t', k);
      ListsEmpty(entries, t, k);
      if Lists(entries, t', k) { ListsEmpty(entries, t', k); }
    } else if Under(dst, k) {
      var from := src + k[|dst|..];
      forall n ensures Join(k, n) !in t && (Join(k, n) in t' <==> Join(from, n) in t) {
        MovedMember(t, src, dst, Join(k, n));
        assert Under(dst, Join(k, n)) && Join(k, n) != dst;
        assert src + Join(k, n)[|dst|..] == Join(from, n);
      }
      HasChildIff(t, k);
      HasChildIff(t', k);
      HasChildIff(t, from);
      ListsEmpty(entries, t, k);
      if Lists(entries, t', k) { ListsEmpty(entries, t', k); }
    } else {
      forall n
        ensures (Join(k, n) in t <==> Join(k, n) in t') && (Join(k, n) in t ==> t[Join(k, n)] == t'[Join(k, n)])
      {
        MovedMember(t, src, dst, Join(k, n));
        JoinParent(k, n);
        UnderJoin(src, k, n);
        UnderJoin(dst, k, n);
      }
      SameChildrenLists(entries, t, t', k);
    }
  }

  lemma ParentsNotCarried(src: Path, dst: Path, k: Path)
    requires src != [] && dst != [] && !Under(src, dst) && !Under(dst, src)
    requires k == Parent(src) || k == Parent(dst)
    ensures !Under(src, k) && !Under(dst, k)
  {
    UnderParent(src, dst);
    UnderParent(dst, src);
    UnderParent(src, src);
    UnderParent(dst, dst);
  }

  lemma RenameCoherentIff(s: Fs, d: Path, n: string, nd: Option<Path>, nn: string, fault: bool)
    requires Sound(s) && Coherent(s)
    ensures Sound(Rename(s, d, n, nd, nn, fault).0)
    ensures Coherent(Rename(s, d, n, nd, nn, fault).0) <==> Harmless(s, OpRename(d, n, nd, nn, fault))
  {
    if !s.unmounting && nd.Some? {
      var src, dst := Join(d, n), Join(nd.value, nn);
      var r := RenameTree(s.tree, src, dst);
      if !fault && r.Some? {
        var s1 := InvalidateDir(s.(tree := r.value), d);
        var s2 := InvalidateDir(s1, nd.value);
        S.DeleteKeepsGood(s.dirs, d);
        S.DeleteKeepsGood(s1.dirs, nd.value);
        RenameKeepsWellFormed(s.tree, src, dst);
        InvalidateMembers(s.(tree := r.value), d);
        InvalidateMembers(s1, nd.value);
        if src != dst {
          RenameApart(s.tree, src, dst);
          JoinParent(d, n);
          JoinParent(nd.value, nn);
          forall it | it in s2.dirs.items
            ensures Lists(it.value, r.value, it.key) <==> !Carried(s.tree, src, dst, it.key)
          {
            RenamedListing(s.tree, src, dst, it.value, it.key);
          }
          forall k | k == d || k == nd.value ensures !Carried(s.tree, src, dst, k) {
            ParentsNotCarried(src, dst, k);
          }
        }
      }
    }
  }

  lemma RemoveCoherent(s: Fs, d: Path, name: string, fault: bool)
    requires Sound(s) && Coherent(s)
    ensures Sound(AdapterSpec.Remove(s, d, name, fault).0) && Coherent(AdapterSpec.Remove(s, d, name, fault).0)
  {
    var p := Join(d, name);
    JoinParent(d, name);
    S.DeleteKeepsGood(s.dirs, d);
    if RemoveTree(s.tree, p).Some? {
      RemoveKeepsWellFormed(s.tree, p);
      ChangeThenInvalidate(s, s.tree - {p}, p);
    }
  }

  lemma AddCoherent(s: Fs, t: Tree, d: Path, name: string, kind: Kind)
    requires Sound(s) && Coherent(s) && InDir(s.tree, Join(d, name))
    requires t == s.tree || (Join(d, name) !in s.tree && t == s.tree[Join(d, name) := kind])
    ensures Sound(InvalidateDir(s.(tree := t), d)) && Coherent(InvalidateDir(s.(tree := t), d))
  {
    JoinParent(d, name);
    S.DeleteKeepsGood(s.dirs, d);
    if t != s.tree { AddKeepsWellFormed(s.tree, Join(d, name), kind); }
    ChangeThenInvalidate(s, t, Join(d, name));
  }

  lemma CreateCoherent(s: Fs, d: Path, n: string, flags: OpenFlags, f: bool, sf: bool, m: I.Meta)
    requires Sound(s) && Coherent(s)
    ensures Sound(Create(s, d, n, flags, f, sf, m).0) && Coherent(Create(s, d, n, flags, f, sf, m).0)
  {
    var r := OpenTree(s.tree, Join(d, n), true, flags.excl);
    if r.Some? {
      JoinParent(d, n);
      if Join(d, n) in s.tree { S.DeleteKeepsGood(s.dirs, d); } else { AddCoherent(s, r.value, d, n, File); }
    }
  }

  lemma MkdirCoherent(s: Fs, d: Path, n: string, f: bool, sf: bool, m: I.Meta)
    requires Sound(s) && Coherent(s)
    ensures Sound(Mkdir(s, d, n, f, sf, m).0) && Coherent(Mkdir(s, d, n, f, sf, m).0)
  {
    if MkdirTree(s.tree, Join(d, n)).Some? { AddCoherent(s, s.tree[Join(d, n) := Dir], d, n, Dir); }
  }

  lemma LinkCoherent(s: Fs, d: Path, t: Option<Path>, n: string, f: bool, sf: bool, m: I.Meta)
    requires Sound(s) && Coherent(s)
    ensures Sound(Link(s, d, t, n, f, sf, m).0) && Coherent(Link(s, d, t, n, f, sf, m).0)
  {
    if t.Some? && LinkTree(s.tree, t.value, Join(d, n)).Some? {
      AddCoherent(s, s.tree[Join(d, n) := File], d, n, File);
    }
  }

  /** One call keeps the cache coherent exactly when it is harmless. */
  lemma StepCoherentIff(s: Fs, op: Op)
    requires Sound(s) && Coherent(s) && Honest(s, op)
    ensures Sound(Apply(s, op).0)
    ensures Coherent(Apply(s, op).0) <==> Harmless(s, op)
  {
    hide Lookup, Getattr, Setattr, Lock, Readdir, Create, Mkdir, AdapterSpec.Remove, Rename, Link, Open;
    match op
    case OpLookup(d, n, sf, m) => LookupCoherent(s, d, n, sf, m);
    case OpGetattr(p, now, later, sf, m, reply) => GetattrCoherent(s, p, now, later, sf, m, reply);
    case OpSetattr(p, f, now, later, sf, m, reply) => SetattrCoherent(s, p, f, now, later, sf, m, reply);
    case OpReaddir(d, now, later, of, rf, infos) => ReaddirCoherent(s, d, now, later, of, rf, infos);
    case OpCreate(d, n, fl, f, sf, m) => CreateCoherent(s, d, n, fl, f, sf, m);
    case OpMkdir(d, n, f, sf, m) => MkdirCoherent(s, d, n, f, sf, m);
    case OpUnlink(d, n, f) => RemoveCoherent(s, d, n, f);
    case OpRmdir(d, n, f) => RemoveCoherent(s, d, n, f);
    case OpRename(d, n, nd, nn, f) => RenameCoherentIff(s, d, n, nd, nn, f);
    case OpLink(d, t, n, f, sf, m) => LinkCoherent(s, d, t, n, f, sf, m);
    case OpOpen(p, fl, f) => OpenCoherentIff(s, p, fl, f);
    case OpLock(_, p, o, call) => LockCoherent(s, p, o, call);
    case OpRelease(_, _) =>
    case OpUnmount(_) =>
  }

  // ---------- Whole runs ----------

  /** Every call of the run satisfies `Honest` and `Harmless` when it is made. */
  ghost predicate Careful(s: Fs, ops: seq<Op>) {
    ops == [] ||
    var init, last := ops[..|ops| - 1], ops[|ops| - 1];
    Careful(s, init) && Honest(After(s, init), last) && Harmless(After(s, init), last)
  }

  lemma {:induction false} RunsStayCoherent(tree: Tree, opts: Options, ops: seq<Op>)
    requires WellFormed(tree) && Careful(Mounted(tree, opts), ops)
    ensures var s := After(Mounted(tree, opts), ops); Sound(s) && Coherent(s)
  {
    if ops != [] {
      var init, last := ops[..|ops| - 1], ops[|ops| - 1];
      RunsStayCoherent(tree, opts, init);
      StepCoherentIff(After(Mounted(tree, opts), init), last);
    }
  }

  /** What users see: whatever was evicted or has expired, an answered Readdir lists exactly
      the names the directory has now, each once and with its kind. */
  lemma ReaddirIsCurrent(tree: Tree, opts: Options, ops: seq<Op>,
                         d: Path, now: int, later: int, of: bool, rf: bool, infos: seq<FileInfo>)
    requires WellFormed(tree) && Careful(Mounted(tree, opts), ops)
    requires Honest(After(Mounted(tree, opts), ops), OpReaddir(d, now, later, of, rf, infos))
    ensures var s := After(Mounted(tree, opts), ops);
            var r := Readdir(s, d, now, later, of, rf, infos).1;
            r.Listing? ==> Lists(r.entries, s.tree, d)
  {
    RunsStayCoherent(tree, opts, ops);
    ReaddirCoherent(After(Mounted(tree, opts), ops), d, now, later, of, rf, infos);
  }

  /** The calls a kernel makes when no directory is renamed: opens without the create flag,
      and renames of anything but a directory. */
  ghost predicate Ordinary(s: Fs, op: Op) {
    && (op.OpOpen? ==> !op.flags.create)
    && (op.OpRename? ==> !(Join(op.dir, op.name) in s.tree && s.tree[Join(op.dir, op.name)] == Dir))
  }

  lemma NothingBelowFile(t: Tree, f: Path, k: Path)
    requires WellFormed(t) && f in t && t[f] == File
    ensures Under(f, k) ==> !HasChild(t, k)
  {
    if Under(f, k) && HasChild(t, k) {
      var p :| p in t && p != [] && Parent(p) == k;
      UnderParent(f, p);
      AncestorIsDir(t, f, p);
    }
  }

  lemma OrdinaryIsHarmless(s: Fs, op: Op)
    requires Sound(s) && Ordinary(s, op)
    ensures Harmless(s, op)
  {
    if op.OpRename? && op.newDir.Some? {
      var src, dst := Join(op.dir, op.name), Join(op.newDir.value, op.newName);
      if RenameTree(s.tree, src, dst).Some? {
        forall k ensures !Carried(s.tree, src, dst, k) {
          NothingBelowFile(s.tree, src, k);
          if Under(dst, k) { NothingBelowFile(s.tree, src, src + k[|dst|..]); }
        }
      }
    }
  }

  // ---------- Where it fails ----------

  /** Caches without size limits whose entries never expire. */
  const NO_LIMITS := Options(0, 0, 0, 0, false)

  lemma StillFound(c: DirCache, k: Path, x: Path, y: Path, now: int)
    requires k != x && k != y
    ensures S.Get(S.Delete(S.Delete(S.Delete(c, x), y), x), k, now).1 == S.Get(c, k, now).1
  {
    S.FindWithout(c.items, k, x);
    S.FindWithout(S.Without(c.items, x), k, y);
    S.FindWithout(S.Without(S.Without(c.items, x), y), k, x);
  }

  /** Renaming a directory leaves its cached listing behind: after renaming a listed directory
      that has children and making a new one in its place, listing the new, empty directory
      still answers the old children. */
  lemma RenamedDirectoryGoesStale(s: Fs, p: Path, n: string, nd: Path, nn: string, now: int, m: I.Meta)
    requires Sound(s) && Coherent(s) && !s.unmounting
    requires HasChild(s.tree, Join(p, n)) && S.Get(s.dirs, Join(p, n), now).1.Some?
    requires RenameTree(s.tree, Join(p, n), Join(nd, nn)).Some? && Join(nd, nn) != Join(p, n)
    ensures var s1 := Rename(s, p, n, Some(nd), nn, false).0;
            var s2 := Mkdir(s1, p, n, false, false, m).0;
            var answer := Readdir(s2, Join(p, n), now, now, false, false, []).1;
            && answer.Listing? && answer.entries != []
            && Join(p, n) in s2.tree && !HasChild(s2.tree, Join(p, n))
  {
    var src, dst := Join(p, n), Join(nd, nn);
    JoinParent(p, n);
    JoinParent(nd, nn);
    RenameApart(s.tree, src, dst);
    ParentsNotCarried(src, dst, p);
    ParentsNotCarried(src, dst, nd);
    hide Moved;
    var t1 := Moved(s.tree, src, dst);
    MovedMember(s.tree, src, dst, src);
    MovedMember(s.tree, src, dst, p);
    assert MkdirTree(t1, src) == Some(t1[src := Dir]);
    forall q | q in t1[src := Dir] && q != [] ensures Parent(q) != src {
      if Parent(q) == src {
        MovedMember(s.tree, src, dst, q);
        UnderParent(src, q);
        NotUnderBoth(src, dst, q);
      }
    }
    StillFound(s.dirs, src, p, nd, now);
    var it := S.Find(s.dirs.items, src).value;
    ListsEmpty(it.value, s.tree, src);
  }

  /** A concrete run of that kind: list /a, which holds the file f, rename /a to /b, make /a. */
  lemma DirectoryRenameExample(m: I.Meta)
    ensures var a := ["a"];
            var s0 := Mounted(map[[] := Dir, a := Dir, ["a", "f"] := File], NO_LIMITS);
            var s1 := Readdir(s0, a, 0, 0, false, false, [FileInfo("f", File, m)]).0;
            var s2 := Rename(s1, [], "a", Some([]), "b", false).0;
            var s3 := Mkdir(s2, [], "a", false, false, m).0;
            var answer := Readdir(s3, a, 0, 0, false, false, []).1;
            answer.Listing? && answer.entries != [] && a in s3.tree && !HasChild(s3.tree, a)
  {
    var a, b, f := ["a"], ["b"], ["a", "f"];
    var t: Tree := map[[] := Dir, a := Dir, f := File];
    var s0 := Mounted(t, NO_LIMITS);
    var infos := [FileInfo("f", File, m)];
    assert Join([], "a") == a && Join([], "b") == b && Join(a, "f") == f && Parent(a) == [] && Parent(f) == a;
    assert IsListing(infos, t, a) by {
      forall n | Join(a, n) in t ensures n == "f" { assert Join(a, n) == f; }
      assert infos[0] in infos;
    }
    ReaddirCoherent(s0, a, 0, 0, false, false, infos);
    var s1 := Readdir(s0, a, 0, 0, false, false, infos).0;
    assert S.Get(s1.dirs, a, 0).1.Some?;
    assert !HasChild(t, b) && Parent(b) == [] && RenameTree(t, a, b).Some?;
    RenamedDirectoryGoesStale(s1, [], "a", [], "b", 0, m);
  }

  /** And one for opening: list the empty root, then open the missing /f with the create flag. */
  lemma OpenCreateExample()
    ensures var s0 := Mounted(map[[] := Dir], NO_LIMITS);
            var s1 := Readdir(s0, [], 0, 0, false, false, []).0;
            var s2 := Open(s1, ["f"], OpenFlags(WriteOnly, false, true, false, false), false).0;
            Readdir(s2, [], 0, 0, false, false, []).1 == Listing([]) && Join([], "f") in s2.tree
  {
    assert Parent(["f"]) == [] && Join([], "f") == ["f"];
  }
}
