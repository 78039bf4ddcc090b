/** When calls of the adapter succeed, what they then do to the tree and to open files, and what
    the calls after them see. */
module Outcomes {
  import opened Common
  import opened BackingFs
  import opened AdapterSpec
  import opened Coherence
  import opened Conservation
  import H = HandleSpec
  import I = InodeSpec
  import L = LockSpec
  import S = LruSpec

  // ---------- Refusals ----------

  /** A new name can be made: it is free and its parent is a directory. */
  ghost predicate CanMake(t: Tree, p: Path) {
    p !in t && p != [] && Parent(p) in t && t[Parent(p)] == Dir
  }

  /** An existing path can be opened unless creation was asked for and it is a directory or had
      to be new; a missing one only if it is to be created and can be made. */
  ghost predicate CanOpen(t: Tree, p: Path, create: bool, excl: bool) {
    if p in t then create ==> t[p] == File && !excl else create && CanMake(t, p)
  }

  ghost predicate CanRemove(t: Tree, p: Path) {
    p in t && p != [] && forall n :: Join(p, n) !in t
  }

  ghost predicate CanLink(t: Tree, target: Path, p: Path) {
    target in t && t[target] == File && CanMake(t, p)
  }

  /** Anything but the root can be moved onto itself or to a free name; a file onto a file; a
      directory onto an empty one; and nothing into a directory inside itself. */
  ghost predicate CanMove(t: Tree, src: Path, dst: Path) {
    && src in t && src != [] && dst != [] && Parent(dst) in t && t[Parent(dst)] == Dir
    && (src == dst || ((t[src] == Dir ==> !Under(src, dst))
                       && (dst in t ==> t[dst] == t[src] && forall n :: t[dst] == Dir ==> Join(dst, n) !in t)))
  }

  /** Nothing unexpired is cached for the call. */
  predicate Misses(s: Fs, op: Op)
    requires op.OpGetattr? || op.OpSetattr? || op.OpReaddir?
  {
    if op.OpReaddir? then S.Get(s.dirs, op.dir, op.now).1.None? else S.Get(s.attrs, op.path, op.now).1.None?
  }

  /** The backing file system does everything the call asks of it. */
  ghost predicate Served(s: Fs, op: Op) {
    match op
    case OpLookup(d, n, sf, _) => !sf && Join(d, n) in s.tree
    case OpGetattr(p, _, _, sf, _, _) => Misses(s, op) ==> !sf && p in s.tree
    case OpSetattr(p, f, _, _, sf, _, _) => !f && (Misses(s, op) ==> !sf && p in s.tree)
    case OpReaddir(d, _, _, of, rf, _) => Misses(s, op) ==> !of && !rf && d in s.tree && s.tree[d] == Dir
    case OpCreate(d, n, fl, f, sf, _) => !f && !sf && CanOpen(s.tree, Join(d, n), true, fl.excl)
    case OpMkdir(d, n, f, sf, _) => !f && !sf && CanMake(s.tree, Join(d, n))
    case OpUnlink(d, n, f) => !f && CanRemove(s.tree, Join(d, n))
    case OpRmdir(d, n, f) => !f && CanRemove(s.tree, Join(d, n))
    case OpRename(d, n, nd, nn, f) => nd.Some? ==> !f && CanMove(s.tree, Join(d, n), Join(nd.value, nn))
    case OpLink(d, t, n, f, sf, _) => t.Some? ==> !f && !sf && CanLink(s.tree, t.value, Join(d, n))
    case OpOpen(p, fl, f) => !f && CanOpen(s.tree, p, fl.create, fl.excl)
    case _ => true
  }

  /** The other node the call names is not one of the adapter's. */
  predicate ForeignNode(op: Op) {
    (op.OpRename? && op.newDir.None?) || (op.OpLink? && op.target.None?)
  }

  lemma CanRemoveIff(t: Tree, p: Path)
    ensures RemoveTree(t, p).Some? <==> CanRemove(t, p)
  {
    HasChildIff(t, p);
  }

  lemma CanMoveIff(t: Tree, src: Path, dst: Path)
    requires WellFormed(t)
    ensures RenameTree(t, src, dst).Some? <==> CanMove(t, src, dst)
  {
    HasChildIff(t, dst);
    if dst in t && t[dst] == File {
      NothingBelowFile(t, dst, dst);
    }
    if src in t && t[src] == File && dst in t && dst != src && Under(src, dst) {
      AncestorIsDir(t, src, dst);
    }
  }

  /** Why a call is refused: the first of four reasons that applies. */
  ghost function Reason(s: Fs, op: Op): Option<Errno> {
    if s.unmounting then Some(ENOTCONN)
    else if ForeignNode(op) then Some(EINVAL)
    else if op.OpLink? && !s.linkable then Some(ENOTSUP)
    else if !Served(s, op) then Some(EBackend)
    else None
  }

  ghost predicate AnswersReason(s: Fs, op: Op) {
    var answer := Apply(s, op).1;
    match Reason(s, op)
    case None => !answer.Refused?
    case Some(errno) => answer == Refused(errno)
  }

  lemma RemovalReason(s: Fs, op: Op)
    requires op.OpUnlink? || op.OpRmdir?
    ensures AnswersReason(s, op)
  {
    CanRemoveIff(s.tree, Join(op.dir, op.name));
    hide RemoveTree, CanRemove, S.Delete;
  }

  lemma RenameReason(s: Fs, op: Op)
    requires WellFormed(s.tree) && op.OpRename?
    ensures AnswersReason(s, op)
  {
    if op.newDir.Some? { CanMoveIff(s.tree, Join(op.dir, op.name), Join(op.newDir.value, op.newName)); }
    hide RenameTree, CanMove, S.Delete, WellFormed;
  }

  lemma MakingReason(s: Fs, op: Op)
    requires op.OpCreate? || op.OpMkdir? || op.OpLink? || op.OpOpen?
    ensures AnswersReason(s, op)
  {
    hide S.Delete, I.GetInode;
  }

  lemma ReadingReason(s: Fs, op: Op)
    requires op.OpLookup? || op.OpGetattr? || op.OpSetattr? || op.OpReaddir?
    ensures AnswersReason(s, op)
  {
    hide S.Get, S.Put, I.GetInode, Enter;
  }

  /** Every call is refused for exactly one of four reasons, the first that applies: the adapter
      is being unmounted, the call names a foreign node, the file system has no links, or the
      file system does not do what is asked. */
  lemma RefusedIff(s: Fs, op: Op)
    requires WellFormed(s.tree) && !op.OpLock? && !op.OpRelease? && !op.OpUnmount?
    ensures var answer := Apply(s, op).1;
            var noLinks := op.OpLink? && !s.linkable;
            && (answer.Refused? <==> s.unmounting || ForeignNode(op) || noLinks || !Served(s, op))
            && (answer.Refused? ==> answer.errno == if s.unmounting then ENOTCONN
                                                    else if ForeignNode(op) then EINVAL
                                                    else if noLinks then ENOTSUP
                                                    else EBackend)
  {
    if op.OpUnlink? || op.OpRmdir? {
      RemovalReason(s, op);
    } else if op.OpRename? {
      RenameReason(s, op);
    } else if op.OpCreate? || op.OpMkdir? || op.OpLink? || op.OpOpen? {
      MakingReason(s, op);
    } else {
      ReadingReason(s, op);
    }
    hide Apply, Served, ForeignNode, WellFormed;
  }

  /** The form of the answer of a call that is not refused. */
  predicate Fits(op: Op, answer: Answer) {
    match op
    case OpLookup(_, _, _, _) => answer.Entry?
    case OpGetattr(_, _, _, _, _, _) => answer.Entry? || answer.Cached?
    case OpSetattr(_, _, _, _, _, _, _) => answer.Entry? || answer.Cached?
    case OpReaddir(_, _, _, _, _, _) => answer.Listing?
    case OpCreate(_, _, _, _, _, _) => answer.Created?
    case OpMkdir(_, _, _, _, _) => answer.Entry?
    case OpLink(_, _, _, _, _, _) => answer.Entry?
    case OpOpen(_, _, _) => answer.Opened?
    case OpLock(_, _, _, Getlk(_)) => answer.Probed?
    case _ => answer == Done
  }

  lemma AnswerFits(s: Fs, op: Op)
    ensures Apply(s, op).1.Refused? || Fits(op, Apply(s, op).1)
    ensures op.OpGetattr? || op.OpSetattr? ==> (Apply(s, op).1.Cached? ==> !Misses(s, op))
  {
    hide S.Get, S.Put, S.Delete, S.Clear, I.GetInode, I.Clear, Enter, L.Apply, L.Getlk, H.Files, H.Forget,
      OpenTree, MkdirTree, RemoveTree, RenameTree, LinkTree;
  }

  /** Exactly the calls that answer a number of their own give their path a number. Readdir does so
      for what it lists when it has to build the listing, and Unmount forgets all numbers. */
  lemma NumberedIff(s: Fs, op: Op)
    ensures var (t, answer) := Apply(s, op);
            if op.OpUnmount? then t.inodes == I.Clear(s.inodes)
            else if op.OpReaddir? then
              t.inodes == if answer.Listing? && Misses(s, op) then Enter(s.inodes, op.dir, op.infos).0 else s.inodes
            else if answer.Entry? || answer.Created? then
              && (op.OpLookup? || op.OpGetattr? || op.OpSetattr? || op.OpCreate? || op.OpMkdir? || op.OpLink?)
              && var p := if op.OpGetattr? || op.OpSetattr? then op.path else Join(op.dir, op.name);
                 (t.inodes, if answer.Entry? then answer.ino else answer.newIno) == I.GetInode(s.inodes, p, op.meta)
            else t.inodes == s.inodes
  {
    hide S.Get, S.Put, S.Delete, S.Clear, I.GetInode, I.Clear, Enter, L.Apply, L.Getlk, H.Files, H.Forget,
      OpenTree, MkdirTree, RemoveTree, RenameTree, LinkTree;
  }

  /** Only Unmount starts unmounting, and whether links exist is settled when mounting. */
  lemma MountKept(s: Fs, op: Op)
    ensures Apply(s, op).0.unmounting == (s.unmounting || op.OpUnmount?)
    ensures Apply(s, op).0.linkable == s.linkable
  {
    hide S.Get, S.Put, S.Delete, S.Clear, I.GetInode, I.Clear, Enter, L.Apply, L.Getlk, H.Files, H.Forget,
      OpenTree, MkdirTree, RemoveTree, RenameTree, LinkTree;
  }

  /** In every run the adapter is unmounting exactly when Unmount was called, and has links exactly
      when it was mounted with them. */
  lemma {:induction false} MountedAs(tree: Tree, opts: Options, ops: seq<Op>)
    ensures var s := After(Mounted(tree, opts), ops);
            s.linkable == opts.linkable && (s.unmounting <==> exists op | op in ops :: op.OpUnmount?)
  {
    if ops != [] {
      var init, last := ops[..|ops| - 1], ops[|ops| - 1];
      MountedAs(tree, opts, init);
      hide Apply;
      MountKept(After(Mounted(tree, opts), init), last);
      assert ops == init + [last];
    }
  }

  // ---------- The tree ----------

  /** The call makes a name that did not exist, whatever Stat reports about it afterwards. */
  ghost predicate Makes(s: Fs, op: Op) {
    match op
    case OpCreate(d, n, _, f, _, _) => !s.unmounting && !f && CanMake(s.tree, Join(d, n))
    case OpMkdir(d, n, f, _, _) => !s.unmounting && !f && CanMake(s.tree, Join(d, n))
    case OpLink(d, t, n, f, _, _) =>
      !s.unmounting && t.Some? && s.linkable && !f && CanLink(s.tree, t.value, Join(d, n))
    case OpOpen(p, fl, f) => !s.unmounting && !f && fl.create && CanMake(s.tree, p)
    case _ => false
  }

  function MadePath(op: Op): Path
    requires op.OpCreate? || op.OpMkdir? || op.OpLink? || op.OpOpen?
  {
    if op.OpOpen? then op.path else Join(op.dir, op.name)
  }

  /** Everything that was at or below `src` is at or below `dst` instead, and all else is as before. */
  ghost predicate IsMoved(t: Tree, src: Path, dst: Path, t': Tree) {
    && (forall rest: Path :: dst + rest in t' <==> src + rest in t)
    && (forall rest: Path :: src + rest in t ==> dst + rest in t' && t'[dst + rest] == t[src + rest])
    && (forall q :: Under(src, q) ==> q !in t')
    && (forall q :: !Under(src, q) && !Under(dst, q) ==> (q in t' <==> q in t) && (q in t ==> t'[q] == t[q]))
  }

  lemma MovedIsMoved(t: Tree, src: Path, dst: Path)
    requires WellFormed(t) && RenameTree(t, src, dst).Some? && src != dst
    ensures IsMoved(t, src, dst, Moved(t, src, dst))
  {
    RenameApart(t, src, dst);
    hide Moved, RenameTree;
    var t' := Moved(t, src, dst);
    forall rest: Path
      ensures dst + rest in t' <==> src + rest in t
      ensures src + rest in t ==> dst + rest in t' && t'[dst + rest] == t[src + rest]
    {
      MovedMember(t, src, dst, dst + rest);
      assert Under(dst, dst + rest) && (dst + rest)[|dst|..] == rest;
    }
    forall q ensures (Under(src, q) ==> q !in t')
                     && (!Under(src, q) && !Under(dst, q) ==> (q in t' <==> q in t) && (q in t ==> t'[q] == t[q]))
    {
      MovedMember(t, src, dst, q);
      NotUnderBoth(src, dst, q);
    }
  }

  lemma RenameEffect(s: Fs, d: Path, n: string, nd: Path, nn: string, fault: bool)
    requires WellFormed(s.tree) && Rename(s, d, n, Some(nd), nn, fault).1 == Done
    ensures var t := Rename(s, d, n, Some(nd), nn, fault).0;
            && !s.unmounting && !t.unmounting && Join(d, n) in s.tree
            && if Join(d, n) == Join(nd, nn) then t.tree == s.tree
               else IsMoved(s.tree, Join(d, n), Join(nd, nn), t.tree)
  {
    var src, dst := Join(d, n), Join(nd, nn);
    if src != dst {
      MovedIsMoved(s.tree, src, dst);
      RenameApart(s.tree, src, dst);
    }
    hide Moved, S.Delete, IsMoved, HasChild;
  }

  lemma StillTree(s: Fs, op: Op)
    requires op.OpLookup? || op.OpGetattr? || op.OpSetattr? || op.OpReaddir? || op.OpLock? || op.OpRelease?
             || op.OpUnmount?
    ensures Apply(s, op).0.tree == s.tree
  {
    hide S.Get, S.Put, S.Clear, I.GetInode, I.Clear, Enter, L.Apply, L.Getlk, H.Files;
  }

  lemma CreateTree(s: Fs, d: Path, n: string, fl: OpenFlags, f: bool, sf: bool, m: I.Meta)
    ensures Create(s, d, n, fl, f, sf, m).0.tree
            == if !s.unmounting && !f && CanMake(s.tree, Join(d, n)) then s.tree[Join(d, n) := File] else s.tree
  {
    hide S.Delete, I.GetInode;
  }

  lemma DirTree(s: Fs, d: Path, n: string, f: bool, sf: bool, m: I.Meta)
    ensures Mkdir(s, d, n, f, sf, m).0.tree
            == if !s.unmounting && !f && CanMake(s.tree, Join(d, n)) then s.tree[Join(d, n) := Dir] else s.tree
  {
    hide S.Delete, I.GetInode;
  }

  lemma LinkedTree(s: Fs, d: Path, target: Option<Path>, n: string, f: bool, sf: bool, m: I.Meta)
    ensures Link(s, d, target, n, f, sf, m).0.tree
            == if !s.unmounting && target.Some? && s.linkable && !f && CanLink(s.tree, target.value, Join(d, n))
               then s.tree[Join(d, n) := File] else s.tree
  {
    hide S.Delete, I.GetInode;
  }

  lemma OpenedTree(s: Fs, p: Path, fl: OpenFlags, f: bool)
    ensures Open(s, p, fl, f).0.tree
            == if !s.unmounting && !f && fl.create && CanMake(s.tree, p) then s.tree[p := File] else s.tree
  {
  }

  lemma MadeTree(s: Fs, op: Op)
    requires op.OpCreate? || op.OpMkdir? || op.OpLink? || op.OpOpen?
    ensures Apply(s, op).0.tree
            == if Makes(s, op) then s.tree[MadePath(op) := if op.OpMkdir? then Dir else File] else s.tree
  {
    hide Create, Mkdir, Link, Open, CanMake, CanLink;
    match op
    case OpCreate(d, n, fl, f, sf, m) => CreateTree(s, d, n, fl, f, sf, m);
    case OpMkdir(d, n, f, sf, m) => DirTree(s, d, n, f, sf, m);
    case OpLink(d, t, n, f, sf, m) => LinkedTree(s, d, t, n, f, sf, m);
    case OpOpen(p, fl, f) => OpenedTree(s, p, fl, f);
  }

  /** What every call does to the tree: a made name is added with its kind, a removed one taken
      away, a renamed subtree moved, and nothing else ever changes. */
  lemma TreeEffect(s: Fs, op: Op)
    requires WellFormed(s.tree)
    ensures var (t, answer) := Apply(s, op);
            if op.OpUnlink? || op.OpRmdir? then
              t.tree == if answer == Done then s.tree - {Join(op.dir, op.name)} else s.tree
            else if op.OpRename? && answer == Done && Join(op.dir, op.name) != Join(op.newDir.value, op.newName) then
              IsMoved(s.tree, Join(op.dir, op.name), Join(op.newDir.value, op.newName), t.tree)
            else t.tree == if Makes(s, op) then s.tree[MadePath(op) := if op.OpMkdir? then Dir else File] else s.tree
  {
    if op.OpRename? {
      if op.newDir.Some? && Apply(s, op).1 == Done {
        RenameEffect(s, op.dir, op.name, op.newDir.value, op.newName, op.fault);
      }
      hide RenameTree, S.Delete, IsMoved;
    } else if op.OpUnlink? || op.OpRmdir? {
      hide HasChild, S.Delete;
    } else if op.OpCreate? || op.OpMkdir? || op.OpLink? || op.OpOpen? {
      MadeTree(s, op);
      hide Apply, Makes;
    } else {
      StillTree(s, op);
      hide Apply;
    }
  }

  lemma RemoveStep(s: Fs, d: Path, n: string, fault: bool)
    requires WellFormed(s.tree)
    ensures WellFormed(AdapterSpec.Remove(s, d, n, fault).0.tree)
  {
    if RemoveTree(s.tree, Join(d, n)).Some? { RemoveKeepsWellFormed(s.tree, Join(d, n)); }
    hide WellFormed, S.Delete, HasChild;
  }

  lemma RenameStep(s: Fs, d: Path, n: string, nd: Option<Path>, nn: string, fault: bool)
    requires WellFormed(s.tree)
    ensures WellFormed(Rename(s, d, n, nd, nn, fault).0.tree)
  {
    if nd.Some? && RenameTree(s.tree, Join(d, n), Join(nd.value, nn)).Some? {
      RenameKeepsWellFormed(s.tree, Join(d, n), Join(nd.value, nn));
    }
    hide WellFormed, S.Delete, RenameTree;
  }

  lemma MakesCan(s: Fs, op: Op)
    requires Makes(s, op)
    ensures (op.OpCreate? || op.OpMkdir? || op.OpLink? || op.OpOpen?) && CanMake(s.tree, MadePath(op))
  {
  }

  lemma MakeStep(s: Fs, op: Op)
    requires WellFormed(s.tree) && !op.OpRename? && !op.OpUnlink? && !op.OpRmdir?
    ensures WellFormed(Apply(s, op).0.tree)
  {
    TreeEffect(s, op);
    if Makes(s, op) {
      MakesCan(s, op);
      AddKeepsWellFormed(s.tree, MadePath(op), if op.OpMkdir? then Dir else File);
    }
    hide Apply, Makes, WellFormed;
  }

  /** Whatever is called, everything that exists lies in a directory. */
  lemma StepKeepsWellFormed(s: Fs, op: Op)
    requires WellFormed(s.tree)
    ensures WellFormed(Apply(s, op).0.tree)
  {
    match op
    case OpRename(d, n, nd, nn, f) =>
      RenameStep(s, d, n, nd, nn, f);
      hide Rename, WellFormed;
    case OpUnlink(d, n, f) =>
      RemoveStep(s, d, n, f);
      hide AdapterSpec.Remove, WellFormed;
    case OpRmdir(d, n, f) =>
      RemoveStep(s, d, n, f);
      hide AdapterSpec.Remove, WellFormed;
    case _ =>
      MakeStep(s, op);
  }

  lemma {:induction false} RunsKeepWellFormed(s: Fs, ops: seq<Op>)
    requires WellFormed(s.tree)
    ensures WellFormed(After(s, ops).tree)
  {
    if ops != [] {
      RunsKeepWellFormed(s, ops[..|ops| - 1]);
      hide Apply;
      StepKeepsWellFormed(After(s, ops[..|ops| - 1]), ops[|ops| - 1]);
    }
  }

  /** A refused call leaves the tree as it was exactly unless it had already made its name: when
      only Stat fails, Create, Mkdir and Link report an error and what they made stays. */
  lemma RefusedKeepsTreeIff(s: Fs, op: Op)
    requires WellFormed(s.tree) && Apply(s, op).1.Refused?
    ensures Apply(s, op).0.tree == s.tree <==> !Makes(s, op)
  {
    TreeEffect(s, op);
    hide Apply;
    if Makes(s, op) {
      assert MadePath(op) !in s.tree;
    }
  }

  // ---------- Open files ----------

  /** The call gets a file opened. */
  ghost predicate Opens(s: Fs, op: Op) {
    && !s.unmounting
    && match op
       case OpOpen(p, fl, f) => !f && CanOpen(s.tree, p, fl.create, fl.excl)
       case OpCreate(d, n, fl, f, _, _) => !f && CanOpen(s.tree, Join(d, n), true, fl.excl)
       case OpReaddir(d, _, _, of, _, _) => Misses(s, op) && !of && d in s.tree
       case _ => false
  }

  /** Exactly which calls open a file, which of those hand out a handle, and which close it again:
      Open and a Create whose Stat succeeds hand it out, all others close it once. */
  lemma FilesEffect(s: Fs, op: Op)
    requires !op.OpRelease? && !op.OpUnmount?
    ensures var (t, answer) := Apply(s, op);
            var handed := Opens(s, op) && (op.OpOpen? || (op.OpCreate? && !op.statFault));
            && t.opens == s.opens + (if Opens(s, op) then 1 else 0)
            && (HandleOf(answer).Some? <==> handed)
            && t.handles == (if handed then H.Add(s.handles, OpenedBy(s, op)).0 else s.handles)
            && t.closes == s.closes + (if Opens(s, op) && !handed then multiset{s.opens} else multiset{})
  {
    if op.OpReaddir? || op.OpCreate? || op.OpOpen? {
      hide S.Get, S.Put, S.Delete, I.GetInode, Enter;
    } else {
      QuietShape(s, op);
      hide Apply;
    }
  }

  /** Create, once the file is open: Stat decides. When it fails the file is closed again and no
      handle is handed out; otherwise nothing is closed and one handle is. */
  lemma CreatedIffStat(s: Fs, d: Path, n: string, flags: OpenFlags, statFault: bool, meta: I.Meta)
    requires !s.unmounting && CanOpen(s.tree, Join(d, n), true, flags.excl)
    ensures var (t, answer) := Create(s, d, n, flags, false, statFault, meta);
            && Join(d, n) in t.tree && t.tree[Join(d, n)] == File
            && (answer.Created? <==> !statFault) && (statFault ==> answer == Refused(EBackend))
            && t.closes == (if statFault then s.closes + multiset{s.opens} else s.closes)
            && t.handles.live ==
                 if statFault then s.handles.live
                 else s.handles.live[answer.newHandle := H.OpenFile(s.opens, flags.(create := true), Join(d, n))]
  {
    hide S.Delete, I.GetInode;
  }

  // ---------- What the next calls see ----------

  /** After a successful Unlink or Rmdir the name is not found and not listed. */
  lemma RemovedIsGone(s: Fs, op: Op, statFault: bool, meta: I.Meta,
                      now: int, later: int, of: bool, rf: bool, infos: seq<FileInfo>)
    requires Sound(s) && Coherent(s) && (op.OpUnlink? || op.OpRmdir?) && Apply(s, op).1 == Done
    requires Honest(Apply(s, op).0, OpReaddir(op.dir, now, later, of, rf, infos))
    ensures var t := Apply(s, op).0;
            && Lookup(t, op.dir, op.name, statFault, meta).1 == Refused(EBackend)
            && var listed := Readdir(t, op.dir, now, later, of, rf, infos).1;
               listed.Listing? ==> forall e | e in listed.entries :: e.name != op.name
  {
    TreeEffect(s, op);
    StepCoherentIff(s, op);
    hide Readdir, S.Delete;
    ReaddirCoherent(Apply(s, op).0, op.dir, now, later, of, rf, infos);
  }

  lemma MadeIsFound(s: Fs, op: Op)
    requires (op.OpCreate? || op.OpMkdir? || op.OpLink?) && !Apply(s, op).1.Refused?
    ensures var (t, answer) := Apply(s, op);
            Lookup(t, op.dir, op.name, false, op.meta) == (t, Entry(if op.OpCreate? then answer.newIno else answer.ino))
  {
    hide S.Delete;
  }

  lemma ListedWithKind(entries: seq<DirEntry>, t: Tree, d: Path, n: string)
    requires Lists(entries, t, d) && Join(d, n) in t
    ensures exists e | e in entries :: e.name == n && e.kind == t[Join(d, n)]
  {
  }

  /** After a successful Create, Mkdir or Link the name is found, under the number answered, and
      listed with its kind. */
  lemma MadeIsThere(s: Fs, op: Op, now: int, later: int, of: bool, rf: bool, infos: seq<FileInfo>)
    requires Sound(s) && Coherent(s) && (op.OpCreate? || op.OpMkdir? || op.OpLink?) && !Apply(s, op).1.Refused?
    requires Honest(Apply(s, op).0, OpReaddir(op.dir, now, later, of, rf, infos))
    ensures var (t, answer) := Apply(s, op);
            && Lookup(t, op.dir, op.name, false, op.meta)
               == (t, Entry(if op.OpCreate? then answer.newIno else answer.ino))
            && var listed := Readdir(t, op.dir, now, later, of, rf, infos).1;
               listed.Listing? ==> exists e | e in listed.entries ::
                                     e.name == op.name && e.kind == if op.OpMkdir? then Dir else File
  {
    var t, p := Apply(s, op).0, Join(op.dir, op.name);
    RefusedIff(s, op);
    TreeEffect(s, op);
    StepCoherentIff(s, op);
    ReaddirCoherent(t, op.dir, now, later, of, rf, infos);
    MadeIsFound(s, op);
    hide Apply, Readdir, Lookup, S.Delete, Lists, Coherent, Sound;
    assert p in t.tree && t.tree[p] == if op.OpMkdir? then Dir else File;
    var listed := Readdir(t, op.dir, now, later, of, rf, infos).1;
    if listed.Listing? { ListedWithKind(listed.entries, t.tree, op.dir, op.name); }
  }

  lemma FoundIff(s: Fs, d: Path, n: string, statFault: bool, meta: I.Meta)
    requires !s.unmounting
    ensures var answer := Lookup(s, d, n, statFault, meta).1;
            if statFault || Join(d, n) !in s.tree then answer == Refused(EBackend) else answer.Entry?
  {
  }

  lemma MovedEnds(t: Tree, src: Path, dst: Path, t': Tree)
    requires IsMoved(t, src, dst, t') && src in t
    ensures dst in t' && src !in t'
  {
    assert src + [] == src && dst + [] == dst && Under(src, src);
  }

  /** After a successful Rename to another name the old name is not found and the new one is. */
  lemma RenamedIsFound(s: Fs, d: Path, n: string, nd: Path, nn: string, fault: bool, statFault: bool, meta: I.Meta)
    requires Sound(s) && Rename(s, d, n, Some(nd), nn, fault).1 == Done && Join(d, n) != Join(nd, nn)
    ensures var t := Rename(s, d, n, Some(nd), nn, fault).0;
            && Lookup(t, d, n, statFault, meta).1 == Refused(EBackend)
            && Lookup(t, nd, nn, false, meta).1.Entry?
  {
    var t := Rename(s, d, n, Some(nd), nn, fault).0;
    RenameEffect(s, d, n, nd, nn, fault);
    hide IsMoved, Rename, Lookup;
    MovedEnds(s.tree, Join(d, n), Join(nd, nn), t.tree);
    FoundIff(t, d, n, statFault, meta);
    FoundIff(t, nd, nn, false, meta);
  }

  // ---------- Undoing ----------

  lemma RemoveNew(t: Fs, before: Tree, d: Path, n: string, kind: Kind)
    requires !t.unmounting && WellFormed(before) && CanMake(before, Join(d, n)) && t.tree == before[Join(d, n) := kind]
    ensures var r := AdapterSpec.Remove(t, d, n, false); r.1 == Done && r.0.tree == before
  {
    var p := Join(d, n);
    assert CanRemove(t.tree, p) by {
      forall m ensures Join(p, m) !in t.tree { JoinParent(p, m); }
    }
    CanRemoveIff(t.tree, p);
    hide HasChild, CanRemove, S.Delete;
    assert before[p := kind] - {p} == before;
  }

  lemma MakesShape(s: Fs, op: Op)
    requires (op.OpCreate? || op.OpMkdir? || op.OpLink?) && Makes(s, op)
    ensures CanMake(s.tree, Join(op.dir, op.name)) && !s.unmounting && !Apply(s, op).0.unmounting
  {
    hide S.Delete, I.GetInode, OpenTree, MkdirTree, LinkTree;
  }

  /** Removing what Create, Mkdir or Link has just made gives the old tree back, even when the
      call itself reported an error. */
  lemma RemoveUndoesMake(s: Fs, op: Op)
    requires WellFormed(s.tree) && (op.OpCreate? || op.OpMkdir? || op.OpLink?) && Makes(s, op)
    ensures var (t, answer) := AdapterSpec.Remove(Apply(s, op).0, op.dir, op.name, false);
            answer == Done && t.tree == s.tree
  {
    MadeTree(s, op);
    MakesShape(s, op);
    hide Apply, Makes, CanMake, AdapterSpec.Remove;
    RemoveNew(Apply(s, op).0, s.tree, op.dir, op.name, if op.OpMkdir? then Dir else File);
  }

  lemma MoveBackAt(t: Tree, src: Path, dst: Path, q: Path)
    requires !Under(src, dst) && !Under(dst, src) && forall p | p in t :: !Under(dst, p)
    ensures var back := Moved(Moved(t, src, dst), dst, src);
            (q in back <==> q in t) && (q in t ==> back[q] == t[q])
  {
    hide Moved;
    var t' := Moved(t, src, dst);
    MovedMember(t', dst, src, q);
    MovedMember(t, src, dst, q);
    if Under(src, q) {
      var rest := q[|src|..];
      assert q == src + rest && (dst + rest)[|dst|..] == rest;
      MovedMember(t, src, dst, dst + rest);
    }
  }

  lemma MoveBack(t: Tree, src: Path, dst: Path)
    requires WellFormed(t) && RenameTree(t, src, dst).Some? && dst !in t
    ensures RenameTree(Moved(t, src, dst), dst, src) == Some(t)
  {
    RenameApart(t, src, dst);
    var t' := Moved(t, src, dst);
    var back := Moved(t', dst, src);
    forall q ensures (q in back <==> q in t) && (q in t ==> back[q] == t[q]) { MoveBackAt(t, src, dst, q); }
    assert back == t;
    MovedMember(t, src, dst, dst);
    MovedMember(t, src, dst, src);
    MovedMember(t, src, dst, Parent(src));
    UnderParent(src, src);
    UnderParent(dst, src);
    assert src + dst[|dst|..] == src;
    hide Moved, HasChild;
    assert RenameTree(t', dst, src) == Some(back);
  }

  /** Renaming to a free name and back gives the old tree back. */
  lemma RenameUndoesRename(s: Fs, d: Path, n: string, nd: Path, nn: string, fault: bool)
    requires WellFormed(s.tree) && Rename(s, d, n, Some(nd), nn, fault).1 == Done && Join(nd, nn) !in s.tree
    ensures var (t, answer) := Rename(Rename(s, d, n, Some(nd), nn, fault).0, nd, nn, Some(d), n, false);
            answer == Done && t.tree == s.tree
  {
    var src, dst := Join(d, n), Join(nd, nn);
    JoinParent(d, n);
    JoinParent(nd, nn);
    MoveBack(s.tree, src, dst);
    RenameApart(s.tree, src, dst);
    hide RenameTree, Moved, S.Delete, WellFormed;
  }
}
