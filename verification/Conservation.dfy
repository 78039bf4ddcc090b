/** Open files over whole runs of the adapter: nothing is closed twice, nothing is closed
    while its handle lives, and nothing is lost. */
module Conservation {
  import opened Common
  import opened AdapterSpec
  import opened BackingFs
  import H = HandleSpec
  import I = InodeSpec
  import L = LockSpec
  import S = LruSpec

  /** The handle a call handed out, if any. */
  function HandleOf(a: Answer): Option<nat> {
    match a
    case Created(_, fh) => Some(fh)
    case Opened(fh) => Some(fh)
    case _ => None
  }

  /** The files numbered 0..n-1, once each. */
  function AllFiles(n: nat): multiset<nat> {
    if n == 0 then multiset{} else AllFiles(n - 1) + multiset{n - 1}
  }

  lemma {:induction false} EachFileOnce(n: nat, f: nat)
    ensures AllFiles(n)[f] == (if f < n then 1 else 0) && |AllFiles(n)| == n
  {
    if n > 0 {
      EachFileOnce(n - 1, f);
    }
  }

  /** Every file ever opened is either behind exactly one live handle or has been closed
      exactly once. */
  ghost predicate Conserved(s: Fs) {
    && s.closes + H.Files(s.handles.live) == AllFiles(s.opens)
    && (forall fh | fh in s.handles.live :: 0 < fh <= s.handles.next)
    && (s.unmounting ==> s.handles.live == map[])
  }

  lemma NextFile(n: nat)
    ensures AllFiles(n + 1) == AllFiles(n) + multiset{n}
  {
  }

  /** What a handle handed out by Create or Open stands for: the next file, with its flags and path. */
  function OpenedBy(s: Fs, op: Op): H.OpenFile
    requires op.OpCreate? || op.OpOpen?
  {
    if op.OpCreate? then H.OpenFile(s.opens, op.flags.(create := true), Join(op.dir, op.name))
    else H.OpenFile(s.opens, op.flags, op.path)
  }

  /** The calls that open, close and hand out nothing. */
  lemma QuietShape(s: Fs, op: Op)
    requires !op.OpReaddir? && !op.OpCreate? && !op.OpOpen? && !op.OpRelease? && !op.OpUnmount?
    ensures var r := Apply(s, op);
            && r.0.unmounting == s.unmounting && HandleOf(r.1).None?
            && r.0.handles == s.handles && r.0.opens == s.opens && r.0.closes == s.closes
            && (s.unmounting && !op.OpLock? ==> r == (s, Refused(ENOTCONN)))
            && (op.OpLock? ==> r.0 == s.(locks := r.0.locks))
  {
    hide S.Get, S.Put, S.Delete, I.GetInode, L.Apply, L.Getlk, MkdirTree, RemoveTree, RenameTree, LinkTree;
  }

  /** What a handler other than Release and Unmount does to files and handles: nothing, or
      open a file and close it again, or open a file and hand out a handle for it. */
  lemma HandlerShape(s: Fs, op: Op)
    requires !op.OpRelease? && !op.OpUnmount?
    ensures var r := Apply(s, op);
            && r.0.unmounting == s.unmounting
            && (|| (r.0.handles == s.handles && r.0.opens == s.opens && r.0.closes == s.closes && HandleOf(r.1).None?)
                || (&& !s.unmounting && r.0.handles == s.handles && HandleOf(r.1).None?
                    && r.0.opens == s.opens + 1 && r.0.closes == s.closes + multiset{s.opens})
                || (&& !s.unmounting && (op.OpCreate? || op.OpOpen?)
                    && r.0.handles == H.Add(s.handles, OpenedBy(s, op)).0
                    && HandleOf(r.1) == Some(s.handles.next + 1)
                    && r.0.opens == s.opens + 1 && r.0.closes == s.closes))
    ensures s.unmounting && !op.OpLock? ==> Apply(s, op) == (s, Refused(ENOTCONN))
    ensures op.OpLock? ==> Apply(s, op).0 == s.(locks := Apply(s, op).0.locks)
  {
    if op.OpReaddir? || op.OpCreate? || op.OpOpen? {
      hide S.Get, S.Put, S.Delete, I.GetInode, Enter, OpenTree;
    } else {
      QuietShape(s, op);
      hide Apply;
    }
  }

  lemma ShapeConserves(s: Fs, t: Fs)
    requires Conserved(s) && t.unmounting == s.unmounting
    requires AllFiles(s.opens + 1) == AllFiles(s.opens) + multiset{s.opens}
    requires || (t.handles == s.handles && t.opens == s.opens && t.closes == s.closes)
             || (t.handles == s.handles && t.opens == s.opens + 1 && t.closes == s.closes + multiset{s.opens})
             || (&& !s.unmounting && t.handles.next == s.handles.next + 1
                 && (exists f: H.OpenFile :: f.file == s.opens && t.handles == H.Add(s.handles, f).0)
                 && t.opens == s.opens + 1 && t.closes == s.closes)
    ensures Conserved(t)
  {
    hide H.Files, AllFiles;
    if f: H.OpenFile :| f.file == s.opens && t.handles == H.Add(s.handles, f).0 {
      H.FilesAdd(s.handles.live, s.handles.next + 1, f);
    }
  }

  lemma HandlerConserves(s: Fs, op: Op)
    requires Conserved(s) && !op.OpRelease? && !op.OpUnmount?
    ensures Conserved(Apply(s, op).0)
  {
    HandlerShape(s, op);
    hide *;
    NextFile(s.opens);
    ShapeConserves(s, Apply(s, op).0);
  }

  lemma ReleaseConserves(s: Fs, fh: nat, closeError: Errno)
    requires Conserved(s)
    ensures Conserved(Release(s, fh, closeError).0)
  {
    hide H.Files, AllFiles, L.Apply;
    if fh in s.handles.live {
      H.FilesRemove(s.handles.live, fh);
    }
  }

  lemma UnmountConserves(s: Fs, serverError: Errno)
    requires Conserved(s)
    ensures Conserved(Unmount(s, serverError).0)
  {
    hide H.Files, AllFiles, I.Clear, S.Clear;
    H.FilesSize(map[]);
    assert Unmount(s, serverError).0.closes + H.Files(map[]) == s.closes + H.Files(s.handles.live);
  }

  lemma StepConserves(s: Fs, op: Op)
    requires Conserved(s)
    ensures Conserved(Apply(s, op).0)
  {
    if op.OpRelease? {
      hide Release, Conserved;
      ReleaseConserves(s, op.fh, op.closeError);
    } else if op.OpUnmount? {
      hide Unmount, Conserved;
      UnmountConserves(s, op.serverError);
    } else {
      hide *;
      HandlerConserves(s, op);
    }
  }

  lemma {:induction false} RunsConserve(s: Fs, ops: seq<Op>)
    requires Conserved(s)
    ensures Conserved(After(s, ops))
  {
    if ops != [] {
      RunsConserve(s, ops[..|ops| - 1]);
      StepConserves(After(s, ops[..|ops| - 1]), ops[|ops| - 1]);
    }
  }

  lemma MountedConserves(tree: Tree, opts: Options)
    ensures Conserved(Mounted(tree, opts))
  {
    H.FilesSize(map[]);
  }

  /** In every run: a file is closed at most once, never while a handle stands for it, two
      handles never share a file, and opened files are the live handles plus the closed files. */
  lemma FilesAreConserved(tree: Tree, opts: Options, ops: seq<Op>)
    ensures var s := After(Mounted(tree, opts), ops);
            && (forall f :: s.closes[f] <= 1)
            && (forall fh | fh in s.handles.live :: s.closes[s.handles.live[fh].file] == 0)
            && (forall a, b | a in s.handles.live && b in s.handles.live && a != b ::
                  s.handles.live[a].file != s.handles.live[b].file)
            && s.opens == |s.handles.live| + |s.closes|
            && (s.unmounting ==> |s.handles.live| == 0 && |s.closes| == s.opens)
  {
    MountedConserves(tree, opts);
    RunsConserve(Mounted(tree, opts), ops);
    var s := After(Mounted(tree, opts), ops);
    var live := s.handles.live;
    hide After, Mounted, H.Files, AllFiles;
    forall f ensures s.closes[f] + H.Files(live)[f] <= 1 {
      EachFileOnce(s.opens, f);
    }
    forall a | a in live ensures H.Files(live)[live[a].file] >= 1 { H.FilesRemove(live, a); }
    forall a, b | a in live && b in live && a != b ensures live[a].file != live[b].file {
      H.FilesRemove(live, a);
      H.FilesRemove(live - {a}, b);
    }
    H.FilesSize(live);
    EachFileOnce(s.opens, 0);
  }

  // ---------- Handle numbers ----------

  lemma StepGrows(s: Fs, op: Op)
    ensures s.handles.next <= Apply(s, op).0.handles.next
    ensures HandleOf(Apply(s, op).1).Some? ==>
              HandleOf(Apply(s, op).1).value == s.handles.next + 1 == Apply(s, op).0.handles.next
  {
    if !op.OpRelease? && !op.OpUnmount? {
      hide Apply;
      HandlerShape(s, op);
    }
  }

  lemma {:induction false} CounterGrows(s: Fs, ops: seq<Op>)
    ensures s.handles.next <= After(s, ops).handles.next
  {
    hide Apply;
    if ops != [] {
      CounterGrows(s, ops[..|ops| - 1]);
      StepGrows(After(s, ops[..|ops| - 1]), ops[|ops| - 1]);
    }
  }

  /** Handle numbers are never reused: a call later in the run, whatever was released or
      unmounted in between, never hands out an earlier handle. */
  lemma HandlesAreFresh(s: Fs, op: Op, between: seq<Op>, later: Op)
    requires HandleOf(Apply(s, op).1).Some?
    ensures HandleOf(Apply(After(Apply(s, op).0, between), later).1) != HandleOf(Apply(s, op).1)
  {
    hide Apply;
    StepGrows(s, op);
    CounterGrows(Apply(s, op).0, between);
    StepGrows(After(Apply(s, op).0, between), later);
  }

  /** An unmounted adapter: whatever is called, no handle is handed out, no file is opened or
      closed, and inodes and listings stay forgotten. */
  ghost predicate Unmounted(s: Fs) {
    && s.unmounting && s.handles.live == map[] && s.inodes == I.Clear(s.inodes)
    && s.attrs == S.Clear(s.attrs) && s.dirs == S.Clear(s.dirs)
  }

  lemma Idle(s: Fs, op: Op)
    requires Unmounted(s)
    ensures Apply(s, op).0 == s.(locks := Apply(s, op).0.locks) && HandleOf(Apply(s, op).1).None?
    ensures op.OpUnmount? ==> Apply(s, op).0 == s
  {
    hide L.Apply, L.Getlk;
    match op
    case OpRelease(_, _) =>
    case OpUnmount(_) => H.FilesSize(map[]);
    case _ => HandlerShape(s, op);
  }

  /** Unmount is final: from then on only the lock table can still change, no call hands out a
      handle, and a further Unmount changes nothing. */
  lemma {:induction false} UnmountIsFinal(s: Fs, serverError: Errno, ops: seq<Op>)
    ensures var u := Apply(s, OpUnmount(serverError)).0;
            var t := After(u, ops);
            && Unmounted(u) && t == u.(locks := t.locks)
            && (forall op :: HandleOf(Apply(t, op).1).None?)
            && (forall e :: Apply(t, OpUnmount(e)).0 == t)
  {
    var u := Apply(s, OpUnmount(serverError)).0;
    assert Unmounted(u);
    hide Apply;
    if ops != [] {
      UnmountIsFinal(s, serverError, ops[..|ops| - 1]);
      Idle(After(u, ops[..|ops| - 1]), ops[|ops| - 1]);
    }
    var t := After(u, ops);
    forall op ensures HandleOf(Apply(t, op).1).None? && (op.OpUnmount? ==> Apply(t, op).0 == t) {
      Idle(t, op);
    }
  }
}
