/** What the handles the adapter hands out stand for, and for how long. */
module HandlerFacts {
  import opened Common
  import opened AdapterSpec
  import opened Conservation
  import H = HandleSpec
  import L = LockSpec

  /** A handle stands for the file its call opened, with the flags and path it was opened with. */
  lemma HandleStandsForFile(s: Fs, op: Op)
    requires HandleOf(Apply(s, op).1).Some?
    ensures var fh := HandleOf(Apply(s, op).1).value;
            && (op.OpCreate? || op.OpOpen?)
            && fh in Apply(s, op).0.handles.live && Apply(s, op).0.handles.live[fh] == OpenedBy(s, op)
  {
    if !op.OpRelease? && !op.OpUnmount? {
      hide Apply;
      HandlerShape(s, op);
    }
  }

  lemma StepKeepsHandle(s: Fs, op: Op, fh: nat)
    requires Conserved(s) && fh in s.handles.live && !op.OpUnmount? && !(op.OpRelease? && op.fh == fh)
    ensures fh in Apply(s, op).0.handles.live && Apply(s, op).0.handles.live[fh] == s.handles.live[fh]
  {
    if !op.OpRelease? {
      hide Apply;
      HandlerShape(s, op);
    }
  }

  /** It keeps standing for that file until it is released or everything is unmounted. */
  lemma {:induction false} HandleStaysLive(s: Fs, ops: seq<Op>, fh: nat)
    requires Conserved(s) && fh in s.handles.live
    requires forall op | op in ops :: !op.OpUnmount? && !(op.OpRelease? && op.fh == fh)
    ensures fh in After(s, ops).handles.live && After(s, ops).handles.live[fh] == s.handles.live[fh]
  {
    if ops != [] {
      var init, last := ops[..|ops| - 1], ops[|ops| - 1];
      assert ops == init + [last];
      HandleStaysLive(s, init, fh);
      RunsConserve(s, init);
      hide Apply;
      StepKeepsHandle(After(s, init), last, fh);
    }
  }

  /** Closing a handle: a dead one is a bad handle and nothing is closed; a live one is forgotten
      and its file closed once, even when closing it fails, which is then what is answered. The
      other handles stay, and a second Release finds the handle dead. */
  lemma ReleaseOutcome(s: Fs, fh: nat, closeError: Errno, again: Errno)
    ensures var (t, answer) := Release(s, fh, closeError);
            && (fh !in s.handles.live ==> answer == Refused(EBADF) && t == s.(locks := t.locks))
            && (fh in s.handles.live ==>
                  && t == s.(locks := t.locks, handles := t.handles, closes := t.closes)
                  && t.closes == s.closes + multiset{s.handles.live[fh].file}
                  && fh !in t.handles.live && t.handles.next == s.handles.next
                  && (forall h :: h != fh ==> (h in t.handles.live <==> h in s.handles.live)
                                              && (h in s.handles.live ==> t.handles.live[h] == s.handles.live[h]))
                  && (closeError == OK <==> answer == Done) && (closeError != OK ==> answer == Refused(closeError)))
            && Release(t, fh, again).1 == Refused(EBADF)
  {
    hide L.Apply;
  }

  lemma OneFileEach(s: Fs, fh: nat)
    requires Conserved(s) && fh in s.handles.live
    ensures H.Files(s.handles.live)[s.handles.live[fh].file] <= 1
  {
    EachFileOnce(s.opens, s.handles.live[fh].file);
    assert (s.closes + H.Files(s.handles.live))[s.handles.live[fh].file] <= 1;
  }

  /** Unmount closes the file of every live handle, once, and answers what the server answers. */
  lemma UnmountOutcome(s: Fs, serverError: Errno)
    requires Conserved(s)
    ensures var (t, answer) := Unmount(s, serverError);
            && (forall fh | fh in s.handles.live ::
                  t.closes[s.handles.live[fh].file] == s.closes[s.handles.live[fh].file] + 1)
            && |t.closes| == |s.closes| + |s.handles.live|
            && (answer == if serverError == OK then Done else Refused(serverError))
  {
    var live := s.handles.live;
    hide Conserved, AllFiles, H.Files;
    H.FilesSize(live);
    forall fh | fh in live ensures H.Files(live)[live[fh].file] == 1 {
      H.FilesRemove(live, fh);
      OneFileEach(s, fh);
    }
  }
}
