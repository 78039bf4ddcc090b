/** The inode numbers in listings and answers: when they are the live numbers of their paths. */
module Numbering {
  import opened Common
  import opened BackingFs
  import opened AdapterSpec
  import opened Coherence
  import I = InodeSpec
  import L = LockSpec
  import S = LruSpec

  // ---------- Numbers in one answer ----------

  predicate IsLive(inodes: I.Inodes, p: Path, ino: nat) {
    p in inodes.byPath && inodes.byPath[p] == ino
  }

  lemma {:induction false} EnterKeepsGood(inodes: I.Inodes, d: Path, infos: seq<FileInfo>)
    requires I.Good(inodes)
    ensures I.Good(Enter(inodes, d, infos).0)
  {
    if infos != [] {
      var init, last := infos[..|infos| - 1], infos[|infos| - 1];
      EnterKeepsGood(inodes, d, init);
      I.GetInodeKeepsGood(Enter(inodes, d, init).0, Join(d, last.name), last.meta);
    }
  }

  lemma OtherPathsKeepNumbers(s: I.Inodes, p: Path, meta: I.Meta, q: Path)
    requires I.Good(s) && q != p && q in s.byPath
    ensures var t := I.GetInode(s, p, meta).0;
            q in t.byPath && t.byPath[q] == s.byPath[q]
            && forall m :: I.SameFile(s, s.byPath[q], m) ==> I.SameFile(t, s.byPath[q], m)
  {
  }

  /** Building a listing gives every entry the live number of its path, for the observation
      just made, although later entries may retire numbers. */
  lemma {:induction false} ListedNumbersAreLive(inodes: I.Inodes, d: Path, infos: seq<FileInfo>, k: nat)
    requires I.Good(inodes)
    requires k < |infos| && forall i, j :: 0 <= i < j < |infos| ==> infos[i].name != infos[j].name
    ensures var r := Enter(inodes, d, infos);
            IsLive(r.0, Join(d, infos[k].name), r.1[k].ino) && I.SameFile(r.0, r.1[k].ino, infos[k].meta)
  {
    var init, last := infos[..|infos| - 1], infos[|infos| - 1];
    EnterKeepsGood(inodes, d, init);
    var r := Enter(inodes, d, init);
    if k < |init| {
      ListedNumbersAreLive(inodes, d, init, k);
      assert Join(d, infos[k].name)[|d|] == infos[k].name && Join(d, last.name)[|d|] == last.name;
      OtherPathsKeepNumbers(r.0, Join(d, last.name), last.meta, Join(d, infos[k].name));
    }
  }

  /** The path a call looks up or makes. */
  function Named(op: Op): Path
    requires op.OpLookup? || op.OpCreate? || op.OpMkdir? || op.OpLink? || op.OpGetattr? || op.OpSetattr?
  {
    if op.OpGetattr? || op.OpSetattr? then op.path else Join(op.dir, op.name)
  }

  predicate Exists(s: Fs, p: Path, ino: nat) {
    p in s.tree && IsLive(s.inodes, p, ino)
  }

  /** Whoever answers a number that does not come from the attribute cache answers the live
      number of the path looked up or made. */
  lemma AnsweredNumberIsLive(s: Fs, op: Op)
    requires op.OpLookup? || op.OpCreate? || op.OpMkdir? || op.OpLink? || op.OpGetattr? || op.OpSetattr?
    ensures match Apply(s, op).1
            case Created(ino, _) => Exists(Apply(s, op).0, Named(op), ino)
            case Entry(ino) => Exists(Apply(s, op).0, Named(op), ino)
            case _ => true
  {
    hide S.Get, S.Put, S.Delete, RemoveTree, RenameTree;
  }

  // ---------- The maps over whole runs ----------

  /** The calls that number an existing path and leave all listings alone. */
  predicate Observes(op: Op) {
    op.OpLookup? || op.OpGetattr? || op.OpSetattr?
  }

  /** Such a call gets as far as numbering the path. */
  predicate Numbers(s: Fs, op: Op)
    requires Observes(op)
  {
    && !s.unmounting && !op.statFault && Named(op) in s.tree
    && (op.OpSetattr? ==> !op.fault)
    && (op.OpGetattr? || op.OpSetattr? ==> S.Get(s.attrs, op.path, op.now).1.None?)
  }

  lemma ObservesShape(s: Fs, op: Op)
    requires Observes(op)
    ensures var t := Apply(s, op).0;
            && t.dirs == s.dirs
            && t.inodes == if Numbers(s, op) then I.GetInode(s.inodes, Named(op), op.meta).0 else s.inodes
  {
    hide S.Get, S.Put, I.GetInode;
  }

  /** The other handlers take listings away, and number a path only after its directory's
      listing has gone. */
  lemma OtherCallsShape(s: Fs, op: Op)
    requires !Observes(op) && !op.OpReaddir? && !op.OpUnmount?
    ensures var t := Apply(s, op).0;
            || (t.inodes == s.inodes && forall it | it in t.dirs.items :: it in s.dirs.items)
            || (&& (op.OpCreate? || op.OpMkdir? || op.OpLink?)
                && t.inodes == I.GetInode(s.inodes, Join(op.dir, op.name), op.meta).0
                && t.dirs == S.Delete(s.dirs, op.dir))
  {
    hide I.GetInode, S.Without, L.Apply, L.Getlk, OpenTree, MkdirTree, RemoveTree, RenameTree, LinkTree;
  }

  lemma StepKeepsGood(s: Fs, op: Op)
    requires I.Good(s.inodes)
    ensures I.Good(Apply(s, op).0.inodes)
  {
    hide I.Good, I.GetInode, S.Get, S.Put;
    if Observes(op) {
      ObservesShape(s, op);
      hide Apply;
      I.GetInodeKeepsGood(s.inodes, Named(op), op.meta);
    } else if op.OpReaddir? {
      EnterKeepsGood(s.inodes, op.dir, op.infos);
    } else if op.OpUnmount? {
      I.ClearKeepsGood(s.inodes);
    } else {
      OtherCallsShape(s, op);
      hide Apply;
      if Apply(s, op).0.inodes != s.inodes {
        I.GetInodeKeepsGood(s.inodes, Join(op.dir, op.name), op.meta);
      }
    }
  }

  /** The maps stay consistent in every run of the adapter, whatever is looked up or listed. */
  lemma {:induction false} RunsKeepGood(tree: Tree, opts: Options, ops: seq<Op>)
    ensures I.Good(After(Mounted(tree, opts), ops).inodes)
  {
    if ops != [] {
      var init, last := ops[..|ops| - 1], ops[|ops| - 1];
      RunsKeepGood(tree, opts, init);
      StepKeepsGood(After(Mounted(tree, opts), init), last);
    }
  }

  // ---------- Numbers in cached listings ----------

  /** Every entry of every cached listing, expired or not, has the live number of its path. */
  ghost predicate ListingsLive(s: Fs) {
    forall it, e | it in s.dirs.items && e in it.value :: IsLive(s.inodes, Join(it.key, e.name), e.ino)
  }

  /** Some cached listing has an entry for the path. */
  ghost predicate Listed(s: Fs, p: Path) {
    exists it, e | it in s.dirs.items && e in it.value :: Join(it.key, e.name) == p
  }

  /** What a caller can check before a call to know that cached listings keep live numbers.
      Lookup, and Getattr or Setattr on an attribute-cache miss, break it when they observe a
      listed path with another modification time or size than recorded: the path gets a new
      number and the listing keeps the old one. */
  ghost predicate KeepsNumbers(s: Fs, op: Op) {
    Observes(op) && Numbers(s, op) && Listed(s, Named(op)) ==>
      && Named(op) in s.inodes.byPath
      && I.SameFile(s.inodes, s.inodes.byPath[Named(op)], op.meta)
  }

  lemma JoinInjective(d: Path, n: string, d': Path, n': string)
    ensures Join(d, n) == Join(d', n') ==> d == d' && n == n'
  {
    if Join(d, n) == Join(d', n') {
      assert d == Join(d, n)[..|Join(d, n)| - 1] && n == Join(d, n)[|Join(d, n)| - 1];
    }
  }

  /** Renumbering a path outside all cached listings leaves them live. */
  lemma OtherListingsLive(s: Fs, t: Fs, p: Path)
    requires ListingsLive(s) && (forall it | it in t.dirs.items :: it in s.dirs.items) && !Listed(t, p)
    requires forall q | q != p && q in s.inodes.byPath ::
               q in t.inodes.byPath && t.inodes.byPath[q] == s.inodes.byPath[q]
    ensures ListingsLive(t)
  {
    forall it, e | it in t.dirs.items && e in it.value ensures IsLive(t.inodes, Join(it.key, e.name), e.ino) {
      assert IsLive(s.inodes, Join(it.key, e.name), e.ino);
    }
  }

  lemma ObservesNumbersIff(s: Fs, op: Op)
    requires I.Good(s.inodes) && ListingsLive(s) && Observes(op)
    ensures ListingsLive(Apply(s, op).0) <==> KeepsNumbers(s, op)
  {
    ObservesShape(s, op);
    hide Apply, Numbers;
    var p, t := Named(op), Apply(s, op).0;
    if t.inodes != s.inodes {
      if Listed(s, p) {
        var it, e :| it in s.dirs.items && e in it.value && Join(it.key, e.name) == p;
        assert IsLive(s.inodes, p, e.ino) && t.inodes.byPath[p] == s.inodes.next + 1 > e.ino;
      } else {
        OtherListingsLive(s, t, p);
      }
    }
  }

  /** Building the listing of `d` renumbers nothing but children of `d`. */
  lemma {:induction false} EnterKeepsOthers(inodes: I.Inodes, d: Path, infos: seq<FileInfo>, p: Path, ino: nat)
    requires IsLive(inodes, p, ino) && p != [] && Parent(p) != d
    ensures IsLive(Enter(inodes, d, infos).0, p, ino)
  {
    if infos != [] {
      EnterKeepsOthers(inodes, d, infos[..|infos| - 1], p, ino);
      JoinParent(d, infos[|infos| - 1].name);
    }
  }

  lemma ReaddirNumbers(s: Fs, d: Path, now: int, later: int, of: bool, rf: bool, infos: seq<FileInfo>)
    requires I.Good(s.inodes) && ListingsLive(s) && Honest(s, OpReaddir(d, now, later, of, rf, infos))
    ensures var r := Readdir(s, d, now, later, of, rf, infos);
            && ListingsLive(r.0)
            && (r.1.Listing? ==> forall e | e in r.1.entries :: IsLive(r.0.inodes, Join(d, e.name), e.ino))
  {
    hide S.Get, S.Put, S.Find, S.Without, Enter, I.GetInode, I.Good;
    var got := S.Get(s.dirs, d, now);
    GetMembers(s.dirs, d, now);
    if IsListing(infos, s.tree, d) {
      var r := Enter(s.inodes, d, infos);
      PutMembers(got.0, d, r.1, later);
      forall e | e in r.1 ensures IsLive(r.0, Join(d, e.name), e.ino) {
        var k :| 0 <= k < |r.1| && r.1[k] == e;
        ListedNumbersAreLive(s.inodes, d, infos, k);
      }
      forall it, e | it in got.0.items && it.key != d && e in it.value
        ensures IsLive(r.0, Join(it.key, e.name), e.ino)
      {
        JoinParent(it.key, e.name);
        EnterKeepsOthers(s.inodes, d, infos, Join(it.key, e.name), e.ino);
      }
    }
  }

  lemma OtherCallsNumbers(s: Fs, op: Op)
    requires ListingsLive(s) && !Observes(op) && !op.OpReaddir?
    ensures ListingsLive(Apply(s, op).0)
  {
    if !op.OpUnmount? {
      OtherCallsShape(s, op);
      hide Apply, S.Without;
      var t := Apply(s, op).0;
      if t.inodes != s.inodes {
        forall it, e | it in t.dirs.items && e in it.value ensures Join(it.key, e.name) != Join(op.dir, op.name) {
          JoinInjective(it.key, e.name, op.dir, op.name);
        }
        OtherListingsLive(s, t, Join(op.dir, op.name));
      }
    }
  }

  /** One call keeps all cached listings' numbers live exactly when it renumbers no listed child. */
  lemma StepNumbersIff(s: Fs, op: Op)
    requires I.Good(s.inodes) && ListingsLive(s) && Honest(s, op)
    ensures I.Good(Apply(s, op).0.inodes)
    ensures ListingsLive(Apply(s, op).0) <==> KeepsNumbers(s, op)
  {
    StepKeepsGood(s, op);
    if Observes(op) {
      ObservesNumbersIff(s, op);
    } else if op.OpReaddir? {
      hide ListingsLive, Readdir;
      ReaddirNumbers(s, op.dir, op.now, op.later, op.openFault, op.readFault, op.infos);
    } else {
      OtherCallsNumbers(s, op);
    }
  }

  // ---------- Whole runs ----------

  /** Every call of the run satisfies `Honest` and `KeepsNumbers` when it is made. */
  ghost predicate Settled(s: Fs, ops: seq<Op>) {
    ops == [] ||
    var init, last := ops[..|ops| - 1], ops[|ops| - 1];
    Settled(s, init) && Honest(After(s, init), last) && KeepsNumbers(After(s, init), last)
  }

  lemma {:induction false} RunsKeepNumbers(tree: Tree, opts: Options, ops: seq<Op>)
    requires Settled(Mounted(tree, opts), ops)
    ensures var s := After(Mounted(tree, opts), ops); I.Good(s.inodes) && ListingsLive(s)
  {
    if ops != [] {
      var init, last := ops[..|ops| - 1], ops[|ops| - 1];
      RunsKeepNumbers(tree, opts, init);
      StepNumbersIff(After(Mounted(tree, opts), init), last);
    }
  }

  /** What users see: after such a run every entry of an answered listing, from the cache or
      not, has the live number of its path. */
  lemma ListedNumbersStayLive(tree: Tree, opts: Options, ops: seq<Op>,
                              d: Path, now: int, later: int, of: bool, rf: bool, infos: seq<FileInfo>)
    requires Settled(Mounted(tree, opts), ops)
    requires Honest(After(Mounted(tree, opts), ops), OpReaddir(d, now, later, of, rf, infos))
    ensures var s := After(Mounted(tree, opts), ops);
            var r := Readdir(s, d, now, later, of, rf, infos);
            r.1.Listing? ==> forall e | e in r.1.entries :: IsLive(r.0.inodes, Join(d, e.name), e.ino)
  {
    RunsKeepNumbers(tree, opts, ops);
    ReaddirNumbers(After(Mounted(tree, opts), ops), d, now, later, of, rf, infos);
  }

  /** A concrete run that breaks it: list the root, which holds the file f, look f up after it
      has changed, and list the root again. The listing answers the retired number. */
  lemma LookupRenumbersExample(m: I.Meta, m': I.Meta)
    requires m != m'
    ensures var s0 := Mounted(map[[] := Dir, ["f"] := File], NO_LIMITS);
            var s1 := Readdir(s0, [], 0, 0, false, false, [FileInfo("f", File, m)]).0;
            var s2 := Lookup(s1, [], "f", false, m').0;
            && Readdir(s2, [], 0, 0, false, false, []).1 == Listing([DirEntry("f", 2, File)])
            && Lookup(s1, [], "f", false, m').1 == Entry(3) && 2 !in s2.inodes.byNumber
  {
    var infos := [FileInfo("f", File, m)];
    var s0 := Mounted(map[[] := Dir, ["f"] := File], NO_LIMITS);
    assert Join([], "f") == ["f"] && infos[..0] == [];
    assert Enter(s0.inodes, [], infos[..0]) == (s0.inodes, []);
    assert Enter(s0.inodes, [], infos).1 == [DirEntry("f", 2, File)];
  }

  /** The same with Getattr in place of Lookup. */
  lemma GetattrRenumbersExample(m: I.Meta, m': I.Meta, reply: Attr)
    requires m != m'
    ensures var s0 := Mounted(map[[] := Dir, ["f"] := File], NO_LIMITS);
            var s1 := Readdir(s0, [], 0, 0, false, false, [FileInfo("f", File, m)]).0;
            var s2 := Getattr(s1, ["f"], 0, 0, false, m', reply).0;
            && Readdir(s2, [], 0, 0, false, false, []).1 == Listing([DirEntry("f", 2, File)])
            && Getattr(s1, ["f"], 0, 0, false, m', reply).1 == Entry(3) && 2 !in s2.inodes.byNumber
  {
    var infos := [FileInfo("f", File, m)];
    var s0 := Mounted(map[[] := Dir, ["f"] := File], NO_LIMITS);
    assert Join([], "f") == ["f"] && infos[..0] == [];
    assert Enter(s0.inodes, [], infos[..0]) == (s0.inodes, []);
    assert Enter(s0.inodes, [], infos).1 == [DirEntry("f", 2, File)];
  }

  // ---------- Numbers and paths ----------

  /** Two paths never have one live number, in any run: not even two names of one file. */
  lemma PathsHaveOwnNumbers(tree: Tree, opts: Options, ops: seq<Op>, p: Path, q: Path, ino: nat)
    requires p != q && IsLive(After(Mounted(tree, opts), ops).inodes, p, ino)
    ensures !IsLive(After(Mounted(tree, opts), ops).inodes, q, ino)
  {
    RunsKeepGood(tree, opts, ops);
  }

  /** So a hard link never shares the number of its target: in every run Link answers a number
      other than the target's, which stays what it was. */
  lemma LinkSharesNoNumber(tree: Tree, opts: Options, ops: seq<Op>,
                           d: Path, target: Path, n: string, f: bool, sf: bool, m: I.Meta)
    ensures var s := After(Mounted(tree, opts), ops);
            var (t, answer) := Link(s, d, Some(target), n, f, sf, m);
            answer.Entry? ==>
              && !IsLive(s.inodes, target, answer.ino) && !IsLive(t.inodes, target, answer.ino)
              && forall ino :: IsLive(s.inodes, target, ino) <==> IsLive(t.inodes, target, ino)
  {
    RunsKeepGood(tree, opts, ops);
    var s := After(Mounted(tree, opts), ops);
    hide After, Mounted;
    if Link(s, d, Some(target), n, f, sf, m).1.Entry? {
      assert target != Join(d, n);
      I.GetInodeKeepsGood(s.inodes, Join(d, n), m);
    }
  }
}
