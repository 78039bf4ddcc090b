/** The file system behind the adapter, reduced to what the adapter relies on: a tree of
    names, which operations succeed and how they change the tree, and which opened files
    have been closed. Any call may also fail for reasons outside the model (`fault`). */
module BackingFs {
  import opened Common

  /** Every existing path with its kind. There are no symbolic links. */
  type Tree = map<Path, Kind>

  function Parent(p: Path): Path
    requires p != []
  {
    p[..|p| - 1]
  }

  /** The root is a directory and so is the parent of everything that exists. */
  ghost predicate WellFormed(t: Tree) {
    && [] in t && t[[]] == Dir
    && forall p | p in t && p != [] :: Parent(p) in t && t[Parent(p)] == Dir
  }

  predicate HasChild(t: Tree, d: Path) {
    exists p | p in t :: p != [] && Parent(p) == d
  }

  predicate InDir(t: Tree, p: Path) {
    p != [] && Parent(p) in t && t[Parent(p)] == Dir
  }

  predicate Under(root: Path, p: Path) {
    root <= p
  }

  // ---------- Operations: None when the file system refuses ----------

  /** With `create`, a missing file is made and an existing directory is refused. */
  function OpenTree(t: Tree, p: Path, create: bool, excl: bool): Option<Tree> {
    if p in t then
      if create && (excl || t[p] == Dir) then None else Some(t)
    else if create && InDir(t, p) then Some(t[p := File])
    else None
  }

  function MkdirTree(t: Tree, p: Path): Option<Tree> {
    if p !in t && InDir(t, p) then Some(t[p := Dir]) else None
  }

  /** Remove deletes files and empty directories, never the root. */
  function RemoveTree(t: Tree, p: Path): Option<Tree> {
    if p in t && p != [] && !HasChild(t, p) then Some(t - {p}) else None
  }

  function LinkTree(t: Tree, target: Path, p: Path): Option<Tree> {
    if target in t && t[target] == File && p !in t && InDir(t, p) then Some(t[p := File]) else None
  }

  /** The tree after everything under `src` has moved to `dst`. */
  function Moved(t: Tree, src: Path, dst: Path): Tree {
    var stay := set p | p in t && !Under(src, p) && !Under(dst, p);
    var moved := set p | p in t && Under(src, p) :: dst + p[|src|..];
    map p | p in stay + moved && (if Under(dst, p) then src + p[|dst|..] in t else p in t) ::
      if Under(dst, p) then t[src + p[|dst|..]] else t[p]
  }

  /** Rename replaces a file by a file or an empty directory by a directory, and refuses to
      move a directory into itself. */
  function RenameTree(t: Tree, src: Path, dst: Path): Option<Tree> {
    if src !in t || src == [] || !InDir(t, dst) then None
    else if src == dst then Some(t)
    else if t[src] == File then
      if dst in t && t[dst] == Dir then None else Some(Moved(t, src, dst))
    else if Under(src, dst) || (dst in t && (t[dst] == File || HasChild(t, dst))) then None
    else Some(Moved(t, src, dst))
  }

  class Backing {
    var tree: Tree
    /** Opened files are numbered in the order they were opened. */
    var opens: nat
    var closes: multiset<nat>

    constructor (tree: Tree)
      ensures this.tree == tree && opens == 0 && closes == multiset{}
    {
      this.tree, opens, closes := tree, 0, multiset{};
    }

    method OpenFile(p: Path, create: bool, excl: bool, fault: bool) returns (file: Option<nat>)
      modifies this`tree, this`opens
      ensures var r := OpenTree(old(tree), p, create, excl);
              if fault || r.None? then file == None && tree == old(tree) && opens == old(opens)
              else file == Some(old(opens)) && tree == r.value && opens == old(opens) + 1
    {
      var r := OpenTree(tree, p, create, excl);
      if fault || r.None? {
        return None;
      }
      tree := r.value;
      file := Some(opens);
      opens := opens + 1;
    }

    method Close(file: nat)
      modifies this`closes
      ensures closes == old(closes) + multiset{file}
    {
      closes := closes + multiset{file};
    }

    method Mkdir(p: Path, fault: bool) returns (ok: bool)
      modifies this`tree
      ensures var r := MkdirTree(old(tree), p);
              if fault || r.None? then !ok && tree == old(tree) else ok && tree == r.value
    {
      var r := MkdirTree(tree, p);
      if fault || r.None? {
        return false;
      }
      tree := r.value;
      ok := true;
    }

    method Remove(p: Path, fault: bool) returns (ok: bool)
      modifies this`tree
      ensures var r := RemoveTree(old(tree), p);
              if fault || r.None? then !ok && tree == old(tree) else ok && tree == r.value
    {
      var r := RemoveTree(tree, p);
      if fault || r.None? {
        return false;
      }
      tree := r.value;
      ok := true;
    }

    method Link(target: Path, p: Path, fault: bool) returns (ok: bool)
      modifies this`tree
      ensures var r := LinkTree(old(tree), target, p);
              if fault || r.None? then !ok && tree == old(tree) else ok && tree == r.value
    {
      var r := LinkTree(tree, target, p);
      if fault || r.None? {
        return false;
      }
      tree := r.value;
      ok := true;
    }

    method Rename(src: Path, dst: Path, fault: bool) returns (ok: bool)
      modifies this`tree
      ensures var r := RenameTree(old(tree), src, dst);
              if fault || r.None? then !ok && tree == old(tree) else ok && tree == r.value
    {
      var r := RenameTree(tree, src, dst);
      if fault || r.None? {
        return false;
      }
      tree := r.value;
      ok := true;
    }
  }

  // ---------- Facts about trees ----------

  lemma {:induction false} AncestorIsDir(t: Tree, a: Path, p: Path)
    requires WellFormed(t) && p in t && Under(a, p) && a != p
    ensures a in t && t[a] == Dir
  {
    if |p| > |a| + 1 {
      assert Under(a, Parent(p)) by { assert p[..|a|] == Parent(p)[..|a|]; }
      AncestorIsDir(t, a, Parent(p));
    } else {
      assert Parent(p) == a;
    }
  }

  lemma JoinParent(d: Path, n: string)
    ensures Join(d, n) != [] && Parent(Join(d, n)) == d
  {
  }

  lemma HasChildIff(t: Tree, d: Path)
    ensures HasChild(t, d) <==> exists n :: Join(d, n) in t
  {
    if HasChild(t, d) {
      var p :| p in t && p != [] && Parent(p) == d;
      assert p == Join(d, p[|p| - 1]);
    }
    if n :| Join(d, n) in t {
      JoinParent(d, n);
    }
  }

  lemma MovedMember(t: Tree, src: Path, dst: Path, p: Path)
    ensures p in Moved(t, src, dst) <==>
            if Under(dst, p) then src + p[|dst|..] in t else p in t && !Under(src, p)
    ensures p in Moved(t, src, dst) ==>
            Moved(t, src, dst)[p] == if Under(dst, p) then t[src + p[|dst|..]] else t[p]
  {
    if Under(dst, p) {
      var q := src + p[|dst|..];
      assert q[|src|..] == p[|dst|..] && p == dst + p[|dst|..];
      if q in t {
        assert Under(src, q) && p == dst + q[|src|..];
      }
      if p in Moved(t, src, dst) {
        var q' :| q' in t && Under(src, q') && p == dst + q'[|src|..];
        assert p[|dst|..] == q'[|src|..] && q' == src + q'[|src|..];
      }
    } else {
      forall q | q in t && Under(src, q) ensures p != dst + q[|src|..] {
        assert Under(dst, dst + q[|src|..]);
      }
    }
  }

  lemma AddKeepsWellFormed(t: Tree, p: Path, kind: Kind)
    requires WellFormed(t) && InDir(t, p) && (p in t ==> t[p] == kind)
    ensures WellFormed(t[p := kind])
  {
  }

  lemma RemoveKeepsWellFormed(t: Tree, p: Path)
    requires WellFormed(t) && RemoveTree(t, p).Some?
    ensures WellFormed(t - {p})
  {
  }

  /** A successful rename between different paths moves one subtree to a place that was
      free, and neither place contains the other. */
  lemma RenameApart(t: Tree, src: Path, dst: Path)
    requires WellFormed(t) && RenameTree(t, src, dst).Some? && src != dst
    ensures !Under(src, dst) && !Under(dst, src) && RenameTree(t, src, dst) == Some(Moved(t, src, dst))
    ensures forall p | p in t && Under(dst, p) :: p == dst
    ensures dst in t ==> t[dst] == t[src]
  {
    if Under(src, dst) {
      assert t[src] == File;
      if Parent(dst) != src {
        assert Under(src, Parent(dst)) by { assert dst[..|src|] == Parent(dst)[..|src|]; }
        AncestorIsDir(t, src, Parent(dst));
      }
    }
    forall p | p in t && Under(dst, p) ensures p == dst {
      if p != dst {
        AncestorIsDir(t, dst, p);
        var c := p[..|dst| + 1];
        if c != p { AncestorIsDir(t, c, p); }
      }
    }
  }

  lemma SourceOfParent(src: Path, dst: Path, p: Path)
    requires Under(dst, p) && p != dst
    ensures p != [] && src + p[|dst|..] != [] && Under(dst, Parent(p))
    ensures Parent(src + p[|dst|..]) == src + Parent(p)[|dst|..]
  {
    assert p[..|dst|] == Parent(p)[..|dst|];
  }

  lemma UnderParent(a: Path, p: Path)
    requires p != []
    ensures Under(a, Parent(p)) ==> Under(a, p) && a != p
  {
  }

  lemma ParentMoved(t: Tree, src: Path, dst: Path, p: Path)
    requires WellFormed(t) && RenameTree(t, src, dst).Some? && src != dst
    requires p != [] && p in Moved(t, src, dst)
    ensures Parent(p) in Moved(t, src, dst) && Moved(t, src, dst)[Parent(p)] == Dir
  {
    RenameApart(t, src, dst);
    hide Moved, HasChild;
    MovedMember(t, src, dst, p);
    MovedMember(t, src, dst, Parent(p));
    UnderParent(src, p);
    UnderParent(dst, p);
    if Under(dst, p) && p != dst {
      SourceOfParent(src, dst, p);
    }
  }

  lemma RenameKeepsWellFormed(t: Tree, src: Path, dst: Path)
    requires WellFormed(t) && RenameTree(t, src, dst).Some?
    ensures WellFormed(RenameTree(t, src, dst).value)
  {
    if src != dst {
      RenameApart(t, src, dst);
      var t' := Moved(t, src, dst);
      MovedMember(t, src, dst, []);
      forall p | p in t' && p != [] ensures Parent(p) in t' && t'[Parent(p)] == Dir {
        ParentMoved(t, src, dst, p);
      }
    }
  }

  // ---------- Listings ----------

  /** `entries` lists the children of `d`: every child once, with its kind, and nothing else.
      A path that is a file or does not exist has no children. */
  ghost predicate Lists(entries: seq<DirEntry>, t: Tree, d: Path) {
    && (forall e | e in entries :: Join(d, e.name) in t && t[Join(d, e.name)] == e.kind)
    && (forall n :: Join(d, n) in t ==> exists e | e in entries :: e.name == n)
    && (forall i, j :: 0 <= i < j < |entries| ==> entries[i].name != entries[j].name)
  }

  ghost predicate SameChildren(t: Tree, t': Tree, d: Path) {
    forall n :: (Join(d, n) in t <==> Join(d, n) in t') && (Join(d, n) in t ==> t[Join(d, n)] == t'[Join(d, n)])
  }

  lemma SameChildrenLists(entries: seq<DirEntry>, t: Tree, t': Tree, d: Path)
    requires SameChildren(t, t', d)
    ensures Lists(entries, t, d) <==> Lists(entries, t', d)
  {
  }

  /** Only an empty listing lists a path without children. */
  lemma ListsEmpty(entries: seq<DirEntry>, t: Tree, d: Path)
    requires Lists(entries, t, d)
    ensures entries == [] <==> !HasChild(t, d)
  {
    HasChildIff(t, d);
    if entries != [] { assert entries[0] in entries; }
  }

  /** Changing one path changes the children of its parent only. */
  lemma OneChange(t: Tree, p: Path, t': Tree, d: Path)
    requires p != [] && Parent(p) != d
    requires forall q | q != p :: (q in t <==> q in t') && (q in t ==> t[q] == t'[q])
    ensures SameChildren(t, t', d)
  {
    forall n ensures Join(d, n) != p { JoinParent(d, n); }
  }
}
