/** Inode numbers as a value: three maps and a counter. */
module InodeSpec {
  import opened Common

  /** The two observations that decide whether a path still names the same file. */
  datatype Meta = Meta(modTime: int, size: int)

  datatype Inodes = Inodes(byPath: map<Path, nat>, byNumber: map<nat, Path>, metas: map<nat, Meta>, next: nat)

  const NO_INODES := Inodes(map[], map[], map[], 1)

  predicate SameFile(s: Inodes, ino: nat, meta: Meta) {
    ino in s.metas && s.metas[ino] == meta
  }

  function GetInode(s: Inodes, path: Path, meta: Meta): (Inodes, nat) {
    if path in s.byPath && SameFile(s, s.byPath[path], meta) then (s, s.byPath[path])
    else
      var retired := if path in s.byPath then {s.byPath[path]} else {};
      var ino := s.next + 1;
      (Inodes(s.byPath[path := ino], (s.byNumber - retired)[ino := path], (s.metas - retired)[ino := meta], ino), ino)
  }

  /** Clear forgets the live numbers and keeps the counter. */
  function Clear(s: Inodes): Inodes {
    NO_INODES.(next := s.next)
  }

  /** Paths and numbers are in bijection, exactly the live numbers have observations, and
      all of them lie in 2..next. */
  ghost predicate Good(s: Inodes) {
    && s.next >= 1
    && (forall p | p in s.byPath :: s.byPath[p] in s.byNumber && s.byNumber[s.byPath[p]] == p)
    && (forall i | i in s.byNumber :: s.byNumber[i] in s.byPath && s.byPath[s.byNumber[i]] == i)
    && s.metas.Keys == s.byNumber.Keys
    && (forall i | i in s.byNumber :: 2 <= i <= s.next)
  }

  lemma GetInodeKeepsGood(s: Inodes, path: Path, meta: Meta)
    requires Good(s)
    ensures Good(GetInode(s, path, meta).0)
  {
  }

  lemma ClearKeepsGood(s: Inodes)
    requires Good(s)
    ensures Good(Clear(s))
  {
  }
}
