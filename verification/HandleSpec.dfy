/** Open file handles as a value: which file each live handle stands for. */
module HandleSpec {
  import opened Common

  /** An open file with the flags and path it was opened with. */
  datatype OpenFile = OpenFile(file: nat, flags: OpenFlags, path: Path)

  datatype Handles = Handles(live: map<nat, OpenFile>, next: nat)

  const NO_HANDLES := Handles(map[], 0)

  function Add(h: Handles, file: OpenFile): (Handles, nat) {
    (Handles(h.live[h.next + 1 := file], h.next + 1), h.next + 1)
  }

  function Forget(h: Handles, fh: nat): Handles {
    h.(live := h.live - {fh})
  }

  ghost function Pick(live: map<nat, OpenFile>): (fh: nat)
    requires live != map[]
    ensures fh in live
  {
    var fh :| fh in live;
    fh
  }

  /** The files behind the live handles, counted once for each handle. */
  ghost function Files(live: map<nat, OpenFile>): multiset<nat> {
    if live == map[] then multiset{}
    else multiset{live[Pick(live)].file} + Files(live - {Pick(live)})
  }

  lemma FilesUnfold(live: map<nat, OpenFile>)
    requires live != map[]
    ensures Files(live) == multiset{live[Pick(live)].file} + Files(live - {Pick(live)})
  {
  }

  lemma {:induction false} FilesRemove(live: map<nat, OpenFile>, fh: nat)
    requires fh in live
    ensures Files(live) == multiset{live[fh].file} + Files(live - {fh})
    decreases |live|
  {
    hide Files;
    var picked := Pick(live);
    FilesUnfold(live);
    if picked != fh {
      FilesRemove(live - {picked}, fh);
      FilesRemove(live - {fh}, picked);
      assert live - {picked} - {fh} == live - {fh} - {picked};
    }
  }

  lemma FilesAdd(live: map<nat, OpenFile>, fh: nat, file: OpenFile)
    requires fh !in live
    ensures Files(live[fh := file]) == Files(live) + multiset{file.file}
  {
    FilesRemove(live[fh := file], fh);
    assert live[fh := file] - {fh} == live;
  }

  lemma {:induction false} FilesSize(live: map<nat, OpenFile>)
    ensures |Files(live)| == |live|
    decreases |live|
  {
    if live != map[] {
      FilesSize(live - {Pick(live)});
    }
  }
}
