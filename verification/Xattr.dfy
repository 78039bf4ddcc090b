/** The attribute-name list of Listxattr (xattr.go): names one after another, each ended by a NUL byte. */
module Xattr {
  import opened Common

  type Byte = x: int | 0 <= x < 256
  type Name = seq<Byte>

  /** The bytes a list of names is written as. */
  function Encode(names: seq<Name>): seq<Byte> {
    if names == [] then [] else Encode(names[..|names| - 1]) + names[|names| - 1] + [0]
  }

  /** Cut a buffer after every NUL; bytes after the last NUL are dropped. */
  function Split(bytes: seq<Byte>, pending: Name := []): seq<Name> {
    if bytes == [] then []
    else if bytes[0] == 0 then [pending] + Split(bytes[1..], [])
    else Split(bytes[1..], pending + [bytes[0]])
  }

  // ---------- The two passes ----------

  /** `now` is `was` with `bytes` written over its beginning, as far as they fit. */
  ghost predicate Overwritten(was: seq<Byte>, bytes: seq<Byte>, now: seq<Byte>) {
    now == if |bytes| <= |was| then bytes + was[|bytes|..] else bytes[..|was|]
  }

  lemma StartOver(was: seq<Byte>)
    ensures Overwritten(was, [], was)
  {
  }

  /** A buffer filled to the end by the first bytes stays as it is whatever follows them. */
  lemma FullBuffer(was: seq<Byte>, bytes: seq<Byte>, all: seq<Byte>, now: seq<Byte>)
    requires Overwritten(was, bytes, now) && |was| < |bytes| && bytes <= all
    ensures Overwritten(was, all, now)
  {
    assert all[..|was|] == bytes[..|was|];
  }

  lemma EncodeNext(names: seq<Name>, i: nat)
    requires i < |names|
    ensures Encode(names[..i + 1]) == Encode(names[..i]) + (names[i] + [0])
  {
    assert names[..i + 1][..i] == names[..i];
  }

  lemma EncodeEnds(names: seq<Name>)
    ensures Encode(names[..0]) == [] && names[..|names|] == names
  {
  }

  lemma {:induction false} EncodePrefix(names: seq<Name>, i: nat)
    requires i <= |names|
    ensures Encode(names[..i]) <= Encode(names)
    decreases |names| - i
  {
    if i < |names| {
      EncodeNext(names, i);
      EncodePrefix(names, i + 1);
    } else {
      assert names[..i] == names;
    }
  }

  /** The sizing loop. */
  method SizeAll(attrs: seq<Name>) returns (totalSize: nat)
    ensures totalSize == |Encode(attrs)|
  {
    totalSize := 0;
    var i := 0;
    while i < |attrs|
      invariant 0 <= i <= |attrs| && totalSize == |Encode(attrs[..i])|
    {
      EncodeNext(attrs, i);
      totalSize := totalSize + |attrs[i]| + 1;
      i := i + 1;
    }
    assert attrs[..i] == attrs;
  }

  /** copy(dest[offset:], name), which stops at the end of the buffer, then the NUL after it,
      which has no place when the name reached the end. */
  method WriteName(dest: array<Byte>, offset: nat, name: Name) returns (inBounds: bool)
    requires offset <= dest.Length
    modifies dest
    ensures inBounds <==> offset + |name| < dest.Length
    ensures dest[..] == if inBounds
                        then old(dest[..])[..offset] + (name + [0]) + old(dest[..])[offset + |name| + 1..]
                        else old(dest[..])[..offset] + name[..dest.Length - offset]
  {
    var room := dest.Length - offset;
    forall k | 0 <= k < if |name| < room then |name| else room {
      dest[offset + k] := name[k];
    }
    if offset + |name| >= dest.Length {
      return false;
    }
    dest[offset + |name|] := 0;
    inBounds := true;
  }

  /** One round of the filling loop. */
  method WriteNext(dest: array<Byte>, offset: nat, name: Name, ghost was: seq<Byte>, ghost written: seq<Byte>)
    returns (inBounds: bool)
    requires offset == |written| <= dest.Length == |was| && Overwritten(was, written, dest[..])
    modifies dest
    ensures inBounds <==> |written + (name + [0])| <= |was|
    ensures Overwritten(was, written + (name + [0]), dest[..])
  {
    assert dest[..][..offset] == written;
    inBounds := WriteName(dest, offset, name);
    if inBounds {
      assert written + (name + [0]) == dest[..offset + |name| + 1];
    } else {
      assert (written + (name + [0]))[..|was|] == written + name[..dest.Length - offset];
    }
  }

  /** The filling loop; None when it runs over the end of the buffer. */
  method FillAll(attrs: seq<Name>, dest: array<Byte>) returns (offset: Option<nat>)
    modifies dest
    ensures offset == if |Encode(attrs)| <= dest.Length then Some(|Encode(attrs)|) else None
    ensures Overwritten(old(dest[..]), Encode(attrs), dest[..])
  {
    hide Encode, Overwritten;
    ghost var was, written := dest[..], [];
    EncodeEnds(attrs);
    StartOver(was);
    var o, i := 0, 0;
    while i < |attrs|
      invariant 0 <= i <= |attrs| && written == Encode(attrs[..i]) && |written| == o <= dest.Length
      invariant Overwritten(was, written, dest[..])
    {
      EncodeNext(attrs, i);
      EncodePrefix(attrs, i + 1);
      var inBounds := WriteNext(dest, o, attrs[i], was, written);
      written := written + (attrs[i] + [0]);
      if !inBounds {
        FullBuffer(was, written, Encode(attrs), dest[..]);
        return None;
      }
      o := o + |attrs[i]| + 1;
      i := i + 1;
    }
    offset := Some(o);
  }

  /** What the caller gets: an error, a number of bytes, or an index out of range. */
  datatype Outcome = Failed(errno: Errno) | Answered(n: UInt32) | Panicked

  /** A null buffer asks for the size. `attrs` is None when the backing file system reports
      an error. */
  method Listxattr(unmounting: bool, supported: bool, attrs: Option<seq<Name>>, dest: array?<Byte>)
    returns (r: Outcome)
    modifies if dest != null then {dest} else {}
    ensures r.Failed? <==> unmounting || !supported || attrs.None?
    ensures r.Failed? ==>
              && r.errno == (if unmounting then ENOTCONN else if !supported then ENOTSUP else EBackend)
              && (dest != null ==> dest[..] == old(dest[..]))
    ensures r.Panicked? <==> !r.Failed? && dest != null && dest.Length < |Encode(attrs.value)|
    ensures r.Answered? ==> r.n == |Encode(attrs.value)| % 0x1_0000_0000
    ensures !r.Failed? && dest != null ==> Overwritten(old(dest[..]), Encode(attrs.value), dest[..])
  {
    if unmounting {
      return Failed(ENOTCONN);
    }
    if !supported {
      return Failed(ENOTSUP);
    }
    if attrs.None? {
      return Failed(EBackend);
    }
    var totalSize := SizeAll(attrs.value);
    if dest == null {
      return Answered(totalSize % 0x1_0000_0000);
    }
    var offset := FillAll(attrs.value, dest);
    r := if offset.None? then Panicked else Answered(offset.value % 0x1_0000_0000);
  }

  // ---------- Round trip ----------

  /** The number of NUL bytes, that is, of names a reader will find. */
  function Nuls(bytes: seq<Byte>): nat {
    if bytes == [] then 0 else (if bytes[0] == 0 then 1 else 0) + Nuls(bytes[1..])
  }

  lemma {:induction false} NulsConcat(a: seq<Byte>, b: seq<Byte>)
    ensures Nuls(a + b) == Nuls(a) + Nuls(b)
  {
    if a == [] {
      assert a + b == b;
    } else {
      NulsConcat(a[1..], b);
      assert (a + b)[1..] == a[1..] + b;
    }
  }

  lemma {:induction false} NulsAbsent(a: seq<Byte>)
    ensures Nuls(a) == 0 <==> 0 !in a
  {
    if a != [] {
      NulsAbsent(a[1..]);
      assert a == [a[0]] + a[1..];
    }
  }

  lemma {:induction false} SplitCounts(bytes: seq<Byte>, pending: Name)
    ensures |Split(bytes, pending)| == Nuls(bytes)
  {
    if bytes != [] {
      if bytes[0] == 0 { SplitCounts(bytes[1..], []); } else { SplitCounts(bytes[1..], pending + [bytes[0]]); }
    }
  }

  /** Splitting a buffer that continues after its last NUL. */
  lemma {:induction false} SplitConcat(bytes: seq<Byte>, name: Name, pending: Name, rest: seq<Byte>)
    requires bytes == name + [0] + rest && 0 !in name
    ensures Split(bytes, pending) == [pending + name] + Split(rest, [])
  {
    if name == [] {
      assert bytes[1..] == rest && pending + name == pending;
    } else {
      assert bytes[0] == name[0] && bytes[1..] == name[1..] + [0] + rest;
      SplitConcat(bytes[1..], name[1..], pending + [name[0]], rest);
      assert pending + [name[0]] + name[1..] == pending + name;
    }
  }

  lemma {:induction false} EncodeFront(names: seq<Name>)
    requires names != []
    ensures Encode(names) == names[0] + [0] + Encode(names[1..])
  {
    if |names| == 1 {
      assert names[..0] == [] && names[1..] == [];
    } else {
      var init, last := names[..|names| - 1], names[|names| - 1];
      EncodeFront(init);
      assert init[1..] == names[1..][..|names| - 2] && names[1..][|names| - 2] == last;
      assert Encode(names) == names[0] + [0] + Encode(init[1..]) + last + [0];
      assert Encode(names[1..]) == Encode(init[1..]) + last + [0];
    }
  }

  lemma {:induction false} NulsOfEncode(names: seq<Name>)
    ensures Nuls(Encode(names)) >= |names|
    ensures Nuls(Encode(names)) == |names| <==> forall name | name in names :: 0 !in name
  {
    if names != [] {
      var init, last := names[..|names| - 1], names[|names| - 1];
      NulsOfEncode(init);
      NulsConcat(Encode(init) + last, [0]);
      NulsConcat(Encode(init), last);
      NulsAbsent(last);
      assert names == init + [last];
    }
  }

  lemma {:induction false} SplitUndoesEncode(names: seq<Name>)
    requires forall name | name in names :: 0 !in name
    ensures Split(Encode(names)) == names
  {
    if names != [] {
      EncodeFront(names);
      SplitUndoesEncode(names[1..]);
      SplitConcat(Encode(names), names[0], [], Encode(names[1..]));
      assert [] + names[0] == names[0] && [names[0]] + names[1..] == names;
    }
  }

  /** Splitting gives the names back exactly when none of them contains a NUL. */
  lemma RoundTripIff(names: seq<Name>)
    ensures Split(Encode(names)) == names <==> forall name | name in names :: 0 !in name
  {
    NulsOfEncode(names);
    SplitCounts(Encode(names), []);
    if forall name | name in names :: 0 !in name {
      SplitUndoesEncode(names);
    }
  }

  /** Hence no two lists of NUL-free names are written alike. */
  lemma EncodeInjective(a: seq<Name>, b: seq<Name>)
    requires forall name | name in a + b :: 0 !in name
    requires Encode(a) == Encode(b)
    ensures a == b
  {
    assert forall name | name in a :: name in a + b;
    assert forall name | name in b :: name in a + b;
    RoundTripIff(a);
    RoundTripIff(b);
  }
}
