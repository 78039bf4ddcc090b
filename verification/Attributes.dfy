/** What Getattr and Setattr answer from the attribute cache, which no handler invalidates. */
module Attributes {
  import opened Common
  import opened AdapterSpec
  import opened BackingFs
  import opened Coherence
  import I = InodeSpec
  import L = LockSpec
  import S = LruSpec

  /** Getattr, or a Setattr that gets as far as that. */
  predicate Asks(s: Fs, op: Op) {
    !s.unmounting && (op.OpGetattr? || (op.OpSetattr? && !op.fault))
  }

  /** The call finds nothing in the cache, so it fills its reply from the file system and caches it. */
  predicate Fills(s: Fs, op: Op) {
    Asks(s, op) && !op.statFault && op.path in s.tree && S.Get(s.attrs, op.path, op.now).1.None?
  }

  /** The reply last cached for the path, and when, by a call that Unmount did not follow. */
  ghost function LastFill(s: Fs, ops: seq<Op>, p: Path): Option<(Attr, int)> {
    if ops == [] then None
    else
      var init, last := ops[..|ops| - 1], ops[|ops| - 1];
      if last.OpUnmount? then None
      else if Fills(After(s, init), last) && last.path == p then Some((last.reply, last.later))
      else LastFill(s, init, p)
  }

  lemma AttrsShape(s: Fs, op: Op)
    ensures var now := Apply(s, op).0.attrs;
            now == if op.OpUnmount? then S.Clear(s.attrs)
                   else if Fills(s, op) then S.Put(S.Get(s.attrs, op.path, op.now).0, op.path, op.reply, op.later)
                   else if Asks(s, op) then S.Get(s.attrs, op.path, op.now).0
                   else s.attrs
  {
    hide S.Get, S.Put, S.Delete, S.Clear, I.GetInode, Enter, L.Apply, L.Getlk,
      OpenTree, MkdirTree, RemoveTree, RenameTree, LinkTree;
  }

  /** Without limits the cache forgets nothing. */
  ghost predicate AllCached(s: Fs, ops: seq<Op>) {
    forall p :: LastFill(s, ops, p).Some? ==> p in S.Keys(After(s, ops).attrs.items)
  }

  ghost predicate AreLastFills(s: Fs, ops: seq<Op>) {
    forall it | it in After(s, ops).attrs.items :: LastFill(s, ops, it.key) == Some((it.value, it.stamp))
  }

  lemma StepMembers(c: AttrCache, p: Path, now: int, reply: Attr, later: int)
    ensures forall it | it in S.Get(c, p, now).0.items :: it in c.items
    ensures forall it | it in S.Put(S.Get(c, p, now).0, p, reply, later).items ::
              (it.key == p && it.value == reply && it.stamp == later) || (it in c.items && it.key != p)
    ensures var got, put := S.Get(c, p, now).0, S.Put(S.Get(c, p, now).0, p, reply, later);
            && got.ttl == c.ttl == put.ttl && got.maxSize == c.maxSize == put.maxSize
            && (c.ttl <= 0 && c.maxSize <= 0 ==>
                  S.Keys(c.items) <= S.Keys(got.items) && S.Keys(c.items) + {p} <= S.Keys(put.items))
  {
    var got, put := S.Get(c, p, now).0, S.Put(S.Get(c, p, now).0, p, reply, later);
    if c.ttl <= 0 && c.maxSize <= 0 {
      assert S.Keys(c.items) <= S.Keys(got.items);
      assert put.items[0] in put.items && forall it | it in got.items && it.key != p :: it in put.items;
    }
  }

  /** Every cached reply is the last one cached for its path, with its time, in every run;
      without limits every such reply is cached. */
  lemma {:induction false} RunsKeepLastFills(tree: Tree, opts: Options, ops: seq<Op>)
    ensures var s0 := Mounted(tree, opts);
            && AreLastFills(s0, ops) && After(s0, ops).attrs.ttl == opts.attrTTL
            && After(s0, ops).attrs.maxSize == opts.attrCacheSize
            && (opts.attrTTL <= 0 && opts.attrCacheSize <= 0 ==> AllCached(s0, ops))
  {
    if ops != [] {
      var s0, init, last := Mounted(tree, opts), ops[..|ops| - 1], ops[|ops| - 1];
      var s := After(s0, init);
      RunsKeepLastFills(tree, opts, init);
      AttrsShape(s, last);
      if last.OpGetattr? || last.OpSetattr? {
        StepMembers(s.attrs, last.path, last.now, last.reply, last.later);
      }
      hide Apply, S.Get, S.Put, S.Keys, Fills, Asks, Mounted;
    }
  }

  /** What a hit means, in every run: the answer is the reply of the last call that had to ask the
      file system about the path, not older than the lifetime asked for. Calls that changed the
      file since do not matter. Without limits every such reply is answered. */
  lemma CachedAnswerIsLastFill(tree: Tree, opts: Options, ops: seq<Op>, op: Op)
    requires op.OpGetattr? || op.OpSetattr?
    ensures var s0 := Mounted(tree, opts);
            var answer := Apply(After(s0, ops), op).1;
            answer.Cached? ==>
              && LastFill(s0, ops, op.path).Some? && LastFill(s0, ops, op.path).value.0 == answer.attr
              && (opts.attrTTL > 0 ==> op.now - LastFill(s0, ops, op.path).value.1 <= opts.attrTTL)
    ensures var s0 := Mounted(tree, opts);
            Asks(After(s0, ops), op) && opts.attrTTL <= 0 && opts.attrCacheSize <= 0 ==>
              (LastFill(s0, ops, op.path).Some? <==> Apply(After(s0, ops), op).1.Cached?)
  {
    RunsKeepLastFills(tree, opts, ops);
    var s0 := Mounted(tree, opts);
    var s := After(s0, ops);
    hide LastFill, After, Mounted;
    var found := S.Find(s.attrs.items, op.path);
    assert found.Some? ==> found.value in s.attrs.items && found.value.key == op.path;
    assert found.None? ==> op.path !in S.Keys(s.attrs.items);
  }

  /** Setattr means to answer the attributes as they are after the change. When it is not refused,
      it does exactly if the cache has nothing for the path. */
  lemma SetattrUpdatedIff(s: Fs, p: Path, now: int, later: int, meta: I.Meta, reply: Attr)
    requires !s.unmounting && p in s.tree
    ensures var r := Setattr(s, p, false, now, later, false, meta, reply);
            (r.1.Entry? && I.SameFile(r.0.inodes, r.1.ino, meta)) <==> S.Get(s.attrs, p, now).1.None?
  {
  }

  /** A concrete run: get the attributes of f, change them, and be answered the old ones. */
  lemma SetattrAnswersOldExample(m: I.Meta, m': I.Meta, first: Attr, second: Attr)
    ensures var s0 := Mounted(map[[] := Dir, ["f"] := File], NO_LIMITS);
            var (s1, a1) := Getattr(s0, ["f"], 0, 0, false, m, first);
            var (s2, a2) := Setattr(s1, ["f"], false, 1, 1, false, m', second);
            a1 == Entry(2) && a2 == Cached(first) && I.SameFile(s2.inodes, 2, m)
  {
  }
}
