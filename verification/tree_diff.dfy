/** The lockstep difference of two trees (`_diff_trees`), the per-commit
    difference record built from it (`compute_diffs`), and the
    added/removed/changed classification read back from that record
    (`Commit.diffs`). Trees are looked up in an index keyed by tree id;
    the recursion is well founded because a tree's subtrees have smaller
    height (content addressing makes cycles impossible). */
module TreeDiff {
  import opened Wrappers
  import opened RepoDocs
  import opened Text

  /** One difference: the path (as its components, outermost first) and
      the object ids on the left and right; `None` means "absent". */
  datatype Change = Change(names: seq<string>, lhsId: Option<Id>, rhsId: Option<Id>)

  /** The path string reported for a change: its components joined by '/'. */
  function PathOf(c: Change): string {
    Join(c.names, "/")
  }

  /** The id recorded under `name`, if any. */
  function Lookup(es: seq<Entry>, name: string): (r: Option<Id>)
    ensures r.Some? <==> exists i :: 0 <= i < |es| && es[i].name == name
    ensures r.Some? ==> Entry(name, r.value) in es
  {
    if |es| == 0 then None
    else if es[0].name == name then Some(es[0].id)
    else Lookup(es[1..], name)
  }

  /** Git trees never hold two entries of one kind under the same name. */
  ghost predicate UniqueNames(es: seq<Entry>) {
    forall i, j :: 0 <= i < j < |es| ==> es[i].name != es[j].name
  }

  ghost predicate TreeOk(t: TreeDoc) {
    UniqueNames(t.treeIds) && UniqueNames(t.blobIds)
  }

  /** `height` ranks the index: every subtree of an indexed tree is indexed
      and strictly lower. */
  ghost predicate Ranked(index: TreeStore, height: map<Id, nat>) {
    forall t | t in index ::
      t in height && TreeOk(index[t]) && Fits(index, height, index[t], height[t])
  }

  /** Every subtree of `t` is indexed and lower than `d`. */
  ghost predicate Fits(index: TreeStore, height: map<Id, nat>, t: TreeDoc, d: nat) {
    forall e | e in t.treeIds :: e.id in index && e.id in height && height[e.id] < d
  }

  /** Every entry of `ls` is indexed and lower than `d`. */
  ghost predicate EntriesFit(index: TreeStore, height: map<Id, nat>, es: seq<Entry>, d: nat) {
    forall e | e in es :: e.id in index && e.id in height && height[e.id] < d
  }

  function Max(a: nat, b: nat): nat {
    if a < b then b else a
  }

  /** The right-hand entries whose names are not among the left-hand ones
      (what is left in the popped dictionary). */
  function RightOnly(rs: seq<Entry>, ls: seq<Entry>): (r: seq<Entry>)
    ensures forall e :: e in r <==> e in rs && Lookup(ls, e.name).None?
  {
    if |rs| == 0 then []
    else if Lookup(ls, rs[0].name).None? then [rs[0]] + RightOnly(rs[1..], ls)
    else RightOnly(rs[1..], ls)
  }

  /** Entries reported as added under `prefix`. */
  function Added(es: seq<Entry>, prefix: seq<string>): (r: seq<Change>)
    ensures |r| == |es|
    ensures forall i :: 0 <= i < |es| ==> r[i] == Change(prefix + [es[i].name], None, Some(es[i].id))
  {
    if |es| == 0 then [] else [Change(prefix + [es[0].name], None, Some(es[0].id))] + Added(es[1..], prefix)
  }

  /** Left-hand blobs that are missing or different on the right. */
  function DiffBlobs(ls: seq<Entry>, rs: seq<Entry>, prefix: seq<string>): (r: seq<Change>)
    ensures forall c | c in r :: exists e :: e in ls && c == Change(prefix + [e.name], Some(e.id), Lookup(rs, e.name)) && Lookup(rs, e.name) != Some(e.id)
  {
    if |ls| == 0 then []
    else
      var o := ls[0];
      var rest := DiffBlobs(ls[1..], rs, prefix);
      match Lookup(rs, o.name)
      case None => [Change(prefix + [o.name], Some(o.id), None)] + rest
      case Some(rid) => if rid == o.id then rest else [Change(prefix + [o.name], Some(o.id), Some(rid))] + rest
  }

  /** The difference of trees `l` and `r` found at `prefix`: subtrees first
      (a subtree present on both sides with different ids is recursed into,
      never reported itself), then blobs; in each namespace the left-hand
      entries in order, then the right-hand-only ones. */
  function DiffTrees(index: TreeStore, ghost height: map<Id, nat>, ghost d: nat, l: TreeDoc, r: TreeDoc, prefix: seq<string>): seq<Change>
    requires Ranked(index, height) && Fits(index, height, l, d) && Fits(index, height, r, d)
    decreases d, 1, 0
  {
    DiffSubtrees(index, height, d, l.treeIds, r.treeIds, prefix)
      + Added(RightOnly(r.treeIds, l.treeIds), prefix)
      + DiffBlobs(l.blobIds, r.blobIds, prefix)
      + Added(RightOnly(r.blobIds, l.blobIds), prefix)
  }

  function DiffSubtrees(index: TreeStore, ghost height: map<Id, nat>, ghost d: nat, ls: seq<Entry>, rs: seq<Entry>, prefix: seq<string>): seq<Change>
    requires Ranked(index, height) && EntriesFit(index, height, ls, d) && EntriesFit(index, height, rs, d)
    decreases d, 0, |ls|
  {
    if |ls| == 0 then []
    else
      var o := ls[0];
      var rest := DiffSubtrees(index, height, d, ls[1..], rs, prefix);
      match Lookup(rs, o.name)
      case None => [Change(prefix + [o.name], Some(o.id), None)] + rest
      case Some(rid) =>
        if rid == o.id then rest
        else
          DiffTrees(index, height, Max(height[o.id], height[rid]), index[o.id], index[rid], prefix + [o.name]) + rest
  }

  // ---------------------------------------------------------------------
  // Reference: what a path names in a tree

  /** The id at path `names` below `t`: every component but the last names
      a subtree; the last names a blob (`blob`) or a subtree. */
  function Resolve(index: TreeStore, t: TreeDoc, names: seq<string>, blob: bool): Option<Id>
    decreases |names|
  {
    if |names| == 0 then None
    else if |names| == 1 then Lookup(if blob then t.blobIds else t.treeIds, names[0])
    else match Lookup(t.treeIds, names[0])
      case None => None
      case Some(s) => if s in index then Resolve(index, index[s], names[1..], blob) else None
  }

  /** A change below `prefix` whose ids are what its path names in `l` and
      `r`, and which is a real difference. A change present on both sides
      names blobs: differing subtrees are descended into, never reported. */
  ghost predicate Sound(index: TreeStore, l: TreeDoc, r: TreeDoc, prefix: seq<string>, c: Change) {
    |prefix| < |c.names| && c.names[..|prefix|] == prefix && c.lhsId != c.rhsId
    && exists blob: bool ::
      (c.lhsId.Some? && c.rhsId.Some? ==> blob)
      && Resolve(index, l, c.names[|prefix|..], blob) == c.lhsId
      && Resolve(index, r, c.names[|prefix|..], blob) == c.rhsId
  }

  /** Under unique names, the entry itself is what the lookup finds. */
  lemma {:induction false} LookupUnique(es: seq<Entry>, e: Entry)
    requires UniqueNames(es) && e in es
    ensures Lookup(es, e.name) == Some(e.id)
  {
    if es[0] != e {
      var i :| 0 <= i < |es| && es[i] == e;
      assert es[0].name != es[i].name;
      assert es[1..][i - 1] == e;
      LookupUnique(es[1..], e);
    }
  }

  /** A path of two or more components resolves through the subtree its
      first component names. */
  lemma ResolveDown(index: TreeStore, t: TreeDoc, p: seq<string>, s: Id, blob: bool)
    requires |p| > 1 && Lookup(t.treeIds, p[0]) == Some(s) && s in index
    ensures Resolve(index, t, p, blob) == Resolve(index, index[s], p[1..], blob)
  {
  }

  /** A change found one level down, under the same-named subtrees, is
      sound for the trees above them. */
  lemma LiftSound(index: TreeStore, l: TreeDoc, r: TreeDoc, name: string, a: Id, b: Id, prefix: seq<string>, c: Change)
    requires Lookup(l.treeIds, name) == Some(a) && Lookup(r.treeIds, name) == Some(b)
    requires a in index && b in index
    requires Sound(index, index[a], index[b], prefix + [name], c)
    ensures Sound(index, l, r, prefix, c)
  {
    var n := |prefix|;
    var rest := c.names[n + 1..];
    assert c.names[..n + 1] == prefix + [name];
    assert c.names[..n] == (prefix + [name])[..n] == prefix;
    assert c.names[n] == name;
    assert c.names[n..][0] == name && c.names[n..][1..] == rest;
    var blob: bool :| (c.lhsId.Some? && c.rhsId.Some? ==> blob)
      && Resolve(index, index[a], rest, blob) == c.lhsId && Resolve(index, index[b], rest, blob) == c.rhsId;
    ResolveDown(index, l, c.names[n..], a, blob);
    ResolveDown(index, r, c.names[n..], b, blob);
  }

  /** A top-level change at `name` whose ids are what the two lookups give. */
  lemma TopSound(index: TreeStore, l: TreeDoc, r: TreeDoc, prefix: seq<string>, name: string, blob: bool, lhs: Option<Id>, rhs: Option<Id>)
    requires lhs != rhs && (lhs.Some? && rhs.Some? ==> blob)
    requires Lookup(if blob then l.blobIds else l.treeIds, name) == lhs
    requires Lookup(if blob then r.blobIds else r.treeIds, name) == rhs
    ensures Sound(index, l, r, prefix, Change(prefix + [name], lhs, rhs))
  {
    var c := Change(prefix + [name], lhs, rhs);
    assert c.names[..|prefix|] == prefix;
    assert c.names[|prefix|..] == [name];
    assert Resolve(index, l, c.names[|prefix|..], blob) == lhs;
    assert Resolve(index, r, c.names[|prefix|..], blob) == rhs;
  }

  /** Entries present only on the right are sound additions. */
  lemma AddedSound(index: TreeStore, l: TreeDoc, r: TreeDoc, es: seq<Entry>, prefix: seq<string>, blob: bool)
    requires forall e | e in es :: Lookup(if blob then l.blobIds else l.treeIds, e.name).None?
    requires forall e | e in es :: Lookup(if blob then r.blobIds else r.treeIds, e.name) == Some(e.id)
    ensures forall c | c in Added(es, prefix) :: Sound(index, l, r, prefix, c)
  {
    var added := Added(es, prefix);
    forall i | 0 <= i < |added|
      ensures Sound(index, l, r, prefix, added[i])
    {
      assert es[i] in es;
      TopSound(index, l, r, prefix, es[i].name, blob, None, Some(es[i].id));
    }
  }

  /** The right-only entries of a uniquely named side are sound additions. */
  lemma RightOnlySound(index: TreeStore, l: TreeDoc, r: TreeDoc, prefix: seq<string>, blob: bool)
    requires TreeOk(r)
    ensures forall c | c in Added(RightOnly(if blob then r.blobIds else r.treeIds, if blob then l.blobIds else l.treeIds), prefix) ::
      Sound(index, l, r, prefix, c)
  {
    var rs := if blob then r.blobIds else r.treeIds;
    var es := RightOnly(rs, if blob then l.blobIds else l.treeIds);
    forall e | e in es
      ensures Lookup(rs, e.name) == Some(e.id)
    {
      LookupUnique(rs, e);
    }
    AddedSound(index, l, r, es, prefix, blob);
  }

  /** Blob changes are sound. */
  lemma DiffBlobsSound(index: TreeStore, l: TreeDoc, r: TreeDoc, prefix: seq<string>)
    requires TreeOk(l)
    ensures forall c | c in DiffBlobs(l.blobIds, r.blobIds, prefix) :: Sound(index, l, r, prefix, c)
  {
    forall c | c in DiffBlobs(l.blobIds, r.blobIds, prefix)
      ensures Sound(index, l, r, prefix, c)
    {
      var e :| e in l.blobIds && c == Change(prefix + [e.name], Some(e.id), Lookup(r.blobIds, e.name))
        && Lookup(r.blobIds, e.name) != Some(e.id);
      LookupUnique(l.blobIds, e);
      TopSound(index, l, r, prefix, e.name, true, Some(e.id), Lookup(r.blobIds, e.name));
    }
  }

  /** Every change `DiffTrees` reports is a real difference at its path. */
  lemma {:induction false} DiffTreesSound(index: TreeStore, height: map<Id, nat>, d: nat, l: TreeDoc, r: TreeDoc, prefix: seq<string>)
    requires Ranked(index, height) && Fits(index, height, l, d) && Fits(index, height, r, d)
    requires TreeOk(l) && TreeOk(r)
    ensures forall c | c in DiffTrees(index, height, d, l, r, prefix) :: Sound(index, l, r, prefix, c)
    decreases d, 1, 0
  {
    DiffSubtreesSound(index, height, d, l, r, l.treeIds, prefix);
    RightOnlySound(index, l, r, prefix, false);
    DiffBlobsSound(index, l, r, prefix);
    RightOnlySound(index, l, r, prefix, true);
  }

  lemma {:induction false} DiffSubtreesSound(index: TreeStore, height: map<Id, nat>, d: nat, l: TreeDoc, r: TreeDoc, ls: seq<Entry>, prefix: seq<string>)
    requires Ranked(index, height) && EntriesFit(index, height, ls, d) && Fits(index, height, r, d)
    requires TreeOk(l) && TreeOk(r) && forall e | e in ls :: e in l.treeIds
    ensures forall c | c in DiffSubtrees(index, height, d, ls, r.treeIds, prefix) :: Sound(index, l, r, prefix, c)
    decreases d, 0, |ls|
  {
    if |ls| > 0 {
      var o := ls[0];
      DiffSubtreesSound(index, height, d, l, r, ls[1..], prefix);
      LookupUnique(l.treeIds, o);
      match Lookup(r.treeIds, o.name)
      case None =>
        TopSound(index, l, r, prefix, o.name, false, Some(o.id), None);
      case Some(rid) =>
        if rid != o.id {
          var d' := Max(height[o.id], height[rid]);
          DiffTreesSound(index, height, d', index[o.id], index[rid], prefix + [o.name]);
          forall c | c in DiffTrees(index, height, d', index[o.id], index[rid], prefix + [o.name])
            ensures Sound(index, l, r, prefix, c)
          {
            LiftSound(index, l, r, o.name, o.id, rid, prefix, c);
          }
        }
    }
  }

  // ---------------------------------------------------------------------
  // An unchanged tree, and a commit without parents

  /** Nothing is left over on the right when every right-hand name is
      also on the left. */
  lemma {:induction false} RightOnlyCovered(rs: seq<Entry>, ls: seq<Entry>)
    requires forall e | e in rs :: Lookup(ls, e.name).Some?
    ensures RightOnly(rs, ls) == []
  {
    if |rs| > 0 {
      assert rs[0] in rs;
      RightOnlyCovered(rs[1..], ls);
    }
  }

  /** Against an empty left side, every right-hand entry is left over. */
  lemma {:induction false} RightOnlyOfEmpty(rs: seq<Entry>)
    ensures RightOnly(rs, []) == rs
  {
    if |rs| > 0 {
      RightOnlyOfEmpty(rs[1..]);
    }
  }

  lemma {:induction false} DiffBlobsSame(ls: seq<Entry>, rs: seq<Entry>, prefix: seq<string>)
    requires forall e | e in ls :: Lookup(rs, e.name) == Some(e.id)
    ensures DiffBlobs(ls, rs, prefix) == []
  {
    if |ls| > 0 {
      assert ls[0] in ls;
      DiffBlobsSame(ls[1..], rs, prefix);
    }
  }

  lemma {:induction false} DiffSubtreesSame(index: TreeStore, height: map<Id, nat>, d: nat, ls: seq<Entry>, rs: seq<Entry>, prefix: seq<string>)
    requires Ranked(index, height) && EntriesFit(index, height, ls, d) && EntriesFit(index, height, rs, d)
    requires forall e | e in ls :: Lookup(rs, e.name) == Some(e.id)
    ensures DiffSubtrees(index, height, d, ls, rs, prefix) == []
  {
    if |ls| > 0 {
      assert ls[0] in ls;
      DiffSubtreesSame(index, height, d, ls[1..], rs, prefix);
    }
  }

  /** A tree compared with itself has no differences: every entry is
      skipped because its id is unchanged. */
  lemma DiffSelf(index: TreeStore, height: map<Id, nat>, d: nat, t: TreeDoc, prefix: seq<string>)
    requires Ranked(index, height) && Fits(index, height, t, d) && TreeOk(t)
    ensures DiffTrees(index, height, d, t, t, prefix) == []
  {
    forall e | e in t.treeIds
      ensures Lookup(t.treeIds, e.name) == Some(e.id)
    {
      LookupUnique(t.treeIds, e);
    }
    forall e | e in t.blobIds
      ensures Lookup(t.blobIds, e.name) == Some(e.id)
    {
      LookupUnique(t.blobIds, e);
    }
    DiffSubtreesSame(index, height, d, t.treeIds, t.treeIds, prefix);
    RightOnlyCovered(t.treeIds, t.treeIds);
    DiffBlobsSame(t.blobIds, t.blobIds, prefix);
    RightOnlyCovered(t.blobIds, t.blobIds);
  }

  /** The empty tree a parentless commit is compared against. */
  const EmptyTree := TreeDoc([], [], [])

  /** Against the empty tree every top-level subtree and blob is reported
      added, by its own name: a wholly new directory appears once, not
      once per file inside it. */
  lemma DiffFromEmpty(index: TreeStore, height: map<Id, nat>, d: nat, t: TreeDoc)
    requires Ranked(index, height) && Fits(index, height, t, d)
    ensures DiffTrees(index, height, d, EmptyTree, t, []) == Added(t.treeIds, []) + Added(t.blobIds, [])
  {
    var e := EmptyTree;
    var subtrees := DiffSubtrees(index, height, d, e.treeIds, t.treeIds, []);
    var blobs := DiffBlobs(e.blobIds, t.blobIds, []);
    var newTrees := Added(RightOnly(t.treeIds, e.treeIds), []);
    var newBlobs := Added(RightOnly(t.blobIds, e.blobIds), []);
    assert DiffTrees(index, height, d, e, t, []) == subtrees + newTrees + blobs + newBlobs;
    assert subtrees == [] && blobs == [];
    RightOnlyOfEmpty(t.treeIds);
    RightOnlyOfEmpty(t.blobIds);
    assert newTrees == Added(t.treeIds, []) && newBlobs == Added(t.blobIds, []);
    EmptyParts(subtrees, newTrees, blobs, newBlobs);
  }

  lemma EmptyParts<T>(a: seq<T>, b: seq<T>, c: seq<T>, e: seq<T>)
    requires a == [] && c == []
    ensures a + b + c + e == b + e
  {
    assert a + b == b;
    assert b + c == b;
  }

  // ---------------------------------------------------------------------
  // Per-commit differences (compute_diffs)

  /** The trees `compute_diffs` reads are indexed: the commit's own tree
      and, when its first parent is stored, the parent's tree. */
  ghost predicate DiffReady(db: CommitStore, index: TreeStore, height: map<Id, nat>, ci: CommitDoc) {
    Ranked(index, height)
    && (ci.treeId.Some? ==> ci.treeId.value in index)
    && (ci.treeId.Some? && |ci.parentIds| > 0 && ci.parentIds[0] in db ==>
          db[ci.parentIds[0]].treeId.Some? && db[ci.parentIds[0]].treeId.value in index)
  }

  /** The left-hand tree of a commit's difference: its first parent's tree
      when that parent is stored, otherwise the empty tree. */
  function ParentTree(db: CommitStore, index: TreeStore, ci: CommitDoc): (t: TreeDoc)
    requires ci.treeId.Some? && (|ci.parentIds| > 0 && ci.parentIds[0] in db ==>
      db[ci.parentIds[0]].treeId.Some? && db[ci.parentIds[0]].treeId.value in index)
    ensures |ci.parentIds| == 0 ==> t == EmptyTree
  {
    if |ci.parentIds| > 0 && ci.parentIds[0] in db then index[db[ci.parentIds[0]].treeId.value]
    else EmptyTree
  }

  /** A height bound for both trees of a commit's difference. */
  ghost function TopHeight(db: CommitStore, index: TreeStore, height: map<Id, nat>, ci: CommitDoc): (d: nat)
    requires DiffReady(db, index, height, ci) && ci.treeId.Some?
    ensures Fits(index, height, ParentTree(db, index, ci), d) && TreeOk(ParentTree(db, index, ci))
    ensures Fits(index, height, index[ci.treeId.value], d) && TreeOk(index[ci.treeId.value])
  {
    var hr := height[ci.treeId.value];
    if |ci.parentIds| > 0 && ci.parentIds[0] in db then
      var hl := height[db[ci.parentIds[0]].treeId.value];
      if hl < hr then hr else hl
    else hr
  }

  /** The difference record stored for a commit against its first parent;
      a commit without a tree gets no record. */
  function CommitDiffs(db: CommitStore, index: TreeStore, ghost height: map<Id, nat>, ci: CommitDoc): (r: Option<seq<Change>>)
    requires DiffReady(db, index, height, ci)
    ensures r.Some? <==> ci.treeId.Some?
    ensures r.Some? ==> forall c | c in r.value ::
      Sound(index, ParentTree(db, index, ci), index[ci.treeId.value], [], c)
    ensures r.Some? && |ci.parentIds| == 0 ==>
      r.value == Added(index[ci.treeId.value].treeIds, []) + Added(index[ci.treeId.value].blobIds, [])
  {
    if ci.treeId.None? then None
    else
      var l := ParentTree(db, index, ci);
      var rt := index[ci.treeId.value];
      ghost var d := TopHeight(db, index, height, ci);
      DiffTreesSound(index, height, d, l, rt, []);
      RootDiff(index, height, d, l, rt, |ci.parentIds| == 0);
      Some(DiffTrees(index, height, d, l, rt, []))
  }

  lemma RootDiff(index: TreeStore, height: map<Id, nat>, d: nat, l: TreeDoc, t: TreeDoc, root: bool)
    requires Ranked(index, height) && Fits(index, height, l, d) && Fits(index, height, t, d)
    requires root ==> l == EmptyTree
    ensures root ==> DiffTrees(index, height, d, l, t, []) == Added(t.treeIds, []) + Added(t.blobIds, [])
  {
    if root {
      DiffFromEmpty(index, height, d, t);
    }
  }

  // ---------------------------------------------------------------------
  // Completeness for blobs

  /** Some change in `cs` is reported at path `names`. */
  ghost predicate Reported(cs: seq<Change>, names: seq<string>) {
    exists c :: c in cs && c.names == names
  }

  /** A changed left-hand blob is reported at its path. */
  lemma {:induction false} DiffBlobsHas(ls: seq<Entry>, rs: seq<Entry>, prefix: seq<string>, e: Entry)
    requires e in ls && Lookup(rs, e.name) != Some(e.id)
    ensures Change(prefix + [e.name], Some(e.id), Lookup(rs, e.name)) in DiffBlobs(ls, rs, prefix)
  {
    if ls[0] != e {
      DiffBlobsHas(ls[1..], rs, prefix, e);
    }
  }

  /** A left-hand subtree missing on the right is reported; one that
      differs contributes its whole sub-difference. */
  lemma {:induction false} DiffSubtreesHas(index: TreeStore, height: map<Id, nat>, d: nat, ls: seq<Entry>, rs: seq<Entry>, prefix: seq<string>, e: Entry)
    requires Ranked(index, height) && EntriesFit(index, height, ls, d) && EntriesFit(index, height, rs, d)
    requires e in ls
    ensures Lookup(rs, e.name).None? ==> Change(prefix + [e.name], Some(e.id), None) in DiffSubtrees(index, height, d, ls, rs, prefix)
    ensures Lookup(rs, e.name).Some? && Lookup(rs, e.name).value != e.id ==>
      var b := Lookup(rs, e.name).value;
      forall c | c in DiffTrees(index, height, Max(height[e.id], height[b]), index[e.id], index[b], prefix + [e.name]) ::
        c in DiffSubtrees(index, height, d, ls, rs, prefix)
  {
    if ls[0] != e {
      DiffSubtreesHas(index, height, d, ls[1..], rs, prefix, e);
    }
  }

  /** An entry of the right side absent from the left is reported added. */
  lemma AddedHas(rs: seq<Entry>, ls: seq<Entry>, prefix: seq<string>, e: Entry)
    requires e in rs && Lookup(ls, e.name).None?
    ensures Change(prefix + [e.name], None, Some(e.id)) in Added(RightOnly(rs, ls), prefix)
  {
    var es := RightOnly(rs, ls);
    var i :| 0 <= i < |es| && es[i] == e;
    assert Added(es, prefix)[i] == Change(prefix + [e.name], None, Some(e.id));
  }

  /** If the blob at path `p` differs between `l` and `r`, the difference
      reports `p` itself or a directory on the way to it that was added or
      removed as a whole. */
  lemma {:induction false} DiffTreesComplete(index: TreeStore, height: map<Id, nat>, d: nat, l: TreeDoc, r: TreeDoc, prefix: seq<string>, p: seq<string>)
    requires Ranked(index, height) && Fits(index, height, l, d) && Fits(index, height, r, d)
    requires TreeOk(l) && TreeOk(r) && |p| > 0
    ensures Resolve(index, l, p, true) != Resolve(index, r, p, true) ==>
      exists k :: 1 <= k <= |p| && Reported(DiffTrees(index, height, d, l, r, prefix), prefix + p[..k])
    decreases d
  {
    var all := DiffTrees(index, height, d, l, r, prefix);
    var n := p[0];
    assert p[..1] == [n];
    if |p| == 1 {
      var la := Lookup(l.blobIds, n);
      var lb := Lookup(r.blobIds, n);
      if la.Some? && la != lb {
        DiffBlobsHas(l.blobIds, r.blobIds, prefix, Entry(n, la.value));
        assert Change(prefix + [n], la, lb) in all;
        assert Reported(all, prefix + p[..1]);
      } else if la.None? && lb.Some? {
        AddedHas(r.blobIds, l.blobIds, prefix, Entry(n, lb.value));
        assert Change(prefix + [n], None, lb) in all;
        assert Reported(all, prefix + p[..1]);
      }
    } else {
      var la := Lookup(l.treeIds, n);
      var lb := Lookup(r.treeIds, n);
      if la.Some? && lb.None? {
        DiffSubtreesHas(index, height, d, l.treeIds, r.treeIds, prefix, Entry(n, la.value));
        assert Change(prefix + [n], la, None) in all;
        assert Reported(all, prefix + p[..1]);
      } else if la.None? && lb.Some? {
        AddedHas(r.treeIds, l.treeIds, prefix, Entry(n, lb.value));
        assert Change(prefix + [n], None, lb) in all;
        assert Reported(all, prefix + p[..1]);
      } else if la.Some? && lb.Some? && la != lb {
        SubtreeComplete(index, height, d, l, r, prefix, p, la.value, lb.value);
      }
    }
  }

  lemma ExtendPath<T>(prefix: seq<T>, p: seq<T>, k: nat)
    requires k < |p|
    ensures prefix + [p[0]] + p[1..][..k] == prefix + p[..k + 1]
  {
    assert p[..k + 1] == [p[0]] + p[1..][..k];
  }

  /** A report inside a sub-difference is a report of the whole one, at
      the path extended by the subtree's name. */
  lemma LiftReported(sub: seq<Change>, all: seq<Change>, prefix: seq<string>, p: seq<string>, k: nat)
    requires forall c | c in sub :: c in all
    requires k < |p| && Reported(sub, prefix + [p[0]] + p[1..][..k])
    ensures Reported(all, prefix + p[..k + 1])
  {
    var c :| c in sub && c.names == prefix + [p[0]] + p[1..][..k];
    ExtendPath(prefix, p, k);
    assert c in all;
  }

  /** The recursive case: the path continues below two different
      same-named subtrees. */
  lemma {:induction false} SubtreeComplete(index: TreeStore, height: map<Id, nat>, d: nat, l: TreeDoc, r: TreeDoc, prefix: seq<string>, p: seq<string>, a: Id, b: Id)
    requires Ranked(index, height) && Fits(index, height, l, d) && Fits(index, height, r, d)
    requires TreeOk(l) && TreeOk(r) && |p| > 1
    requires Lookup(l.treeIds, p[0]) == Some(a) && Lookup(r.treeIds, p[0]) == Some(b) && a != b
    ensures Resolve(index, l, p, true) != Resolve(index, r, p, true) ==>
      exists k :: 1 <= k <= |p| && Reported(DiffTrees(index, height, d, l, r, prefix), prefix + p[..k])
    decreases d, 0
  {
    var n := p[0];
    var rest := p[1..];
    var all := DiffTrees(index, height, d, l, r, prefix);
    assert Entry(n, a) in l.treeIds && Entry(n, b) in r.treeIds;
    var d' := Max(height[a], height[b]);
    var sub := DiffTrees(index, height, d', index[a], index[b], prefix + [n]);
    DiffSubtreesHas(index, height, d, l.treeIds, r.treeIds, prefix, Entry(n, a));
    ResolveDown(index, l, p, a, true);
    ResolveDown(index, r, p, b, true);
    DiffTreesComplete(index, height, d', index[a], index[b], prefix + [n], rest);
    if Resolve(index, l, p, true) != Resolve(index, r, p, true) {
      var k :| 1 <= k <= |rest| && Reported(sub, prefix + [n] + rest[..k]);
      LiftReported(sub, all, prefix, p, k);
    }
  }
}
