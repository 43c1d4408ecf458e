/** Last-commit records (`refresh_last_commit`, `set_last_commit`): when a
    commit's tree differs from its parent's, every entry whose id changed
    gets a record naming the commit, keyed by repository, directory path
    and entry name; unchanged trees are pruned whole. */
module LastCommit {
  import opened Wrappers
  import opened RepoDocs
  import opened TreeDiff

  /** One upserted record: where it is (directory path and entry name),
      the object it describes and the commit that last changed it. */
  datatype Write = Write(path: string, name: string, objectId: Id, info: CommitInfo)

  /** The record's `_id`: '<repo>:<path>:<name>'. */
  function KeyOf(repo: string, w: Write): string {
    repo + ":" + w.path + ":" + w.name
  }

  /** A child of a tree, of any kind. */
  datatype Child = Child(name: string, id: Id)

  function Children(t: TreeDoc): seq<Child> {
    EntryChildren(t.treeIds) + EntryChildren(t.blobIds) + OtherChildren(t.otherIds)
  }

  /** Every entry of every kind is a child, and nothing else is. */
  lemma ChildrenOf(t: TreeDoc)
    ensures |Children(t)| == |t.treeIds| + |t.blobIds| + |t.otherIds|
    ensures forall e | e in t.treeIds :: Child(e.name, e.id) in Children(t)
    ensures forall e | e in t.blobIds :: Child(e.name, e.id) in Children(t)
    ensures forall e | e in t.otherIds :: Child(e.name, e.id) in Children(t)
  {
    var a, b, c := EntryChildren(t.treeIds), EntryChildren(t.blobIds), OtherChildren(t.otherIds);
    assert Children(t) == a + b + c;
    forall e | e in t.treeIds
      ensures Child(e.name, e.id) in Children(t)
    {
      var i :| 0 <= i < |t.treeIds| && t.treeIds[i] == e;
      assert a[i] == Child(e.name, e.id);
    }
    forall e | e in t.blobIds
      ensures Child(e.name, e.id) in Children(t)
    {
      var i :| 0 <= i < |t.blobIds| && t.blobIds[i] == e;
      assert b[i] == Child(e.name, e.id);
    }
    forall e | e in t.otherIds
      ensures Child(e.name, e.id) in Children(t)
    {
      var i :| 0 <= i < |t.otherIds| && t.otherIds[i] == e;
      assert c[i] == Child(e.name, e.id);
    }
  }

  function EntryChildren(es: seq<Entry>): (cs: seq<Child>)
    ensures |cs| == |es| && forall i | 0 <= i < |es| :: cs[i] == Child(es[i].name, es[i].id)
  {
    if |es| == 0 then [] else [Child(es[0].name, es[0].id)] + EntryChildren(es[1..])
  }

  function OtherChildren(es: seq<OtherEntry>): (cs: seq<Child>)
    ensures |cs| == |es| && forall i | 0 <= i < |es| :: cs[i] == Child(es[i].name, es[i].id)
  {
    if |es| == 0 then [] else [Child(es[0].name, es[0].id)] + OtherChildren(es[1..])
  }

  /** The left-hand name map: subtrees, then blobs, then other entries, a
      later one overriding an earlier one of the same name. */
  function LeftMap(cs: seq<Child>): map<string, Id> {
    if |cs| == 0 then map[] else LeftMap(cs[..|cs| - 1])[cs[|cs| - 1].name := cs[|cs| - 1].id]
  }

  /** A name is mapped exactly when some child has it, to the id of the
      last such child. */
  lemma {:induction false} LeftMapOf(cs: seq<Child>)
    ensures forall n :: n in LeftMap(cs) <==> exists c :: c in cs && c.name == n
    ensures forall i | 0 <= i < |cs| && (forall j | i < j < |cs| :: cs[j].name != cs[i].name) ::
              cs[i].name in LeftMap(cs) && LeftMap(cs)[cs[i].name] == cs[i].id
  {
    if |cs| > 0 {
      var init := cs[..|cs| - 1];
      LeftMapOf(init);
      assert forall x :: x in cs <==> x in init || x == cs[|cs| - 1];
      forall i | 0 <= i < |cs| - 1 && (forall j | i < j < |cs| :: cs[j].name != cs[i].name)
        ensures cs[i].name in LeftMap(cs) && LeftMap(cs)[cs[i].name] == cs[i].id
      {
        assert init[i] == cs[i];
        assert forall j | i < j < |init| :: init[j] == cs[j];
      }
    }
  }

  /** `lhs_map.get(name)`. */
  function Get(m: map<string, Id>, name: string): Option<Id> {
    if name in m then Some(m[name]) else None
  }

  /** The records written for the children of one tree: those whose id
      differs from the same-named left-hand entry, or that have none. */
  function ChildWrites(path: string, cs: seq<Child>, left: map<string, Id>, info: CommitInfo): (ws: seq<Write>)
    ensures forall w | w in ws :: w.path == path && w.info == info
  {
    if |cs| == 0 then []
    else
      var c := cs[0];
      var rest := ChildWrites(path, cs[1..], left, info);
      if Get(left, c.name) != Some(c.id) then [Write(path, c.name, c.id, info)] + rest else rest
  }

  /** A child gets a record exactly when its id differs from the left-hand
      one, and every record is for such a child. */
  lemma {:induction false} ChildWritesExact(path: string, cs: seq<Child>, left: map<string, Id>, info: CommitInfo)
    ensures var ws := ChildWrites(path, cs, left, info);
            (forall c | c in cs :: Write(path, c.name, c.id, info) in ws <==> Get(left, c.name) != Some(c.id))
            && (forall w | w in ws :: Child(w.name, w.objectId) in cs && Get(left, w.name) != Some(w.objectId))
  {
    if |cs| > 0 {
      ChildWritesExact(path, cs[1..], left, info);
      assert forall x :: x in cs <==> x == cs[0] || x in cs[1..];
    }
  }

  /** `refresh_last_commit` for the stored tree `t` at directory `path`
      against the left-hand tree `lhs` (`None` when there is none): nothing
      when the two are the same tree; otherwise the records of the changed
      children, then the same for every subtree against the same-named
      left-hand tree. */
  function Refresh(index: TreeStore, ghost height: map<Id, nat>, path: string, t: Id, lhs: Option<Id>, info: CommitInfo): (ws: seq<Write>)
    requires Ranked(index, height) && t in index && (lhs.Some? ==> lhs.value in index)
    ensures forall w | w in ws :: |path| <= |w.path| && w.path[..|path|] == path && w.info == info
    decreases height[t], 1, 0
  {
    if lhs == Some(t) then []
    else
      var left := if lhs.Some? then LeftMap(Children(index[lhs.value])) else map[];
      ChildWrites(path, Children(index[t]), left, info)
        + RefreshSubtrees(index, height, height[t], path, index[t].treeIds, left, info)
  }

  /** The left-hand tree for a subtree entry: the same-named left-hand
      entry when it is a stored tree. */
  function LeftTree(index: TreeStore, left: map<string, Id>, name: string): (r: Option<Id>)
    ensures r.Some? ==> r.value in index
  {
    if name in left && left[name] in index then Some(left[name]) else None
  }

  /** The recursion into each subtree entry, in order. A left-hand entry of
      the same name that is not a stored tree counts as no left-hand tree. */
  function RefreshSubtrees(index: TreeStore, ghost height: map<Id, nat>, ghost d: nat, path: string,
                           es: seq<Entry>, left: map<string, Id>, info: CommitInfo): (ws: seq<Write>)
    requires Ranked(index, height) && EntriesFit(index, height, es, d)
    ensures forall w | w in ws :: |path| < |w.path| && w.path[..|path|] == path && w.info == info
    decreases d, 0, |es|
  {
    if |es| == 0 then []
    else
      var e := es[0];
      var sub := Refresh(index, height, path + e.name + "/", e.id, LeftTree(index, left, e.name), info);
      assert forall w | w in sub :: |path| < |w.path| && w.path[..|path|] == path by {
        forall w | w in sub
          ensures |path| < |w.path| && w.path[..|path|] == path
        {
          assert w.path[..|path + e.name + "/"|] == path + e.name + "/";
          assert w.path[..|path|] == (path + e.name + "/")[..|path|];
        }
      }
      sub + RefreshSubtrees(index, height, d, path, es[1..], left, info)
  }

  /** The records at the tree's own directory are exactly those of its
      children whose id differs from the same-named left-hand entry (every
      child, when there is no left-hand tree); deeper records all lie
      strictly below it. */
  lemma RefreshDirect(index: TreeStore, height: map<Id, nat>, path: string, t: Id, lhs: Option<Id>, info: CommitInfo)
    requires Ranked(index, height) && t in index && (lhs.Some? ==> lhs.value in index)
    requires lhs != Some(t)
    ensures var ws := Refresh(index, height, path, t, lhs, info);
            var left := if lhs.Some? then LeftMap(Children(index[lhs.value])) else map[];
            (forall c | c in Children(index[t]) ::
               Write(path, c.name, c.id, info) in ws <==> Get(left, c.name) != Some(c.id))
            && (forall w | w in ws && w.path == path ::
                  Child(w.name, w.objectId) in Children(index[t]) && Get(left, w.name) != Some(w.objectId))
  {
    var left := if lhs.Some? then LeftMap(Children(index[lhs.value])) else map[];
    var direct := ChildWrites(path, Children(index[t]), left, info);
    ChildWritesExact(path, Children(index[t]), left, info);
    var deeper := RefreshSubtrees(index, height, height[t], path, index[t].treeIds, left, info);
    assert Refresh(index, height, path, t, lhs, info) == direct + deeper;
  }

  /** Every subtree entry is refreshed at `path + name + "/"` against the
      same-named left-hand tree, and its records are all kept. */
  lemma {:induction false} RefreshSubtreesKeep(index: TreeStore, height: map<Id, nat>, d: nat, path: string,
                                               es: seq<Entry>, left: map<string, Id>, info: CommitInfo, i: nat)
    requires Ranked(index, height) && EntriesFit(index, height, es, d) && i < |es|
    ensures Within(Refresh(index, height, path + es[i].name + "/", es[i].id, LeftTree(index, left, es[i].name), info),
                   RefreshSubtrees(index, height, d, path, es, left, info))
    decreases i
  {
    var sub := Refresh(index, height, path + es[0].name + "/", es[0].id, LeftTree(index, left, es[0].name), info);
    var rest := RefreshSubtrees(index, height, d, path, es[1..], left, info);
    assert RefreshSubtrees(index, height, d, path, es, left, info) == sub + rest;
    if i > 0 {
      FitTail(index, height, es, d);
      RefreshSubtreesKeep(index, height, d, path, es[1..], left, info, i - 1);
      assert es[1..][i - 1] == es[i];
      InRight(Refresh(index, height, path + es[i].name + "/", es[i].id, LeftTree(index, left, es[i].name), info), sub, rest);
    } else {
      InLeft(sub, rest);
    }
  }

  /** `refresh_last_commit` descends into every subtree of a changed tree. */
  lemma RefreshDescends(index: TreeStore, height: map<Id, nat>, path: string, t: Id, lhs: Option<Id>,
                        info: CommitInfo, e: Entry)
    requires Ranked(index, height) && t in index && (lhs.Some? ==> lhs.value in index)
    requires lhs != Some(t) && e in index[t].treeIds
    ensures e.id in index
    ensures var left := if lhs.Some? then LeftMap(Children(index[lhs.value])) else map[];
            Within(Refresh(index, height, path + e.name + "/", e.id, LeftTree(index, left, e.name), info),
                   Refresh(index, height, path, t, lhs, info))
  {
    var left := if lhs.Some? then LeftMap(Children(index[lhs.value])) else map[];
    var i :| 0 <= i < |index[t].treeIds| && index[t].treeIds[i] == e;
    RefreshSubtreesKeep(index, height, height[t], path, index[t].treeIds, left, info, i);
  }

  /** With no left-hand tree (a root commit) every object of the whole
      tree, at every depth, gets a record. */
  lemma {:induction false} RefreshRoot(index: TreeStore, height: map<Id, nat>, path: string, t: Id,
                                      info: CommitInfo, names: seq<string>, c: Child)
    requires Ranked(index, height) && t in index
    requires Below(index, t, names, c)
    ensures Write(path + Dirs(names), c.name, c.id, info) in Refresh(index, height, path, t, None, info)
    decreases |names|
  {
    if |names| == 0 {
      RefreshDirect(index, height, path, t, None, info);
      assert path + Dirs(names) == path;
    } else {
      var e :| e in index[t].treeIds && e.name == names[0] && e.id in index && Below(index, e.id, names[1..], c);
      RefreshDescends(index, height, path, t, None, info, e);
      RefreshRoot(index, height, path + e.name + "/", e.id, info, names[1..], c);
      Concat4(path, e.name, "/", Dirs(names[1..]));
    }
  }

  lemma FitTail(index: TreeStore, height: map<Id, nat>, es: seq<Entry>, d: nat)
    requires EntriesFit(index, height, es, d) && |es| > 0
    ensures EntriesFit(index, height, es[1..], d)
  {
    assert forall e | e in es[1..] :: e in es;
  }

  /** Every element of `xs` is in `ys`. */
  ghost predicate Within<T>(xs: seq<T>, ys: seq<T>) {
    forall x | x in xs :: x in ys
  }

  lemma InLeft<T>(a: seq<T>, b: seq<T>)
    ensures Within(a, a + b)
  {
  }

  lemma InRight<T>(xs: seq<T>, a: seq<T>, b: seq<T>)
    requires Within(xs, b)
    ensures Within(xs, a + b)
  {
  }

  lemma Concat4<T>(a: seq<T>, b: seq<T>, c: seq<T>, d: seq<T>)
    ensures a + b + c + d == a + (b + c + d)
  {
  }

  /** The directory prefix `n1/n2/.../` of a list of names. */
  function Dirs(names: seq<string>): string {
    if |names| == 0 then "" else names[0] + "/" + Dirs(names[1..])
  }

  /** `c` is a child of the tree reached from `t` through the subtree
      entries `names`. */
  ghost predicate Below(index: TreeStore, t: Id, names: seq<string>, c: Child)
    requires t in index
    decreases |names|
  {
    if |names| == 0 then c in Children(index[t])
    else exists e | e in index[t].treeIds :: e.name == names[0] && e.id in index && Below(index, e.id, names[1..], c)
  }
}
