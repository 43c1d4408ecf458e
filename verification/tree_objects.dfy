/** Navigating a stored tree: the name table with its precedence
    (`Tree.by_name`), child access (`Tree.__getitem__`), path lookup
    (`Tree.get_obj_by_path`), the path of a tree or blob (`Tree.path`,
    `Blob.path`) and the directory listing (`Tree.ls`). */
module TreeObjects {
  import opened Wrappers
  import opened RepoDocs
  import opened Text
  import opened Sorting

  /** A name-table entry: the object id and its type. */
  datatype Named = Named(id: Id, kind: ObjKind)

  /** What `tree[name]` returns: a blob, or a stored subtree. */
  datatype Obj = BlobObj(id: Id) | TreeObj(id: Id)

  /** The table built from entries of one kind, a later entry overriding
      an earlier one of the same name. */
  function EntryTable(es: seq<Entry>, kind: ObjKind): (m: map<string, Named>)
    ensures forall n :: n in m <==> exists e :: e in es && e.name == n
    ensures forall n | n in m :: m[n].kind == kind && Entry(n, m[n].id) in es
  {
    if |es| == 0 then map[]
    else
      var e := es[|es| - 1];
      assert forall x :: x in es <==> x in es[..|es| - 1] || x == e;
      EntryTable(es[..|es| - 1], kind)[e.name := Named(e.id, kind)]
  }

  /** The same for the other entries, each keeping its own type. */
  function OtherTable(es: seq<OtherEntry>): (m: map<string, Named>)
    ensures forall n :: n in m <==> exists e :: e in es && e.name == n
    ensures forall n | n in m :: OtherEntry(n, m[n].id, m[n].kind) in es
  {
    if |es| == 0 then map[]
    else
      var e := es[|es| - 1];
      assert forall x :: x in es <==> x in es[..|es| - 1] || x == e;
      OtherTable(es[..|es| - 1])[e.name := Named(e.id, e.kind)]
  }

  /** The name table of a tree: other entries, overridden by subtrees,
      overridden by blobs. */
  function ByName(t: TreeDoc): map<string, Named> {
    OtherTable(t.otherIds) + EntryTable(t.treeIds, TreeKind) + EntryTable(t.blobIds, BlobKind)
  }

  /** Every entry's name is in the table, and only those. */
  lemma ByNameNames(t: TreeDoc, n: string)
    ensures n in ByName(t) <==>
      (exists e :: e in t.blobIds && e.name == n) || (exists e :: e in t.treeIds && e.name == n)
      || (exists e :: e in t.otherIds && e.name == n)
  {
  }

  /** Blobs win over subtrees, which win over other entries. */
  lemma ByNamePrecedence(t: TreeDoc, n: string)
    ensures (exists e :: e in t.blobIds && e.name == n) ==>
      n in ByName(t) && ByName(t)[n].kind == BlobKind && Entry(n, ByName(t)[n].id) in t.blobIds
    ensures (forall e | e in t.blobIds :: e.name != n) && (exists e :: e in t.treeIds && e.name == n) ==>
      n in ByName(t) && ByName(t)[n].kind == TreeKind && Entry(n, ByName(t)[n].id) in t.treeIds
    ensures (forall e | e in t.blobIds :: e.name != n) && (forall e | e in t.treeIds :: e.name != n) && n in ByName(t) ==>
      OtherEntry(n, ByName(t)[n].id, ByName(t)[n].kind) in t.otherIds
  {
    var o := OtherTable(t.otherIds);
    var tr := EntryTable(t.treeIds, TreeKind);
    var bl := EntryTable(t.blobIds, BlobKind);
    if n in bl {
      assert ByName(t)[n] == bl[n];
    } else if n in tr {
      assert ByName(t)[n] == tr[n];
    }
  }

  /** `tree[name]`: a blob-typed entry gives a blob; any other entry gives
      the stored tree of that id; `None` stands for the `KeyError` raised
      for an unknown name or a tree that is not stored. */
  function Child(index: TreeStore, t: TreeDoc, name: string): (r: Option<Obj>)
    ensures r.Some? ==> name in ByName(t) && r.value.id == ByName(t)[name].id
    ensures (r.Some? && r.value.BlobObj?) <==> name in ByName(t) && ByName(t)[name].kind == BlobKind
    ensures r.Some? && r.value.TreeObj? ==> r.value.id in index
  {
    var m := ByName(t);
    if name !in m then None
    else if m[name].kind == BlobKind then Some(BlobObj(m[name].id))
    else if m[name].id in index then Some(TreeObj(m[name].id))
    else None
  }

  /** The object reached from the stored tree `id` by following `parts`.
      Indexing into a blob raises (a blob has no children): `Failure`. */
  function Walk(index: TreeStore, id: Id, parts: seq<string>): (r: Result<Option<Obj>>)
    requires id in index
    ensures r.Ok? && r.value.Some? && r.value.value.TreeObj? ==> r.value.value.id in index
    ensures r.Err? ==> |parts| > 1
    decreases |parts|
  {
    if |parts| == 0 then Ok(Some(TreeObj(id)))
    else match Child(index, index[id], parts[0])
      case None => Ok(None)
      case Some(BlobObj(b)) =>
        if |parts| == 1 then Ok(Some(BlobObj(b))) else Err("a blob has no children")
      case Some(TreeObj(s)) => Walk(index, s, parts[1..])
  }

  /** `get_obj_by_path`: one leading '/' is dropped and the rest is split
      on '/'. */
  function GetObjByPath(index: TreeStore, root: Id, path: string): Result<Option<Obj>>
    requires root in index
  {
    var p := if StartsWith(path, "/") then path[1..] else path;
    Walk(index, root, Split(p, '/'))
  }

  // ---------------------------------------------------------------------
  // Properties of path lookup

  /** A walk is a walk to the intermediate tree followed by a walk from
      it; a missing component on the way makes the whole lookup `None`. */
  lemma {:induction false} WalkAppend(index: TreeStore, id: Id, a: seq<string>, b: seq<string>)
    requires id in index
    ensures Walk(index, id, a) == Ok(None) ==> Walk(index, id, a + b) == Ok(None)
    ensures Walk(index, id, a).Ok? && Walk(index, id, a).value.Some? && Walk(index, id, a).value.value.TreeObj? ==>
      Walk(index, Walk(index, id, a).value.value.id, b) == Walk(index, id, a + b)
    decreases |a|
  {
    if |a| > 0 {
      assert (a + b)[0] == a[0] && (a + b)[1..] == a[1..] + b;
      var c := Child(index, index[id], a[0]);
      if c.Some? && c.value.TreeObj? {
        WalkAppend(index, c.value.id, a[1..], b);
      }
    } else {
      assert a + b == b;
    }
  }

  /** A component that is not in the table of the tree reached so far
      makes the lookup `None`, whatever follows. */
  lemma WalkMissing(index: TreeStore, id: Id, a: seq<string>, s: Id, name: string, b: seq<string>)
    requires id in index && s in index
    requires Walk(index, id, a) == Ok(Some(TreeObj(s))) && name !in ByName(index[s])
    ensures Walk(index, id, a + [name] + b) == Ok(None)
  {
    WalkAppend(index, id, a, [name] + b);
    assert a + [name] + b == a + ([name] + b);
    assert ([name] + b)[0] == name;
  }

  /** One leading '/' does not change the lookup. */
  lemma LeadingSlash(index: TreeStore, root: Id, path: string)
    requires root in index && !StartsWith(path, "/")
    ensures GetObjByPath(index, root, "/" + path) == GetObjByPath(index, root, path)
  {
    assert StartsWith("/" + path, "/");
    assert ("/" + path)[1..] == path;
  }

  // ---------------------------------------------------------------------
  // Paths of trees and blobs

  /** `Tree.path()` of the tree reached through subtrees `names`. */
  function TreePath(names: seq<string>): string
    decreases |names|
  {
    if |names| == 0 then "/" else TreePath(names[..|names| - 1]) + names[|names| - 1] + "/"
  }

  /** `Blob.path()`: its tree's path followed by its name. */
  function BlobPath(names: seq<string>, name: string): string {
    TreePath(names) + name
  }

  /** A tree path is '/' followed by the names, each followed by '/'. */
  lemma {:induction false} TreePathJoin(names: seq<string>, name: string)
    ensures TreePath(names) + name == "/" + Join(names + [name], "/")
    decreases |names|
  {
    if |names| > 0 {
      var init := names[..|names| - 1];
      var last := names[|names| - 1];
      TreePathJoin(init, last);
      JoinSnoc(init + [last], name);
      assert init + [last] == names;
    }
  }

  /** Appending a part to a non-empty list of parts appends the separator
      and the part. */
  lemma {:induction false} JoinSnoc(parts: seq<string>, x: string)
    requires |parts| > 0
    ensures Join(parts + [x], "/") == Join(parts, "/") + "/" + x
    decreases |parts|
  {
    if |parts| > 1 {
      JoinSnoc(parts[1..], x);
      assert (parts + [x])[1..] == parts[1..] + [x];
    } else {
      assert (parts + [x])[1..] == [x];
    }
  }

  /** Looking up a blob's own path from the root walks the tree names and
      then the blob's name: `get_obj_by_path` inverts `Blob.path`. */
  lemma BlobPathLookup(index: TreeStore, root: Id, names: seq<string>, name: string)
    requires root in index
    requires forall i :: 0 <= i < |names| ==> '/' !in names[i]
    requires '/' !in name
    ensures GetObjByPath(index, root, BlobPath(names, name)) == Walk(index, root, names + [name])
  {
    var parts := names + [name];
    TreePathJoin(names, name);
    var j := Join(parts, "/");
    assert BlobPath(names, name) == "/" + j;
    assert StartsWith("/" + j, "/") && ("/" + j)[1..] == j;
    forall i | 0 <= i < |parts|
      ensures '/' !in parts[i]
    {
      if i < |names| {
        assert parts[i] == names[i];
      }
    }
    SplitJoin(parts, '/');
  }

  // ---------------------------------------------------------------------
  // Directory listing (ls)

  datatype ListKind = Dir | File | OtherKind(kind: ObjKind)

  /** One listing row; `lastCommit == None` is the row of empty fields
      shown when nothing is known. */
  datatype Listing = Listing(kind: ListKind, name: string, href: Option<string>, lastCommit: Option<CommitInfo>)

  /** The last-commit record of an entry: looked up by name, else by id. */
  function LastCommitFor(lc: map<string, CommitInfo>, name: string, id: Id): Option<CommitInfo> {
    if name in lc then Some(lc[name]) else if id in lc then Some(lc[id]) else None
  }

  /** Comparison of entries by name. */
  function NameLe(a: Entry, b: Entry): bool {
    StrLe(a.name, b.name)
  }

  function OtherNameLe(a: OtherEntry, b: OtherEntry): bool {
    StrLe(a.name, b.name)
  }

  function EntryRows(es: seq<Entry>, lc: map<string, CommitInfo>, dir: bool): (rows: seq<Listing>)
    ensures |rows| == |es|
    ensures forall i | 0 <= i < |es| :: rows[i] == Listing(if dir then Dir else File, es[i].name,
      Some(if dir then es[i].name + "/" else es[i].name), LastCommitFor(lc, es[i].name, es[i].id))
  {
    if |es| == 0 then []
    else [Listing(if dir then Dir else File, es[0].name, Some(if dir then es[0].name + "/" else es[0].name),
                  LastCommitFor(lc, es[0].name, es[0].id))] + EntryRows(es[1..], lc, dir)
  }

  function OtherRows(es: seq<OtherEntry>, lc: map<string, CommitInfo>): (rows: seq<Listing>)
    ensures |rows| == |es|
    ensures forall i | 0 <= i < |es| ::
      rows[i] == Listing(OtherKind(es[i].kind), es[i].name, None, LastCommitFor(lc, es[i].name, es[i].id))
  {
    if |es| == 0 then []
    else [Listing(OtherKind(es[0].kind), es[0].name, None, LastCommitFor(lc, es[0].name, es[0].id))] + OtherRows(es[1..], lc)
  }

  /** `Tree.ls`: directories, then files, then other entries, each group
      sorted by name. */
  function Ls(t: TreeDoc, lc: map<string, CommitInfo>): seq<Listing> {
    EntryRows(SortBy(t.treeIds, NameLe), lc, true)
      + EntryRows(SortBy(t.blobIds, NameLe), lc, false)
      + OtherRows(SortBy(t.otherIds, OtherNameLe), lc)
  }

  lemma NameOrders()
    ensures TotalPreorder(NameLe) && TotalPreorder(OtherNameLe)
  {
    forall a: Entry, b: Entry
      ensures NameLe(a, b) || NameLe(b, a)
    {
      StrLeTotal(a.name, b.name);
    }
    forall a: Entry, b: Entry, c: Entry | NameLe(a, b) && NameLe(b, c)
      ensures NameLe(a, c)
    {
      StrLeTrans(a.name, b.name, c.name);
    }
    forall a: OtherEntry, b: OtherEntry
      ensures OtherNameLe(a, b) || OtherNameLe(b, a)
    {
      StrLeTotal(a.name, b.name);
    }
    forall a: OtherEntry, b: OtherEntry, c: OtherEntry | OtherNameLe(a, b) && OtherNameLe(b, c)
      ensures OtherNameLe(a, c)
    {
      StrLeTrans(a.name, b.name, c.name);
    }
  }

  /** The listing has one row per entry: the directories first, each as a
      permutation of the subtrees ordered by name and linking to
      `name + '/'`; then the files, linking to `name`; then the other
      entries, without a link. Every row carries the entry's last-commit
      record. */
  lemma LsListing(t: TreeDoc, lc: map<string, CommitInfo>)
    ensures
      var r := Ls(t, lc);
      var nt := |t.treeIds|;
      var nb := |t.blobIds|;
      |r| == nt + nb + |t.otherIds|
      && (exists s :: multiset(s) == multiset(t.treeIds) && SortedBy(s, NameLe) && r[..nt] == EntryRows(s, lc, true))
      && (exists s :: multiset(s) == multiset(t.blobIds) && SortedBy(s, NameLe) && r[nt..nt + nb] == EntryRows(s, lc, false))
      && (exists s :: multiset(s) == multiset(t.otherIds) && SortedBy(s, OtherNameLe) && r[nt + nb..] == OtherRows(s, lc))
  {
    NameOrders();
    var st := SortBy(t.treeIds, NameLe);
    var sb := SortBy(t.blobIds, NameLe);
    var so := SortBy(t.otherIds, OtherNameLe);
    SortSorted(t.treeIds, NameLe);
    SortSorted(t.blobIds, NameLe);
    SortSorted(t.otherIds, OtherNameLe);
    var a := EntryRows(st, lc, true);
    var b := EntryRows(sb, lc, false);
    var c := OtherRows(so, lc);
    var r := Ls(t, lc);
    assert r == a + b + c;
    Thirds(a, b, c);
    var nt, nb := |t.treeIds|, |t.blobIds|;
    assert multiset(st) == multiset(t.treeIds) && SortedBy(st, NameLe) && r[..nt] == EntryRows(st, lc, true);
    assert multiset(sb) == multiset(t.blobIds) && SortedBy(sb, NameLe) && r[nt..nt + nb] == EntryRows(sb, lc, false);
    assert multiset(so) == multiset(t.otherIds) && SortedBy(so, OtherNameLe) && r[nt + nb..] == OtherRows(so, lc);
  }

  lemma Thirds<T>(a: seq<T>, b: seq<T>, c: seq<T>)
    ensures |a + b + c| == |a| + |b| + |c|
    ensures (a + b + c)[..|a|] == a && (a + b + c)[|a|..|a| + |b|] == b && (a + b + c)[|a| + |b|..] == c
  {
  }
}
