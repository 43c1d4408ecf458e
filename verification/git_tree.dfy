/** `GitLikeTree`: an in-memory directory tree built from paths. Directory
    steps go through a `defaultdict`, so every read or write along a path
    creates the directories it passes through; the tree's text form is its
    sorted entry lines and its id is a digest of that text. */
module GitTree {
  import opened Wrappers
  import opened Text
  import Sorting

  /** A file entry: `blobs[name] = oid`. */
  datatype Blob = Blob(name: string, oid: string)

  /** A directory entry: `trees[name] = node`. */
  datatype Sub = Sub(name: string, node: Node)

  /** One directory. Each list is in its dict's iteration order and holds
      at most one entry per name once built by the operations below. */
  datatype Node = Node(blobs: seq<Blob>, trees: seq<Sub>)

  const Empty: Node := Node([], [])

  // ---------------------------------------------------------------------
  // The two dicts of a directory

  /** `blobs.get(name)`. */
  function FindBlob(bs: seq<Blob>, name: string): (r: Option<string>)
    ensures r.Some? ==> Blob(name, r.value) in bs
  {
    if |bs| == 0 then None
    else if bs[0].name == name then Some(bs[0].oid)
    else FindBlob(bs[1..], name)
  }

  /** `blobs[name] = oid`: the entry is replaced in place or added at the
      end, and no other name changes. */
  function PutBlob(bs: seq<Blob>, name: string, oid: string): (r: seq<Blob>)
    ensures FindBlob(r, name) == Some(oid)
    ensures forall m | m != name :: FindBlob(r, m) == FindBlob(bs, m)
    ensures forall x | x in r :: x in bs || x == Blob(name, oid)
  {
    if |bs| == 0 then [Blob(name, oid)]
    else if bs[0].name == name then [Blob(name, oid)] + bs[1..]
    else
      var rest := PutBlob(bs[1..], name, oid);
      assert ([bs[0]] + rest)[1..] == rest;
      [bs[0]] + rest
  }

  /** `trees.get(name)`. */
  function FindSub(ss: seq<Sub>, name: string): (r: Option<Node>)
    ensures r.Some? ==> Sub(name, r.value) in ss
  {
    if |ss| == 0 then None
    else if ss[0].name == name then Some(ss[0].node)
    else FindSub(ss[1..], name)
  }

  /** `trees[name] = node`, in place or at the end. */
  function PutSub(ss: seq<Sub>, name: string, node: Node): (r: seq<Sub>)
    ensures FindSub(r, name) == Some(node)
    ensures forall m | m != name :: FindSub(r, m) == FindSub(ss, m)
    ensures forall x | x in r :: x in ss || x == Sub(name, node)
  {
    if |ss| == 0 then [Sub(name, node)]
    else if ss[0].name == name then [Sub(name, node)] + ss[1..]
    else
      var rest := PutSub(ss[1..], name, node);
      assert ([ss[0]] + rest)[1..] == rest;
      [ss[0]] + rest
  }

  /** Putting back the entry a name already has changes nothing. */
  lemma {:induction false} PutSubSame(ss: seq<Sub>, name: string)
    requires FindSub(ss, name).Some?
    ensures PutSub(ss, name, FindSub(ss, name).value) == ss
  {
    if ss[0].name != name {
      PutSubSame(ss[1..], name);
    }
  }

  /** `trees[name]` on the `defaultdict`: the subtree, or a fresh empty one. */
  function SubOr(ss: seq<Sub>, name: string): Node {
    FindSub(ss, name).GetOr(Empty)
  }

  // ---------------------------------------------------------------------
  // Walking a directory path

  /** The directory reached by following `dir`, a missing step reading as
      the empty directory the `defaultdict` would create. */
  function Follow(t: Node, dir: seq<string>): Node
    decreases |dir|
  {
    if |dir| == 0 then t else Follow(SubOr(t.trees, dir[0]), dir[1..])
  }

  /** The file `name` in directory `dir`, if any. */
  function BlobAt(t: Node, dir: seq<string>, name: string): Option<string> {
    FindBlob(Follow(t, dir).blobs, name)
  }

  /** Every directory along `dir` exists. */
  predicate HasDirs(t: Node, dir: seq<string>)
    decreases |dir|
  {
    |dir| == 0 || (FindSub(t.trees, dir[0]).Some? && HasDirs(FindSub(t.trees, dir[0]).value, dir[1..]))
  }

  /** The tree after `cur = cur.trees[part]` for each part: missing
      directories are created empty. */
  function Touch(t: Node, dir: seq<string>): Node
    decreases |dir|
  {
    if |dir| == 0 then t
    else Node(t.blobs, PutSub(t.trees, dir[0], Touch(SubOr(t.trees, dir[0]), dir[1..])))
  }

  /** The tree after walking `dir` and setting `blobs[name] = oid` there. */
  function SetAt(t: Node, dir: seq<string>, name: string, oid: string): Node
    decreases |dir|
  {
    if |dir| == 0 then Node(PutBlob(t.blobs, name, oid), t.trees)
    else Node(t.blobs, PutSub(t.trees, dir[0], SetAt(SubOr(t.trees, dir[0]), dir[1..], name, oid)))
  }

  // ---------------------------------------------------------------------
  // The public operations

  /** One leading '/' is dropped. */
  function Normalize(path: string): string {
    if StartsWith(path, "/") then path[1..] else path
  }

  /** `path.split('/')` after normalising: the directory steps and the
      final name. */
  function Parts(path: string): (ps: seq<string>)
    ensures |ps| >= 1
  {
    Split(Normalize(path), '/')
  }

  function DirOf(path: string): seq<string> {
    var ps := Parts(path); ps[..|ps| - 1]
  }

  function NameOf(path: string): string {
    var ps := Parts(path); ps[|ps| - 1]
  }

  /** `set_blob(path, oid)`. */
  function SetBlob(t: Node, path: string, oid: string): Node {
    SetAt(t, DirOf(path), NameOf(path), oid)
  }

  /** `get_blob(path)`: the tree as the walk leaves it, and the oid, `None`
      standing for the `KeyError` a missing file raises. */
  function GetBlob(t: Node, path: string): (Node, Option<string>) {
    (Touch(t, DirOf(path)), BlobAt(t, DirOf(path), NameOf(path)))
  }

  /** `get_tree(path)`: the tree as the walk leaves it, and the directory
      reached; an empty path names the root itself. */
  function GetTree(t: Node, path: string): (Node, Node) {
    var p := Normalize(path);
    if p == "" then (t, t)
    else (Touch(t, Split(p, '/')), Follow(t, Split(p, '/')))
  }

  // ---------------------------------------------------------------------
  // Reads and writes

  /** After a write, the written file reads back as its oid and every other
      file reads as before. */
  lemma {:induction false} SetAtFrame(t: Node, dir: seq<string>, name: string, oid: string, dir2: seq<string>, m: string)
    ensures BlobAt(SetAt(t, dir, name, oid), dir2, m) == if dir2 == dir && m == name then Some(oid) else BlobAt(t, dir2, m)
    decreases |dir|
  {
    var r := SetAt(t, dir, name, oid);
    if |dir| == 0 {
      if |dir2| > 0 {
        assert Follow(r, dir2) == Follow(t, dir2);
      }
    } else if |dir2| > 0 {
      if dir2[0] == dir[0] {
        SetAtFrame(SubOr(t.trees, dir[0]), dir[1..], name, oid, dir2[1..], m);
        assert dir2 == dir <==> dir2[1..] == dir[1..];
      } else {
        assert Follow(r, dir2) == Follow(t, dir2);
      }
    }
  }

  /** Walking a path creates no file and loses none. */
  lemma {:induction false} TouchFrame(t: Node, dir: seq<string>, dir2: seq<string>, m: string)
    ensures BlobAt(Touch(t, dir), dir2, m) == BlobAt(t, dir2, m)
    decreases |dir|
  {
    if |dir| > 0 && |dir2| > 0 {
      if dir2[0] == dir[0] {
        TouchFrame(SubOr(t.trees, dir[0]), dir[1..], dir2[1..], m);
      } else {
        assert Follow(Touch(t, dir), dir2) == Follow(t, dir2);
      }
    }
  }

  /** Walking a path leaves every directory on it in place. */
  lemma {:induction false} TouchMakesDirs(t: Node, dir: seq<string>)
    ensures HasDirs(Touch(t, dir), dir)
    decreases |dir|
  {
    if |dir| > 0 {
      TouchMakesDirs(SubOr(t.trees, dir[0]), dir[1..]);
    }
  }

  /** Walking a path whose directories all exist changes nothing. */
  lemma {:induction false} TouchExisting(t: Node, dir: seq<string>)
    requires HasDirs(t, dir)
    ensures Touch(t, dir) == t
    decreases |dir|
  {
    if |dir| > 0 {
      TouchExisting(FindSub(t.trees, dir[0]).value, dir[1..]);
      PutSubSame(t.trees, dir[0]);
    }
  }

  /** A write creates every directory on its path. */
  lemma {:induction false} SetAtMakesDirs(t: Node, dir: seq<string>, name: string, oid: string)
    ensures HasDirs(SetAt(t, dir, name, oid), dir)
    decreases |dir|
  {
    if |dir| > 0 {
      SetAtMakesDirs(SubOr(t.trees, dir[0]), dir[1..], name, oid);
    }
  }

  /** `set_blob` then `get_blob` on the same path returns the oid and the
      read changes nothing, since the write already made the directories;
      the same holds when the write was given the path with a leading
      '/'. */
  lemma SetThenGet(t: Node, path: string, oid: string)
    ensures GetBlob(SetBlob(t, path, oid), path) == (SetBlob(t, path, oid), Some(oid))
    ensures !StartsWith(path, "/") ==> GetBlob(SetBlob(t, "/" + path, oid), path) == (SetBlob(t, path, oid), Some(oid))
  {
    var r := SetBlob(t, path, oid);
    SetAtFrame(t, DirOf(path), NameOf(path), oid, DirOf(path), NameOf(path));
    SetAtMakesDirs(t, DirOf(path), NameOf(path), oid);
    TouchExisting(r, DirOf(path));
    if !StartsWith(path, "/") {
      assert Normalize("/" + path) == path;
      assert Normalize(path) == path;
    }
  }

  /** `set_blob` on one path leaves every file at another path as it was,
      and makes every directory of its own path. */
  lemma SetBlobFrame(t: Node, path: string, oid: string, other: string)
    ensures HasDirs(SetBlob(t, path, oid), DirOf(path))
    ensures Parts(other) != Parts(path) ==> GetBlob(SetBlob(t, path, oid), other).1 == GetBlob(t, other).1
  {
    SetAtMakesDirs(t, DirOf(path), NameOf(path), oid);
    SetAtFrame(t, DirOf(path), NameOf(path), oid, DirOf(other), NameOf(other));
    if DirOf(other) == DirOf(path) && NameOf(other) == NameOf(path) {
      SameInitLast(Parts(path), Parts(other));
    }
  }

  /** Two non-empty sequences with the same front and the same last
      element are equal. */
  lemma SameInitLast<T>(p: seq<T>, q: seq<T>)
    requires |p| >= 1 && |q| >= 1
    requires p[..|p| - 1] == q[..|q| - 1] && p[|p| - 1] == q[|q| - 1]
    ensures p == q
  {
    assert p == p[..|p| - 1] + [p[|p| - 1]];
    assert q == q[..|q| - 1] + [q[|q| - 1]];
  }

  /** `get_blob` and `get_tree` only ever add empty directories: every file
      reads as before, and the walked directories exist afterwards. */
  lemma ReadsOnlyAddDirs(t: Node, path: string, dir2: seq<string>, m: string)
    ensures BlobAt(GetBlob(t, path).0, dir2, m) == BlobAt(t, dir2, m)
    ensures HasDirs(GetBlob(t, path).0, DirOf(path))
    ensures BlobAt(GetTree(t, path).0, dir2, m) == BlobAt(t, dir2, m)
    ensures Normalize(path) != "" ==> HasDirs(GetTree(t, path).0, Split(Normalize(path), '/'))
  {
    TouchFrame(t, DirOf(path), dir2, m);
    TouchMakesDirs(t, DirOf(path));
    if Normalize(path) != "" {
      TouchFrame(t, Split(Normalize(path), '/'), dir2, m);
      TouchMakesDirs(t, Split(Normalize(path), '/'));
    }
  }

  // ---------------------------------------------------------------------
  // Text form and id

  /** `'b <oid> <name>'`. */
  function BlobLine(b: Blob): string {
    "b " + b.oid + " " + b.name
  }

  function BlobLines(bs: seq<Blob>): (r: seq<string>)
    ensures |r| == |bs| && forall i | 0 <= i < |bs| :: r[i] == BlobLine(bs[i])
  {
    seq(|bs|, i requires 0 <= i < |bs| => BlobLine(bs[i]))
  }

  /** `hex()`: the digest of `'tree\n' + repr(self)`; `digest` stands for
      SHA-1 in hex. The source caches the first value in `_hex` and later
      writes do not clear it; here the id is always that of the current
      contents. */
  function Hex(digest: string -> string, t: Node): string
    decreases t, 1
  {
    digest("tree\n" + Repr(digest, t))
  }

  /** `repr()`: the entry lines, sorted, joined by newlines. Names and
      ids are taken to be text already: the source's conversion to unicode
      and back to UTF-8, and the ordering of mixed byte and unicode
      strings, are folded into sorting plain strings by code point. */
  function Repr(digest: string -> string, t: Node): string
    decreases t, 0
  {
    Join(Sorting.SortBy(TreeLines(digest, t.trees) + BlobLines(t.blobs), (a: string, b: string) => Sorting.StrLe(a, b)), "\n")
  }

  /** `'t <hex> <name>'` for each subdirectory, in order. */
  function TreeLines(digest: string -> string, ss: seq<Sub>): (r: seq<string>)
    ensures |r| == |ss|
    decreases ss
  {
    if |ss| == 0 then [] else ["t " + Hex(digest, ss[0].node) + " " + ss[0].name] + TreeLines(digest, ss[1..])
  }

  function TreeLine(digest: string -> string, s: Sub): string {
    "t " + Hex(digest, s.node) + " " + s.name
  }

  lemma {:induction false} TreeLinesAt(digest: string -> string, ss: seq<Sub>, i: nat)
    requires i < |ss|
    ensures TreeLines(digest, ss)[i] == TreeLine(digest, ss[i])
  {
    if i > 0 {
      TreeLinesAt(digest, ss[1..], i - 1);
    }
  }

  function BlobNames(bs: seq<Blob>): (r: seq<string>)
    ensures |r| == |bs| && forall i | 0 <= i < |bs| :: r[i] == bs[i].name
  {
    seq(|bs|, i requires 0 <= i < |bs| => bs[i].name)
  }

  function SubNames(ss: seq<Sub>): (r: seq<string>)
    ensures |r| == |ss| && forall i | 0 <= i < |ss| :: r[i] == ss[i].name
  {
    seq(|ss|, i requires 0 <= i < |ss| => ss[i].name)
  }

  ghost predicate Unique(ks: seq<string>) {
    forall i, j | 0 <= i < j < |ks| :: ks[i] != ks[j]
  }

  /** No two entries of one dict share a name, at every level. */
  ghost predicate WellFormed(t: Node)
    decreases t
  {
    && Unique(BlobNames(t.blobs))
    && Unique(SubNames(t.trees))
    && (forall i | 0 <= i < |t.trees| :: WellFormed(t.trees[i].node))
  }

  /** Two trees with the same contents: the same files, the same
      directory names, and same-named directories with the same contents,
      whatever the order of the entries. */
  ghost predicate SameContent(a: Node, b: Node)
    decreases a
  {
    && (forall x :: x in a.blobs <==> x in b.blobs)
    && (forall n :: n in SubNames(a.trees) <==> n in SubNames(b.trees))
    && (forall i, j | 0 <= i < |a.trees| && 0 <= j < |b.trees| && a.trees[i].name == b.trees[j].name ::
          SameContent(a.trees[i].node, b.trees[j].node))
  }

  lemma {:induction false} PutBlobUnique(bs: seq<Blob>, name: string, oid: string)
    requires Unique(BlobNames(bs))
    ensures Unique(BlobNames(PutBlob(bs, name, oid)))
  {
    if |bs| > 0 && bs[0].name != name {
      PutBlobUnique(bs[1..], name, oid);
      var rest := PutBlob(bs[1..], name, oid);
      var r := [bs[0]] + rest;
      assert PutBlob(bs, name, oid) == r;
      var ns, rn := BlobNames(r), BlobNames(rest);
      forall i, j | 0 <= i < j < |ns|
        ensures ns[i] != ns[j]
      {
        if i == 0 {
          assert rest[j - 1] in bs[1..] || rest[j - 1] == Blob(name, oid);
          if rest[j - 1] in bs[1..] {
            var k :| 0 <= k < |bs[1..]| && bs[1..][k] == rest[j - 1];
            assert BlobNames(bs)[0] != BlobNames(bs)[k + 1];
          }
        } else {
          assert r[i] == rest[i - 1] && r[j] == rest[j - 1];
          assert rn[i - 1] != rn[j - 1];
        }
      }
    }
  }

  lemma {:induction false} PutSubUnique(ss: seq<Sub>, name: string, node: Node)
    requires Unique(SubNames(ss))
    ensures Unique(SubNames(PutSub(ss, name, node)))
  {
    if |ss| > 0 && ss[0].name != name {
      PutSubUnique(ss[1..], name, node);
      var rest := PutSub(ss[1..], name, node);
      var r := [ss[0]] + rest;
      assert PutSub(ss, name, node) == r;
      var ns, rn := SubNames(r), SubNames(rest);
      forall i, j | 0 <= i < j < |ns|
        ensures ns[i] != ns[j]
      {
        if i == 0 {
          assert rest[j - 1] in ss[1..] || rest[j - 1] == Sub(name, node);
          if rest[j - 1] in ss[1..] {
            var k :| 0 <= k < |ss[1..]| && ss[1..][k] == rest[j - 1];
            assert SubNames(ss)[0] != SubNames(ss)[k + 1];
          }
        } else {
          assert r[i] == rest[i - 1] && r[j] == rest[j - 1];
          assert rn[i - 1] != rn[j - 1];
        }
      }
    }
  }

  /** Replacing or adding one well-formed subdirectory keeps a directory
      well formed. */
  lemma PutSubWellFormed(t: Node, name: string, node: Node)
    requires WellFormed(t) && WellFormed(node)
    ensures WellFormed(Node(t.blobs, PutSub(t.trees, name, node)))
  {
    PutSubUnique(t.trees, name, node);
    var r := PutSub(t.trees, name, node);
    forall i | 0 <= i < |r|
      ensures WellFormed(r[i].node)
    {
      assert r[i] in t.trees || r[i] == Sub(name, node);
    }
  }

  lemma {:induction false} SubOrWellFormed(t: Node, name: string)
    requires WellFormed(t)
    ensures WellFormed(SubOr(t.trees, name))
  {
    if FindSub(t.trees, name).Some? {
      var k :| 0 <= k < |t.trees| && t.trees[k] == Sub(name, FindSub(t.trees, name).value);
    }
  }

  lemma {:induction false} SetAtWellFormed(t: Node, dir: seq<string>, name: string, oid: string)
    requires WellFormed(t)
    ensures WellFormed(SetAt(t, dir, name, oid))
    decreases |dir|
  {
    if |dir| == 0 {
      PutBlobUnique(t.blobs, name, oid);
    } else {
      SubOrWellFormed(t, dir[0]);
      SetAtWellFormed(SubOr(t.trees, dir[0]), dir[1..], name, oid);
      PutSubWellFormed(t, dir[0], SetAt(SubOr(t.trees, dir[0]), dir[1..], name, oid));
    }
  }

  lemma {:induction false} TouchWellFormed(t: Node, dir: seq<string>)
    requires WellFormed(t)
    ensures WellFormed(Touch(t, dir))
    decreases |dir|
  {
    if |dir| > 0 {
      SubOrWellFormed(t, dir[0]);
      TouchWellFormed(SubOr(t.trees, dir[0]), dir[1..]);
      PutSubWellFormed(t, dir[0], Touch(SubOr(t.trees, dir[0]), dir[1..]));
    }
  }

  /** Starting from an empty tree, every tree the operations build has at
      most one entry per name in each dict. */
  lemma OperationsKeepWellFormed(t: Node, path: string, oid: string)
    requires WellFormed(t)
    ensures WellFormed(Empty)
    ensures WellFormed(SetBlob(t, path, oid))
    ensures WellFormed(GetBlob(t, path).0) && WellFormed(GetTree(t, path).0)
  {
    SetAtWellFormed(t, DirOf(path), NameOf(path), oid);
    TouchWellFormed(t, DirOf(path));
    if Normalize(path) != "" {
      TouchWellFormed(t, Split(Normalize(path), '/'));
    }
  }

  /** `hex` is a function of the contents: since `repr` sorts its lines,
      the order in which the dicts hold their entries does not matter. */
  lemma {:induction false} SameContentSameHex(digest: string -> string, a: Node, b: Node)
    requires WellFormed(a) && WellFormed(b) && SameContent(a, b)
    ensures Hex(digest, a) == Hex(digest, b)
    decreases a
  {
    var la, lb := TreeLines(digest, a.trees), TreeLines(digest, b.trees);
    forall i, j | 0 <= i < |a.trees| && 0 <= j < |b.trees| && SubNames(a.trees)[i] == SubNames(b.trees)[j]
      ensures la[i] == lb[j]
    {
      TreeLinesAt(digest, a.trees, i);
      TreeLinesAt(digest, b.trees, j);
      SameContentSameHex(digest, a.trees[i].node, b.trees[j].node);
    }
    KeyedMultiset(SubNames(a.trees), SubNames(b.trees), la, lb);
    BlobsMultiset(a.blobs, b.blobs);
    Sorting.StrOrder();
    Sorting.SortByMultiset(la + BlobLines(a.blobs), lb + BlobLines(b.blobs), (a: string, b: string) => Sorting.StrLe(a, b));
  }

  /** Two name-unique file lists with the same entries give the same lines,
      up to order. */
  lemma BlobsMultiset(a: seq<Blob>, b: seq<Blob>)
    requires Unique(BlobNames(a)) && Unique(BlobNames(b))
    requires forall x :: x in a <==> x in b
    ensures multiset(BlobLines(a)) == multiset(BlobLines(b))
  {
    var ka, kb := BlobNames(a), BlobNames(b);
    forall n | n in ka
      ensures n in kb
    {
      var i :| 0 <= i < |a| && ka[i] == n;
      assert a[i] in b;
    }
    forall n | n in kb
      ensures n in ka
    {
      var j :| 0 <= j < |b| && kb[j] == n;
      assert b[j] in a;
    }
    forall i, j | 0 <= i < |a| && 0 <= j < |b| && ka[i] == kb[j]
      ensures BlobLines(a)[i] == BlobLines(b)[j]
    {
      assert a[i] in b;
      var k :| 0 <= k < |b| && b[k] == a[i];
      assert kb[k] == kb[j];
    }
    KeyedMultiset(ka, kb, BlobLines(a), BlobLines(b));
  }

  /** Removing the entry at `j` of a list of distinct names removes exactly
      that name. */
  lemma RemoveAt(t: seq<string>, j: nat)
    requires j < |t| && Unique(t)
    ensures Unique(t[..j] + t[j + 1..])
    ensures forall x :: x in t[..j] + t[j + 1..] <==> x in t && x != t[j]
  {
    var t' := t[..j] + t[j + 1..];
    assert t == t[..j] + [t[j]] + t[j + 1..];
    assert forall k | 0 <= k < |t'| :: t'[k] == if k < j then t[k] else t[k + 1];
  }

  /** Removing the entry at `j` shifts the later ones down by one. */
  lemma Shift<T>(t: seq<T>, j: nat)
    requires j < |t|
    ensures |t[..j] + t[j + 1..]| == |t| - 1
    ensures forall k | 0 <= k < |t| - 1 :: (t[..j] + t[j + 1..])[k] == if k < j then t[k] else t[k + 1]
    ensures multiset(t) == multiset(t[..j] + t[j + 1..]) + multiset{t[j]}
  {
    assert t == t[..j] + [t[j]] + t[j + 1..];
  }

  /** Taking the first name of `ks` and its match at `j` in `kt` out of
      both, with their lines, keeps the two lists matched. */
  lemma DropPair(ks: seq<string>, kt: seq<string>, ls: seq<string>, lt: seq<string>, j: nat,
                 ks': seq<string>, kt': seq<string>, ls': seq<string>, lt': seq<string>)
    requires |ls| == |ks| && |lt| == |kt| && Unique(ks) && Unique(kt)
    requires forall x :: x in ks <==> x in kt
    requires forall i, j | 0 <= i < |ks| && 0 <= j < |kt| && ks[i] == kt[j] :: ls[i] == lt[j]
    requires 0 < |ks| && j < |kt| && kt[j] == ks[0]
    requires ks' == ks[1..] && ls' == ls[1..] && kt' == kt[..j] + kt[j + 1..] && lt' == lt[..j] + lt[j + 1..]
    ensures |ls'| == |ks'| && |lt'| == |kt'| && Unique(ks') && Unique(kt')
    ensures forall x :: x in ks' <==> x in kt'
    ensures forall i, k | 0 <= i < |ks'| && 0 <= k < |kt'| && ks'[i] == kt'[k] :: ls'[i] == lt'[k]
  {
    RemoveAt(ks, 0);
    RemoveAt(kt, j);
    Shift(kt, j);
    Shift(lt, j);
    assert ks[1..] == ks[..0] + ks[1..];
    forall x
      ensures x in ks[1..] <==> x in kt'
    {
      assert x in ks[1..] <==> x in ks && x != ks[0];
      assert x in kt' <==> x in kt && x != kt[j];
    }
  }

  lemma HeadIn<T>(s: seq<T>)
    ensures |s| > 0 ==> s[0] in s
  {
  }

  /** Two lists of distinct names with the same names, whose lines agree
      wherever the names do, have the same lines up to order. */
  lemma {:induction false} KeyedMultiset(ks: seq<string>, kt: seq<string>, ls: seq<string>, lt: seq<string>)
    requires |ls| == |ks| && |lt| == |kt| && Unique(ks) && Unique(kt)
    requires forall x :: x in ks <==> x in kt
    requires forall i, j | 0 <= i < |ks| && 0 <= j < |kt| && ks[i] == kt[j] :: ls[i] == lt[j]
    ensures multiset(ls) == multiset(lt)
    decreases |ks|
  {
    if |ks| == 0 {
      HeadIn(kt);
    } else {
      assert ks[0] in ks;
      var j :| 0 <= j < |kt| && kt[j] == ks[0];
      DropPair(ks, kt, ls, lt, j, ks[1..], kt[..j] + kt[j + 1..], ls[1..], lt[..j] + lt[j + 1..]);
      Shift(lt, j);
      KeyedMultiset(ks[1..], kt[..j] + kt[j + 1..], ls[1..], lt[..j] + lt[j + 1..]);
      assert ls == [ls[0]] + ls[1..];
    }
  }
}
