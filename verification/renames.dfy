/** A commit's changes as shown to users (`Commit.diffs`): the stored
    differences classified as added, removed or changed, then removed and
    added paths paired up as renames (`Commit._diffs_copied`). The
    similarity ratio of two blobs and the unified-diff text are
    parameters; so are the path lookups in the previous and the current
    commit's trees (`get_obj_by_path`). */
module Renames {
  import opened Wrappers
  import opened RepoDocs
  import opened TreeDiff
  import opened TreeObjects

  /** Pairs scoring above this are renames (`DIFF_SIMILARITY_THRESHOLD`). */
  const Threshold: real := 0.5

  /** One detected rename: the old and new path, the ratio and the diff
      text (empty for an exact copy). */
  datatype Rename = Rename(oldPath: string, newPath: string, ratio: real, diff: string)

  datatype Diffs = Diffs(added: seq<string>, removed: seq<string>, changed: seq<string>, copied: seq<Rename>)

  /** The oracles: blob similarity in [0, 1] and unified-diff text. */
  datatype Oracle = Oracle(ratio: (Id, Id) -> real, udiff: (Id, Id) -> string)

  ghost predicate RatioBounded(o: Oracle) {
    forall a, b :: 0.0 <= o.ratio(a, b) <= 1.0
  }

  // ---------------------------------------------------------------------
  // Classification

  /** Splits the differences by which side is missing: no right-hand id
      means removed, no left-hand id means added, anything else changed. */
  function Classify(cs: seq<Change>): (r: (seq<string>, seq<string>, seq<string>))
    ensures |r.0| + |r.1| + |r.2| == |cs|
  {
    if |cs| == 0 then ([], [], [])
    else
      var rest := Classify(cs[1..]);
      var c := cs[0];
      if c.rhsId.None? then (rest.0, [PathOf(c)] + rest.1, rest.2)
      else if c.lhsId.None? then ([PathOf(c)] + rest.0, rest.1, rest.2)
      else (rest.0, rest.1, [PathOf(c)] + rest.2)
  }

  /** Each difference lands in exactly the list its missing side names, and
      each listed path comes from such a difference. */
  lemma {:induction false} ClassifyMembers(cs: seq<Change>)
    ensures forall c | c in cs && c.rhsId.None? :: PathOf(c) in Classify(cs).1
    ensures forall c | c in cs && c.rhsId.Some? && c.lhsId.None? :: PathOf(c) in Classify(cs).0
    ensures forall c | c in cs && c.rhsId.Some? && c.lhsId.Some? :: PathOf(c) in Classify(cs).2
    ensures forall p | p in Classify(cs).0 :: exists c :: c in cs && c.lhsId.None? && c.rhsId.Some? && PathOf(c) == p
    ensures forall p | p in Classify(cs).1 :: exists c :: c in cs && c.rhsId.None? && PathOf(c) == p
    ensures forall p | p in Classify(cs).2 :: exists c :: c in cs && c.lhsId.Some? && c.rhsId.Some? && PathOf(c) == p
  {
    if |cs| > 0 {
      ClassifyMembers(cs[1..]);
      assert forall c :: c in cs <==> c == cs[0] || c in cs[1..];
    }
  }

  // ---------------------------------------------------------------------
  // Pairing a removed path with an added one

  /** `list.remove(x)`: drops the first occurrence. */
  function RemoveFirst(s: seq<string>, x: string): (r: seq<string>)
    requires x in s
    ensures multiset(r) == multiset(s) - multiset{x}
    ensures |r| == |s| - 1
  {
    if s[0] == x then
      assert s == [s[0]] + s[1..];
      s[1..]
    else
      assert s == [s[0]] + s[1..];
      [s[0]] + RemoveFirst(s[1..], x)
  }

  /** The best candidate found so far while scanning added paths. */
  datatype Best = Best(ratio: real, name: string, blob: Option<Id>)

  /** The scan of `_blobs_similarity`: a strictly better ratio replaces the
      best; a perfect ratio stops the scan. Paths that are not blobs are
      skipped. */
  function ScanBlobs(o: Oracle, cur: string -> Option<Obj>, rid: Id, added: seq<string>, best: Best): Best
  {
    if |added| == 0 then best
    else
      var name := added[0];
      match cur(name)
      case Some(BlobObj(aid)) =>
        var r := o.ratio(rid, aid);
        var best' := if r > best.ratio then Best(r, name, Some(aid)) else best;
        if r == 1.0 then best' else ScanBlobs(o, cur, rid, added[1..], best')
      case _ => ScanBlobs(o, cur, rid, added[1..], best)
  }

  /** `_blobs_similarity`: the best-scoring added blob, when it scores
      strictly above the threshold; an exact match carries no diff. */
  function BlobRename(o: Oracle, cur: string -> Option<Obj>, gone: string, rid: Id, added: seq<string>): Option<Rename> {
    var best := ScanBlobs(o, cur, rid, added, Best(0.0, "", None));
    if best.ratio > Threshold then
      Some(Rename(gone, best.name, best.ratio,
                  if best.ratio < 1.0 && best.blob.Some? then o.udiff(rid, best.blob.value) else ""))
    else None
  }

  /** `_trees_similarity`: the first added path holding a tree with the
      same id, as an exact copy. */
  function TreeRename(cur: string -> Option<Obj>, gone: string, tid: Id, added: seq<string>): (r: Option<Rename>)
    ensures r.Some? ==>
      (r.value.oldPath == gone && r.value.newPath in added && r.value.ratio == 1.0 && r.value.diff == ""
       && cur(r.value.newPath) == Some(TreeObj(tid)))
    ensures r.None? <==> forall n | n in added :: cur(n) != Some(TreeObj(tid))
  {
    if |added| == 0 then None
    else if cur(added[0]) == Some(TreeObj(tid)) then Some(Rename(gone, added[0], 1.0, ""))
    else TreeRename(cur, gone, tid, added[1..])
  }

  /** The rename found for one removed path, by the kind of object it was. */
  function RenameOf(o: Oracle, prev: string -> Option<Obj>, cur: string -> Option<Obj>, gone: string, added: seq<string>): Option<Rename> {
    match prev(gone)
    case Some(BlobObj(rid)) => BlobRename(o, cur, gone, rid, added)
    case Some(TreeObj(tid)) => TreeRename(cur, gone, tid, added)
    case None => None
  }

  /** What the scan keeps: the best never gets worse, only comes from a
      blob among the scanned paths with that very ratio, and no scanned
      blob beats it. */
  lemma {:induction false} ScanBest(o: Oracle, cur: string -> Option<Obj>, rid: Id, added: seq<string>, best: Best)
    requires RatioBounded(o)
    ensures var r := ScanBlobs(o, cur, rid, added, best);
      best.ratio <= r.ratio
      && (r == best || (r.name in added && r.blob.Some? && cur(r.name) == Some(BlobObj(r.blob.value))
                        && o.ratio(rid, r.blob.value) == r.ratio))
      && forall n, a | n in added && cur(n) == Some(BlobObj(a)) :: o.ratio(rid, a) <= r.ratio
  {
    if |added| > 0 {
      var name := added[0];
      assert forall n :: n in added <==> n == name || n in added[1..];
      match cur(name)
      case Some(BlobObj(aid)) =>
        var ra := o.ratio(rid, aid);
        var best' := if ra > best.ratio then Best(ra, name, Some(aid)) else best;
        if ra != 1.0 {
          ScanBest(o, cur, rid, added[1..], best');
        }
      case _ =>
        ScanBest(o, cur, rid, added[1..], best);
    }
  }

  /** `_blobs_similarity` pairs a removed blob with an added blob of the
      best ratio, only when that ratio is strictly above the threshold, and
      an exact match carries an empty diff; when it pairs nothing, no added
      blob scores above the threshold. */
  lemma BlobRenameRule(o: Oracle, cur: string -> Option<Obj>, gone: string, rid: Id, added: seq<string>)
    requires RatioBounded(o)
    ensures var r := BlobRename(o, cur, gone, rid, added);
      (r.Some? ==>
        r.value.oldPath == gone && r.value.newPath in added && r.value.ratio > Threshold
        && (exists a :: cur(r.value.newPath) == Some(BlobObj(a)) && o.ratio(rid, a) == r.value.ratio)
        && (forall n, a | n in added && cur(n) == Some(BlobObj(a)) :: o.ratio(rid, a) <= r.value.ratio)
        && (r.value.ratio == 1.0 ==> r.value.diff == ""))
      && (r.None? ==> forall n, a | n in added && cur(n) == Some(BlobObj(a)) :: o.ratio(rid, a) <= Threshold)
  {
    ScanBest(o, cur, rid, added, Best(0.0, "", None));
  }

  /** `RenameOf` pairs a removed path with one of the added paths. */
  lemma RenameOfAdded(o: Oracle, prev: string -> Option<Obj>, cur: string -> Option<Obj>, gone: string, added: seq<string>)
    requires RatioBounded(o)
    ensures var r := RenameOf(o, prev, cur, gone, added);
      r.Some? ==> r.value.oldPath == gone && r.value.newPath in added && r.value.ratio > Threshold
  {
    match prev(gone)
    case Some(BlobObj(rid)) => BlobRenameRule(o, cur, gone, rid, added);
    case Some(TreeObj(tid)) =>
    case None =>
  }

  /** The loop of `_diffs_copied` over a copy of the removed list: each
      rename found is recorded and its two paths are taken out of the
      current added and removed lists. Returns the renames and the
      remaining added and removed paths. */
  function Pairings(o: Oracle, prev: string -> Option<Obj>, cur: string -> Option<Obj>,
                    todo: seq<string>, added: seq<string>, removed: seq<string>): (r: (seq<Rename>, seq<string>, seq<string>))
    requires RatioBounded(o) && multiset(todo) <= multiset(removed)
    ensures |r.0| <= |todo|
    ensures multiset(r.1) + multiset(NewPaths(r.0)) == multiset(added)
    ensures multiset(r.2) + multiset(OldPaths(r.0)) == multiset(removed)
    ensures forall x | x in r.0 :: x.ratio > Threshold
  {
    if |todo| == 0 then ([], added, removed)
    else
      var gone := todo[0];
      assert todo == [gone] + todo[1..];
      assert gone in multiset(removed);
      RenameOfAdded(o, prev, cur, gone, added);
      match RenameOf(o, prev, cur, gone, added)
      case None => Pairings(o, prev, cur, todo[1..], added, removed)
      case Some(x) =>
        var added' := RemoveFirst(added, x.newPath);
        var removed' := RemoveFirst(removed, gone);
        TodoShrinks(todo, removed);
        var rest := Pairings(o, prev, cur, todo[1..], added', removed');
        PathsCons(x, rest.0);
        AddBack(multiset(added), multiset(rest.1), multiset(NewPaths(rest.0)), x.newPath);
        AddBack(multiset(removed), multiset(rest.2), multiset(OldPaths(rest.0)), gone);
        ([x] + rest.0, rest.1, rest.2)
  }

  lemma TodoShrinks(todo: seq<string>, removed: seq<string>)
    requires |todo| > 0 && multiset(todo) <= multiset(removed)
    ensures multiset(todo[1..]) <= multiset(removed) - multiset{todo[0]}
  {
    assert todo == [todo[0]] + todo[1..];
  }

  /** Putting a taken-out element back. */
  lemma AddBack(whole: multiset<string>, left: multiset<string>, taken: multiset<string>, x: string)
    requires x in whole && left + taken == whole - multiset{x}
    ensures left + (multiset{x} + taken) == whole
  {
    forall y
      ensures (left + (multiset{x} + taken))[y] == whole[y]
    {
      assert (left + taken)[y] == (whole - multiset{x})[y];
    }
  }

  lemma PathsCons(x: Rename, rs: seq<Rename>)
    ensures multiset(NewPaths([x] + rs)) == multiset{x.newPath} + multiset(NewPaths(rs))
    ensures multiset(OldPaths([x] + rs)) == multiset{x.oldPath} + multiset(OldPaths(rs))
  {
    assert NewPaths([x] + rs) == [x.newPath] + NewPaths(rs);
    assert OldPaths([x] + rs) == [x.oldPath] + OldPaths(rs);
  }

  function NewPaths(rs: seq<Rename>): (r: seq<string>)
    ensures |r| == |rs| && forall i | 0 <= i < |rs| :: r[i] == rs[i].newPath
  {
    if |rs| == 0 then [] else [rs[0].newPath] + NewPaths(rs[1..])
  }

  function OldPaths(rs: seq<Rename>): (r: seq<string>)
    ensures |r| == |rs| && forall i | 0 <= i < |rs| :: r[i] == rs[i].oldPath
  {
    if |rs| == 0 then [] else [rs[0].oldPath] + OldPaths(rs[1..])
  }

  /** The added paths left after the decisions `ds`: each rename found
      takes its new path out (`added.remove(new)`). */
  function Remaining(added: seq<string>, ds: seq<Option<Rename>>): seq<string>
  {
    if |ds| == 0 then added
    else
      var rest := Remaining(added, ds[..|ds| - 1]);
      match ds[|ds| - 1]
      case Some(x) => if x.newPath in rest then RemoveFirst(rest, x.newPath) else rest
      case None => rest
  }

  /** The renames among the decisions, in order. */
  function Found(ds: seq<Option<Rename>>): seq<Rename> {
    if |ds| == 0 then [] else (if ds[0].Some? then [ds[0].value] else []) + Found(ds[1..])
  }

  /** `ds` are the loop's decisions for `todo` against `added`: the j-th
      removed path is given `RenameOf` over the added paths still unpaired
      at that point; `renames` are the renames found and `left` the added
      paths never paired. And the search is maximal: a removed path left
      unpaired has no rename among the final unpaired added paths either. */
  ghost predicate PairedByRule(o: Oracle, prev: string -> Option<Obj>, cur: string -> Option<Obj>,
                               todo: seq<string>, added: seq<string>, ds: seq<Option<Rename>>,
                               renames: seq<Rename>, left: seq<string>) {
    && |ds| == |todo|
    && (forall j | 0 <= j < |todo| :: DecidedAt(o, prev, cur, todo, added, ds, j))
    && renames == Found(ds)
    && left == Remaining(added, ds)
    && (forall j | 0 <= j < |todo| :: Unpairable(o, prev, cur, todo, ds, left, j))
  }

  /** The j-th decision is `RenameOf` over the added paths still unpaired. */
  ghost predicate DecidedAt(o: Oracle, prev: string -> Option<Obj>, cur: string -> Option<Obj>,
                            todo: seq<string>, added: seq<string>, ds: seq<Option<Rename>>, j: nat)
    requires j < |todo| && |ds| == |todo|
  {
    ds[j] == RenameOf(o, prev, cur, todo[j], Remaining(added, ds[..j]))
  }

  /** A removed path the j-th decision left unpaired has no rename among
      `left` either. */
  ghost predicate Unpairable(o: Oracle, prev: string -> Option<Obj>, cur: string -> Option<Obj>,
                             todo: seq<string>, ds: seq<Option<Rename>>, left: seq<string>, j: nat)
    requires j < |todo| && |ds| == |todo|
  {
    ds[j].None? ==> RenameOf(o, prev, cur, todo[j], left).None?
  }

  /** Deciding one more path first is the same as starting from the list
      that decision leaves. */
  lemma {:induction false} RemainingCons(added: seq<string>, d: Option<Rename>, ds: seq<Option<Rename>>)
    ensures Remaining(added, [d] + ds) == Remaining(Remaining(added, [d]), ds)
    decreases |ds|
  {
    if |ds| > 0 {
      var ds' := ds[..|ds| - 1];
      assert ([d] + ds)[..|[d] + ds| - 1] == [d] + ds';
      RemainingCons(added, d, ds');
    } else {
      assert [d] + ds == [d];
    }
  }

  /** Later decisions only take paths out. */
  lemma {:induction false} RemainingShrinks(added: seq<string>, ds: seq<Option<Rename>>, j: nat)
    requires j <= |ds|
    ensures forall n | n in Remaining(added, ds) :: n in Remaining(added, ds[..j])
    decreases |ds| - j
  {
    if j < |ds| {
      var ds' := ds[..|ds| - 1];
      assert ds'[..j] == ds[..j];
      RemainingShrinks(added, ds', j);
      var rest := Remaining(added, ds');
      match ds[|ds| - 1]
      case Some(x) =>
        if x.newPath in rest {
          forall n | n in RemoveFirst(rest, x.newPath) ensures n in rest {
            assert n in multiset(RemoveFirst(rest, x.newPath));
          }
        }
      case None =>
    } else {
      assert ds[..j] == ds;
    }
  }

  /** A removed path with no rename among some added paths has none among
      fewer of them. */
  lemma RenameOfNoneSub(o: Oracle, prev: string -> Option<Obj>, cur: string -> Option<Obj>,
                        gone: string, big: seq<string>, small: seq<string>)
    requires RatioBounded(o)
    requires forall n | n in small :: n in big
    requires RenameOf(o, prev, cur, gone, big).None?
    ensures RenameOf(o, prev, cur, gone, small).None?
  {
    match prev(gone)
    case Some(BlobObj(rid)) =>
      BlobRenameRule(o, cur, gone, rid, big);
      ScanBest(o, cur, rid, small, Best(0.0, "", None));
    case Some(TreeObj(tid)) =>
    case None =>
  }

  /** Prefixing the decision for the first removed path keeps every
      decision the one `RenameOf` makes over the list left before it. */
  lemma ConsDecisions(o: Oracle, prev: string -> Option<Obj>, cur: string -> Option<Obj>,
                      todo: seq<string>, added: seq<string>, d: Option<Rename>, ds': seq<Option<Rename>>)
    requires |todo| > 0 && d == RenameOf(o, prev, cur, todo[0], added)
    requires |ds'| == |todo| - 1
    requires forall j | 0 <= j < |ds'| :: DecidedAt(o, prev, cur, todo[1..], Remaining(added, [d]), ds', j)
    ensures forall j | 0 <= j < |todo| :: DecidedAt(o, prev, cur, todo, added, [d] + ds', j)
  {
    var ds := [d] + ds';
    forall j | 0 <= j < |todo|
      ensures DecidedAt(o, prev, cur, todo, added, ds, j)
    {
      if j == 0 {
        assert ds[..0] == [];
      } else {
        assert DecidedAt(o, prev, cur, todo[1..], Remaining(added, [d]), ds', j - 1);
        assert ds[..j] == [d] + ds'[..j - 1];
        RemainingCons(added, d, ds'[..j - 1]);
        assert todo[j] == todo[1..][j - 1] && ds[j] == ds'[j - 1];
      }
    }
  }

  /** Prefixing the decision for the first removed path keeps the search
      maximal against the final leftovers. */
  lemma ConsMaximal(o: Oracle, prev: string -> Option<Obj>, cur: string -> Option<Obj>,
                    todo: seq<string>, added: seq<string>, d: Option<Rename>, ds': seq<Option<Rename>>)
    requires RatioBounded(o)
    requires |todo| > 0 && d == RenameOf(o, prev, cur, todo[0], added)
    requires |ds'| == |todo| - 1
    requires forall j | 0 <= j < |ds'| ::
      Unpairable(o, prev, cur, todo[1..], ds', Remaining(Remaining(added, [d]), ds'), j)
    ensures Remaining(added, [d] + ds') == Remaining(Remaining(added, [d]), ds')
    ensures forall j | 0 <= j < |todo| :: Unpairable(o, prev, cur, todo, [d] + ds', Remaining(added, [d] + ds'), j)
  {
    var ds := [d] + ds';
    RemainingCons(added, d, ds');
    var left := Remaining(added, ds);
    forall j | 0 <= j < |todo|
      ensures Unpairable(o, prev, cur, todo, ds, left, j)
    {
      if j == 0 {
        if d.None? {
          RemainingShrinks(added, ds, 0);
          assert ds[..0] == [];
          RenameOfNoneSub(o, prev, cur, todo[0], added, left);
        }
      } else {
        assert Unpairable(o, prev, cur, todo[1..], ds', left, j - 1);
        assert todo[j] == todo[1..][j - 1] && ds[j] == ds'[j - 1];
      }
    }
  }

  /** One more removed path in front: its decision, followed by the
      decisions for the rest against the list it leaves, follows the rule. */
  lemma PairedCons(o: Oracle, prev: string -> Option<Obj>, cur: string -> Option<Obj>,
                   todo: seq<string>, added: seq<string>, d: Option<Rename>, ds': seq<Option<Rename>>,
                   renames: seq<Rename>, left: seq<string>)
    requires RatioBounded(o)
    requires |todo| > 0 && d == RenameOf(o, prev, cur, todo[0], added)
    requires PairedByRule(o, prev, cur, todo[1..], Remaining(added, [d]), ds', renames, left)
    ensures PairedByRule(o, prev, cur, todo, added, [d] + ds', (if d.Some? then [d.value] else []) + renames, left)
  {
    var ds := [d] + ds';
    assert ds[1..] == ds';
    ConsDecisions(o, prev, cur, todo, added, d, ds');
    ConsMaximal(o, prev, cur, todo, added, d, ds');
  }

  /** The loop's first step: the decision for the first removed path, and
      the lists it leaves. */
  lemma PairingsHead(o: Oracle, prev: string -> Option<Obj>, cur: string -> Option<Obj>,
                     todo: seq<string>, added: seq<string>, removed: seq<string>)
    requires RatioBounded(o) && multiset(todo) <= multiset(removed) && |todo| > 0
    ensures var d := RenameOf(o, prev, cur, todo[0], added);
      var removed' := if d.Some? && todo[0] in removed then RemoveFirst(removed, todo[0]) else removed;
      && todo[0] in removed
      && multiset(todo[1..]) <= multiset(removed')
      && Pairings(o, prev, cur, todo, added, removed).0
           == (if d.Some? then [d.value] else []) + Pairings(o, prev, cur, todo[1..], Remaining(added, [d]), removed').0
      && Pairings(o, prev, cur, todo, added, removed).1 == Pairings(o, prev, cur, todo[1..], Remaining(added, [d]), removed').1
  {
    var gone := todo[0];
    assert todo == [gone] + todo[1..];
    assert gone in multiset(removed);
    var d := RenameOf(o, prev, cur, gone, added);
    RenameOfAdded(o, prev, cur, gone, added);
    assert [d][..0] == [];
    var r := Pairings(o, prev, cur, todo, added, removed);
    if d.Some? {
      TodoShrinks(todo, removed);
      var x := d.value;
      var added' := RemoveFirst(added, x.newPath);
      var removed' := RemoveFirst(removed, gone);
      assert Remaining(added, [d]) == added';
      var rest := Pairings(o, prev, cur, todo[1..], added', removed');
      assert r == ([x] + rest.0, rest.1, rest.2);
    } else {
      assert Remaining(added, [d]) == added;
      assert r == Pairings(o, prev, cur, todo[1..], added, removed);
    }
  }

  /** The decisions the loop makes, one per removed path in `todo`. */
  ghost function Decisions(o: Oracle, prev: string -> Option<Obj>, cur: string -> Option<Obj>,
                           todo: seq<string>, added: seq<string>): seq<Option<Rename>>
    decreases |todo|
  {
    if |todo| == 0 then []
    else
      var d := RenameOf(o, prev, cur, todo[0], added);
      [d] + Decisions(o, prev, cur, todo[1..], Remaining(added, [d]))
  }

  /** The pairing loop follows the rule: its renames and leftovers are
      those of the per-path decisions `RenameOf` makes over the shrinking
      added list, and no removed path left unpaired could still be paired. */
  lemma {:induction false} PairingsRule(o: Oracle, prev: string -> Option<Obj>, cur: string -> Option<Obj>,
                                        todo: seq<string>, added: seq<string>, removed: seq<string>)
    requires RatioBounded(o) && multiset(todo) <= multiset(removed)
    ensures PairedByRule(o, prev, cur, todo, added, Decisions(o, prev, cur, todo, added),
      Pairings(o, prev, cur, todo, added, removed).0, Pairings(o, prev, cur, todo, added, removed).1)
    decreases |todo|
  {
    var r := Pairings(o, prev, cur, todo, added, removed);
    if |todo| == 0 {
      assert r.0 == [] && r.1 == added;
    } else {
      var d := RenameOf(o, prev, cur, todo[0], added);
      var added' := Remaining(added, [d]);
      PairingsHead(o, prev, cur, todo, added, removed);
      var removed' := if d.Some? && todo[0] in removed then RemoveFirst(removed, todo[0]) else removed;
      PairingsRule(o, prev, cur, todo[1..], added', removed');
      var rest := Pairings(o, prev, cur, todo[1..], added', removed');
      PairedCons(o, prev, cur, todo, added, d, Decisions(o, prev, cur, todo[1..], added'), rest.0, rest.1);
    }
  }

  /** `_diffs_copied`: nothing when nothing was removed, otherwise the
      renames found; it also yields the added and removed lists with the
      paired paths taken out (the source mutates them in place). */
  function Copied(o: Oracle, prev: string -> Option<Obj>, cur: string -> Option<Obj>,
                  added: seq<string>, removed: seq<string>): (r: (seq<Rename>, seq<string>, seq<string>))
    requires RatioBounded(o)
    ensures |removed| == 0 ==> r == ([], added, removed)
    ensures multiset(r.1) + multiset(NewPaths(r.0)) == multiset(added)
    ensures multiset(r.2) + multiset(OldPaths(r.0)) == multiset(removed)
    ensures forall x | x in r.0 :: x.ratio > Threshold
  {
    if |removed| == 0 then ([], added, removed)
    else Pairings(o, prev, cur, removed, added, removed)
  }

  /** `_diffs_copied` walks a copy of the removed list, in order, with the
      rule above. */
  lemma CopiedRule(o: Oracle, prev: string -> Option<Obj>, cur: string -> Option<Obj>,
                   added: seq<string>, removed: seq<string>)
    requires RatioBounded(o)
    ensures PairedByRule(o, prev, cur, removed, added, Decisions(o, prev, cur, removed, added),
      Copied(o, prev, cur, added, removed).0, Copied(o, prev, cur, added, removed).1)
  {
    PairingsRule(o, prev, cur, removed, added, removed);
    assert Copied(o, prev, cur, added, removed) == Pairings(o, prev, cur, removed, added, removed);
  }

  /** `Commit.diffs`: no stored difference record gives four empty lists;
      otherwise the classified paths, with renames paired off. */
  function CommitChanges(o: Oracle, prev: string -> Option<Obj>, cur: string -> Option<Obj>, di: Option<seq<Change>>): (r: Diffs)
    requires RatioBounded(o)
    ensures di.None? ==> r == Diffs([], [], [], [])
    ensures di.Some? ==>
      var (a, rm, ch) := Classify(di.value);
      r.changed == ch
      && multiset(r.added) + multiset(NewPaths(r.copied)) == multiset(a)
      && multiset(r.removed) + multiset(OldPaths(r.copied)) == multiset(rm)
  {
    match di
    case None => Diffs([], [], [], [])
    case Some(cs) =>
      var (a, rm, ch) := Classify(cs);
      var (cp, a', rm') := Copied(o, prev, cur, a, rm);
      Diffs(a', rm', ch, cp)
  }

  /** The renames `Commit.diffs` shows, and the added paths it leaves,
      follow the pairing rule over the classified removed and added paths. */
  lemma CommitChangesRule(o: Oracle, prev: string -> Option<Obj>, cur: string -> Option<Obj>, cs: seq<Change>)
    requires RatioBounded(o)
    ensures PairedByRule(o, prev, cur, Classify(cs).1, Classify(cs).0, Decisions(o, prev, cur, Classify(cs).1, Classify(cs).0),
      CommitChanges(o, prev, cur, Some(cs)).copied, CommitChanges(o, prev, cur, Some(cs)).added)
  {
    var k := Classify(cs);
    CopiedRule(o, prev, cur, k.0, k.1);
    var c := Copied(o, prev, cur, k.0, k.1);
    assert CommitChanges(o, prev, cur, Some(cs)) == Diffs(c.1, c.2, k.2, c.0);
  }
}
