/** Smaller pieces of the repository model: the change record shown for
    one path (`DiffObject`), the short and URL forms of a commit id, the
    status protocol of `Repository.refresh`, and the commit list of a
    merge request (`MergeRequest._commits`). */
module Repository {
  import opened Wrappers
  import opened RepoDocs
  import opened Text

  // ---------------------------------------------------------------------
  // DiffObject

  /** The side of a change the record is built from: a path and an id. */
  datatype Side = Side(path: string, objectId: Id)

  datatype DiffObject = DiffObject(
    aPath: Option<string>, aObjectId: Option<Id>,
    bPath: Option<string>, bObjectId: Option<Id>,
    isNew: bool, isDelete: bool)

  /** `DiffObject(a, b)`: each present side fills its path and id; a
      missing left side marks the record new, a missing right side marks
      it deleted. */
  function MakeDiff(a: Option<Side>, b: Option<Side>): (d: DiffObject)
    ensures d.isNew <==> a.None?
    ensures d.isDelete <==> b.None?
    ensures a.Some? ==> d.aPath == Some(a.value.path) && d.aObjectId == Some(a.value.objectId)
    ensures a.None? ==> d.aPath.None? && d.aObjectId.None?
    ensures b.Some? ==> d.bPath == Some(b.value.path) && d.bObjectId == Some(b.value.objectId)
    ensures b.None? ==> d.bPath.None? && d.bObjectId.None?
  {
    DiffObject(
      if a.Some? then Some(a.value.path) else None,
      if a.Some? then Some(a.value.objectId) else None,
      if b.Some? then Some(b.value.path) else None,
      if b.Some? then Some(b.value.objectId) else None,
      a.None?, b.None?)
  }

  /** Python's `'%s' % x` for an optional string. */
  function Show(x: Option<string>): string {
    if x.Some? then x.value else "None"
  }

  /** `repr(diff)`. */
  function DiffRepr(d: DiffObject): string {
    if d.isNew then "<new " + Show(d.bPath) + ">"
    else if d.isDelete then "<remove " + Show(d.aPath) + ">"
    else "<change " + Show(d.aPath) + ">"
  }

  /** The text of a record names what happened to the path: new when the
      left side is missing (even if the right one is too), removed when
      only the right side is missing, changed otherwise, naming the right
      path for a new file and the left path otherwise. */
  lemma DiffReprKinds(a: Option<Side>, b: Option<Side>)
    ensures StartsWith(DiffRepr(MakeDiff(a, b)), "<new ") <==> a.None?
    ensures StartsWith(DiffRepr(MakeDiff(a, b)), "<remove ") <==> a.Some? && b.None?
    ensures StartsWith(DiffRepr(MakeDiff(a, b)), "<change ") <==> a.Some? && b.Some?
    ensures a.None? && b.Some? ==> DiffRepr(MakeDiff(a, b)) == "<new " + b.value.path + ">"
    ensures a.Some? ==> EndsWith(DiffRepr(MakeDiff(a, b)), a.value.path + ">")
  {
    var r := DiffRepr(MakeDiff(a, b));
    var k := if a.None? then 'n' else if b.None? then 'r' else 'c';
    assert |r| > 1 && r[1] == k;
    PrefixAt(r, "<new ", 1);
    PrefixAt(r, "<remove ", 1);
    PrefixAt(r, "<change ", 1);
    if a.None? {
      assert r[..5] == "<new ";
    } else {
      var p := if b.None? then "<remove " else "<change ";
      assert r == p + a.value.path + ">";
      assert r[..8] == p;
      assert r[|r| - |a.value.path + ">"|..] == a.value.path + ">";
    }
  }

  /** A string starting with `p` agrees with it at every index of `p`. */
  lemma PrefixAt(r: string, p: string, i: nat)
    requires i < |p|
    ensures StartsWith(r, p) ==> r[i] == p[i]
  {
    if StartsWith(r, p) {
      assert r[..|p|][i] == r[i];
    }
  }

  // ---------------------------------------------------------------------
  // Commit ids as text

  function Min(a: nat, b: nat): nat {
    if a <= b then a else b
  }

  /** `shorthand_for_commit(oid)`: `'[' + oid[:6] + ']'`. */
  function Shorthand(oid: string): (s: string)
    ensures |s| == Min(6, |oid|) + 2 && s[0] == '[' && s[|s| - 1] == ']'
    ensures s[1..|s| - 1] == oid[..Min(6, |oid|)]
  {
    "[" + oid[..Min(6, |oid|)] + "]"
  }

  /** Two ids share a short form exactly when their first six characters
      (or the whole ids, when shorter) agree. */
  lemma ShorthandSame(a: string, b: string)
    ensures Shorthand(a) == Shorthand(b) <==> a[..Min(6, |a|)] == b[..Min(6, |b|)]
  {
    var sa, sb := Shorthand(a), Shorthand(b);
    if sa == sb {
      assert sa[1..|sa| - 1] == sb[1..|sb| - 1];
    }
  }

  /** What `url_for_commit` is given: a commit id or a commit. */
  datatype CommitRef = ById(oid: Id) | ByCommit(id: Id)

  /** `url_for_commit(commit)`: `<repo url>ci/<id>/`. */
  function UrlForCommit(repoUrl: string, c: CommitRef): (u: string)
    ensures StartsWith(u, repoUrl + "ci/") && EndsWith(u, "/")
  {
    var oid := if c.ById? then c.oid else c.id;
    var u := repoUrl + "ci/" + oid + "/";
    assert u[..|repoUrl + "ci/"|] == repoUrl + "ci/";
    assert u[|u| - 1..] == "/";
    u
  }

  /** Reading the id back out of a commit URL. */
  function CommitIdOfUrl(repoUrl: string, u: string): Option<Id> {
    if StartsWith(u, repoUrl + "ci/") && EndsWith(u, "/") && |u| >= |repoUrl| + 4 then
      Some(u[|repoUrl| + 3..|u| - 1])
    else None
  }

  /** The URL names the commit: the id can be read back from it, and a
      commit and its id give the same URL. */
  lemma UrlRoundTrip(repoUrl: string, oid: Id)
    ensures CommitIdOfUrl(repoUrl, UrlForCommit(repoUrl, ById(oid))) == Some(oid)
    ensures UrlForCommit(repoUrl, ByCommit(oid)) == UrlForCommit(repoUrl, ById(oid))
  {
    var u := UrlForCommit(repoUrl, ById(oid));
    assert u == repoUrl + "ci/" + oid + "/";
    assert u[|repoUrl| + 3..|u| - 1] == oid;
  }

  // ---------------------------------------------------------------------
  // Repository.refresh

  /** The steps of `refresh` between setting and restoring the status. */
  datatype Work = RefreshHeads | RefreshRepo | CountRevisions

  /** What the refresh writes or does, in order. */
  datatype Event = SetStatus(status: string) | Do(work: Work)

  /** The work `refresh` runs: the heads, the index refresh when the
      new-refresh setting is on, and the revision counts. */
  function Works(newRefresh: bool): seq<Work> {
    [RefreshHeads] + (if newRefresh then [RefreshRepo] else []) + [CountRevisions]
  }

  /** `refresh()`: the events in order, and the exception it propagates.
      `failsAt` is the index of the step that raises, if one does; the
      status is set back to 'ready' in the `finally` either way. */
  function Refresh(newRefresh: bool, failsAt: Option<nat>): (r: (seq<Event>, Option<Work>))
    ensures |r.0| >= 2 && r.0[0] == SetStatus("analyzing") && r.0[|r.0| - 1] == SetStatus("ready")
  {
    var ws := Works(newRefresh);
    if failsAt.Some? && failsAt.value < |ws| then
      ([SetStatus("analyzing")] + Run(ws[..failsAt.value + 1]) + [SetStatus("ready")], Some(ws[failsAt.value]))
    else
      ([SetStatus("analyzing")] + Run(ws) + [SetStatus("ready")], None)
  }

  function Run(ws: seq<Work>): (es: seq<Event>)
    ensures |es| == |ws| && forall i | 0 <= i < |ws| :: es[i] == Do(ws[i])
  {
    seq(|ws|, i requires 0 <= i < |ws| => Do(ws[i]))
  }

  /** The status is 'analyzing' exactly while the work runs, and 'ready'
      afterwards whether or not a step raised; the steps run are those up
      to and including the failing one, and only a failing step's
      exception escapes. */
  lemma RefreshRestoresReady(newRefresh: bool, failsAt: Option<nat>)
    ensures var (es, raised) := Refresh(newRefresh, failsAt);
      && |es| >= 2 && es[0] == SetStatus("analyzing") && es[|es| - 1] == SetStatus("ready")
      && (forall i | 0 < i < |es| - 1 :: es[i].Do?)
      && (raised.Some? <==> failsAt.Some? && failsAt.value < |Works(newRefresh)|)
      && (raised.None? ==> |es| == |Works(newRefresh)| + 2)
      && (raised.Some? ==> |es| == failsAt.value + 3 && es[|es| - 2] == Do(raised.value))
  {
  }

  /** A reference (head, branch or tag) and its revision count. */
  datatype Ref = Ref(name: string, objectId: Id, count: Option<nat>)

  /** The last loop of `refresh`: every reference whose commit is known
      gets that commit's revision count; `revisions` stands for looking the
      commit up and calling `count_revisions`. */
  function CountRefs(refs: seq<Ref>, revisions: Id -> Option<nat>): (r: seq<Ref>)
    ensures |r| == |refs|
    ensures forall i | 0 <= i < |refs| :: r[i].name == refs[i].name && r[i].objectId == refs[i].objectId
    ensures forall i | 0 <= i < |refs| ::
      r[i].count == if revisions(refs[i].objectId).Some? then revisions(refs[i].objectId) else refs[i].count
  {
    seq(|refs|, i requires 0 <= i < |refs| =>
      var c := revisions(refs[i].objectId);
      if c.Some? then refs[i].(count := c) else refs[i])
  }

  // ---------------------------------------------------------------------
  // MergeRequest._commits

  /** Parents of every stored commit are ranked below it. */
  ghost predicate CommitsRanked(db: CommitStore, rank: map<Id, nat>) {
    forall x | x in db :: x in rank && forall p | p in db[x].parentIds && p in db :: p in rank && rank[p] < rank[x]
  }

  /** The number of paths from `x` down through stored commits: how often
      a walk without a visited set meets commits below `x`. */
  ghost function Paths(db: CommitStore, rank: map<Id, nat>, x: Id): nat
    requires CommitsRanked(db, rank)
    requires x in db
    decreases rank[x], 1
  {
    1 + PathsOf(db, rank, db[x].parentIds, rank[x])
  }

  ghost function PathsOf(db: CommitStore, rank: map<Id, nat>, ps: seq<Id>, bound: nat): nat
    requires CommitsRanked(db, rank)
    requires forall p | p in ps && p in db :: rank[p] < bound
    decreases bound, 0, |ps|
  {
    if |ps| == 0 then 0
    else (if ps[0] in db then Paths(db, rank, ps[0]) else 1) + PathsOf(db, rank, ps[1..], bound)
  }

  lemma {:induction false} PathsOfAppend(db: CommitStore, rank: map<Id, nat>, a: seq<Id>, b: seq<Id>, bound: nat)
    requires CommitsRanked(db, rank)
    requires forall p | p in a + b && p in db :: rank[p] < bound
    ensures PathsOf(db, rank, a + b, bound) == PathsOf(db, rank, a, bound) + PathsOf(db, rank, b, bound)
    decreases |a|
  {
    if |a| > 0 {
      assert (a + b)[1..] == a[1..] + b && (a + b)[0] == a[0];
      PathsOfAppend(db, rank, a[1..], b, bound);
    } else {
      assert a + b == b;
    }
  }

  lemma {:induction false} PathsOfBound(db: CommitStore, rank: map<Id, nat>, ps: seq<Id>, b1: nat, b2: nat)
    requires CommitsRanked(db, rank)
    requires forall p | p in ps && p in db :: rank[p] < b1 && rank[p] < b2
    ensures PathsOf(db, rank, ps, b1) == PathsOf(db, rank, ps, b2)
    decreases |ps|
  {
    if |ps| > 0 {
      PathsOfBound(db, rank, ps[1..], b1, b2);
    }
  }

  /** A bound above every rank a queue can hold. */
  ghost function Top(rank: map<Id, nat>, q: seq<Id>): (b: nat)
    ensures forall p | p in q && p in rank :: rank[p] < b
  {
    if |q| == 0 then 0
    else
      var t := Top(rank, q[1..]);
      var h := if q[0] in rank then rank[q[0]] + 1 else 0;
      if h > t then h else t
  }

  /** The work left in a queue. */
  ghost function Pending(db: CommitStore, rank: map<Id, nat>, q: seq<Id>): nat
    requires CommitsRanked(db, rank)
  {
    PathsOf(db, rank, q, Top(rank, q))
  }

  /** Replacing the head of the queue by its parents at the back costs one
      unit of work. */
  lemma ExpandHead(db: CommitStore, rank: map<Id, nat>, q: seq<Id>)
    requires CommitsRanked(db, rank) && |q| > 0 && q[0] in db
    ensures Pending(db, rank, q[1..] + db[q[0]].parentIds) < Pending(db, rank, q)
    ensures Pending(db, rank, q[1..]) < Pending(db, rank, q)
  {
    var ps := db[q[0]].parentIds;
    var q' := q[1..] + ps;
    var b := Top(rank, q) + Top(rank, q');
    PathsOfBound(db, rank, q, Top(rank, q), b);
    PathsOfBound(db, rank, q', Top(rank, q'), b);
    PathsOfBound(db, rank, q[1..], Top(rank, q[1..]), b);
    PathsOfAppend(db, rank, q[1..], ps, b);
    PathsOfBound(db, rank, ps, b, rank[q[0]]);
  }

  /** `_commits()` as written: a breadth-first walk from the queue over
      parent ids, skipping (and not expanding) commits already in the
      target repository, with no record of commits already listed. A
      commit that cannot be loaded stops it with the `AttributeError` of
      reading `None.repo_ids`. */
  function MergeCommits(db: CommitStore, inTarget: Id -> bool, next: seq<Id>, ghost rank: map<Id, nat>): (r: Result<seq<Id>>)
    requires CommitsRanked(db, rank)
    ensures r.Ok? ==> forall x | x in r.value :: x in db && !inTarget(x)
    decreases Pending(db, rank, next)
  {
    if |next| == 0 then Ok([])
    else
      var oid := next[0];
      if oid !in db then Err("AttributeError")
      else
        ExpandHead(db, rank, next);
        if inTarget(oid) then MergeCommits(db, inTarget, next[1..], rank)
        else
          var rest := MergeCommits(db, inTarget, next[1..] + db[oid].parentIds, rank);
          if rest.Err? then rest else Ok([oid] + rest.value)
  }

  /** The walk the code evidently intends: each commit is looked at once. */
  function MergeCommitsFixed(db: CommitStore, inTarget: Id -> bool, next: seq<Id>, seen: set<Id>): (r: Result<seq<Id>>)
    ensures r.Ok? ==> forall x | x in r.value :: x in db && !inTarget(x) && x !in seen
    ensures r.Ok? ==> forall i, j | 0 <= i < j < |r.value| :: r.value[i] != r.value[j]
    decreases db.Keys - seen, |next|
  {
    if |next| == 0 then Ok([])
    else
      var oid := next[0];
      if oid in seen then MergeCommitsFixed(db, inTarget, next[1..], seen)
      else if oid !in db then Err("AttributeError")
      else if inTarget(oid) then MergeCommitsFixed(db, inTarget, next[1..], seen + {oid})
      else
        var rest := MergeCommitsFixed(db, inTarget, next[1..] + db[oid].parentIds, seen + {oid});
        if rest.Err? then rest else Ok([oid] + rest.value)
  }

  /** A set of ids holding the queue and, for each stored commit in it
      outside the target, that commit's parents: a set the walk never
      leaves. */
  ghost predicate WalkClosed(db: CommitStore, inTarget: Id -> bool, next: seq<Id>, s: set<Id>) {
    && (forall x | x in next :: x in s)
    && (forall x | x in s && x in db && !inTarget(x) :: forall p | p in db[x].parentIds :: p in s)
  }

  /** Every set the walk never leaves holds an id the index lacks: the
      walk from `next` meets a commit that cannot be loaded. */
  ghost predicate ReachesMissing(db: CommitStore, inTarget: Id -> bool, next: seq<Id>) {
    forall s | WalkClosed(db, inTarget, next, s) :: exists x | x in s :: x !in db
  }

  /** `listed` misses nothing the walk reaches: each queued id, and each
      parent of a listed commit, is already visited (`seen`) or is a stored
      commit that is listed unless the target holds it. */
  ghost predicate ListsAll(db: CommitStore, inTarget: Id -> bool, next: seq<Id>, seen: set<Id>, listed: seq<Id>) {
    && (forall x | x in next :: x in seen || (x in db && (!inTarget(x) ==> x in listed)))
    && (forall x | x in listed && x in db :: forall p | p in db[x].parentIds ::
          p in seen || (p in db && (!inTarget(p) ==> p in listed)))
  }

  /** As written, the walk lists nothing outside a set it cannot leave. */
  lemma {:induction false} MergeCommitsLeast(db: CommitStore, inTarget: Id -> bool, next: seq<Id>, rank: map<Id, nat>, s: set<Id>)
    requires CommitsRanked(db, rank) && WalkClosed(db, inTarget, next, s)
    requires MergeCommits(db, inTarget, next, rank).Ok?
    ensures forall x | x in MergeCommits(db, inTarget, next, rank).value :: x in s
    decreases Pending(db, rank, next)
  {
    if |next| > 0 {
      var oid := next[0];
      ExpandHead(db, rank, next);
      assert oid in s;
      if inTarget(oid) {
        MergeCommitsLeast(db, inTarget, next[1..], rank, s);
      } else {
        var q := next[1..] + db[oid].parentIds;
        assert forall x | x in q :: x in next[1..] || x in db[oid].parentIds;
        MergeCommitsLeast(db, inTarget, q, rank, s);
      }
    }
  }

  /** As written, a walk that succeeds lists every stored commit outside
      the target that the queue reaches through such commits. */
  lemma {:induction false} MergeCommitsComplete(db: CommitStore, inTarget: Id -> bool, next: seq<Id>, rank: map<Id, nat>)
    requires CommitsRanked(db, rank)
    requires MergeCommits(db, inTarget, next, rank).Ok?
    ensures ListsAll(db, inTarget, next, {}, MergeCommits(db, inTarget, next, rank).value)
    decreases Pending(db, rank, next)
  {
    if |next| > 0 {
      var oid := next[0];
      ExpandHead(db, rank, next);
      assert forall x | x in next :: x == oid || x in next[1..];
      if inTarget(oid) {
        MergeCommitsComplete(db, inTarget, next[1..], rank);
      } else {
        var q := next[1..] + db[oid].parentIds;
        MergeCommitsComplete(db, inTarget, q, rank);
        var rest := MergeCommits(db, inTarget, q, rank).value;
        assert MergeCommits(db, inTarget, next, rank).value == [oid] + rest;
        assert forall x | x in [oid] + rest :: x == oid || x in rest;
      }
    }
  }

  /** As written, a failed walk met a commit the index lacks. */
  lemma {:induction false} MergeCommitsErrReaches(db: CommitStore, inTarget: Id -> bool, next: seq<Id>, rank: map<Id, nat>, s: set<Id>)
    requires CommitsRanked(db, rank) && WalkClosed(db, inTarget, next, s)
    requires MergeCommits(db, inTarget, next, rank).Err?
    ensures exists x | x in s :: x !in db
    decreases Pending(db, rank, next)
  {
    var oid := next[0];
    assert oid in s;
    if oid in db {
      ExpandHead(db, rank, next);
      if inTarget(oid) {
        MergeCommitsErrReaches(db, inTarget, next[1..], rank, s);
      } else {
        var q := next[1..] + db[oid].parentIds;
        assert forall x | x in q :: x in next[1..] || x in db[oid].parentIds;
        MergeCommitsErrReaches(db, inTarget, q, rank, s);
      }
    }
  }

  /** A succeeding walk leaves a set it never leaves, all of it stored:
      its listed commits with the target's stored commits. */
  lemma StoredClosure(db: CommitStore, inTarget: Id -> bool, next: seq<Id>, listed: seq<Id>)
    requires ListsAll(db, inTarget, next, {}, listed) && forall x | x in listed :: x in db
    ensures WalkClosed(db, inTarget, next, (set x | x in listed) + (set x | x in db && inTarget(x)))
    ensures !ReachesMissing(db, inTarget, next)
  {
    var s := (set x | x in listed) + (set x | x in db && inTarget(x));
    assert WalkClosed(db, inTarget, next, s);
    assert forall x | x in s :: x in db;
  }

  /** As written, `_commits` fails exactly when the walk meets a commit
      the index lacks. */
  lemma MergeCommitsFails(db: CommitStore, inTarget: Id -> bool, next: seq<Id>, rank: map<Id, nat>)
    requires CommitsRanked(db, rank)
    ensures MergeCommits(db, inTarget, next, rank).Err? <==> ReachesMissing(db, inTarget, next)
  {
    var r := MergeCommits(db, inTarget, next, rank);
    if r.Err? {
      forall s | WalkClosed(db, inTarget, next, s) ensures exists x | x in s :: x !in db {
        MergeCommitsErrReaches(db, inTarget, next, rank, s);
      }
    } else {
      MergeCommitsComplete(db, inTarget, next, rank);
      StoredClosure(db, inTarget, next, r.value);
    }
  }

  /** The corrected walk lists nothing outside a set it cannot leave. */
  lemma {:induction false} MergeCommitsFixedLeast(db: CommitStore, inTarget: Id -> bool, next: seq<Id>, seen: set<Id>, s: set<Id>)
    requires WalkClosed(db, inTarget, next, s)
    requires MergeCommitsFixed(db, inTarget, next, seen).Ok?
    ensures forall x | x in MergeCommitsFixed(db, inTarget, next, seen).value :: x in s
    decreases db.Keys - seen, |next|
  {
    if |next| > 0 {
      var oid := next[0];
      assert oid in s;
      if oid in seen {
        MergeCommitsFixedLeast(db, inTarget, next[1..], seen, s);
      } else if inTarget(oid) {
        MergeCommitsFixedLeast(db, inTarget, next[1..], seen + {oid}, s);
      } else {
        var q := next[1..] + db[oid].parentIds;
        assert forall x | x in q :: x in next[1..] || x in db[oid].parentIds;
        MergeCommitsFixedLeast(db, inTarget, q, seen + {oid}, s);
      }
    }
  }

  /** The corrected walk misses nothing it reaches outside `seen`. */
  lemma {:induction false} MergeCommitsFixedComplete(db: CommitStore, inTarget: Id -> bool, next: seq<Id>, seen: set<Id>)
    requires MergeCommitsFixed(db, inTarget, next, seen).Ok?
    ensures ListsAll(db, inTarget, next, seen, MergeCommitsFixed(db, inTarget, next, seen).value)
    decreases db.Keys - seen, |next|
  {
    if |next| > 0 {
      var oid := next[0];
      assert forall x | x in next :: x == oid || x in next[1..];
      if oid in seen {
        MergeCommitsFixedComplete(db, inTarget, next[1..], seen);
      } else if inTarget(oid) {
        MergeCommitsFixedComplete(db, inTarget, next[1..], seen + {oid});
      } else {
        var q := next[1..] + db[oid].parentIds;
        MergeCommitsFixedComplete(db, inTarget, q, seen + {oid});
        var rest := MergeCommitsFixed(db, inTarget, q, seen + {oid}).value;
        assert MergeCommitsFixed(db, inTarget, next, seen).value == [oid] + rest;
        assert forall x | x in [oid] + rest :: x == oid || x in rest;
      }
    }
  }

  /** The corrected walk fails only on meeting a commit the index lacks. */
  lemma {:induction false} MergeCommitsFixedErrReaches(db: CommitStore, inTarget: Id -> bool, next: seq<Id>, seen: set<Id>, s: set<Id>)
    requires WalkClosed(db, inTarget, next, s)
    requires MergeCommitsFixed(db, inTarget, next, seen).Err?
    ensures exists x | x in s :: x !in db
    decreases db.Keys - seen, |next|
  {
    var oid := next[0];
    assert oid in s;
    if oid in seen {
      MergeCommitsFixedErrReaches(db, inTarget, next[1..], seen, s);
    } else if oid in db {
      if inTarget(oid) {
        MergeCommitsFixedErrReaches(db, inTarget, next[1..], seen + {oid}, s);
      } else {
        var q := next[1..] + db[oid].parentIds;
        assert forall x | x in q :: x in next[1..] || x in db[oid].parentIds;
        MergeCommitsFixedErrReaches(db, inTarget, q, seen + {oid}, s);
      }
    }
  }

  /** The corrected walk fails exactly when the as-written one does. */
  lemma MergeCommitsFixedFails(db: CommitStore, inTarget: Id -> bool, next: seq<Id>)
    ensures MergeCommitsFixed(db, inTarget, next, {}).Err? <==> ReachesMissing(db, inTarget, next)
  {
    var r := MergeCommitsFixed(db, inTarget, next, {});
    if r.Err? {
      forall s | WalkClosed(db, inTarget, next, s) ensures exists x | x in s :: x !in db {
        MergeCommitsFixedErrReaches(db, inTarget, next, {}, s);
      }
    } else {
      MergeCommitsFixedComplete(db, inTarget, next, {});
      StoredClosure(db, inTarget, next, r.value);
    }
  }

  /** Where both succeed, the two walks list the same commits; the
      corrected one lists each once. */
  lemma MergeWalksAgree(db: CommitStore, inTarget: Id -> bool, next: seq<Id>, rank: map<Id, nat>)
    requires CommitsRanked(db, rank)
    requires MergeCommits(db, inTarget, next, rank).Ok? && MergeCommitsFixed(db, inTarget, next, {}).Ok?
    ensures forall x :: x in MergeCommits(db, inTarget, next, rank).value <==> x in MergeCommitsFixed(db, inTarget, next, {}).value
  {
    var a := MergeCommits(db, inTarget, next, rank).value;
    var b := MergeCommitsFixed(db, inTarget, next, {}).value;
    MergeCommitsComplete(db, inTarget, next, rank);
    MergeCommitsFixedComplete(db, inTarget, next, {});
    StoredClosure(db, inTarget, next, a);
    StoredClosure(db, inTarget, next, b);
    MergeCommitsLeast(db, inTarget, next, rank, (set x | x in b) + (set x | x in db && inTarget(x)));
    MergeCommitsFixedLeast(db, inTarget, next, {}, (set x | x in a) + (set x | x in db && inTarget(x)));
  }

  /** A diamond: D has parents B and C, both of which have parent A. */
  function Diamond(): CommitStore {
    map[
      "D" := CommitDoc(None, ["B", "C"], [], 4, ""),
      "B" := CommitDoc(None, ["A"], ["D"], 3, ""),
      "C" := CommitDoc(None, ["A"], ["D"], 2, ""),
      "A" := CommitDoc(None, [], ["B", "C"], 1, "")]
  }

  function DiamondRank(): map<Id, nat> {
    map["D" := 3, "B" := 2, "C" := 2, "A" := 1]
  }

  lemma DiamondRanked()
    ensures CommitsRanked(Diamond(), DiamondRank())
  {
  }

  /** As written, a commit reachable along two paths is listed twice. */
  lemma MergeCommitsRepeats()
    ensures CommitsRanked(Diamond(), DiamondRank())
    ensures MergeCommits(Diamond(), _ => false, ["D"], DiamondRank()) == Ok(["D", "B", "C", "A", "A"])
  {
    var db, rank, f := Diamond(), DiamondRank(), (_: Id) => false;
    DiamondRanked();
    DiamondUpper();
    assert "D" in db && db["D"].parentIds == ["B", "C"];
    Cons5("D", "B", "C", "A", "A");
    assert ["D"][1..] + ["B", "C"] == ["B", "C"];
  }

  lemma Cons4<T>(a: T, b: T, c: T, d: T)
    ensures [a] + [b, c, d] == [a, b, c, d]
  {
  }

  lemma Cons5<T>(a: T, b: T, c: T, d: T, e: T)
    ensures [a] + [b, c, d, e] == [a, b, c, d, e]
  {
  }

  lemma DiamondUpper()
    ensures CommitsRanked(Diamond(), DiamondRank())
    ensures MergeCommits(Diamond(), _ => false, ["B", "C"], DiamondRank()) == Ok(["B", "C", "A", "A"])
  {
    var db, rank, f := Diamond(), DiamondRank(), (_: Id) => false;
    DiamondMiddle();
    assert "B" in db && db["B"].parentIds == ["A"];
    Cons4("B", "C", "A", "A");
    assert ["B", "C"][1..] + ["A"] == ["C", "A"];
  }

  lemma DiamondMiddle()
    ensures CommitsRanked(Diamond(), DiamondRank())
    ensures MergeCommits(Diamond(), _ => false, ["C", "A"], DiamondRank()) == Ok(["C", "A", "A"])
  {
    var db, rank, f := Diamond(), DiamondRank(), (_: Id) => false;
    DiamondTail();
    assert "C" in db && db["C"].parentIds == ["A"];
    assert ["C"] + ["A", "A"] == ["C", "A", "A"];
    assert ["C", "A"][1..] + ["A"] == ["A", "A"];
  }

  /** The end of the diamond's walk: the root, queued twice, is listed
      twice. */
  lemma DiamondTail()
    ensures CommitsRanked(Diamond(), DiamondRank())
    ensures MergeCommits(Diamond(), _ => false, ["A", "A"], DiamondRank()) == Ok(["A", "A"])
  {
    var db, rank, f := Diamond(), DiamondRank(), (_: Id) => false;
    DiamondRanked();
    assert "A" in db && db["A"].parentIds == [];
    assert MergeCommits(db, f, [], rank) == Ok([]);
    assert ["A"][1..] + [] == [];
    assert !f("A");
    assert ["A"] + [] == ["A"] && ["A"] + ["A"] == ["A", "A"];
    assert MergeCommits(db, f, ["A"], rank) == Ok(["A"]);
    assert ["A", "A"][1..] + [] == ["A"];
  }

  /** With a record of commits already looked at, the same diamond lists
      each commit once. */
  lemma MergeCommitsFixedOnce()
    ensures MergeCommitsFixed(Diamond(), _ => false, ["D"], {}) == Ok(["D", "B", "C", "A"])
  {
    var db, f := Diamond(), (_: Id) => false;
    assert "A" in db && "B" in db && "C" in db && "D" in db;
    assert db["A"].parentIds == [] && db["B"].parentIds == ["A"] && db["C"].parentIds == ["A"];
    assert db["D"].parentIds == ["B", "C"];
    assert MergeCommitsFixed(db, f, [], {"D", "B", "C", "A"}) == Ok([]);
    assert ["A"] + [] == ["A"] && ["C"] + ["A"] == ["C", "A"];
    assert ["B"] + ["C", "A"] == ["B", "C", "A"] && ["D"] + ["B", "C", "A"] == ["D", "B", "C", "A"];
    assert {"D", "B"} + {"C"} == {"D", "B", "C"} && {"D", "B", "C"} + {"A"} == {"D", "B", "C", "A"};
    assert {"D"} + {"B"} == {"D", "B"} && {} + {"D"} == {"D"};
    assert MergeCommitsFixed(db, f, ["A"], {"D", "B", "C", "A"}) == Ok([]);
    assert ["A", "A"][1..] + [] == ["A"];
    assert MergeCommitsFixed(db, f, ["A", "A"], {"D", "B", "C"}) == Ok(["A"]);
    assert ["C", "A"][1..] + ["A"] == ["A", "A"];
    assert MergeCommitsFixed(db, f, ["C", "A"], {"D", "B"}) == Ok(["C", "A"]);
    assert ["B", "C"][1..] + ["A"] == ["C", "A"];
    assert MergeCommitsFixed(db, f, ["B", "C"], {"D"}) == Ok(["B", "C", "A"]);
    assert ["D"][1..] + ["B", "C"] == ["B", "C"];
  }
}
