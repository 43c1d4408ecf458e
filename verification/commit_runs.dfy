/** Building commit runs (the in-memory half of `CommitRunBuilder`): every
    commit known to the database becomes a one-commit run, and a run whose
    only parent heads another run absorbs that run, until no run can absorb
    another. */
module CommitRuns {
  import opened Wrappers
  import opened RepoDocs

  /** Ids are looked up in batches of this many. */
  const QSIZE: nat := 100

  /** The builder's state: which run holds each commit, and the runs by id. */
  datatype Builder = Builder(runIndex: map<Id, Id>, runs: RunStore)

  function Last<T>(s: seq<T>): T
    requires |s| > 0
  {
    s[|s| - 1]
  }

  /** The run a freshly seen commit starts as. */
  function Singleton(db: CommitStore, c: Id): Run
    requires c in db
  {
    Run(db[c].parentIds, [c], [db[c].authoredDate])
  }

  /** Run `r` absorbs `p`, the run headed by its only parent. */
  function Absorb(r: Run, p: Run): Run {
    Run(p.parentIds, r.commitIds + p.commitIds, r.commitTimes + p.commitTimes)
  }

  // ---------------------------------------------------------------------
  // The commit graph and what a well-formed run is

  /** `q` is one of the parents recorded for commit `c`. */
  predicate ParentOf(db: CommitStore, c: Id, q: Id) {
    c in db && q in db[c].parentIds
  }

  /** `q` lies strictly further back in history than `c`. */
  ghost predicate Below(rank: map<Id, int>, q: Id, c: Id) {
    q in rank && c in rank && rank[q] < rank[c]
  }

  /** `rank` strictly decreases from a commit to any parent stored in `db`:
      the commit graph is acyclic. */
  ghost predicate Acyclic(db: CommitStore, rank: map<Id, int>) {
    forall c, q :: ParentOf(db, c, q) && q in db ==> Below(rank, q, c)
  }

  /** `r` follows the commit graph: each commit's only parent is the next
      one, the oldest commit's parents are the run's parents, and the times
      are the commits' authored dates. */
  ghost predicate Chain(db: CommitStore, r: Run) {
    |r.commitIds| > 0 && |r.commitIds| == |r.commitTimes| &&
    (forall i :: 0 <= i < |r.commitIds| ==>
       r.commitIds[i] in db && r.commitTimes[i] == db[r.commitIds[i]].authoredDate) &&
    (forall i, j :: 0 <= i && j == i + 1 && j < |r.commitIds| ==>
       db[r.commitIds[i]].parentIds == [r.commitIds[j]]) &&
    db[Last(r.commitIds)].parentIds == r.parentIds
  }

  /** Along a chain, history goes strictly backwards, so no commit repeats
      and the chain cannot reach its own head again. */
  lemma {:induction false} ChainDescends(db: CommitStore, rank: map<Id, int>, r: Run, i: int, j: int)
    requires Acyclic(db, rank) && Chain(db, r)
    requires 0 <= i < j < |r.commitIds|
    ensures Below(rank, r.commitIds[j], r.commitIds[i])
    decreases j - i
  {
    var a, c := r.commitIds[j - 1], r.commitIds[j];
    assert db[a].parentIds == [c];
    assert ParentOf(db, a, c);
    if i < j - 1 {
      ChainDescends(db, rank, r, i, j - 1);
    }
  }

  /** Every run is a chain going back in history, keyed by its newest commit. */
  ghost predicate RunsWellFormed(db: CommitStore, runs: RunStore) {
    forall rid :: rid in runs ==>
      Chain(db, runs[rid]) && runs[rid].commitIds[0] == rid
  }

  /** The index maps each commit to the one run holding it. */
  ghost predicate IndexExact(b: Builder) {
    (forall c :: c in b.runIndex ==> b.runIndex[c] in b.runs && c in b.runs[b.runIndex[c]].commitIds) &&
    (forall rid, c :: rid in b.runs && c in b.runs[rid].commitIds ==> c in b.runIndex && b.runIndex[c] == rid)
  }

  /** The builder invariant. */
  ghost predicate Valid(db: CommitStore, b: Builder) {
    RunsWellFormed(db, b.runs) && IndexExact(b)
  }

  /** The four conditions `merge_runs` checks before run `rid` absorbs the
      run holding its parent. */
  predicate Mergeable(b: Builder, rid: Id) {
    rid in b.runs &&
    |b.runs[rid].parentIds| == 1 &&
    var p := b.runs[rid].parentIds[0];
    p in b.runIndex &&
    b.runIndex[p] in b.runs &&
    |b.runs[b.runIndex[p]].commitIds| > 0 &&
    b.runs[b.runIndex[p]].commitIds[0] == p
  }

  /** No run can absorb another. */
  ghost predicate Settled(b: Builder) {
    forall rid :: !Mergeable(b, rid)
  }

  /** Points each of `ids` at run `rid`, one id at a time. */
  function Repoint(index: map<Id, Id>, ids: seq<Id>, rid: Id): (index': map<Id, Id>)
    ensures index'.Keys == index.Keys + (set c | c in ids)
    ensures forall c :: c in index' ==> index'[c] == if c in ids then rid else index[c]
    decreases |ids|
  {
    if |ids| == 0 then index else Repoint(index[ids[0] := rid], ids[1..], rid)
  }

  /** One merge: `rid` absorbs its parent's run, the absorbed commits are
      re-indexed to `rid`, and the absorbed run is dropped. */
  function MergeStep(b: Builder, rid: Id): Builder
    requires Mergeable(b, rid)
  {
    var r := b.runs[rid];
    var pid := b.runIndex[r.parentIds[0]];
    var p := b.runs[pid];
    Builder(Repoint(b.runIndex, p.commitIds, rid), b.runs[rid := Absorb(r, p)] - {pid})
  }

  /** Absorbing the run headed by the only parent continues the chain, and
      that run lies strictly further back in history. */
  lemma AbsorbChain(db: CommitStore, rank: map<Id, int>, r: Run, p: Run)
    requires Acyclic(db, rank)
    requires Chain(db, r) && Chain(db, p)
    requires r.parentIds == [p.commitIds[0]]
    ensures Chain(db, Absorb(r, p))
    ensures Below(rank, p.commitIds[0], r.commitIds[0])
  {
    var m := Absorb(r, p);
    var n := |r.commitIds|;
    var last := Last(r.commitIds);
    var q := p.commitIds[0];
    assert ParentOf(db, last, q);
    if n > 1 {
      ChainDescends(db, rank, r, 0, n - 1);
    }
    forall i, j | 0 <= i && j == i + 1 && j < |m.commitIds|
      ensures db[m.commitIds[i]].parentIds == [m.commitIds[j]]
    {
      if i == n - 1 {
        assert m.commitIds[i] == last && m.commitIds[j] == q;
      } else if i < n - 1 {
        assert m.commitIds[i] == r.commitIds[i] && m.commitIds[j] == r.commitIds[j];
      } else {
        assert m.commitIds[i] == p.commitIds[i - n] && m.commitIds[j] == p.commitIds[j - n];
      }
    }
    forall i | 0 <= i < |m.commitIds|
      ensures m.commitIds[i] in db && m.commitTimes[i] == db[m.commitIds[i]].authoredDate
    {
      if i >= n {
        assert m.commitIds[i] == p.commitIds[i - n] && m.commitTimes[i] == p.commitTimes[i - n];
      } else {
        assert m.commitIds[i] == r.commitIds[i] && m.commitTimes[i] == r.commitTimes[i];
      }
    }
    assert Last(m.commitIds) == Last(p.commitIds);
  }

  /** Re-pointing the absorbed commits keeps the index exact. */
  lemma MergeIndexExact(b: Builder, rid: Id)
    requires IndexExact(b) && Mergeable(b, rid)
    requires b.runIndex[b.runs[rid].parentIds[0]] != rid
    ensures IndexExact(MergeStep(b, rid))
  {
    var r := b.runs[rid];
    var pid := b.runIndex[r.parentIds[0]];
    var p := b.runs[pid];
    var b' := MergeStep(b, rid);
    var m := Absorb(r, p);
    assert b'.runs[rid] == m;
    forall c | c in b'.runIndex
      ensures b'.runIndex[c] in b'.runs && c in b'.runs[b'.runIndex[c]].commitIds
    {
      if c in p.commitIds {
        assert b'.runIndex[c] == rid;
      } else {
        var k := b.runIndex[c];
        assert b'.runIndex[c] == k;
        if k != rid {
          assert b'.runs[k] == b.runs[k];
        }
      }
    }
    forall x, c | x in b'.runs && c in b'.runs[x].commitIds
      ensures c in b'.runIndex && b'.runIndex[c] == x
    {
      if x != rid {
        assert b'.runs[x] == b.runs[x];
      } else if c !in p.commitIds {
        assert c in r.commitIds;
      }
    }
  }

  /** Replacing a run by its merge with its parent's run, and dropping the
      parent's run, keeps every run a chain keyed by its newest commit. */
  lemma RunsAfterMerge(db: CommitStore, rank: map<Id, int>, runs: RunStore, rid: Id, q: Id)
    requires Acyclic(db, rank) && RunsWellFormed(db, runs)
    requires rid in runs && q in runs && runs[rid].parentIds == [q]
    ensures q != rid
    ensures RunsWellFormed(db, runs[rid := Absorb(runs[rid], runs[q])] - {q})
  {
    AbsorbChain(db, rank, runs[rid], runs[q]);
    var runs' := runs[rid := Absorb(runs[rid], runs[q])] - {q};
    forall x | x in runs'
      ensures Chain(db, runs'[x]) && runs'[x].commitIds[0] == x
    {
      if x != rid {
        assert runs'[x] == runs[x];
      }
    }
  }

  /** Every commit of an indexed run is indexed to that run. */
  lemma IndexCovers(b: Builder, x: Id)
    requires IndexExact(b) && x in b.runs
    ensures forall c :: c in b.runs[x].commitIds ==> c in b.runIndex && b.runIndex[c] == x
  {
  }

  /** A merge keeps the builder well formed and the indexed commits, and
      removes exactly one run, which is not `rid`. */
  lemma MergeStepValid(db: CommitStore, rank: map<Id, int>, b: Builder, rid: Id)
    requires Acyclic(db, rank) && Valid(db, b) && Mergeable(b, rid)
    ensures Valid(db, MergeStep(b, rid))
    ensures MergeStep(b, rid).runIndex.Keys == b.runIndex.Keys
    ensures |MergeStep(b, rid).runs.Keys| < |b.runs.Keys|
  {
    var q := MergeParent(db, rank, b, rid);
    MergeRunsValid(db, rank, b, rid, q);
    MergeIndexValid(b, rid, q);
    UpdateRemoveKeys(b.runs, rid, Absorb(b.runs[rid], b.runs[q]), q);
  }

  /** The run absorbed by a merge is keyed by the parent commit itself,
      which heads no other run than its own. */
  lemma MergeParent(db: CommitStore, rank: map<Id, int>, b: Builder, rid: Id) returns (q: Id)
    requires Acyclic(db, rank) && Valid(db, b) && Mergeable(b, rid)
    ensures q == b.runs[rid].parentIds[0] && q in b.runs && b.runIndex[q] == q && q != rid
    ensures MergeStep(b, rid) == Builder(Repoint(b.runIndex, b.runs[q].commitIds, rid),
                                         b.runs[rid := Absorb(b.runs[rid], b.runs[q])] - {q})
  {
    q := b.runs[rid].parentIds[0];
    var pid := b.runIndex[q];
    assert pid == q by {
      assert b.runs[pid].commitIds[0] == pid;
    }
    RunsAfterMerge(db, rank, b.runs, rid, q);
  }

  /** The runs after a merge are well formed. */
  lemma MergeRunsValid(db: CommitStore, rank: map<Id, int>, b: Builder, rid: Id, q: Id)
    requires Acyclic(db, rank) && Valid(db, b) && Mergeable(b, rid)
    requires q == b.runs[rid].parentIds[0] && q in b.runs && b.runIndex[q] == q && q != rid
    requires MergeStep(b, rid).runs == b.runs[rid := Absorb(b.runs[rid], b.runs[q])] - {q}
    ensures RunsWellFormed(db, MergeStep(b, rid).runs)
  {
    RunsAfterMerge(db, rank, b.runs, rid, q);
  }

  /** The index after a merge is exact and covers the same commits. */
  lemma MergeIndexValid(b: Builder, rid: Id, q: Id)
    requires IndexExact(b) && Mergeable(b, rid)
    requires q == b.runs[rid].parentIds[0] && q in b.runs && b.runIndex[q] == q && q != rid
    requires MergeStep(b, rid).runIndex == Repoint(b.runIndex, b.runs[q].commitIds, rid)
    ensures IndexExact(MergeStep(b, rid))
    ensures MergeStep(b, rid).runIndex.Keys == b.runIndex.Keys
  {
    IndexCovers(b, q);
    MergeIndexExact(b, rid);
  }

  /** Overwriting one key and removing another shrinks a map by one. */
  lemma UpdateRemoveKeys<K, V>(m: map<K, V>, k: K, v: V, x: K)
    requires k in m && x in m && k != x
    ensures (m[k := v] - {x}).Keys == m.Keys - {x}
    ensures |(m[k := v] - {x}).Keys| == |m.Keys| - 1
  {
    assert m.Keys == (m.Keys - {x}) + {x};
  }

  /** `merge_runs`: merge until no run can absorb another. Which mergeable
      run goes first follows the dictionary's iteration order, which the
      model leaves open. */
  method MergeRuns(db: CommitStore, ghost rank: map<Id, int>, b: Builder) returns (b': Builder)
    requires Acyclic(db, rank) && Valid(db, b)
    ensures Valid(db, b')
    ensures b'.runIndex.Keys == b.runIndex.Keys
    ensures Settled(b')
  {
    b' := b;
    while exists rid :: rid in b'.runs && Mergeable(b', rid)
      invariant Valid(db, b')
      invariant b'.runIndex.Keys == b.runIndex.Keys
      decreases |b'.runs.Keys|
    {
      var rid :| rid in b'.runs && Mergeable(b', rid);
      MergeStepValid(db, rank, b', rid);
      b' := MergeStep(b', rid);
    }
  }

  /** The first loop of `run` over one batch: every id found in the
      database and not yet indexed starts a one-commit run. */
  function AddCommits(db: CommitStore, b: Builder, ids: seq<Id>): (b': Builder)
    ensures b'.runIndex.Keys == b.runIndex.Keys + (set c | c in ids && c in db)
    ensures forall c :: c in b'.runIndex && c !in b.runIndex ==> c in b'.runs && b'.runs[c] == Singleton(db, c)
    ensures forall rid :: rid in b.runs && rid in b.runIndex ==> rid in b'.runs && b'.runs[rid] == b.runs[rid]
    decreases |ids|
  {
    if |ids| == 0 then b
    else
      var c := ids[0];
      var b1 := if c in db && c !in b.runIndex
        then Builder(b.runIndex[c := c], b.runs[c := Singleton(db, c)])
        else b;
      AddCommits(db, b1, ids[1..])
  }

  /** Adding one-commit runs for unindexed commits keeps the builder well
      formed. */
  lemma {:induction false} AddCommitsValid(db: CommitStore, b: Builder, ids: seq<Id>)
    requires Valid(db, b)
    ensures Valid(db, AddCommits(db, b, ids))
    decreases |ids|
  {
    if |ids| > 0 {
      var c := ids[0];
      if c in db && c !in b.runIndex {
        var b1 := Builder(b.runIndex[c := c], b.runs[c := Singleton(db, c)]);
        assert c !in b.runs;
        assert Chain(db, Singleton(db, c));
        forall x, i | x in b1.runs && 0 <= i < |b1.runs[x].commitIds|
          ensures b1.runs[x].commitIds[i] in b1.runIndex && b1.runIndex[b1.runs[x].commitIds[i]] == x
        {
          if x != c {
            assert b1.runs[x] == b.runs[x];
          }
        }
        assert Valid(db, b1);
        AddCommitsValid(db, b1, ids[1..]);
      } else {
        AddCommitsValid(db, b, ids[1..]);
      }
    }
  }

  /** `CommitRunBuilder.run` without the final save: batches of `QSIZE`
      ids, each followed by `merge_runs`. Every id found in the database ends
      up in exactly one run, and no run can absorb another. */
  method BuildRuns(db: CommitStore, commitIds: seq<Id>, ghost rank: map<Id, int>) returns (b: Builder)
    requires Acyclic(db, rank)
    ensures Valid(db, b)
    ensures b.runIndex.Keys == (set c | c in commitIds && c in db)
    ensures Settled(b)
  {
    b := Builder(map[], map[]);
    var i := 0;
    while i < |commitIds|
      invariant 0 <= i <= |commitIds|
      invariant Valid(db, b)
      invariant b.runIndex.Keys == (set c | c in commitIds[..i] && c in db)
      invariant Settled(b)
    {
      var j := if i + QSIZE < |commitIds| then i + QSIZE else |commitIds|;
      AddCommitsValid(db, b, commitIds[i..j]);
      b := AddCommits(db, b, commitIds[i..j]);
      assert commitIds[..j] == commitIds[..i] + commitIds[i..j];
      b := MergeRuns(db, rank, b);
      i := j;
    }
    assert commitIds[..i] == commitIds;
  }

  // ---------------------------------------------------------------------
  // Linear histories collapse to one run

  /** A commit whose parents are all outside the database. */
  predicate IsRoot(db: CommitStore, c: Id) {
    c in db && forall q :: q in db[c].parentIds ==> q !in db
  }

  /** A linear history: at most one parent each, no two commits share a
      parent, and only one commit starts the history. */
  ghost predicate Linear(db: CommitStore) {
    (forall c :: c in db ==> |db[c].parentIds| <= 1) &&
    (forall c1, c2, q :: ParentOf(db, c1, q) && ParentOf(db, c2, q) && q in db ==> c1 == c2) &&
    (forall c1, c2 :: IsRoot(db, c1) && IsRoot(db, c2) ==> c1 == c2)
  }

  /** A commit that does not start the history has a stored parent. */
  lemma StoredParent(db: CommitStore, c: Id) returns (q: Id)
    requires c in db && !IsRoot(db, c)
    ensures ParentOf(db, c, q) && q in db
  {
    q :| q in db[c].parentIds && q in db;
  }

  /** Where `x` sits in `s`. */
  lemma IndexOf<T>(s: seq<T>, x: T) returns (j: int)
    requires x in s
    ensures 0 <= j < |s| && s[j] == x
  {
    j :| 0 <= j < |s| && s[j] == x;
  }

  /** If the only parent `q` of a run has no child but the run's last
      commit, then `q` heads its own run, so the run can absorb it: were `q`
      inside a run, the commit before it there would be a second child, or
      the run itself would reach back to its own last commit. */
  lemma LoneParentHeadsRun(db: CommitStore, rank: map<Id, int>, b: Builder, rid: Id, q: Id)
    requires Acyclic(db, rank) && Valid(db, b)
    requires rid in b.runs && q in b.runIndex
    requires b.runs[rid].parentIds == [q]
    requires forall c :: ParentOf(db, c, q) ==> c == Last(b.runs[rid].commitIds)
    ensures Mergeable(b, rid)
  {
    var r := b.runs[rid];
    var pid := b.runIndex[q];
    var p := b.runs[pid];
    if p.commitIds[0] != q {
      var j := IndexOf(p.commitIds, q);
      var child := p.commitIds[j - 1];
      assert db[child].parentIds == [p.commitIds[j]];
      assert ParentOf(db, child, q);
      assert b.runIndex[child] == pid;
      assert pid == rid;
      if j - 1 < |r.commitIds| - 1 {
        ChainDescends(db, rank, r, j - 1, |r.commitIds| - 1);
      }
      assert false;
    }
  }

  /** A sequence of at most one element holding `x` is `[x]`. */
  lemma OnlyElement<T>(s: seq<T>, x: T)
    requires |s| <= 1 && x in s
    ensures s == [x]
  {
  }

  /** Once every commit of a linear history is indexed and the runs are
      settled, each run ends at the history's first commit. */
  lemma SettledRunEndsAtRoot(db: CommitStore, rank: map<Id, int>, b: Builder, rid: Id)
    requires Acyclic(db, rank) && Valid(db, b) && Settled(b) && Linear(db)
    requires b.runIndex.Keys == db.Keys
    requires rid in b.runs
    ensures IsRoot(db, Last(b.runs[rid].commitIds))
  {
    var r := b.runs[rid];
    var last := Last(r.commitIds);
    assert last in db;
    if !IsRoot(db, last) {
      var q := StoredParent(db, last);
      assert r.parentIds == db[last].parentIds;
      OnlyElement(r.parentIds, q);
      assert !Mergeable(b, rid);
      LoneParentHeadsRun(db, rank, b, rid, q);
      assert false;
    }
  }

  /** Two settled runs of a linear history end at the same commit, and a
      commit's run is unique, so they are the same run. */
  lemma SameRoot(db: CommitStore, rank: map<Id, int>, b: Builder, r1: Id, r2: Id)
    requires Acyclic(db, rank) && Valid(db, b) && Settled(b) && Linear(db)
    requires b.runIndex.Keys == db.Keys
    requires r1 in b.runs && r2 in b.runs
    ensures r1 == r2
  {
    SettledRunEndsAtRoot(db, rank, b, r1);
    SettledRunEndsAtRoot(db, rank, b, r2);
    var l1 := Last(b.runs[r1].commitIds);
    var l2 := Last(b.runs[r2].commitIds);
    assert l1 == l2;
    assert b.runIndex[l1] == r1 && b.runIndex[l2] == r2;
  }

  /** Rebuilding a linear history from all its commits leaves a single run,
      and that run holds every commit. */
  lemma LinearHistoryOneRun(db: CommitStore, rank: map<Id, int>, b: Builder)
    requires Acyclic(db, rank) && Valid(db, b) && Settled(b) && Linear(db)
    requires b.runIndex.Keys == db.Keys
    ensures forall r1, r2 :: r1 in b.runs && r2 in b.runs ==> r1 == r2
    ensures forall rid, c :: rid in b.runs && c in db ==> c in b.runs[rid].commitIds
  {
    forall r1, r2 | r1 in b.runs && r2 in b.runs
      ensures r1 == r2
    {
      SameRoot(db, rank, b, r1, r2);
    }
    forall rid, c | rid in b.runs && c in db
      ensures c in b.runs[rid].commitIds
    {
      assert b.runIndex[c] == rid;
    }
  }
}
