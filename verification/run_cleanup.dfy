/** The persisted half of `CommitRunBuilder`: saving the built runs and
    `cleanup`, which merges new runs into the stored ones and deletes runs
    that other runs make redundant. The run collection is a map from run id
    to run. */
module RunCleanup {
  import opened RepoDocs
  import opened CommitRuns
  import opened Sets

  /** Every stored run is non-empty and keyed by its newest commit. */
  ghost predicate Keyed(s: RunStore) {
    forall k :: k in s ==> |s[k].commitIds| > 0 && s[k].commitIds[0] == k
  }

  /** The final loop of `run`: each built run is saved under its id. */
  function SaveRuns(store: RunStore, built: RunStore): (s: RunStore)
    ensures s.Keys == store.Keys + built.Keys
    ensures forall k :: k in built ==> s[k] == built[k]
    ensures forall k :: k in store && k !in built ==> s[k] == store[k]
  {
    store + built
  }

  // ---------------------------------------------------------------------
  // `_all_runs`: the runs touching the builder's commits, closed under
  // "a run holding a parent of a member"

  /** The stored runs holding one of `ids`, or with one of `ids` as parent. */
  function Touching(s: RunStore, ids: seq<Id>): (t: set<Id>)
    ensures t <= s.Keys
    ensures forall k, c :: k in s && c in ids && (c in s[k].commitIds || c in s[k].parentIds) ==> k in t
  {
    set k, c | k in s && c in ids && (c in s[k].commitIds || c in s[k].parentIds) :: k
  }

  /** The stored run `k` holds a parent of the stored run `x`. */
  predicate Feeds(s: RunStore, x: Id, k: Id) {
    x in s && k in s && exists q :: q in s[x].parentIds && q in s[k].commitIds
  }

  /** `t` plus every run holding a parent of a run in `t`. */
  function Grow(s: RunStore, t: set<Id>): (g: set<Id>)
    requires t <= s.Keys
    ensures t <= g <= s.Keys
    ensures forall x, k :: x in t && Feeds(s, x, k) ==> k in g
    ensures forall k :: k in g ==> k in t || exists x :: x in t && Feeds(s, x, k)
  {
    t + set x, k, q | x in t && k in s && q in s[x].parentIds && q in s[k].commitIds :: k
  }

  /** No run outside `t` holds a parent of a run in `t`. */
  ghost predicate Closed(s: RunStore, t: set<Id>) {
    forall x, k :: x in t && Feeds(s, x, k) ==> k in t
  }


  /** The closure of `t` under `Grow`. */
  function Close(s: RunStore, t: set<Id>): (c: set<Id>)
    requires t <= s.Keys
    ensures t <= c <= s.Keys
    ensures Closed(s, c)
    decreases |s.Keys - t|
  {
    var g := Grow(s, t);
    if g == t then t
    else
      SubsetCard(t, g, s.Keys);
      Close(s, g)
  }

  /** The closure is the least closed set containing `t`. */
  lemma {:induction false} CloseLeast(s: RunStore, t: set<Id>, u: set<Id>)
    requires t <= u <= s.Keys && Closed(s, u)
    ensures Close(s, t) <= u
    decreases |s.Keys - t|
  {
    var g := Grow(s, t);
    assert g <= u;
    if g != t {
      SubsetCard(t, g, s.Keys);
      CloseLeast(s, g, u);
    }
  }

  /** The ids of the runs `_all_runs` yields. */
  function AllRuns(s: RunStore, ids: seq<Id>): (a: set<Id>)
    ensures Touching(s, ids) <= a <= s.Keys
    ensures Closed(s, a)
  {
    Close(s, Touching(s, ids))
  }

  /** `AllRuns` adds no run that the closure does not force. */
  lemma AllRunsLeast(s: RunStore, ids: seq<Id>, u: set<Id>)
    requires Touching(s, ids) <= u <= s.Keys && Closed(s, u)
    ensures AllRuns(s, ids) <= u
  {
    CloseLeast(s, Touching(s, ids), u);
  }

  // ---------------------------------------------------------------------
  // The first pass of `cleanup`, as written

  /** The runs `_all_runs` yields, by id. */
  function Gathered(s: RunStore, ids: seq<Id>): (objs: RunStore)
    ensures objs.Keys == AllRuns(s, ids)
    ensures forall k :: k in objs ==> objs[k] == s[k]
  {
    map k | k in AllRuns(s, ids) :: s[k]
  }

  /** The first loop of `cleanup`, visiting the gathered runs in `order`:
      a run whose only parent heads a gathered run absorbs that run (the
      in-memory object grows), is saved, and the absorbed run's document is
      deleted. The absorbed run stays in the in-memory dictionary. Returns
      the dictionary and the store. */
  function Pass1(objs: RunStore, store: RunStore, order: seq<Id>): (res: (RunStore, RunStore))
    requires forall k :: k in order ==> k in objs
    ensures res.0.Keys == objs.Keys
    ensures res.1.Keys <= store.Keys + objs.Keys
    ensures Keyed(objs) && Keyed(store) ==> Keyed(res.0) && Keyed(res.1)
    ensures forall k :: k in res.1 ==> (k in store && res.1[k] == store[k]) || k in objs
    decreases |order|
  {
    if |order| == 0 then (objs, store)
    else
      var rid := order[0];
      var r := objs[rid];
      if |r.parentIds| != 1 || r.parentIds[0] !in objs then Pass1(objs, store, order[1..])
      else
        var p := r.parentIds[0];
        var m := Absorb(r, objs[p]);
        Pass1(objs[rid := m], store[rid := m] - {p}, order[1..])
  }

  // ---------------------------------------------------------------------
  // The second pass of `cleanup`

  /** The stored run `x` holds no commit outside some other stored run. */
  predicate SubsetOfOther(s: RunStore, x: Id) {
    x in s && exists y :: y in s && y != x && forall c :: c in s[x].commitIds ==> c in s[y].commitIds
  }

  /** The stored run `y` holds the head of another stored run. */
  predicate HoldsOtherHead(s: RunStore, y: Id) {
    y in s && exists x :: x in s && x != y && x in s[y].commitIds
  }

  /** `out` keeps some of the runs of `s`, unchanged. */
  predicate SubStore(out: RunStore, s: RunStore) {
    forall k :: k in out ==> k in s && out[k] == s[k]
  }

  /** Only runs that are a subset of another or hold another's head are
      deleted. */
  ghost predicate DeletedForCause(out: RunStore, s: RunStore) {
    forall k :: k in s && k !in out ==> SubsetOfOther(s, k) || HoldsOtherHead(s, k)
  }

  /** For each run `k` in `done` that survives, no other surviving run holds
      its head. */
  ghost predicate HeadsUnshared(out: RunStore, done: set<Id>) {
    forall k, y :: k in done && k in out && y in out && y != k ==> k !in out[y].commitIds
  }

  /** The runs of `out` holding a parent of `r`. */
  function FeedsOf(out: RunStore, r: Run): (f: set<Id>)
    ensures f <= out.Keys
  {
    set y, q | y in out && q in r.parentIds && q in out[y].commitIds :: y
  }

  /** The second loop of `cleanup`: walk the runs again (re-reading the
      store for the runs holding each visited run's parents); a visited
      run that is a subset of another run is deleted, otherwise every other
      run holding its head is deleted. The stack order is left open. */
  method Pass2(store: RunStore, ids: seq<Id>) returns (out: RunStore)
    requires Keyed(store)
    ensures SubStore(out, store)
    ensures DeletedForCause(out, store)
    ensures HeadsUnshared(out, Touching(store, ids))
  {
    out := store;
    var pending := Touching(store, ids);
    ghost var initial := pending;
    var seen: set<Id> := {};
    while pending != {}
      invariant SubStore(out, store) && DeletedForCause(out, store)
      invariant out.Keys <= store.Keys
      invariant pending <= store.Keys && seen <= store.Keys
      invariant initial <= pending + seen
      invariant HeadsUnshared(out, seen)
      decreases |store.Keys - seen|, |pending|
    {
      var x :| x in pending;
      pending := pending - {x};
      if x !in seen {
        SubsetCard(seen, seen + {x}, store.Keys);
        seen := seen + {x};
        var r := store[x];
        if SubsetOfOther(out[x := r], x) {
          DropSubsetStep(store, out, seen, x);
          out := out - {x};
        } else {
          DropHoldersStep(store, out, seen, x);
          out := DropHolders(out, x);
        }
        var feeds := FeedsOf(out, r);
        assert feeds <= store.Keys;
        pending := pending + feeds;
      }
    }
  }

  /** Every run other than `x` holding `x` (the head of run `x`) removed. */
  function DropHolders(out: RunStore, x: Id): (res: RunStore)
    ensures SubStore(res, out)
    ensures x in out ==> x in res
    ensures forall y :: y in res && y != x ==> x !in res[y].commitIds
    ensures forall y :: y in out && y !in res ==> y != x && x in out[y].commitIds
  {
    map y | y in out && (y == x || x !in out[y].commitIds) :: out[y]
  }

  /** Deleting a visited run that is a subset of another keeps the loop
      invariant of `Pass2`. */
  lemma DropSubsetStep(store: RunStore, out: RunStore, seen: set<Id>, x: Id)
    requires SubStore(out, store) && DeletedForCause(out, store) && HeadsUnshared(out, seen - {x})
    requires x in store
    requires SubsetOfOther(out[x := store[x]], x)
    ensures SubStore(out - {x}, store) && DeletedForCause(out - {x}, store)
    ensures HeadsUnshared(out - {x}, seen)
  {
    var o := out[x := store[x]];
    var y :| y in o && y != x && forall c :: c in o[x].commitIds ==> c in o[y].commitIds;
    assert out[y] == store[y];
    assert SubsetOfOther(store, x);
  }

  /** Deleting the other runs holding a visited run's head keeps the loop
      invariant of `Pass2`. */
  lemma DropHoldersStep(store: RunStore, out: RunStore, seen: set<Id>, x: Id)
    requires Keyed(store)
    requires SubStore(out, store) && DeletedForCause(out, store) && HeadsUnshared(out, seen - {x})
    requires x in store
    ensures SubStore(DropHolders(out, x), store) && DeletedForCause(DropHolders(out, x), store)
    ensures HeadsUnshared(DropHolders(out, x), seen)
  {
    var res := DropHolders(out, x);
    forall k | k in store && k !in res
      ensures SubsetOfOther(store, k) || HoldsOtherHead(store, k)
    {
      if k in out {
        assert out[k] == store[k];
      }
    }
  }

  /** The store after the first pass of `cleanup` as written. */
  function AfterPass1(store: RunStore, ids: seq<Id>, order: seq<Id>): (s: RunStore)
    requires forall k :: k in order ==> k in AllRuns(store, ids)
    ensures Keyed(store) ==> Keyed(s)
    ensures forall k :: k in s ==> (k in store && s[k] == store[k]) || k in AllRuns(store, ids)
  {
    Pass1(Gathered(store, ids), store, order).1
  }

  /** `cleanup` as written, with `order` the iteration order of the
      dictionary of gathered runs. */
  method Cleanup(store: RunStore, ids: seq<Id>, order: seq<Id>) returns (out: RunStore)
    requires Keyed(store)
    requires forall k :: k in order <==> k in AllRuns(store, ids)
    ensures SubStore(out, AfterPass1(store, ids, order))
    ensures DeletedForCause(out, AfterPass1(store, ids, order))
    ensures HeadsUnshared(out, Touching(AfterPass1(store, ids, order), ids))
  {
    var store1 := AfterPass1(store, ids, order);
    out := Pass2(store1, ids);
  }

  // ---------------------------------------------------------------------
  // The commit lost by the first pass as written

  /** Three stored one-commit runs a <- b <- c (b is a's parent, c is b's). */
  function ThreeRuns(): RunStore {
    map["a" := Run(["b"], ["a"], [3]), "b" := Run(["c"], ["b"], [2]), "c" := Run([], ["c"], [1])]
  }

  /** Run a after absorbing b, and run b after absorbing c. */
  function RunAB(): Run { Run(["c"], ["a", "b"], [3, 2]) }
  function RunBC(): Run { Run([], ["b", "c"], [2, 1]) }

  /** The runs `_all_runs` gathers for commit b are all three. */
  lemma ExampleGathered()
    ensures AllRuns(ThreeRuns(), ["b"]) == {"a", "b", "c"}
    ensures Gathered(ThreeRuns(), ["b"]) == ThreeRuns()
  {
    var s := ThreeRuns();
    assert "b" in s["a"].parentIds && "b" in s["b"].commitIds;
    assert "a" in Touching(s, ["b"]) && "b" in Touching(s, ["b"]);
    assert "c" in s["b"].parentIds && "c" in s["c"].commitIds;
    assert Feeds(s, "b", "c");
    assert AllRuns(s, ["b"]) == s.Keys;
  }

  /** Visiting c changes nothing: it has no parent. */
  lemma ExampleVisitC(o: RunStore, s: RunStore)
    requires o == ThreeRuns()["a" := RunAB()]["b" := RunBC()]
    ensures Pass1(o, s, ["c"]).1 == s
  {
    assert ["c"][1..] == [];
  }

  /** Visiting b: the in-memory run b absorbs c and is saved again. */
  lemma ExampleVisitB(o: RunStore, s: RunStore)
    requires o == ThreeRuns()["a" := RunAB()]
    requires s == ThreeRuns()["a" := RunAB()] - {"b"}
    ensures Pass1(o, s, ["b", "c"]).1 == map["a" := RunAB(), "b" := RunBC()]
  {
    assert ["b", "c"][1..] == ["c"];
    assert Absorb(o["b"], o["c"]) == RunBC();
    ExampleVisitC(o["b" := RunBC()], s["b" := RunBC()] - {"c"});
    assert s["b" := RunBC()] - {"c"} == map["a" := RunAB(), "b" := RunBC()];
  }

  /** The first pass in the order a, b, c. */
  lemma ExamplePass1()
    ensures AllRuns(ThreeRuns(), ["b"]) == {"a", "b", "c"}
    ensures AfterPass1(ThreeRuns(), ["b"], ["a", "b", "c"]) == map["a" := RunAB(), "b" := RunBC()]
  {
    var s := ThreeRuns();
    ExampleGathered();
    assert ["a", "b", "c"][1..] == ["b", "c"];
    ExampleAbsorbAB();
    ExampleVisitB(s["a" := RunAB()], s["a" := RunAB()] - {"b"});
  }

  /** Run a absorbing run b gives RunAB. */
  lemma ExampleAbsorbAB()
    ensures Absorb(ThreeRuns()["a"], ThreeRuns()["b"]) == RunAB()
  {
    var s := ThreeRuns();
    assert s["a"] == Run(["b"], ["a"], [3]) && s["b"] == Run(["c"], ["b"], [2]);
  }

  /** With the runs visited in the order a, b, c, run a absorbs b, then the
      in-memory run b absorbs c and is saved again although its document was
      just deleted. The second pass must then delete run a, which holds b's
      head, and commit a is in no run any more. */
  method LostCommitExample() returns (out: RunStore)
    ensures "a" in ThreeRuns()["a"].commitIds
    ensures forall k :: k in out ==> "a" !in out[k].commitIds
  {
    ExampleReady();
    out := Cleanup(ThreeRuns(), ["b"], ["a", "b", "c"]);
    ExampleSecondPass(out);
    ExampleLost(out);
  }

  /** Commit a is in neither of run b's commits. */
  lemma ExampleLost(out: RunStore)
    requires out == map["b" := RunBC()]
    ensures forall k :: k in out ==> "a" !in out[k].commitIds
  {
    assert out.Keys == {"b"};
    assert out["b"].commitIds == ["b", "c"];
  }

  /** The three runs are keyed by their heads, and the order a, b, c
      enumerates the gathered runs. */
  lemma ExampleReady()
    ensures Keyed(ThreeRuns())
    ensures forall k :: k in ["a", "b", "c"] <==> k in AllRuns(ThreeRuns(), ["b"])
    ensures AfterPass1(ThreeRuns(), ["b"], ["a", "b", "c"]) == map["a" := RunAB(), "b" := RunBC()]
  {
    ExamplePass1();
    ExampleKeyed();
  }

  lemma ExampleKeyed()
    ensures Keyed(ThreeRuns())
  {
    var s := ThreeRuns();
    assert s.Keys == {"a", "b", "c"};
    assert s["a"].commitIds == ["a"] && s["b"].commitIds == ["b"] && s["c"].commitIds == ["c"];
  }

  /** Run b after the first pass is no subset of run a. */
  lemma ExampleNotSubset()
    ensures !SubsetOfOther(map["a" := RunAB(), "b" := RunBC()], "b")
  {
    var s1 := map["a" := RunAB(), "b" := RunBC()];
    assert s1.Keys == {"a", "b"};
    assert "c" in s1["b"].commitIds && "c" !in s1["a"].commitIds;
  }

  /** Whatever the second pass's order, it keeps run b and so deletes run a,
      which holds b's head. */
  lemma ExampleSecondPass(out: RunStore)
    requires SubStore(out, map["a" := RunAB(), "b" := RunBC()])
    requires DeletedForCause(out, map["a" := RunAB(), "b" := RunBC()])
    requires HeadsUnshared(out, Touching(map["a" := RunAB(), "b" := RunBC()], ["b"]))
    ensures out == map["b" := RunBC()]
  {
    var s1 := map["a" := RunAB(), "b" := RunBC()];
    assert "b" in s1["b"].commitIds;
    assert "b" in Touching(s1, ["b"]);
    ExampleNotSubset();
    assert !HoldsOtherHead(s1, "b") by {
      assert s1.Keys == {"a", "b"};
      assert "a" !in s1["b"].commitIds;
    }
    assert "b" in out;
    assert "b" in s1["a"].commitIds;
    assert "a" !in out;
    assert out.Keys == {"b"};
  }

  // ---------------------------------------------------------------------
  // The corrected first pass

  /** Gathered run `k` can absorb the gathered run headed by its only
      parent. */
  predicate CanAbsorb(objs: RunStore, k: Id) {
    k in objs && |objs[k].parentIds| == 1 && objs[k].parentIds[0] in objs
  }

  /** The commits held by some run. */
  ghost function Commits(s: RunStore): set<Id> {
    set k, c | k in s && c in s[k].commitIds :: c
  }

  /** No commit is held by two runs. */
  ghost predicate Disjoint(s: RunStore) {
    forall k1, k2, c :: k1 in s && k2 in s && c in s[k1].commitIds && c in s[k2].commitIds ==> k1 == k2
  }

  /** Merging run `q` into run `k` keeps the set of held commits and keeps
      disjoint runs disjoint. */
  lemma MergeKeepsCommits(s: RunStore, k: Id, q: Id)
    requires k in s && q in s && k != q
    ensures Commits(s[k := Absorb(s[k], s[q])] - {q}) == Commits(s)
    ensures Disjoint(s) ==> Disjoint(s[k := Absorb(s[k], s[q])] - {q})
  {
    var s' := s[k := Absorb(s[k], s[q])] - {q};
    forall c | c in Commits(s)
      ensures c in Commits(s')
    {
      var j :| j in s && c in s[j].commitIds;
      if j == k || j == q {
        assert c in s'[k].commitIds;
      } else {
        assert s'[j] == s[j];
      }
    }
    forall c | c in Commits(s')
      ensures c in Commits(s)
    {
      var j :| j in s' && c in s'[j].commitIds;
      if j != k {
        assert s'[j] == s[j];
      } else if c in s[k].commitIds {
      } else {
        assert c in s[q].commitIds;
      }
    }
    if Disjoint(s) {
      forall k1, k2, c | k1 in s' && k2 in s' && c in s'[k1].commitIds && c in s'[k2].commitIds
        ensures k1 == k2
      {
        var j1 := if k1 == k && c !in s[k].commitIds then q else k1;
        var j2 := if k2 == k && c !in s[k].commitIds then q else k2;
        assert c in s[j1].commitIds && c in s[j2].commitIds;
      }
    }
  }

  /** One corrected merge step: the absorbed run leaves both the dictionary
      and the store. */
  lemma AbsorbStep(db: CommitStore, rank: map<Id, int>, objs: RunStore, store: RunStore, k: Id)
    requires Acyclic(db, rank) && RunsWellFormed(db, store) && SubStore(objs, store)
    requires CanAbsorb(objs, k)
    ensures objs[k].parentIds[0] != k
    ensures RunsWellFormed(db, store[k := Absorb(objs[k], objs[objs[k].parentIds[0]])] - {objs[k].parentIds[0]})
    ensures SubStore(objs[k := Absorb(objs[k], objs[objs[k].parentIds[0]])] - {objs[k].parentIds[0]},
                     store[k := Absorb(objs[k], objs[objs[k].parentIds[0]])] - {objs[k].parentIds[0]})
    ensures Commits(store[k := Absorb(objs[k], objs[objs[k].parentIds[0]])] - {objs[k].parentIds[0]}) == Commits(store)
    ensures Disjoint(store) ==> Disjoint(store[k := Absorb(objs[k], objs[objs[k].parentIds[0]])] - {objs[k].parentIds[0]})
  {
    var q := objs[k].parentIds[0];
    assert objs[k] == store[k] && objs[q] == store[q];
    RunsAfterMerge(db, rank, store, k, q);
    MergeKeepsCommits(store, k, q);
  }

  /** The first pass as evidently intended: merge until no gathered run can
      absorb another, dropping each absorbed run from the dictionary too. */
  method MergeGathered(db: CommitStore, ghost rank: map<Id, int>, objs: RunStore, store: RunStore)
    returns (objs': RunStore, store': RunStore)
    requires Acyclic(db, rank) && RunsWellFormed(db, store) && SubStore(objs, store)
    ensures RunsWellFormed(db, store') && SubStore(objs', store')
    ensures Commits(store') == Commits(store)
    ensures Disjoint(store) ==> Disjoint(store')
    ensures forall k :: !CanAbsorb(objs', k)
  {
    objs', store' := objs, store;
    while exists k :: k in objs' && CanAbsorb(objs', k)
      invariant RunsWellFormed(db, store') && SubStore(objs', store')
      invariant Commits(store') == Commits(store)
      invariant Disjoint(store) ==> Disjoint(store')
      decreases |objs'.Keys|
    {
      var k :| k in objs' && CanAbsorb(objs', k);
      var q := objs'[k].parentIds[0];
      AbsorbStep(db, rank, objs', store', k);
      UpdateRemoveKeys(objs', k, Absorb(objs'[k], objs'[q]), q);
      var m := Absorb(objs'[k], objs'[q]);
      objs' := objs'[k := m] - {q};
      store' := store'[k := m] - {q};
    }
  }

  /** In disjoint keyed runs no run is a subset of another or holds
      another's head, so the second pass deletes nothing. */
  lemma DisjointNothingToDelete(s: RunStore, out: RunStore)
    requires Keyed(s) && Disjoint(s)
    requires SubStore(out, s) && DeletedForCause(out, s)
    ensures out == s
  {
    forall k | k in s
      ensures !SubsetOfOther(s, k) && !HoldsOtherHead(s, k)
    {
      forall y | y in s && y != k
        ensures k in s[k].commitIds && k !in s[y].commitIds
      {
      }
      forall x | x in s && x != k
        ensures x in s[x].commitIds && x !in s[k].commitIds
      {
      }
    }
  }

  /** `cleanup` with the corrected first pass: on runs that share no
      commit, every commit is still held by a run afterwards. */
  method CleanupFixed(db: CommitStore, ghost rank: map<Id, int>, store: RunStore, ids: seq<Id>)
    returns (out: RunStore)
    requires Acyclic(db, rank) && RunsWellFormed(db, store)
    ensures RunsWellFormed(db, out)
    ensures Disjoint(store) ==> Commits(out) == Commits(store) && Disjoint(out)
  {
    var objs := Gathered(store, ids);
    var objs1, store1 := MergeGathered(db, rank, objs, store);
    out := Pass2(store1, ids);
    if Disjoint(store) {
      DisjointNothingToDelete(store1, out);
    }
  }

  // ---------------------------------------------------------------------
  // Building history one commit at a time, newest first

  /** A parent of a chain lies further back than the chain's head. */
  lemma ParentBelowHead(db: CommitStore, rank: map<Id, int>, r: Run, q: Id)
    requires Acyclic(db, rank) && Chain(db, r)
    requires q in r.parentIds && q in db
    ensures Below(rank, q, r.commitIds[0])
  {
    var n := |r.commitIds|;
    assert ParentOf(db, r.commitIds[n - 1], q);
    if n > 1 {
      ChainDescends(db, rank, r, 0, n - 1);
    }
  }

  /** The stored run `r` (keyed by its head) and the new one-commit run for
      its only parent `c`, as saved before `cleanup`. */
  function WithParentRun(db: CommitStore, r: Run, c: Id): RunStore
    requires |r.commitIds| > 0 && c in db
  {
    map[r.commitIds[0] := r, c := Singleton(db, c)]
  }

  /** The run `r` extended by its parent `c`. */
  function Extended(db: CommitStore, r: Run, c: Id): Run
    requires c in db
  {
    Absorb(r, Singleton(db, c))
  }

  /** Neither `r` extended by `c` nor the run of `c` can absorb anything
      more among the two gathered runs. */
  lemma NoFurtherAbsorb(db: CommitStore, rank: map<Id, int>, r: Run, c: Id)
    requires Acyclic(db, rank) && Chain(db, r) && r.parentIds == [c] && c in db
    ensures c != r.commitIds[0]
    ensures forall q :: q in db[c].parentIds ==> q != c && q != r.commitIds[0]
  {
    ParentBelowHead(db, rank, r, c);
    forall q | q in db[c].parentIds
      ensures q != c && q != r.commitIds[0]
    {
      if q in db {
        assert ParentOf(db, c, q);
      }
    }
  }

  /** Once `r` has absorbed `c`, the first pass changes nothing more. */
  lemma {:induction false} ExtendedPass1Stable(db: CommitStore, rank: map<Id, int>, r: Run, c: Id, order: seq<Id>)
    requires Acyclic(db, rank) && Chain(db, r) && r.parentIds == [c] && c in db
    requires forall k :: k in order ==> k in WithParentRun(db, r, c)
    ensures Pass1(WithParentRun(db, r, c)[r.commitIds[0] := Extended(db, r, c)],
                  map[r.commitIds[0] := Extended(db, r, c)], order).1
            == map[r.commitIds[0] := Extended(db, r, c)]
    decreases |order|
  {
    if |order| > 0 {
      NoFurtherAbsorb(db, rank, r, c);
      var h := r.commitIds[0];
      var objs := WithParentRun(db, r, c)[h := Extended(db, r, c)];
      assert objs.Keys == {h, c};
      assert objs[order[0]].parentIds == db[c].parentIds;
      if |db[c].parentIds| == 1 {
        var q := db[c].parentIds[0];
        assert q in db[c].parentIds;
        assert q !in objs;
      }
      ExtendedPass1Stable(db, rank, r, c, order[1..]);
    }
  }

  /** The first pass over the stored run and its new parent run: as soon as
      the stored run is visited it absorbs the parent's run. */
  lemma {:induction false} IncrementalPass1(db: CommitStore, rank: map<Id, int>, r: Run, c: Id, order: seq<Id>)
    requires Acyclic(db, rank) && Chain(db, r) && r.parentIds == [c] && c in db
    requires forall k :: k in order ==> k in WithParentRun(db, r, c)
    requires r.commitIds[0] in order
    ensures Pass1(WithParentRun(db, r, c), WithParentRun(db, r, c), order).1
            == map[r.commitIds[0] := Extended(db, r, c)]
    decreases |order|
  {
    var s := WithParentRun(db, r, c);
    var h := r.commitIds[0];
    NoFurtherAbsorb(db, rank, r, c);
    assert s.Keys == {h, c} && s[h] == r;
    if order[0] == h {
      assert s[h := Extended(db, r, c)] - {c} == map[h := Extended(db, r, c)];
      ExtendedPass1Stable(db, rank, r, c, order[1..]);
    } else {
      assert s[order[0]].parentIds == db[c].parentIds;
      if |db[c].parentIds| == 1 {
        var q := db[c].parentIds[0];
        assert q in db[c].parentIds;
        assert q !in s;
      }
      IncrementalPass1(db, rank, r, c, order[1..]);
    }
  }

  /** `_all_runs` for the new commit gathers the old run and the new one. */
  lemma IncrementalGathered(db: CommitStore, rank: map<Id, int>, r: Run, c: Id)
    requires Acyclic(db, rank) && Chain(db, r) && r.parentIds == [c] && c in db
    ensures var s := WithParentRun(db, r, c);
      && s.Keys == {r.commitIds[0], c} && AllRuns(s, [c]) == s.Keys && Gathered(s, [c]) == s
  {
    var s := WithParentRun(db, r, c);
    var h := r.commitIds[0];
    NoFurtherAbsorb(db, rank, r, c);
    assert s[h] == r;
    assert c in s[h].parentIds;
    assert h in Touching(s, [c]);
    assert c in s[c].commitIds;
    assert c in Touching(s, [c]);
    assert s.Keys == {h, c};
    assert AllRuns(s, [c]) == s.Keys;
  }

  /** A store of one run loses nothing to the second pass: there is no
      other run to be a subset of or to hold a head of. */
  lemma LoneRunKept(s1: RunStore, h: Id, out: RunStore)
    requires s1.Keys == {h}
    requires SubStore(out, s1) && DeletedForCause(out, s1)
    ensures out == s1
  {
    assert !SubsetOfOther(s1, h);
    assert !HoldsOtherHead(s1, h);
    assert h in out;
    assert out.Keys == {h};
  }

  /** Refreshing a history one commit at a time, newest first: when the
      store holds one run whose only parent is the new commit `c`, building
      the run of `c`, saving it and running `cleanup` (in any dictionary
      order, with any second-pass order) leaves exactly one run, which is
      the old run followed by `c`, still a chain. */
  lemma IncrementalCleanup(db: CommitStore, rank: map<Id, int>, r: Run, c: Id, order: seq<Id>, out: RunStore)
    requires Acyclic(db, rank) && Chain(db, r) && r.parentIds == [c] && c in db
    requires forall k :: k in order <==> k in AllRuns(WithParentRun(db, r, c), [c])
    requires SubStore(out, AfterPass1(WithParentRun(db, r, c), [c], order))
    requires DeletedForCause(out, AfterPass1(WithParentRun(db, r, c), [c], order))
    ensures out == map[r.commitIds[0] := Extended(db, r, c)]
    ensures out[r.commitIds[0]].commitIds == r.commitIds + [c]
    ensures Chain(db, out[r.commitIds[0]])
  {
    var s := WithParentRun(db, r, c);
    var h := r.commitIds[0];
    NoFurtherAbsorb(db, rank, r, c);
    IncrementalGathered(db, rank, r, c);
    assert forall k :: k in order ==> k in s;
    IncrementalPass1(db, rank, r, c, order);
    var s1 := map[h := Extended(db, r, c)];
    assert AfterPass1(s, [c], order) == s1;
    LoneRunKept(s1, h, out);
    AbsorbChain(db, rank, r, Singleton(db, c));
  }
}
