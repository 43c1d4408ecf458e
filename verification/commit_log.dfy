/** `commitlog`: load the runs reachable from the requested commits into a
    parent graph (`_visit`), then walk that graph newest-first, yielding a
    commit only once every loaded child of it has been yielded (`_gen_ids`). */
module CommitLog {
  import opened Wrappers
  import opened RepoDocs
  import opened Sets
  import opened CommitRuns

  // ---------------------------------------------------------------------
  // Loading the graph (`_visit`)

  /** What the run query returns for a commit: the run holding it. */
  type RunLookup = map<Id, Run>

  /** Each looked-up run holds the commit it was found for, has one time
      per commit, and repeats no commit: the shape every stored run has. */
  ghost predicate LookupOk(runOf: RunLookup) {
    forall c :: c in runOf ==>
      c in runOf[c].commitIds && |runOf[c].commitIds| == |runOf[c].commitTimes| &&
      forall i, j :: 0 <= i < j < |runOf[c].commitIds| ==> runOf[c].commitIds[i] != runOf[c].commitIds[j]
  }

  /** Every commit held by a looked-up run. */
  function Universe(runOf: RunLookup): (u: set<Id>)
    ensures forall c, x :: c in runOf && x in runOf[c].commitIds ==> x in u
  {
    set c, x | c in runOf && x in runOf[c].commitIds :: x
  }

  /** The loaded graph: visited commits, their times and their parents. */
  datatype Graph = Graph(seen: set<Id>, times: map<Id, int>, parents: map<Id, seq<Id>>)

  /** The parents `_visit` records for position `i` of run `r`: the next
      commit of the run, or the run's parents for its last commit. */
  function ParentsAt(r: Run, i: nat): seq<Id> {
    if i + 1 < |r.commitIds| then [r.commitIds[i + 1]] else r.parentIds
  }

  /** Loaded commits are exactly those with a time and with parents. */
  ghost predicate GraphOk(g: Graph) {
    g.times.Keys == g.seen && g.parents.Keys == g.seen
  }

  /** The commits of a run from position `pos` on. */
  function From(ids: seq<Id>, pos: nat): set<Id> {
    set i | pos <= i < |ids| :: ids[i]
  }

  lemma FromStep(ids: seq<Id>, pos: nat)
    requires pos < |ids|
    ensures From(ids, pos) == {ids[pos]} + From(ids, pos + 1)
  {
  }

  /** Records positions `pos` onwards of run `r` (a run with one time per
      commit and no repeated commit). */
  function Record(r: Run, pos: nat, g: Graph): (g': Graph)
    requires pos <= |r.commitIds| == |r.commitTimes|
    requires forall i, j :: 0 <= i < j < |r.commitIds| ==> r.commitIds[i] != r.commitIds[j]
    ensures GraphOk(g) ==> GraphOk(g')
    ensures g'.seen == g.seen + From(r.commitIds, pos)
    ensures g'.parents.Keys == g.parents.Keys + From(r.commitIds, pos)
    ensures forall i :: pos <= i < |r.commitIds| ==>
      r.commitIds[i] in g'.times && r.commitIds[i] in g'.parents &&
      g'.times[r.commitIds[i]] == r.commitTimes[i] && g'.parents[r.commitIds[i]] == ParentsAt(r, i)
    ensures forall x :: x in g.times && x !in From(r.commitIds, pos) ==> x in g'.times && g'.times[x] == g.times[x]
    ensures forall x :: x in g.parents && x !in From(r.commitIds, pos) ==> x in g'.parents && g'.parents[x] == g.parents[x]
    decreases |r.commitIds| - pos
  {
    if pos == |r.commitIds| then g
    else
      var oid := r.commitIds[pos];
      var g1 := Graph(g.seen + {oid}, g.times[oid := r.commitTimes[pos]], g.parents[oid := ParentsAt(r, pos)]);
      assert g1.times.Keys == g.times.Keys + {oid} && g1.parents.Keys == g.parents.Keys + {oid};
      FromStep(r.commitIds, pos);
      Record(r, pos + 1, g1)
  }

  /** The first position of `x` in `s`. */
  function FirstIndex(s: seq<Id>, x: Id): (i: nat)
    requires x in s
    ensures i < |s| && s[i] == x && x !in s[..i]
  {
    if s[0] == x then 0 else 1 + FirstIndex(s[1..], x)
  }

  /** `_visit(c)`: unless `c` was seen or no run holds it, record its run
      from `c` onwards, then visit the run's parents in order. */
  function Visit(runOf: RunLookup, c: Id, g: Graph): (g': Graph)
    requires LookupOk(runOf) && g.seen <= Universe(runOf)
    ensures g.seen <= g'.seen <= Universe(runOf)
    ensures GraphOk(g) ==> GraphOk(g')
    ensures c in runOf ==> c in g'.seen
    decreases |Universe(runOf) - g.seen|, 0, 0
  {
    if c in g.seen || c !in runOf then g
    else
      var r := runOf[c];
      var g1 := Record(r, FirstIndex(r.commitIds, c), g);
      assert c in g1.seen;
      SubsetCard(g.seen, g1.seen, Universe(runOf));
      VisitAll(runOf, r.parentIds, g1)
  }

  /** `_visit` of each id in turn. */
  function VisitAll(runOf: RunLookup, cs: seq<Id>, g: Graph): (g': Graph)
    requires LookupOk(runOf) && g.seen <= Universe(runOf)
    ensures g.seen <= g'.seen <= Universe(runOf)
    ensures GraphOk(g) ==> GraphOk(g')
    ensures forall c :: c in cs && c in runOf ==> c in g'.seen
    decreases |Universe(runOf) - g.seen|, |cs|, 1
  {
    if |cs| == 0 then g
    else
      var g1 := Visit(runOf, cs[0], g);
      SubsetCardLe(g.seen, g1.seen, Universe(runOf));
      var g' := VisitAll(runOf, cs[1..], g1);
      assert forall c :: c in cs ==> c == cs[0] || c in cs[1..];
      g'
  }

  /** `commitlog`'s graph: `_visit` of each requested id, from an empty graph. */
  function LoadGraph(runOf: RunLookup, starts: seq<Id>): (g: Graph)
    requires LookupOk(runOf)
    ensures GraphOk(g) && g.seen <= Universe(runOf)
    ensures forall c :: c in starts && c in runOf ==> c in g.seen
  {
    VisitAll(runOf, starts, Graph({}, map[], map[]))
  }

  // ---------------------------------------------------------------------
  // Walking the graph (`_gen_ids`)

  type Parents = map<Id, seq<Id>>

  /** The loaded commits recording `x` among their parents. */
  function ChildrenIn(parents: Parents, x: Id): set<Id> {
    set o | o in parents && x in parents[o]
  }

  /** Every id recorded as a parent. */
  function ParentIds(parents: Parents): set<Id> {
    set o, p | o in parents && p in parents[o] :: p
  }

  /** `ci_children`, built from `ci_parents`. */
  function InitChildren(parents: Parents): (ch: map<Id, set<Id>>)
    ensures forall x :: x in ch ==> ch[x] == ChildrenIn(parents, x)
    ensures forall x :: x !in ch ==> ChildrenIn(parents, x) == {}
  {
    map p | p in ParentIds(parents) :: ChildrenIn(parents, p)
  }

  /** The state of the walk. */
  datatype GenState = GenState(
    commits: set<Id>,          // the ready set
    newParent: Option<Id>,     // the parent released last
    skip: nat,
    limit: nat,
    children: map<Id, set<Id>>, // children not yet yielded, by parent
    out: seq<Id>)              // ids yielded so far

  /** A `defaultdict(set)` read. */
  function Get(children: map<Id, set<Id>>, x: Id): set<Id> {
    if x in children then children[x] else {}
  }

  /** The parents in `ps` left with no children once `ci` is gone. */
  function Freed(ci: Id, ps: seq<Id>, children: map<Id, set<Id>>): set<Id> {
    set p | p in ps && Get(children, p) - {ci} == {}
  }

  /** Forgetting `ci` under the first parent frees it or not, and the
      rest are freed as before. */
  lemma FreedStep(ci: Id, ps: seq<Id>, children: map<Id, set<Id>>)
    requires |ps| > 0
    ensures var p := ps[0];
      var ch := Get(children, p) - {ci};
      Freed(ci, ps, children) == (if ch == {} then {p} else {}) + Freed(ci, ps[1..], children[p := ch])
  {
    var p := ps[0];
    var ch := Get(children, p) - {ci};
    assert forall x :: x in ps <==> x == p || x in ps[1..];
    assert forall x :: Get(children[p := ch], x) - {ci} == Get(children, x) - {ci};
  }

  /** After `ci` is yielded, each parent `p` of it forgets `ci` as a child;
      a parent left with no children joins the ready set and becomes the
      newest released parent. */
  function Release(ci: Id, ps: seq<Id>, children: map<Id, set<Id>>, commits: set<Id>, np: Option<Id>)
    : (res: (map<Id, set<Id>>, set<Id>, Option<Id>))
    ensures res.0.Keys == children.Keys + set p | p in ps
    ensures forall x :: x in res.0 ==> res.0[x] == if x in ps then Get(children, x) - {ci} else children[x]
    ensures res.1 == commits + Freed(ci, ps, children)
    ensures res.2 == np || (res.2.Some? && res.2.value in ps && res.2.value in res.1)
    decreases |ps|
  {
    if |ps| == 0 then (children, commits, np)
    else
      var p := ps[0];
      var ch := Get(children, p) - {ci};
      var res := if ch == {} then Release(ci, ps[1..], children[p := ch], commits + {p}, Some(p))
                 else Release(ci, ps[1..], children[p := ch], commits, np);
      FreedStep(ci, ps, children);
      assert forall x :: x in ps <==> x == p || x in ps[1..];
      assert Get(children[p := ch], p) - {ci} == ch;
      assert forall x | x != p :: Get(children[p := ch], x) == Get(children, x);
      res
  }

  /** The pick `_gen_ids` makes: the just-released parent when it is ready,
      otherwise a ready commit with the latest time. */
  predicate PickRule(st: GenState, times: map<Id, int>, ci: Id) {
    ci in st.commits &&
    if st.newParent.Some? && st.newParent.value in st.commits then ci == st.newParent.value
    else ci in times && forall x :: x in st.commits ==> x in times && times[x] <= times[ci]
  }

  /** One iteration of `_gen_ids` as written: the pick leaves the ready set;
      while `skip` lasts it is dropped and nothing else happens, otherwise
      it is yielded and releases its parents. */
  function Step(st: GenState, parents: Parents, ci: Id): (st': GenState)
    requires st.limit > 0 && ci in st.commits
    ensures st'.out == if st.skip > 0 then st.out else st.out + [ci]
    ensures st'.skip + st'.limit == st.skip + st.limit - 1
  {
    var commits := st.commits - {ci};
    if st.skip > 0 then st.(commits := commits, skip := st.skip - 1)
    else
      var ps := if ci in parents then parents[ci] else [];
      var res := Release(ci, ps, st.children, commits, None);
      GenState(res.1, res.2, 0, st.limit - 1, res.0, st.out + [ci])
  }

  predicate Distinct(s: seq<Id>) {
    forall i, j :: 0 <= i < j < |s| ==> s[i] != s[j]
  }

  /** Every loaded child of a listed commit is listed before it. */
  ghost predicate ChildrenFirst(parents: Parents, s: seq<Id>) {
    forall i, o :: 0 <= i < |s| && o in ChildrenIn(parents, s[i]) ==> o in s[..i]
  }

  /** No requested commit is recorded as the parent of a loaded commit:
      true of a single requested commit in an acyclic history. */
  ghost predicate StartsChildless(parents: Parents, starts: seq<Id>) {
    forall s :: s in starts ==> ChildrenIn(parents, s) == {}
  }

  /** The walk's invariant, given the picked-and-removed commits `removed`
      and those whose parents were released, `released`. */
  ghost predicate Inv(parents: Parents, st: GenState, removed: set<Id>, released: set<Id>) {
    st.commits !! removed &&
    released <= removed &&
    (forall x :: x in st.children ==> st.children[x] == ChildrenIn(parents, x) - released) &&
    (forall x :: x !in st.children ==> ChildrenIn(parents, x) <= released) &&
    (forall x :: x in st.commits ==> ChildrenIn(parents, x) <= released) &&
    (forall x :: x in removed ==> ChildrenIn(parents, x) <= released)
  }

  /** Releasing the parents of a ready commit `ci` keeps the invariant, and
      no released parent was removed before. */
  lemma ReleaseKeepsInv(parents: Parents, st: GenState, removed: set<Id>, released: set<Id>, ci: Id)
    requires Inv(parents, st, removed, released) && ci in st.commits
    ensures var ps := if ci in parents then parents[ci] else [];
            var res := Release(ci, ps, st.children, st.commits - {ci}, None);
            Inv(parents, GenState(res.1, res.2, st.skip, st.limit, res.0, st.out), removed + {ci}, released + {ci})
  {
    var ps := if ci in parents then parents[ci] else [];
    var res := Release(ci, ps, st.children, st.commits - {ci}, None);
    var D := released + {ci};
    assert ci !in released;
    forall x | x in res.0
      ensures res.0[x] == ChildrenIn(parents, x) - D
    {
      if x in ps {
        assert ci in ChildrenIn(parents, x);
      }
    }
    forall p | p in res.1 && p !in st.commits
      ensures p !in removed + {ci} && ChildrenIn(parents, p) <= D
    {
      assert p in ps && Get(st.children, p) - {ci} == {};
      assert ci in ChildrenIn(parents, p);
    }
  }

  /** The loop invariant is kept by each iteration as written. */
  lemma StepKeepsInv(parents: Parents, st: GenState, removed: set<Id>, released: set<Id>, ci: Id)
    requires Inv(parents, st, removed, released) && st.limit > 0 && ci in st.commits
    ensures Inv(parents, Step(st, parents, ci), removed + {ci}, if st.skip > 0 then released else released + {ci})
  {
    if st.skip == 0 {
      ReleaseKeepsInv(parents, st, removed, released, ci);
    }
  }

  /** Yielding a ready commit keeps the yielded ids distinct and each after
      its loaded children. */
  lemma YieldKeepsOrder(parents: Parents, st: GenState, removed: set<Id>, released: set<Id>, ci: Id)
    requires Inv(parents, st, removed, released) && ci in st.commits
    requires forall x :: x in st.out <==> x in released
    requires Distinct(st.out) && ChildrenFirst(parents, st.out)
    ensures Distinct(st.out + [ci]) && ChildrenFirst(parents, st.out + [ci])
  {
    var out := st.out + [ci];
    forall i, o | 0 <= i < |out| && o in ChildrenIn(parents, out[i])
      ensures o in out[..i]
    {
      if i < |st.out| {
        assert out[..i] == st.out[..i];
      } else {
        assert out[..i] == st.out;
      }
    }
  }

  /** A finite non-empty set of timed commits has a latest one. */
  lemma Latest(commits: set<Id>, times: map<Id, int>) returns (ci: Id)
    requires commits != {} && forall x :: x in commits ==> x in times
    ensures ci in commits && forall x :: x in commits ==> times[x] <= times[ci]
    decreases |commits|
  {
    var y :| y in commits;
    if commits == {y} {
      ci := y;
    } else {
      var c' := Latest(commits - {y}, times);
      ci := if times[y] <= times[c'] then c' else y;
    }
  }

  /** The next pick of `_gen_ids`, or `None` for the `KeyError` of a
      latest-time pick over a ready commit without a time. */
  method PickNext(st: GenState, times: map<Id, int>) returns (pick: Option<Id>)
    requires st.commits != {}
    ensures pick.Some? ==> PickRule(st, times, pick.value)
    ensures pick.None? <==> (!(st.newParent.Some? && st.newParent.value in st.commits) &&
                             exists x :: x in st.commits && x !in times)
  {
    if st.newParent.Some? && st.newParent.value in st.commits {
      pick := st.newParent;
    } else if x :| x in st.commits && x !in times {
      pick := None;
    } else {
      ghost var latest := Latest(st.commits, times);
      var ci :| ci in st.commits && forall x :: x in st.commits ==> times[x] <= times[ci];
      pick := Some(ci);
    }
  }

  /** The state `_gen_ids` starts from. */
  function Start(parents: Parents, starts: seq<Id>, skip: nat, limit: nat): GenState {
    GenState((set s | s in starts), None, skip, limit, InitChildren(parents), [])
  }

  /** One iteration, as written (`fixed` false) or with the fix below. */
  function Next(fixed: bool, st: GenState, parents: Parents, ci: Id): GenState
    requires st.limit > 0 && ci in st.commits
  {
    if fixed then StepFixed(st, parents, ci) else Step(st, parents, ci)
  }

  /** `states` is a run of the walk: each pick follows the pick rule in the
      state before it, and the next state is that iteration's result. */
  ghost predicate Trace(fixed: bool, parents: Parents, times: map<Id, int>, states: seq<GenState>, picks: seq<Id>) {
    |states| == |picks| + 1 &&
    forall i | 0 <= i < |picks| ::
      states[i].limit > 0 && PickRule(states[i], times, picks[i]) &&
      states[i + 1] == Next(fixed, states[i], parents, picks[i])
  }

  /** A run extended by one more pick made by the rule. */
  lemma TraceSnoc(fixed: bool, parents: Parents, times: map<Id, int>, states: seq<GenState>, picks: seq<Id>, ci: Id)
    requires Trace(fixed, parents, times, states, picks)
    requires states[|picks|].limit > 0 && PickRule(states[|picks|], times, ci)
    ensures Trace(fixed, parents, times, states + [Next(fixed, states[|picks|], parents, ci)], picks + [ci])
  {
    var states', picks' := states + [Next(fixed, states[|picks|], parents, ci)], picks + [ci];
    forall i | 0 <= i < |picks'|
      ensures states'[i].limit > 0 && PickRule(states'[i], times, picks'[i])
      ensures states'[i + 1] == Next(fixed, states'[i], parents, picks'[i])
    {
      assert states'[i] == states[i];
      if i < |picks| {
        assert picks'[i] == picks[i] && states'[i + 1] == states[i + 1];
      }
    }
  }

  /** Every requested commit is ready or done, and so is every parent of a
      done commit once all its loaded children are done. */
  ghost predicate Pending(parents: Parents, starts: seq<Id>, commits: set<Id>, done: set<Id>) {
    && (forall s | s in starts :: s in commits || s in done)
    && (forall c, p | c in done && c in parents && p in parents[c] && ChildrenIn(parents, p) <= done ::
          p in commits || p in done)
  }

  /** The walk reached everything it could: every requested commit was
      picked, and so was every parent of a picked commit all of whose
      loaded children were picked. */
  ghost predicate Complete(parents: Parents, starts: seq<Id>, picks: seq<Id>) {
    Pending(parents, starts, {}, set x | x in picks)
  }

  /** Releasing the parents of a ready commit keeps every pending commit
      ready or done. */
  lemma PendingStep(parents: Parents, starts: seq<Id>, st: GenState, done: set<Id>, ci: Id)
    requires Inv(parents, st, done, done) && Pending(parents, starts, st.commits, done) && ci in st.commits
    ensures var ps := if ci in parents then parents[ci] else [];
            var res := Release(ci, ps, st.children, st.commits - {ci}, None);
            Pending(parents, starts, res.1, done + {ci})
  {
    var ps := if ci in parents then parents[ci] else [];
    var res := Release(ci, ps, st.children, st.commits - {ci}, None);
    var done' := done + {ci};
    forall c, p | c in done' && c in parents && p in parents[c] && ChildrenIn(parents, p) <= done'
      ensures p in res.1 || p in done'
    {
      if !(ChildrenIn(parents, p) <= done && c != ci) {
        assert c == ci || exists o :: o in ChildrenIn(parents, p) && o !in done;
        assert p in ps;
        assert Get(st.children, p) - {ci} == {};
      }
    }
  }

  /** The set of the listed ids. */
  function SetOf(s: seq<Id>): set<Id> {
    set x | x in s
  }

  /** What holds of every run of the walk: it is a trace from the start
      state, the yielded ids are the picks after the first `skip`, each
      yield used up one unit of `limit`, and every ready commit was
      requested or is a recorded parent. */
  ghost predicate WalkRun(fixed: bool, parents: Parents, times: map<Id, int>, starts: seq<Id>, skip: nat, limit: nat,
                      states: seq<GenState>, picks: seq<Id>) {
    Trace(fixed, parents, times, states, picks) && states[0] == Start(parents, starts, skip, limit) &&
    var st := states[|picks|];
    && |st.out| + st.limit == limit
    && (if |picks| <= skip then st.skip == skip - |picks| && st.out == [] else st.skip == 0 && st.out == picks[skip..])
    && forall x :: x in st.commits ==> x in starts || x in ParentIds(parents)
  }

  /** One more pick by the rule extends a run. */
  lemma RunStep(fixed: bool, parents: Parents, times: map<Id, int>, starts: seq<Id>, skip: nat, limit: nat,
                states: seq<GenState>, picks: seq<Id>, ci: Id)
    requires WalkRun(fixed, parents, times, starts, skip, limit, states, picks)
    requires states[|picks|].limit > 0 && PickRule(states[|picks|], times, ci)
    ensures WalkRun(fixed, parents, times, starts, skip, limit,
                states + [Next(fixed, states[|picks|], parents, ci)], picks + [ci])
  {
    var st := states[|picks|];
    TraceSnoc(fixed, parents, times, states, picks, ci);
    if |picks| >= skip {
      assert (picks + [ci])[skip..] == picks[skip..] + [ci];
    }
    var ps := if ci in parents then parents[ci] else [];
    assert forall p :: p in ps ==> p in ParentIds(parents);
  }

  /** What the walk as written keeps when no requested commit is a loaded
      commit's parent: the invariant, the yielded ids distinct and after
      their loaded children, and without skip every pending commit ready
      or yielded. */
  ghost predicate Ordered(parents: Parents, starts: seq<Id>, skip: nat, st: GenState, removed: set<Id>, released: set<Id>) {
    && Inv(parents, st, removed, released)
    && (forall x :: x in st.out <==> x in released) && Distinct(st.out) && ChildrenFirst(parents, st.out)
    && (skip == 0 ==> released == removed && st.skip == 0 && Pending(parents, starts, st.commits, released))
  }

  /** One iteration as written keeps `Ordered`. */
  lemma OrderedStep(parents: Parents, starts: seq<Id>, skip: nat, st: GenState, removed: set<Id>, released: set<Id>, ci: Id)
    requires Ordered(parents, starts, skip, st, removed, released) && st.limit > 0 && ci in st.commits
    ensures Ordered(parents, starts, skip, Step(st, parents, ci), removed + {ci},
                    if st.skip > 0 then released else released + {ci})
  {
    StepKeepsInv(parents, st, removed, released, ci);
    if st.skip == 0 {
      YieldKeepsOrder(parents, st, removed, released, ci);
    }
    if skip == 0 {
      PendingStep(parents, starts, st, released, ci);
    }
  }

  /** What the fixed walk keeps when no requested commit is a loaded
      commit's parent: every pick releases its parents, the picks are
      distinct and after their loaded children, and every pending commit is
      ready or picked. */
  ghost predicate OrderedFixed(parents: Parents, starts: seq<Id>, st: GenState, picks: seq<Id>, removed: set<Id>) {
    && Inv(parents, st, removed, removed)
    && (forall x :: x in picks <==> x in removed) && Distinct(picks) && ChildrenFirst(parents, picks)
    && Pending(parents, starts, st.commits, removed)
  }

  /** One fixed iteration keeps `OrderedFixed`. */
  lemma OrderedFixedStep(parents: Parents, starts: seq<Id>, st: GenState, picks: seq<Id>, removed: set<Id>, ci: Id)
    requires OrderedFixed(parents, starts, st, picks, removed) && st.limit > 0 && ci in st.commits
    ensures OrderedFixed(parents, starts, StepFixed(st, parents, ci), picks + [ci], removed + {ci})
  {
    ReleaseKeepsInv(parents, st, removed, removed, ci);
    YieldKeepsOrder(parents, st.(out := picks), removed, removed, ci);
    PendingStep(parents, starts, st, removed, ci);
  }

  /** `_gen_ids`: walk from the requested commits until the ready set is
      empty or `limit` ids were yielded. `failed` is the `KeyError` the
      latest-time pick raises on a ready commit that no run holds; `out` is
      what was yielded before it. `states` and `picks` are the run of the
      walk: every pick made by the pick rule, including the first `skip`
      ones, which are not yielded. When no requested commit is a loaded
      commit's parent, each id is yielded at most once and after every
      loaded child of it, and a walk without skip that stops short of
      `limit` has yielded everything it can reach. */
  method GenIds(parents: Parents, times: map<Id, int>, starts: seq<Id>, skip: nat, limit: nat)
    returns (out: seq<Id>, failed: bool, ghost states: seq<GenState>, ghost picks: seq<Id>)
    ensures Trace(false, parents, times, states, picks) && states[0] == Start(parents, starts, skip, limit)
    ensures out == states[|picks|].out && |out| <= limit
    ensures out == if |picks| <= skip then [] else picks[skip..]
    ensures !failed ==> states[|picks|].commits == {} || states[|picks|].limit == 0
    ensures failed ==> states[|picks|].commits != {} && forall ci :: !PickRule(states[|picks|], times, ci)
    ensures StartsChildless(parents, starts) ==> Distinct(out) && ChildrenFirst(parents, out)
    ensures StartsChildless(parents, starts) && skip == 0 && !failed && |out| < limit ==> Complete(parents, starts, out)
    ensures failed ==> exists x :: x !in times && (x in starts || x in ParentIds(parents))
  {
    var st := Start(parents, starts, skip, limit);
    ghost var ok := StartsChildless(parents, starts);
    ghost var removed: set<Id> := {};
    ghost var released: set<Id> := {};
    states, picks := [st], [];
    failed := false;
    while st.commits != {} && st.limit > 0
      invariant WalkRun(false, parents, times, starts, skip, limit, states, picks) && st == states[|picks|]
      invariant ok ==> Ordered(parents, starts, skip, st, removed, released)
      decreases st.skip + st.limit
    {
      var pick := PickNext(st, times);
      if pick.None? {
        failed := true;
        break;
      }
      var ci := pick.value;
      if ok {
        OrderedStep(parents, starts, skip, st, removed, released, ci);
      }
      RunStep(false, parents, times, starts, skip, limit, states, picks, ci);
      released := if st.skip > 0 then released else released + {ci};
      removed := removed + {ci};
      st := Step(st, parents, ci);
      states, picks := states + [st], picks + [ci];
    }
    out := st.out;
    if ok && skip == 0 && !failed && |out| < limit {
      assert SetOf(out) == released;
    }
  }

  /** `commitlog` as written: load the graph, then walk it. */
  method CommitLogIds(runOf: RunLookup, starts: seq<Id>, skip: nat, limit: nat)
    returns (out: seq<Id>, failed: bool, ghost states: seq<GenState>, ghost picks: seq<Id>)
    requires LookupOk(runOf)
    ensures var g := LoadGraph(runOf, starts);
      && Trace(false, g.parents, g.times, states, picks) && states[0] == Start(g.parents, starts, skip, limit)
      && out == states[|picks|].out && |out| <= limit
      && out == (if |picks| <= skip then [] else picks[skip..])
      && (!failed ==> states[|picks|].commits == {} || states[|picks|].limit == 0)
      && (StartsChildless(g.parents, starts) ==> Distinct(out) && ChildrenFirst(g.parents, out))
      && (StartsChildless(g.parents, starts) && skip == 0 && !failed && |out| < limit ==> Complete(g.parents, starts, out))
    ensures failed ==> exists x :: x !in LoadGraph(runOf, starts).seen
  {
    var g := LoadGraph(runOf, starts);
    out, failed, states, picks := GenIds(g.parents, g.times, starts, skip, limit);
  }

  // ---------------------------------------------------------------------
  // Skipped commits never release their parents

  /** A skipped pick changes nothing but the ready set and the count: its
      parents keep it as a child, so they can never become ready through
      it. */
  lemma SkipKeepsChildren(st: GenState, parents: Parents, ci: Id)
    requires st.limit > 0 && ci in st.commits && st.skip > 0
    ensures Step(st, parents, ci).children == st.children
    ensures Step(st, parents, ci).commits == st.commits - {ci}
  {
  }

  /** The history c <- b <- a (a newest). */
  function ChainParents(): Parents {
    map["a" := ["b"], "b" := ["c"], "c" := []]
  }

  function ChainTimes(): map<Id, int> {
    map["a" := 3, "b" := 2, "c" := 1]
  }

  /** The walk from a, skipping `skip` picks. */
  function ChainStart(skip: nat): GenState {
    GenState({"a"}, None, skip, 10, map["b" := {"a"}, "c" := {"b"}], [])
  }

  /** The children table of the chain. */
  lemma ChainChildren()
    ensures InitChildren(ChainParents()) == ChainStart(0).children
  {
    var p := ChainParents();
    assert ParentIds(p) == {"b", "c"} by {
      assert "b" in p["a"] && "c" in p["b"];
    }
    assert ChildrenIn(p, "b") == {"a"} && ChildrenIn(p, "c") == {"b"};
  }

  /** As written, skipping one commit of c <- b <- a from a yields nothing:
      a is the only ready commit, skipping it empties the ready set, and
      the walk stops although b and c were never reached. */
  lemma SkipOneYieldsNothing()
    ensures forall ci :: PickRule(ChainStart(1), ChainTimes(), ci) ==> ci == "a"
    ensures Step(ChainStart(1), ChainParents(), "a").commits == {}
    ensures Step(ChainStart(1), ChainParents(), "a").out == []
  {
  }

  /** One iteration as evidently intended: a skipped pick still releases
      its parents; it is only not yielded. */
  function StepFixed(st: GenState, parents: Parents, ci: Id): (st': GenState)
    requires st.limit > 0 && ci in st.commits
    ensures st'.out == if st.skip > 0 then st.out else st.out + [ci]
    ensures st'.skip + st'.limit == st.skip + st.limit - 1
    ensures st'.commits == Step(st.(skip := 0), parents, ci).commits
    ensures st'.children == Step(st.(skip := 0), parents, ci).children
    ensures st'.newParent == Step(st.(skip := 0), parents, ci).newParent
  {
    var ps := if ci in parents then parents[ci] else [];
    var res := Release(ci, ps, st.children, st.commits - {ci}, None);
    if st.skip > 0 then GenState(res.1, res.2, st.skip - 1, st.limit, res.0, st.out)
    else GenState(res.1, res.2, 0, st.limit - 1, res.0, st.out + [ci])
  }

  /** With the fix, skipping one commit of c <- b <- a from a yields b
      then c. */
  lemma SkipOneFixed()
    ensures var s1 := StepFixed(ChainStart(1), ChainParents(), "a");
            s1.commits == {"b"} && s1.newParent == Some("b") &&
            var s2 := StepFixed(s1, ChainParents(), "b");
            s2.commits == {"c"} && s2.newParent == Some("c") &&
            var s3 := StepFixed(s2, ChainParents(), "c");
            s3.commits == {} && s3.out == ["b", "c"]
  {
    FixedFirst();
    FixedSecond();
    FixedThird();
  }

  /** The states of the fixed walk over c <- b <- a after skipping a. */
  function ChainAfter(n: nat): GenState {
    if n == 1 then GenState({"b"}, Some("b"), 0, 10, map["b" := {}, "c" := {"b"}], [])
    else if n == 2 then GenState({"c"}, Some("c"), 0, 9, map["b" := {}, "c" := {}], ["b"])
    else GenState({}, None, 0, 8, map["b" := {}, "c" := {}], ["b", "c"])
  }

  /** Skipping a still releases b. */
  lemma FixedFirst()
    ensures StepFixed(ChainStart(1), ChainParents(), "a") == ChainAfter(1)
  {
    var p := ChainParents();
    assert p["a"] == ["b"];
    assert ({"a"} - {"a"}) + {"b"} == {"b"};
  }

  /** Yielding b releases c. */
  lemma FixedSecond()
    ensures StepFixed(ChainAfter(1), ChainParents(), "b") == ChainAfter(2)
  {
    var p := ChainParents();
    assert p["b"] == ["c"];
    assert ({"b"} - {"b"}) + {"c"} == {"c"};
  }

  /** Yielding c, which has no parents, empties the ready set. */
  lemma FixedThird()
    ensures StepFixed(ChainAfter(2), ChainParents(), "c") == ChainAfter(3)
  {
    var p := ChainParents();
    assert p["c"] == [];
  }

  /** `_gen_ids` with the fix: `states` and `picks` are the run of the
      walk, `out` is `picks` without its first `skip` entries, which is
      what `log_iter` would yield from the unskipped walk, and the picks
      are distinct and each after its loaded children when no requested
      commit is a loaded commit's parent. A walk that stops short of its
      budget has picked everything it can reach, whatever `skip` is. */
  method GenIdsFixed(parents: Parents, times: map<Id, int>, starts: seq<Id>, skip: nat, limit: nat)
    returns (out: seq<Id>, failed: bool, ghost states: seq<GenState>, ghost picks: seq<Id>)
    ensures Trace(true, parents, times, states, picks) && states[0] == Start(parents, starts, skip, limit)
    ensures out == states[|picks|].out && |out| <= limit
    ensures out == if |picks| <= skip then [] else picks[skip..]
    ensures out == LogIter(picks, skip, limit)
    ensures !failed ==> states[|picks|].commits == {} || states[|picks|].limit == 0
    ensures failed ==> states[|picks|].commits != {} && forall ci :: !PickRule(states[|picks|], times, ci)
    ensures StartsChildless(parents, starts) ==> Distinct(picks) && ChildrenFirst(parents, picks) && Distinct(out)
    ensures StartsChildless(parents, starts) && !failed && |out| < limit ==> Complete(parents, starts, picks)
  {
    var st := Start(parents, starts, skip, limit);
    ghost var ok := StartsChildless(parents, starts);
    ghost var removed: set<Id> := {};
    states, picks := [st], [];
    failed := false;
    while st.commits != {} && st.limit > 0
      invariant WalkRun(true, parents, times, starts, skip, limit, states, picks) && st == states[|picks|]
      invariant ok ==> OrderedFixed(parents, starts, st, picks, removed)
      decreases st.skip + st.limit
    {
      var pick := PickNext(st, times);
      if pick.None? {
        failed := true;
        break;
      }
      var ci := pick.value;
      if ok {
        OrderedFixedStep(parents, starts, st, picks, removed, ci);
      }
      RunStep(true, parents, times, starts, skip, limit, states, picks, ci);
      removed := removed + {ci};
      st := StepFixed(st, parents, ci);
      states, picks := states + [st], picks + [ci];
    }
    out := st.out;
    GenFixedDone(parents, times, starts, skip, limit, states, picks, failed, removed);
  }

  /** What the fixed walk has done once its loop ends. */
  lemma GenFixedDone(parents: Parents, times: map<Id, int>, starts: seq<Id>, skip: nat, limit: nat,
                     states: seq<GenState>, picks: seq<Id>, failed: bool, removed: set<Id>)
    requires WalkRun(true, parents, times, starts, skip, limit, states, picks)
    requires StartsChildless(parents, starts) ==> OrderedFixed(parents, starts, states[|picks|], picks, removed)
    requires failed ==> states[|picks|].commits != {} && forall ci :: !PickRule(states[|picks|], times, ci)
    requires !failed ==> states[|picks|].commits == {} || states[|picks|].limit == 0
    ensures var out := states[|picks|].out;
      && Trace(true, parents, times, states, picks) && states[0] == Start(parents, starts, skip, limit)
      && |out| <= limit
      && out == (if |picks| <= skip then [] else picks[skip..])
      && out == LogIter(picks, skip, limit)
      && (StartsChildless(parents, starts) ==> Distinct(picks) && ChildrenFirst(parents, picks) && Distinct(out))
      && (StartsChildless(parents, starts) && !failed && |out| < limit ==> Complete(parents, starts, picks))
  {
    var out := states[|picks|].out;
    if StartsChildless(parents, starts) && |picks| > skip {
      DistinctSuffix(picks, skip);
    }
    if StartsChildless(parents, starts) && !failed && |out| < limit {
      assert SetOf(picks) == removed;
    }
    LogIterSlice(picks, skip, limit);
  }

  lemma DistinctSuffix(s: seq<Id>, k: nat)
    requires Distinct(s) && k <= |s|
    ensures Distinct(s[k..])
  {
  }

  // ---------------------------------------------------------------------
  // A single requested commit in an acyclic history

  /** `x` is `s` or lies further back in history. */
  ghost predicate AtOrBelow(rank: map<Id, int>, x: Id, s: Id) {
    x == s || Below(rank, x, s)
  }

  /** Every looked-up run is a chain of the commit graph. */
  ghost predicate LookupChains(db: CommitStore, runOf: RunLookup) {
    forall c :: c in runOf ==> Chain(db, runOf[c])
  }

  /** Every loaded commit is `s` or an ancestor of it, with its stored
      parents. */
  ghost predicate LoadedBelow(db: CommitStore, rank: map<Id, int>, g: Graph, s: Id) {
    forall x :: x in g.parents ==> x in db && g.parents[x] == db[x].parentIds && AtOrBelow(rank, x, s)
  }

  /** A commit the run query finds is a stored commit. */
  lemma LookedUpStored(db: CommitStore, runOf: RunLookup, c: Id)
    requires LookupOk(runOf) && LookupChains(db, runOf) && c in runOf
    ensures c in db
  {
    var r := runOf[c];
    var i :| 0 <= i < |r.commitIds| && r.commitIds[i] == c;
  }

  /** From position `pos` on, a chain holds stored commits with their
      stored parents, each `s` or an ancestor of it when the one at `pos`
      is. */
  lemma RunBelow(db: CommitStore, rank: map<Id, int>, r: Run, pos: nat, s: Id)
    requires Acyclic(db, rank) && Chain(db, r)
    requires pos < |r.commitIds| && AtOrBelow(rank, r.commitIds[pos], s)
    ensures forall i :: pos <= i < |r.commitIds| ==>
      r.commitIds[i] in db && ParentsAt(r, i) == db[r.commitIds[i]].parentIds && AtOrBelow(rank, r.commitIds[i], s)
  {
    forall i | pos <= i < |r.commitIds|
      ensures r.commitIds[i] in db && ParentsAt(r, i) == db[r.commitIds[i]].parentIds
      ensures AtOrBelow(rank, r.commitIds[i], s)
    {
      if i > pos {
        ChainDescends(db, rank, r, pos, i);
      }
      if i + 1 < |r.commitIds| {
        assert db[r.commitIds[i]].parentIds == [r.commitIds[i + 1]];
      }
    }
  }

  /** The looked-up parents of a chain whose head is `s` or an ancestor of
      it are ancestors of `s`. */
  lemma RunParentsBelow(db: CommitStore, rank: map<Id, int>, runOf: RunLookup, r: Run, pos: nat, s: Id)
    requires Acyclic(db, rank) && LookupOk(runOf) && LookupChains(db, runOf) && Chain(db, r)
    requires pos < |r.commitIds| && AtOrBelow(rank, r.commitIds[pos], s)
    ensures forall p :: p in r.parentIds && p in runOf ==> AtOrBelow(rank, p, s)
  {
    var n := |r.commitIds|;
    if pos < n - 1 {
      ChainDescends(db, rank, r, pos, n - 1);
    }
    forall p | p in r.parentIds && p in runOf
      ensures AtOrBelow(rank, p, s)
    {
      LookedUpStored(db, runOf, p);
      assert ParentOf(db, r.commitIds[n - 1], p);
    }
  }

  lemma {:induction false} RecordBelow(db: CommitStore, rank: map<Id, int>, r: Run, pos: nat, g: Graph, s: Id)
    requires Acyclic(db, rank) && Chain(db, r)
    requires pos < |r.commitIds| == |r.commitTimes|
    requires forall i, j :: 0 <= i < j < |r.commitIds| ==> r.commitIds[i] != r.commitIds[j]
    requires LoadedBelow(db, rank, g, s) && AtOrBelow(rank, r.commitIds[pos], s)
    ensures LoadedBelow(db, rank, Record(r, pos, g), s)
  {
    var g' := Record(r, pos, g);
    RunBelow(db, rank, r, pos, s);
    forall x | x in g'.parents
      ensures x in db && g'.parents[x] == db[x].parentIds && AtOrBelow(rank, x, s)
    {
      if i :| pos <= i < |r.commitIds| && r.commitIds[i] == x {
      } else {
        assert x in g.parents;
      }
    }
  }

  lemma {:induction false} VisitBelow(db: CommitStore, rank: map<Id, int>, runOf: RunLookup, c: Id, g: Graph, s: Id)
    requires Acyclic(db, rank) && LookupOk(runOf) && LookupChains(db, runOf) && g.seen <= Universe(runOf)
    requires LoadedBelow(db, rank, g, s) && (c in runOf ==> AtOrBelow(rank, c, s))
    ensures LoadedBelow(db, rank, Visit(runOf, c, g), s)
    decreases |Universe(runOf) - g.seen|, 0, 0
  {
    if c !in g.seen && c in runOf {
      var r := runOf[c];
      var j := FirstIndex(r.commitIds, c);
      var g1 := Record(r, j, g);
      RecordBelow(db, rank, r, j, g, s);
      assert c in g1.seen;
      SubsetCard(g.seen, g1.seen, Universe(runOf));
      RunParentsBelow(db, rank, runOf, r, j, s);
      VisitAllBelow(db, rank, runOf, r.parentIds, g1, s);
    }
  }

  lemma {:induction false} VisitAllBelow(db: CommitStore, rank: map<Id, int>, runOf: RunLookup, cs: seq<Id>, g: Graph, s: Id)
    requires Acyclic(db, rank) && LookupOk(runOf) && LookupChains(db, runOf) && g.seen <= Universe(runOf)
    requires LoadedBelow(db, rank, g, s) && forall c :: c in cs && c in runOf ==> AtOrBelow(rank, c, s)
    ensures LoadedBelow(db, rank, VisitAll(runOf, cs, g), s)
    decreases |Universe(runOf) - g.seen|, |cs|, 1
  {
    if |cs| > 0 {
      VisitBelow(db, rank, runOf, cs[0], g, s);
      var g1 := Visit(runOf, cs[0], g);
      SubsetCardLe(g.seen, g1.seen, Universe(runOf));
      VisitAllBelow(db, rank, runOf, cs[1..], g1, s);
    }
  }

  /** With one requested commit, whose runs are chains of an acyclic
      history, the requested commit is no loaded commit's parent, so the
      walk yields each commit at most once. */
  lemma SingleStartChildless(db: CommitStore, rank: map<Id, int>, runOf: RunLookup, s: Id)
    requires Acyclic(db, rank) && LookupOk(runOf) && LookupChains(db, runOf)
    ensures StartsChildless(LoadGraph(runOf, [s]).parents, [s])
  {
    var g := LoadGraph(runOf, [s]);
    VisitAllBelow(db, rank, runOf, [s], Graph({}, map[], map[]), s);
    if s in runOf {
      LookedUpStored(db, runOf, s);
      forall o | o in g.parents
        ensures s !in g.parents[o]
      {
        assert ParentOf(db, o, s) ==> Below(rank, s, o);
      }
    } else {
      var g0 := Graph({}, map[], map[]);
      assert Visit(runOf, s, g0) == g0;
      assert VisitAll(runOf, [s][1..], g0) == g0;
    }
  }

  // ---------------------------------------------------------------------
  // Commit.log_iter

  /** `log_iter(skip, count)` over the ids `commitlog` yields: the first
      `skip` are passed over, then ids are taken while `count` lasts. */
  function LogIter(ids: seq<Id>, skip: nat, count: nat): (r: seq<Id>)
    decreases |ids|
  {
    if |ids| == 0 then []
    else if skip > 0 then LogIter(ids[1..], skip - 1, count)
    else if count > 0 then [ids[0]] + LogIter(ids[1..], 0, count - 1)
    else []
  }

  function Min(a: nat, b: nat): nat {
    if a < b then a else b
  }

  /** The loop is the slice `ids[skip:skip + count]`. */
  lemma {:induction false} LogIterSlice(ids: seq<Id>, skip: nat, count: nat)
    ensures LogIter(ids, skip, count) == ids[Min(skip, |ids|)..Min(skip + count, |ids|)]
    decreases |ids|
  {
    var n := |ids|;
    if n > 0 {
      if skip > 0 {
        LogIterSlice(ids[1..], skip - 1, count);
        assert Min(skip - 1, n - 1) + 1 == Min(skip, n) && Min(skip - 1 + count, n - 1) + 1 == Min(skip + count, n);
        ShiftSlice(ids, Min(skip - 1, n - 1), Min(skip - 1 + count, n - 1));
      } else if count > 0 {
        LogIterSlice(ids[1..], 0, count - 1);
        assert Min(count - 1, n - 1) + 1 == Min(count, n);
        ShiftSlice(ids, 0, Min(count - 1, n - 1));
        assert [ids[0]] + ids[1..Min(count, n)] == ids[0..Min(count, n)];
      }
    }
  }

  /** A slice of the tail is the slice one further on. */
  lemma ShiftSlice(ids: seq<Id>, a: nat, b: nat)
    requires a <= b <= |ids| - 1
    ensures ids[1..][a..b] == ids[a + 1..b + 1]
  {
  }
}
