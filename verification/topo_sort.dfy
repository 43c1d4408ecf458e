/** `topological_sort` of the repository model: Kahn's algorithm over a map
    from each node to the set of its parents. Roots are collected in the
    map's iteration order (given explicitly here), the ready nodes form a
    stack, and whatever is left in the map at the end means a cycle. */
module TopoSort {
  import Sets

  predicate Distinct<T(==,!new)>(s: seq<T>) {
    forall i, j | 0 <= i < j < |s| :: s[i] != s[j]
  }

  /** The parentless nodes, in iteration order. */
  function Roots<T(==,!new)>(graph: map<T, set<T>>, order: seq<T>): (r: seq<T>)
    requires forall x | x in order :: x in graph
    ensures forall x :: x in r <==> x in order && graph[x] == {}
    ensures Distinct(order) ==> Distinct(r)
  {
    if |order| == 0 then []
    else
      var rest := Roots(graph, order[1..]);
      assert forall x :: x in order <==> x == order[0] || x in order[1..];
      if graph[order[0]] == {} then [order[0]] + rest else rest
  }

  /** `children[n]`: the nodes that list `n` as a parent, in iteration
      order. */
  function Children<T(==,!new)>(graph: map<T, set<T>>, order: seq<T>, n: T): (r: seq<T>)
    requires forall x | x in order :: x in graph
    ensures forall x :: x in r <==> x in order && n in graph[x]
    ensures Distinct(order) ==> Distinct(r)
  {
    if |order| == 0 then []
    else
      var rest := Children(graph, order[1..], n);
      assert forall x :: x in order <==> x == order[0] || x in order[1..];
      if n in graph[order[0]] then [order[0]] + rest else rest
  }

  /** Every node comes after all of its parents. */
  ghost predicate ParentsFirst<T(!new)>(graph: map<T, set<T>>, out: seq<T>)
    requires forall x | x in out :: x in graph
  {
    forall i, p | 0 <= i < |out| && p in graph[out[i]] :: p in out[..i]
  }

  /** `rank` strictly decreases from every node to each of its parents, all
      of which are nodes: the graph is acyclic and closed. */
  ghost predicate Ranked<T(!new)>(graph: map<T, set<T>>, rank: map<T, nat>) {
    forall x | x in graph :: x in rank && forall p | p in graph[x] :: p in graph && p in rank && rank[p] < rank[x]
  }

  /** What has been yielded so far: distinct nodes, each after its parents,
      and `done` is exactly their set. */
  ghost predicate Emitted<T(!new)>(graph: map<T, set<T>>, out: seq<T>, done: set<T>) {
    && (forall x | x in out :: x in graph)
    && Distinct(out)
    && ParentsFirst(graph, out)
    && (forall x :: x in done <==> x in out)
  }

  /** The stack holds the unyielded nodes whose parents are all done, the
      map holds every other unyielded node with its parents not yet done,
      and every node is in exactly one of the three places. */
  ghost predicate Frontier<T(!new)>(graph: map<T, set<T>>, done: set<T>, roots: seq<T>, pending: map<T, set<T>>) {
    && done <= graph.Keys
    && Distinct(roots)
    && (forall x | x in roots :: x in graph && x !in done && graph[x] <= done)
    && (forall x | x in pending :: x in graph && x !in done && x !in roots && pending[x] == graph[x] - done && pending[x] != {})
    && (forall x | x in graph :: x in done || x in roots || x in pending)
  }

  /** `topological_sort(graph)`: the nodes it yields, and whether it ends
      without the 'Cycle detected' assertion. Each node is yielded at most
      once and only after all of its parents; it finishes cleanly exactly
      when it yielded every node, which happens exactly when every parent
      is a node and the graph has no cycle. */
  method TopologicalSort<T(==,!new)>(graph: map<T, set<T>>, order: seq<T>) returns (out: seq<T>, ok: bool)
    requires Distinct(order) && forall x :: x in order <==> x in graph
    ensures Distinct(out) && forall x | x in out :: x in graph
    ensures ParentsFirst(graph, out)
    ensures ok <==> forall x | x in graph :: x in out
    ensures ok <==> exists rank :: Ranked(graph, rank)
  {
    var roots := Roots(graph, order);
    var pending: map<T, set<T>> := map x | x in graph && graph[x] != {} :: graph[x];
    out := [];
    ghost var done: set<T> := {};
    SortStart(graph, order, roots, pending);
    while |roots| > 0
      invariant Emitted(graph, out, done)
      invariant Frontier(graph, done, roots, pending)
      decreases |graph.Keys - done|
    {
      var n := roots[|roots| - 1];
      var rest := roots[..|roots| - 1];
      assert rest + [n] == roots;
      ghost var before := done;
      EmitStep(graph, out, done, n);
      out := out + [n];
      done := done + {n};
      roots, pending := Release(graph, order, n, rest, pending, before);
      Sets.SubsetCard(before, done, graph.Keys);
    }
    ok := |pending| == 0;
    SortDone(graph, out, done, pending);
  }

  /** Before the loop: the stack holds the parentless nodes and the map
      every other node with all of its parents. */
  lemma SortStart<T(!new)>(graph: map<T, set<T>>, order: seq<T>, roots: seq<T>, pending: map<T, set<T>>)
    requires Distinct(order) && forall x :: x in order <==> x in graph
    requires Distinct(roots) && forall x :: x in roots <==> x in order && graph[x] == {}
    requires pending == map x | x in graph && graph[x] != {} :: graph[x]
    ensures Emitted(graph, [], {}) && Frontier(graph, {}, roots, pending)
  {
  }

  /** Once the stack is empty, the output is complete exactly when nothing
      is left waiting, and that happens exactly when the graph has a rank. */
  lemma SortDone<T(!new)>(graph: map<T, set<T>>, out: seq<T>, done: set<T>, pending: map<T, set<T>>)
    requires Emitted(graph, out, done) && Frontier(graph, done, [], pending)
    ensures (|pending| == 0) <==> forall x | x in graph :: x in out
    ensures (|pending| == 0) <==> exists rank :: Ranked(graph, rank)
  {
    if |pending| == 0 {
      PositionsRank(graph, out);
    } else {
      var x :| x in pending;
      forall rank | Ranked(graph, rank)
        ensures false
      {
        AllDone(graph, rank, done, x);
      }
    }
  }

  /** Yielding a ready node keeps the output well formed, and none of the
      nodes already yielded has it as a parent. */
  lemma EmitStep<T(!new)>(graph: map<T, set<T>>, out: seq<T>, done: set<T>, n: T)
    requires Emitted(graph, out, done) && n in graph && n !in done && graph[n] <= done
    ensures Emitted(graph, out + [n], done + {n})
    ensures forall x | x in done :: n !in graph[x]
  {
    forall x | x in done
      ensures n !in graph[x]
    {
      var i :| 0 <= i < |out| && out[i] == x;
      assert forall p | p in graph[x] :: p in out[..i];
      assert forall p | p in out[..i] :: p in out;
    }
    PushParentsFirst(graph, out, n, done);
    var o := out + [n];
    forall i, j | 0 <= i < j < |o|
      ensures o[i] != o[j]
    {
      if j == |out| {
        assert o[i] in out;
      } else {
        assert o[i] == out[i] && o[j] == out[j];
      }
    }
  }

  /** The inner loop of `topological_sort` after yielding `n`: each child
      of `n` loses it as a pending parent and, when none is left, leaves
      the map and is pushed on the stack. */
  method Release<T(==,!new)>(graph: map<T, set<T>>, order: seq<T>, n: T, roots0: seq<T>, pending0: map<T, set<T>>, ghost before: set<T>)
    returns (roots: seq<T>, pending: map<T, set<T>>)
    requires Distinct(order) && forall x :: x in order <==> x in graph
    requires Frontier(graph, before, roots0 + [n], pending0)
    requires forall x | x in before :: n !in graph[x]
    ensures Frontier(graph, before + {n}, roots, pending)
  {
    ghost var done := before + {n};
    var kids := Children(graph, order, n);
    ReleaseStart(graph, before, n, kids, roots0, pending0);
    roots, pending := roots0, pending0;
    var j := 0;
    while j < |kids|
      invariant Releasing(graph, done, n, kids, j, roots, pending)
      decreases |kids| - j
    {
      var child := kids[j];
      var rest := pending[child] - {n};
      if rest == {} {
        ReleaseReady(graph, done, n, kids, j, roots, pending);
        pending := pending - {child};
        roots := roots + [child];
      } else {
        ReleaseWait(graph, done, n, kids, j, roots, pending);
        pending := pending[child := rest];
      }
      j := j + 1;
    }
    assert kids[j..] == [];
  }

  /** The state part-way through releasing the children of `n`: the ones
      from `j` on still count `n` as a pending parent. */
  ghost predicate Releasing<T(!new)>(graph: map<T, set<T>>, done: set<T>, n: T, kids: seq<T>, j: nat, roots: seq<T>, pending: map<T, set<T>>) {
    && j <= |kids|
    && Distinct(kids)
    && done <= graph.Keys
    && Distinct(roots)
    && (forall x | x in roots :: x in graph && x !in done && graph[x] <= done)
    && (forall k | j <= k < |kids| :: kids[k] in pending)
    && (forall x | x in pending :: x in graph && x !in done && x !in roots && pending[x] != {})
    && (forall x | x in pending :: pending[x] == graph[x] - done + (if x in kids[j..] then {n} else {}))
    && (forall x | x in graph :: x in done || x in roots || x in pending)
  }

  /** Popping `n` off the stack and marking it done starts the release. */
  lemma ReleaseStart<T(!new)>(graph: map<T, set<T>>, before: set<T>, n: T, kids: seq<T>, roots0: seq<T>, pending0: map<T, set<T>>)
    requires Frontier(graph, before, roots0 + [n], pending0)
    requires forall x | x in before :: n !in graph[x]
    requires Distinct(kids) && forall x :: x in kids <==> x in graph && n in graph[x]
    ensures Releasing(graph, before + {n}, n, kids, 0, roots0, pending0)
  {
    var s := roots0 + [n];
    assert forall i | 0 <= i < |roots0| :: roots0[i] == s[i] && s[i] != s[|roots0|];
    assert forall x | x in roots0 :: x in s;
    assert kids[0..] == kids;
  }

  /** A child whose last pending parent was `n` moves to the stack. */
  lemma ReleaseReady<T(!new)>(graph: map<T, set<T>>, done: set<T>, n: T, kids: seq<T>, j: nat, roots: seq<T>, pending: map<T, set<T>>)
    requires Releasing(graph, done, n, kids, j, roots, pending) && n in done && j < |kids|
    requires pending[kids[j]] - {n} == {}
    ensures Releasing(graph, done, n, kids, j + 1, roots + [kids[j]], pending - {kids[j]})
  {
    var child := kids[j];
    DropFirst(kids, j);
    assert graph[child] - done == {};
    assert forall q | q in graph[child] :: q in done || q in graph[child] - done;
    var r := roots + [child];
    assert forall x | x in r :: x in roots || x == child;
    assert forall i | 0 <= i < |roots| :: r[i] == roots[i] && r[i] != child;
    var p := pending - {child};
    forall x | x in p
      ensures p[x] == graph[x] - done + (if x in kids[j + 1..] then {n} else {})
    {
      assert p[x] == pending[x] && (x in kids[j..] <==> x in kids[j + 1..]);
    }
  }

  /** A child with parents still pending stays in the map, without `n`. */
  lemma ReleaseWait<T(!new)>(graph: map<T, set<T>>, done: set<T>, n: T, kids: seq<T>, j: nat, roots: seq<T>, pending: map<T, set<T>>)
    requires Releasing(graph, done, n, kids, j, roots, pending) && n in done && j < |kids|
    requires pending[kids[j]] - {n} != {}
    ensures Releasing(graph, done, n, kids, j + 1, roots, pending[kids[j] := pending[kids[j]] - {n}])
  {
    var child := kids[j];
    DropFirst(kids, j);
    var p := pending[child := pending[child] - {n}];
    forall x | x in p
      ensures p[x] == graph[x] - done + (if x in kids[j + 1..] then {n} else {})
    {
      if x != child {
        assert p[x] == pending[x] && (x in kids[j..] <==> x in kids[j + 1..]);
      }
    }
  }

  /** Dropping the head of a suffix of a distinct sequence removes exactly
      that element. */
  lemma DropFirst<T(!new)>(s: seq<T>, j: nat)
    requires Distinct(s) && j < |s|
    ensures s[j] !in s[j + 1..]
    ensures forall x :: x in s[j..] <==> x == s[j] || x in s[j + 1..]
  {
    assert s[j..] == [s[j]] + s[j + 1..];
  }

  /** A ready node may be appended: its parents are all out already. */
  lemma PushParentsFirst<T(!new)>(graph: map<T, set<T>>, out: seq<T>, n: T, done: set<T>)
    requires forall x | x in out :: x in graph
    requires n in graph && ParentsFirst(graph, out) && graph[n] <= done && forall x | x in done :: x in out
    ensures ParentsFirst(graph, out + [n])
  {
    var o := out + [n];
    forall i, p | 0 <= i < |o| && p in graph[o[i]]
      ensures p in o[..i]
    {
      if i < |out| {
        assert o[i] == out[i] && o[..i] == out[..i];
      } else {
        assert o[i] == n && o[..i] == out;
        assert p in done;
      }
    }
  }

  /** In a ranked graph, a node none of whose parents is missing from
      `done` is in it, provided every node outside `done` has such a
      parent: so everything is done. */
  lemma {:induction false} AllDone<T(!new)>(graph: map<T, set<T>>, rank: map<T, nat>, done: set<T>, x: T)
    requires Ranked(graph, rank) && x in graph
    requires forall y | y in graph && y !in done :: exists p | p in graph[y] :: p !in done
    ensures x in done
    decreases rank[x]
  {
    if x !in done {
      var p :| p in graph[x] && p !in done;
      AllDone(graph, rank, done, p);
    }
  }

  /** The position of the first occurrence. */
  function Pos<T(==,!new)>(s: seq<T>, x: T): (i: nat)
    requires x in s
    ensures i < |s| && s[i] == x && x !in s[..i]
  {
    if s[0] == x then 0
    else
      var j := Pos(s[1..], x);
      assert s[..j + 1] == [s[0]] + s[1..][..j];
      j + 1
  }

  /** A complete output with every node after its parents ranks the graph
      by position. */
  lemma PositionsRank<T(!new)>(graph: map<T, set<T>>, out: seq<T>)
    requires forall x | x in out :: x in graph
    requires ParentsFirst(graph, out) && Distinct(out)
    requires forall x | x in graph :: x in out
    ensures Ranked(graph, map x | x in graph :: Pos(out, x))
  {
    var rank := map x | x in graph :: Pos(out, x);
    forall x, p | x in graph && p in graph[x]
      ensures p in graph && p in rank && rank[p] < rank[x]
    {
      var i := Pos(out, x);
      assert p in out[..i];
      var k :| 0 <= k < i && out[k] == p;
      assert Pos(out, p) == k;
    }
  }
}
