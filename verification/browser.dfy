/** The repository controllers' own logic: the commit browser's status
    page, its topological order of commits and the column each commit is
    drawn in, the splitting of a branch URL into the reference name and
    the path after it, and the paged list of a commit's changed files. */
module Browser {
  import opened Wrappers
  import opened RepoDocs
  import opened Text
  import Sorting
  import Repository
  import Renames
  import TreeObjects
  import Sets

  // ---------------------------------------------------------------------
  // commit_browser: the page status

  /** What the page needs of the repository: its status and its number of
      revisions. */
  datatype RepoView = RepoView(status: string, count: nat)

  datatype PageStatus = NotReady | NoCommits | Ready

  /** `commit_browser`: a missing repository or one whose status is not
      `ready` gives `not_ready`; a ready one without commits gives
      `no_commits`; anything else is `ready`. */
  function CommitBrowserStatus(repo: Option<RepoView>): (s: PageStatus)
    ensures s == NotReady <==> repo.None? || repo.value.status != "ready"
    ensures s == NoCommits <==> repo.Some? && repo.value.status == "ready" && repo.value.count == 0
    ensures s == Ready <==> repo.Some? && repo.value.status == "ready" && repo.value.count > 0
  {
    if repo.None? || repo.value.status != "ready" then NotReady
    else if repo.value.count == 0 then NoCommits
    else Ready
  }

  /** The repository status after the status writes among `es`. */
  function StatusAfter(es: seq<Repository.Event>, status: string): string
    decreases |es|
  {
    if |es| == 0 then status
    else StatusAfter(es[1..], if es[0].SetStatus? then es[0].status else status)
  }

  /** The last status write decides the status. */
  lemma {:induction false} StatusAfterLast(es: seq<Repository.Event>, status: string)
    requires |es| > 0 && es[|es| - 1].SetStatus?
    ensures StatusAfter(es, status) == es[|es| - 1].status
    decreases |es|
  {
    if |es| > 1 {
      var next := if es[0].SetStatus? then es[0].status else status;
      assert es[1..][|es[1..]| - 1] == es[|es| - 1];
      StatusAfterLast(es[1..], next);
    }
  }

  /** Whatever the status before and whether or not the refresh raised,
      the commit browser of a refreshed repository is never `not_ready`:
      it shows its commits, or says there are none. */
  lemma RefreshedRepoBrowsable(newRefresh: bool, failsAt: Option<nat>, before: string, count: nat)
    ensures var status := StatusAfter(Repository.Refresh(newRefresh, failsAt).0, before);
      status == "ready"
      && CommitBrowserStatus(Some(RepoView(status, count))) == (if count == 0 then NoCommits else Ready)
  {
    var es := Repository.Refresh(newRefresh, failsAt).0;
    StatusAfterLast(es, before);
  }

  // ---------------------------------------------------------------------
  // topo_sort: the order of the commit browser

  predicate Distinct<T(==)>(s: seq<T>) {
    forall i, j | 0 <= i < j < |s| :: s[i] != s[j]
  }

  /** `children[p]` of a `defaultdict(list)`: nobody for an unknown id. */
  function Kids(children: map<Id, seq<Id>>, p: Id): seq<Id> {
    if p in children then children[p] else []
  }

  function DateOf(dates: map<Id, int>, x: Id): int {
    if x in dates then dates[x] else 0
  }

  /** `key=lambda x: dates[x]` as an ordering. */
  function DateLe(dates: map<Id, int>): (Id, Id) -> bool {
    (a: Id, b: Id) => DateOf(dates, a) <= DateOf(dates, b)
  }

  lemma DateLeTotal(dates: map<Id, int>)
    ensures Sorting.TotalPreorder(DateLe(dates))
  {
  }

  /** `list(set(head_ids))`: every head once. A set's iteration order is
      not specified; first occurrence is taken here. */
  function Dedup(s: seq<Id>): (r: seq<Id>)
    ensures Distinct(r)
    ensures forall x :: x in r <==> x in s
  {
    if |s| == 0 then []
    else
      var rest := Dedup(s[..|s| - 1]);
      assert forall x :: x in s <==> x in s[..|s| - 1] || x == s[|s| - 1];
      if s[|s| - 1] in rest then rest else rest + [s[|s| - 1]]
  }

  /** The initial stack: the distinct heads ascending by date. */
  function StartStack(heads: seq<Id>, dates: map<Id, int>): (st: seq<Id>)
    ensures forall x :: x in st <==> x in heads
    ensures |st| > 0 ==> forall h | h in heads :: DateOf(dates, h) <= DateOf(dates, st[|st| - 1])
  {
    var d := Dedup(heads);
    SortedByDate(d, dates);
    Sorting.SortBy(d, DateLe(dates))
  }

  /** The last of the sorted heads has the latest date. */
  lemma SortedByDate(d: seq<Id>, dates: map<Id, int>)
    ensures var st := Sorting.SortBy(d, DateLe(dates));
      && (forall x :: x in st <==> x in d)
      && (|st| > 0 ==> forall x | x in d :: DateOf(dates, x) <= DateOf(dates, st[|st| - 1]))
  {
    var st := Sorting.SortBy(d, DateLe(dates));
    assert forall x :: x in st <==> x in multiset(st);
    assert forall x :: x in d <==> x in multiset(d);
    DateLeTotal(dates);
    Sorting.SortSorted(d, DateLe(dates));
    if |st| > 0 {
      forall x | x in d
        ensures DateOf(dates, x) <= DateOf(dates, st[|st| - 1])
      {
        assert x in st;
        var i :| 0 <= i < |st| && st[i] == x;
        if i < |st| - 1 {
          assert DateLe(dates)(st[i], st[|st| - 1]);
        }
      }
    }
  }

  predicate AllIn(cs: seq<Id>, visited: set<Id>) {
    forall c | c in cs :: c in visited
  }

  /** The inner loop of `topo_sort`: the parents of the commit just visited
      all of whose children are visited, in order. */
  function Released(children: map<Id, seq<Id>>, ps: seq<Id>, visited: set<Id>): (r: seq<Id>)
    ensures forall p :: p in r <==> p in ps && AllIn(Kids(children, p), visited)
  {
    if |ps| == 0 then []
    else
      var rest := Released(children, ps[1..], visited);
      assert forall x :: x in ps <==> x == ps[0] || x in ps[1..];
      if AllIn(Kids(children, ps[0]), visited) then [ps[0]] + rest else rest
  }

  /** Every parent listed is itself a commit of the graph. */
  predicate Closed(parents: map<Id, seq<Id>>) {
    forall x, p | x in parents && p in parents[x] :: p in parents
  }

  /** The children lists are the inverse of the parent lists, as
      `commit_browser_data` builds them. */
  ghost predicate Inverse(children: map<Id, seq<Id>>, parents: map<Id, seq<Id>>) {
    forall p, c :: c in Kids(children, p) <==> c in parents && p in parents[c]
  }

  /** Every one of `cs` occurs in `s`. */
  predicate Among(cs: seq<Id>, s: seq<Id>) {
    forall c | c in cs :: c in s
  }

  /** Each emitted commit is a head or follows all of its children. */
  ghost predicate ChildrenFirst(children: map<Id, seq<Id>>, heads: seq<Id>, out: seq<Id>) {
    forall i | 0 <= i < |out| :: out[i] in heads || Among(Kids(children, out[i]), out[..i])
  }

  /** The first commit out is a head with the latest date. */
  ghost predicate LatestFirst(dates: map<Id, int>, heads: seq<Id>, out: seq<Id>) {
    |heads| > 0 ==> |out| > 0 && out[0] in heads && forall h | h in heads :: DateOf(dates, h) <= DateOf(dates, out[0])
  }

  /** A parent of a visited commit is visited, waiting on the stack, or
      still has an unvisited child. */
  ghost predicate Pursued(children: map<Id, seq<Id>>, parents: map<Id, seq<Id>>,
                          visited: set<Id>, stack: seq<Id>) {
    forall x, p | x in visited && x in parents && p in parents[x] ::
      p in visited || p in stack || !AllIn(Kids(children, p), visited)
  }

  /** The invariant of the `topo_sort` loop. */
  ghost predicate SortState(children: map<Id, seq<Id>>, parents: map<Id, seq<Id>>, heads: seq<Id>,
                          out: seq<Id>, visited: set<Id>, stack: seq<Id>) {
    && (forall x :: x in visited <==> x in out)
    && Distinct(out)
    && visited <= parents.Keys
    && (forall s | s in stack :: s in parents)
    && ChildrenFirst(children, heads, out)
    && (forall s | s in stack :: s in heads || AllIn(Kids(children, s), visited))
    && (forall h | h in heads :: h in visited || h in stack)
    && (Inverse(children, parents) ==> Pursued(children, parents, visited, stack))
  }

  lemma SkipStep(children: map<Id, seq<Id>>, parents: map<Id, seq<Id>>, heads: seq<Id>,
                 out: seq<Id>, visited: set<Id>, rest: seq<Id>, next: Id)
    requires SortState(children, parents, heads, out, visited, rest + [next])
    requires next in visited
    ensures SortState(children, parents, heads, out, visited, rest)
  {
  }

  lemma VisitStep(children: map<Id, seq<Id>>, parents: map<Id, seq<Id>>, heads: seq<Id>,
                  out: seq<Id>, visited: set<Id>, rest: seq<Id>, next: Id)
    requires Closed(parents)
    requires SortState(children, parents, heads, out, visited, rest + [next])
    requires next !in visited
    ensures next in parents
    ensures SortState(children, parents, heads, out + [next], visited + {next},
                    rest + Released(children, parents[next], visited + {next}))
  {
    assert next in rest + [next];
    var out', visited' := out + [next], visited + {next};
    var pushed := Released(children, parents[next], visited');
    var stack' := rest + pushed;
    assert ChildrenFirst(children, heads, out') by {
      forall i | 0 <= i < |out'|
        ensures out'[i] in heads || Among(Kids(children, out'[i]), out'[..i])
      {
        if i < |out| {
          assert out'[..i] == out[..i];
        } else {
          assert out'[..i] == out;
        }
      }
    }
    forall s | s in stack'
      ensures s in heads || AllIn(Kids(children, s), visited')
    {
      if s in rest {
        assert s in rest + [next];
      }
    }
    forall h | h in heads
      ensures h in visited' || h in stack'
    {
      assert h in visited || h in rest + [next];
    }
    if Inverse(children, parents) {
      forall x, p | x in visited' && x in parents && p in parents[x]
        ensures p in visited' || p in stack' || !AllIn(Kids(children, p), visited')
      {
        if x == next {
        } else if p !in visited && p !in rest + [next] && AllIn(Kids(children, p), visited') {
          assert !AllIn(Kids(children, p), visited);
          var c :| c in Kids(children, p) && c !in visited;
          assert c == next;
        }
      }
    }
  }

  /** `topo_sort(children, parents, dates, head_ids)`: the heads, latest
      on top of the stack, then each parent once all its children are out.
      Popping an id looks up its parents, so the heads and every listed
      parent must be known commits. */
  method TopoSortBrowser(children: map<Id, seq<Id>>, parents: map<Id, seq<Id>>,
                         dates: map<Id, int>, heads: seq<Id>) returns (out: seq<Id>)
    requires forall h | h in heads :: h in parents
    requires Closed(parents)
    ensures Distinct(out)
    ensures forall x | x in out :: x in parents
    ensures forall h | h in heads :: h in out
    ensures forall i | 0 <= i < |out| :: out[i] in heads || Among(Kids(children, out[i]), out[..i])
    ensures LatestFirst(dates, heads, out)
    ensures Inverse(children, parents) ==>
      forall x, p | x in out && p in parents[x] && Among(Kids(children, p), out) :: p in out
  {
    var stack := StartStack(heads, dates);
    var visited: set<Id> := {};
    out := [];
    while |stack| > 0
      invariant SortState(children, parents, heads, out, visited, stack)
      invariant |out| == 0 ==> stack == StartStack(heads, dates)
      invariant |out| > 0 ==> LatestFirst(dates, heads, out)
      decreases |parents.Keys - visited|, |stack|
    {
      var next := stack[|stack| - 1];
      var rest := stack[..|stack| - 1];
      LastSplit(stack);
      if next in visited {
        SkipStep(children, parents, heads, out, visited, rest, next);
        stack := rest;
      } else {
        VisitStep(children, parents, heads, out, visited, rest, next);
        FirstOut(dates, heads, out, stack, next);
        Sets.SubsetCard(visited, visited + {next}, parents.Keys);
        out := out + [next];
        visited := visited + {next};
        stack := rest + Released(children, parents[next], visited);
      }
    }
    Finish(children, parents, dates, heads, out, visited);
  }

  lemma LastSplit<T>(s: seq<T>)
    requires |s| > 0
    ensures s[..|s| - 1] + [s[|s| - 1]] == s
  {
  }

  /** The first commit visited is the top of the initial stack. */
  lemma FirstOut(dates: map<Id, int>, heads: seq<Id>, out: seq<Id>, stack: seq<Id>, next: Id)
    requires |out| == 0 ==> stack == StartStack(heads, dates)
    requires |out| > 0 ==> LatestFirst(dates, heads, out)
    requires |stack| > 0 && next == stack[|stack| - 1]
    ensures LatestFirst(dates, heads, out + [next])
  {
    if |out| == 0 {
      assert (out + [next])[0] == next;
      assert next in StartStack(heads, dates);
    } else {
      assert (out + [next])[0] == out[0];
    }
  }

  /** With the stack empty the invariant gives the postconditions. */
  lemma Finish(children: map<Id, seq<Id>>, parents: map<Id, seq<Id>>, dates: map<Id, int>,
               heads: seq<Id>, out: seq<Id>, visited: set<Id>)
    requires SortState(children, parents, heads, out, visited, [])
    requires |out| == 0 ==> [] == StartStack(heads, dates)
    requires |out| > 0 ==> LatestFirst(dates, heads, out)
    ensures forall h | h in heads :: h in out
    ensures LatestFirst(dates, heads, out)
    ensures Inverse(children, parents) ==>
      forall x, p | x in out && p in parents[x] && Among(Kids(children, p), out) :: p in out
  {
  }

  // ---------------------------------------------------------------------
  // commit_browser_data: the column of each commit

  /** The column slots: the commit waiting in each, or free. */
  datatype Layout = Layout(colIdx: map<Id, nat>, columns: seq<Option<Id>>)

  /** A commit waiting in a slot has that slot as its column, and every
      column handed out is a slot. */
  predicate Good(l: Layout) {
    && (forall k | 0 <= k < |l.columns| && l.columns[k].Some? ::
          l.columns[k].value in l.colIdx && l.colIdx[l.columns[k].value] == k)
    && (forall x | x in l.colIdx :: l.colIdx[x] < |l.columns|)
  }

  /** Columns once handed out are kept, and slots are never removed. */
  predicate Extends(a: Layout, b: Layout) {
    && |a.columns| <= |b.columns|
    && (forall x | x in a.colIdx :: x in b.colIdx && b.colIdx[x] == a.colIdx[x])
  }

  /** The first free slot at or after `from`, or the number of slots. */
  function FirstFree(columns: seq<Option<Id>>, from: nat): (i: nat)
    requires from <= |columns|
    ensures from <= i <= |columns|
    ensures i < |columns| ==> columns[i].None?
    ensures forall k | from <= k < i :: columns[k].Some?
    decreases |columns| - from
  {
    if from == |columns| || columns[from].None? then from else FirstFree(columns, from + 1)
  }

  /** `find_column(columns)`: the lowest free slot; when every slot is
      taken a free one is appended and that is the answer. */
  function FindColumn(columns: seq<Option<Id>>): (r: (nat, seq<Option<Id>>))
    ensures r.0 < |r.1| && r.1[r.0].None?
    ensures r.0 <= |columns| && forall k | 0 <= k < r.0 :: columns[k].Some?
    ensures r.0 < |columns| ==> r.1 == columns
    ensures r.0 == |columns| ==> r.1 == columns + [None]
  {
    var i := FirstFree(columns, 0);
    if i < |columns| then (i, columns) else (|columns|, columns + [None])
  }

  /** The inner loop over a commit's parents: a parent without a column
      gets the lowest free slot and waits in it. */
  function Occupy(l: Layout, p: Id): (l': Layout)
    ensures Good(l) ==> Good(l')
    ensures Extends(l, l')
    ensures p in l'.colIdx
    ensures p !in l.colIdx ==>
      var c := l'.colIdx[p];
      && c <= |l.columns| && c < |l'.columns|
      && l'.columns[c] == Some(p)
      && (c < |l.columns| ==> l.columns[c].None?)
      && (forall k | 0 <= k < c :: l.columns[k].Some?)
    ensures p in l.colIdx ==> l' == l
  {
    if p in l.colIdx then l
    else
      var (c, cols) := FindColumn(l.columns);
      Layout(l.colIdx[p := c], cols[c := Some(p)])
  }

  function OccupyAll(l: Layout, ps: seq<Id>): (l': Layout)
    ensures Good(l) ==> Good(l')
    ensures Extends(l, l')
    ensures forall p | p in ps :: p in l'.colIdx
    decreases |ps|
  {
    if |ps| == 0 then l
    else
      var l1 := Occupy(l, ps[0]);
      var l2 := OccupyAll(l1, ps[1..]);
      assert forall p | p in ps :: p == ps[0] || p in ps[1..];
      l2
  }

  /** The visit of one commit: its column is the one it waits in, or the
      lowest free slot when it has none; either way the slot is freed. */
  function Place(l: Layout, oid: Id): (r: (Layout, nat))
    requires Good(l)
    ensures Good(r.0)
    ensures Extends(l, r.0)
    ensures oid in r.0.colIdx && r.0.colIdx[oid] == r.1 && r.1 < |r.0.columns|
    ensures r.0.columns[r.1].None?
    ensures oid in l.colIdx ==> r.1 == l.colIdx[oid]
    ensures oid !in l.colIdx ==> r.1 == FindColumn(l.columns).0
  {
    if oid in l.colIdx then
      var c := l.colIdx[oid];
      (Layout(l.colIdx, l.columns[c := None]), c)
    else
      var (c, cols) := FindColumn(l.columns);
      (Layout(l.colIdx[oid := c], cols[c := None]), c)
  }

  /** The column loop of `commit_browser_data` over the sorted commits:
      each commit's column, and the final slots (`next_column` is their
      number). */
  method AssignColumns(result: seq<Id>, parents: map<Id, seq<Id>>) returns (column: seq<nat>, l: Layout)
    requires forall x | x in result :: x in parents
    ensures |column| == |result|
    ensures Good(l)
    ensures forall i | 0 <= i < |result| ::
      result[i] in l.colIdx && column[i] == l.colIdx[result[i]] && column[i] < |l.columns|
    ensures forall i, p | 0 <= i < |result| && p in parents[result[i]] :: p in l.colIdx
  {
    l := Layout(map[], []);
    column := [];
    var row := 0;
    while row < |result|
      invariant 0 <= row <= |result| && |column| == row
      invariant Good(l)
      invariant forall i | 0 <= i < row :: result[i] in l.colIdx && column[i] == l.colIdx[result[i]]
      invariant forall i, p | 0 <= i < row && p in parents[result[i]] :: p in l.colIdx
    {
      var (l1, c) := Place(l, result[row]);
      l := OccupyAll(l1, parents[result[row]]);
      column := column + [c];
      row := row + 1;
    }
  }

  // ---------------------------------------------------------------------
  // RefsController._lookup

  /** `END_OF_REF_ESCAPE`: the character closing a reference name in a
      URL. */
  const EndOfRefEscape: char := '~'

  /** The URL parts up to and including the first one ending in the
      escape character, and the rest. */
  function TakeRef(parts: seq<string>): (r: (seq<string>, seq<string>))
    ensures r.0 + r.1 == parts
    ensures forall i | 0 <= i < |r.0| - 1 :: !EndsWith(r.0[i], [EndOfRefEscape])
    ensures |r.1| > 0 ==> |r.0| > 0 && EndsWith(r.0[|r.0| - 1], [EndOfRefEscape])
    ensures |r.0| > 0 && !EndsWith(r.0[|r.0| - 1], [EndOfRefEscape]) ==> |r.1| == 0
  {
    if |parts| == 0 then ([], [])
    else if EndsWith(parts[0], [EndOfRefEscape]) then ([parts[0]], parts[1..])
    else
      var (t, rest) := TakeRef(parts[1..]);
      ([parts[0]] + t, rest)
  }

  /** `s[:-1]`. */
  function DropLast(s: string): string {
    if |s| == 0 then s else s[..|s| - 1]
  }

  /** Each part passed through `f`. */
  function MapParts(f: string -> string, parts: seq<string>): (r: seq<string>)
    ensures |r| == |parts| && forall i | 0 <= i < |parts| :: r[i] == f(parts[i])
  {
    if |parts| == 0 then [] else [f(parts[0])] + MapParts(f, parts[1..])
  }

  /** `_lookup(*parts)`: the parts are URL-decoded (`unquote`), then the
      reference name is the taken parts joined by '/' without the final
      character, and the parts left go to the browser. */
  function RefsLookup(unquote: string -> string, parts: seq<string>): (r: (string, seq<string>))
    ensures exists k | 0 <= k <= |parts| ::
      r.1 == MapParts(unquote, parts)[k..] && r.0 == DropLast(Join(MapParts(unquote, parts)[..k], "/"))
  {
    var ps := MapParts(unquote, parts);
    var (taken, rest) := TakeRef(ps);
    var k := |taken|;
    assert taken == ps[..k] && rest == ps[k..];
    var r := (DropLast(Join(taken, "/")), rest);
    assert r.1 == MapParts(unquote, parts)[k..] && r.0 == DropLast(Join(MapParts(unquote, parts)[..k], "/"));
    r
  }

  /** A branch URL: the reference's '/'-separated segments with the
      escape character after the last, then the path inside the branch. */
  function RefUrlParts(ref: string, rest: seq<string>): seq<string> {
    var segs := Split(ref, '/');
    segs[..|segs| - 1] + [segs[|segs| - 1] + [EndOfRefEscape]] + rest
  }

  /** No segment of the reference but the last ends in the escape
      character: the URL is then read back unambiguously. */
  predicate Unambiguous(ref: string) {
    var segs := Split(ref, '/');
    forall i | 0 <= i < |segs| - 1 :: !EndsWith(segs[i], [EndOfRefEscape])
  }

  lemma {:induction false} JoinEscaped(init: seq<string>, last: string)
    ensures Join(init + [last + [EndOfRefEscape]], "/") == Join(init + [last], "/") + [EndOfRefEscape]
    decreases |init|
  {
    if |init| > 0 {
      assert (init + [last + [EndOfRefEscape]])[1..] == init[1..] + [last + [EndOfRefEscape]];
      assert (init + [last])[1..] == init[1..] + [last];
      JoinEscaped(init[1..], last);
    }
  }

  lemma {:induction false} TakeEscaped(init: seq<string>, last: string, rest: seq<string>)
    requires forall i | 0 <= i < |init| :: !EndsWith(init[i], [EndOfRefEscape])
    ensures TakeRef(init + [last + [EndOfRefEscape]] + rest) == (init + [last + [EndOfRefEscape]], rest)
    decreases |init|
  {
    var parts := init + [last + [EndOfRefEscape]] + rest;
    if |init| == 0 {
      assert parts[0] == last + [EndOfRefEscape] && parts[1..] == rest;
    } else {
      assert parts[0] == init[0];
      assert parts[1..] == init[1..] + [last + [EndOfRefEscape]] + rest;
      TakeEscaped(init[1..], last, rest);
      assert [init[0]] + (init[1..] + [last + [EndOfRefEscape]]) == init + [last + [EndOfRefEscape]];
    }
  }

  /** Reading a branch URL back, its parts URL-encoded by any `quote`
      that `unquote` inverts, gives the reference name and the path parts
      after it. */
  lemma RefsLookupRoundTrip(quote: string -> string, unquote: string -> string, ref: string, rest: seq<string>)
    requires forall s :: unquote(quote(s)) == s
    requires Unambiguous(ref)
    ensures RefsLookup(unquote, MapParts(quote, RefUrlParts(ref, rest))) == (ref, rest)
  {
    var segs := Split(ref, '/');
    var init, last := segs[..|segs| - 1], segs[|segs| - 1];
    var parts := RefUrlParts(ref, rest);
    assert MapParts(unquote, MapParts(quote, parts)) == parts;
    TakeEscaped(init, last, rest);
    JoinEscaped(init, last);
    assert init + [last] == segs;
    JoinSplit(ref, '/');
  }

  // ---------------------------------------------------------------------
  // CommitBrowser.index: the listed files and the page

  datatype ChangeKind = Added | Removed | Changed | Copied

  /** A listed difference: a path, or for a copy the rename record. */
  datatype Item = PathItem(path: string) | CopyItem(rename: Renames.Rename)

  datatype Artifact = Artifact(kind: ChangeKind, item: Item)

  /** The path `get_obj_by_path` looks up: a rename record is looked up
      by its new path. */
  function LookupPath(x: Item): string {
    match x
    case PathItem(p) => p
    case CopyItem(r) => r.newPath
  }

  /** `tree.get_blob_by_path(x)` is a blob; the failure of the lookup
      propagates. */
  function IsBlobAt(index: TreeStore, root: Id, x: Item): Result<bool>
    requires root in index
  {
    match TreeObjects.GetObjByPath(index, root, LookupPath(x))
    case Err(e) => Err(e)
    case Ok(o) => Ok(o.Some? && o.value.BlobObj?)
  }

  /** Listed: a removed path always, anything else when a blob is there. */
  predicate Shown(index: TreeStore, root: Id, kind: ChangeKind, x: Item)
    requires root in index
  {
    kind == Removed || IsBlobAt(index, root, x) == Ok(true)
  }

  /** One kind's share of the listing, in order. */
  function Keep(index: TreeStore, root: Id, kind: ChangeKind, items: seq<Item>): (r: Result<seq<Artifact>>)
    requires root in index
    ensures r.Err? <==> kind != Removed && exists x | x in items :: IsBlobAt(index, root, x).Err?
    ensures r.Ok? ==> forall a :: a in r.value <==> a.kind == kind && a.item in items && Shown(index, root, kind, a.item)
    ensures r.Ok? ==> |r.value| <= |items|
    ensures kind == Removed ==> r.Ok? && |r.value| == |items|
  {
    if |items| == 0 then Ok([])
    else
      var x := items[0];
      assert forall y :: y in items <==> y == x || y in items[1..];
      var rest := Keep(index, root, kind, items[1..]);
      if kind == Removed then
        Ok([Artifact(kind, x)] + rest.value)
      else match IsBlobAt(index, root, x)
        case Err(e) => Err(e)
        case Ok(b) =>
          if rest.Err? then rest
          else if b then Ok([Artifact(kind, x)] + rest.value)
          else rest
  }

  function Paths(ps: seq<string>): (r: seq<Item>)
    ensures |r| == |ps|
    ensures forall x :: x in r <==> x.PathItem? && x.path in ps
  {
    if |ps| == 0 then []
    else
      assert forall p :: p in ps <==> p == ps[0] || p in ps[1..];
      [PathItem(ps[0])] + Paths(ps[1..])
  }

  function Copies(cs: seq<Renames.Rename>): (r: seq<Item>)
    ensures |r| == |cs|
    ensures forall x :: x in r <==> x.CopyItem? && x.rename in cs
  {
    if |cs| == 0 then []
    else
      assert forall c :: c in cs <==> c == cs[0] || c in cs[1..];
      [CopyItem(cs[0])] + Copies(cs[1..])
  }

  /** Which artifacts the page lists: a difference of the commit of the
      right kind that is shown. */
  ghost predicate Listed(index: TreeStore, root: Id, d: Renames.Diffs, a: Artifact)
    requires root in index
  {
    && Shown(index, root, a.kind, a.item)
    && match a.kind
       case Added => a.item in Paths(d.added)
       case Removed => a.item in Paths(d.removed)
       case Changed => a.item in Paths(d.changed)
       case Copied => a.item in Copies(d.copied)
  }

  /** The artifacts of a commit's page: added, removed, changed, then
      copied. */
  function Artifacts(index: TreeStore, root: Id, d: Renames.Diffs): (r: Result<seq<Artifact>>)
    requires root in index
    ensures r.Ok? ==> forall a :: a in r.value <==> Listed(index, root, d, a)
  {
    var a :- Keep(index, root, Added, Paths(d.added));
    var rm := Keep(index, root, Removed, Paths(d.removed)).value;
    var ch :- Keep(index, root, Changed, Paths(d.changed));
    var cp :- Keep(index, root, Copied, Copies(d.copied));
    assert forall x :: x in a + rm + ch + cp <==> x in a || x in rm || x in ch || x in cp;
    Ok(a + rm + ch + cp)
  }

  /** Removed paths are always listed: only a failed blob lookup of
      another kind of change stops the page. */
  lemma RemovedAlwaysListed(index: TreeStore, root: Id, d: Renames.Diffs, p: string)
    requires root in index
    requires p in d.removed
    ensures Artifacts(index, root, d).Ok? ==> Artifact(Removed, PathItem(p)) in Artifacts(index, root, d).value
  {
  }

  /** `s[start:start + limit]` for non-negative bounds. */
  function Page<T>(s: seq<T>, start: nat, limit: nat): (p: seq<T>)
    ensures |p| <= limit
  {
    var lo := if start < |s| then start else |s|;
    var hi := if start + limit < |s| then start + limit else |s|;
    s[lo..hi]
  }

  /** `index(page, limit)`: the total count and the requested page of the
      listing; `start` and `limit` come from the paging settings. */
  function CommitIndex(index: TreeStore, root: Id, d: Renames.Diffs, start: nat, limit: nat): (r: Result<(seq<Artifact>, nat)>)
    requires root in index
    ensures r.Ok? <==> Artifacts(index, root, d).Ok?
    ensures r.Ok? ==> r.value.1 == |Artifacts(index, root, d).value| && |r.value.0| <= limit
    ensures r.Ok? ==> forall a | a in r.value.0 :: a in Artifacts(index, root, d).value
  {
    var all :- Artifacts(index, root, d);
    Ok((Page(all, start, limit), |all|))
  }

  /** The pages `n`, `n + 1`, ... of size `limit`, concatenated. */
  function PagesFrom<T>(s: seq<T>, n: nat, limit: nat): seq<T>
    requires limit > 0
    decreases |s| - n * limit
  {
    if n * limit >= |s| then [] else Page(s, n * limit, limit) + PagesFrom(s, n + 1, limit)
  }

  /** Paging through the listing shows every artifact once, in order. */
  lemma {:induction false} PagesCover<T>(s: seq<T>, n: nat, limit: nat)
    requires limit > 0
    ensures n * limit <= |s| ==> PagesFrom(s, n, limit) == s[n * limit..]
    decreases |s| - n * limit
  {
    if n * limit < |s| {
      PagesCover(s, n + 1, limit);
      if (n + 1) * limit <= |s| {
        assert s[n * limit..] == s[n * limit..(n + 1) * limit] + s[(n + 1) * limit..];
      } else {
        assert PagesFrom(s, n + 1, limit) == [];
      }
    }
  }
}
