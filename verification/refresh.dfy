/** The bookkeeping around `refresh_repo`: which commits are new, the newest
    known commit, which ids the run builder gets, the order of the refresh
    steps, the trees recorded for each commit and the one-line summary of a
    commit message. */
module Refresh {
  import opened Wrappers
  import opened RepoDocs
  import opened Text
  import TreeDiff

  /** The chunk size of the database queries (`QSIZE`). */
  const QSize: nat := 100

  // ---------------------------------------------------------------------
  // unknown_commit_ids

  /** The ids not yet in the database, in the order given. */
  function Unknown(ids: seq<Id>, known: set<Id>): (r: seq<Id>)
    ensures |r| <= |ids|
    ensures forall x :: x in r <==> x in ids && x !in known
  {
    if |ids| == 0 then []
    else
      var rest := Unknown(ids[1..], known);
      assert forall x :: x in ids <==> x == ids[0] || x in ids[1..];
      if ids[0] in known then rest else [ids[0]] + rest
  }

  /** Filtering distributes over concatenation, so it keeps the order. */
  lemma {:induction false} UnknownAppend(a: seq<Id>, b: seq<Id>, known: set<Id>)
    ensures Unknown(a + b, known) == Unknown(a, known) + Unknown(b, known)
  {
    if |a| > 0 {
      UnknownAppend(a[1..], b, known);
      assert (a + b)[0] == a[0] && (a + b)[1..] == a[1..] + b;
      var r := Unknown(a[1..], known);
      if a[0] !in known {
        assert Unknown(a + b, known) == [a[0]] + (r + Unknown(b, known));
        assert Unknown(a, known) == [a[0]] + r;
      }
    } else {
      assert a + b == b;
    }
  }

  /** `unknown_commit_ids` as written: one query per chunk of `q` ids, each
      chunk filtered against the ids the query found. */
  function UnknownChunked(ids: seq<Id>, known: set<Id>, q: nat): seq<Id>
    requires q > 0
    decreases |ids|
  {
    if |ids| == 0 then []
    else
      var n := if |ids| < q then |ids| else q;
      var found := set x | x in ids[..n] && x in known;
      Unknown(ids[..n], found) + UnknownChunked(ids[n..], known, q)
  }

  /** Chunking the query changes nothing: the result is the ids the
      database does not know, in the repository's order. */
  lemma {:induction false} UnknownChunkedIsUnknown(ids: seq<Id>, known: set<Id>, q: nat)
    requires q > 0
    ensures UnknownChunked(ids, known, q) == Unknown(ids, known)
    decreases |ids|
  {
    if |ids| > 0 {
      var n := if |ids| < q then |ids| else q;
      var found := set x | x in ids[..n] && x in known;
      UnknownSameOn(ids[..n], found, known);
      UnknownChunkedIsUnknown(ids[n..], known, q);
      UnknownAppend(ids[..n], ids[n..], known);
      assert ids[..n] + ids[n..] == ids;
    }
  }

  /** Filtering only looks at the known set on the ids themselves. */
  lemma {:induction false} UnknownSameOn(ids: seq<Id>, a: set<Id>, b: set<Id>)
    requires forall x | x in ids :: (x in a <==> x in b)
    ensures Unknown(ids, a) == Unknown(ids, b)
  {
    if |ids| > 0 {
      assert forall x | x in ids[1..] :: x in ids;
      UnknownSameOn(ids[1..], a, b);
    }
  }

  // ---------------------------------------------------------------------
  // last_known_commit_id

  /** The position of the first occurrence of `x` (`list.index`). */
  function IndexOf(s: seq<Id>, x: Id): (i: nat)
    requires x in s
    ensures i < |s| && s[i] == x && x !in s[..i]
  {
    if s[0] == x then 0
    else
      assert x in s[1..];
      var j := IndexOf(s[1..], x);
      assert s[..j + 1] == [s[0]] + s[1..][..j];
      j + 1
  }

  /** `last_known_commit_id`: nothing for an empty repository; the last id
      when nothing is new; otherwise the id just before the first new one,
      Python's index -1 wrapping round to the last id when the first new id
      comes first. A first new id that is not in the list is the
      `ValueError` of `list.index`. */
  function LastKnown(all: seq<Id>, unseen: seq<Id>): (r: Result<Option<Id>>)
    ensures r.Err? <==> |all| > 0 && |unseen| > 0 && unseen[0] !in all
    ensures r == Ok(None) <==> |all| == 0
    ensures r.Ok? && r.value.Some? ==> r.value.value in all
    ensures |all| > 0 && |unseen| == 0 ==> r == Ok(Some(all[|all| - 1]))
  {
    if |all| == 0 then Ok(None)
    else if |unseen| == 0 then Ok(Some(all[|all| - 1]))
    else if unseen[0] !in all then Err("ValueError")
    else
      var i := IndexOf(all, unseen[0]);
      Ok(Some(if i == 0 then all[|all| - 1] else all[i - 1]))
  }

  /** When the repository's ids are the known ones followed by the new ones
      (oldest to newest, no id twice), the result is the newest known id. */
  lemma LastKnownIsNewestKnown(known: seq<Id>, unseen: seq<Id>)
    requires |known| > 0 && |unseen| > 0 && unseen[0] !in known
    ensures LastKnown(known + unseen, unseen) == Ok(Some(known[|known| - 1]))
  {
    var all := known + unseen;
    assert all[|known|] == unseen[0];
  }

  /** When every id is new the wrap-around picks the newest id of all, which
      is not a known one. */
  lemma LastKnownAllNew(all: seq<Id>)
    requires |all| > 0
    ensures LastKnown(all, all) == Ok(Some(all[|all| - 1]))
  {
    assert IndexOf(all, all[0]) == 0 by {
      assert all[..0] == [];
    }
  }

  // ---------------------------------------------------------------------
  // refresh_repo

  /** One pass of `refresh_repo`, with the ids it covers. */
  datatype Step =
    | CommitInfos(ids: seq<Id>)       // refresh_commit_info for each id
    | CommitRepos(ids: seq<Id>)       // refresh_commit_repos
    | ChildRefs(ids: seq<Id>)         // refresh_children for each id
    | BuildRuns(ids: seq<Id>)         // CommitRunBuilder run + cleanup
    | CommitTrees(ids: seq<Id>)       // refresh_commit_trees for each id
    | ComputeDiffs(ids: seq<Id>)      // compute_diffs for each id
    | Notify(ids: seq<Id>)            // send_notifications

  /** ASCII `lower()`. */
  function Lower(s: string): (t: string)
    ensures |t| == |s|
  {
    if |s| == 0 then ""
    else [if 'A' <= s[0] <= 'Z' then (s[0] as int + 32) as char else s[0]] + Lower(s[1..])
  }

  function Reverse(s: seq<Id>): (r: seq<Id>)
    ensures |r| == |s| && forall i | 0 <= i < |s| :: r[i] == s[|s| - 1 - i]
  {
    if |s| == 0 then [] else Reverse(s[1..]) + [s[0]]
  }

  /** The ids handed to the run builder: the commits being refreshed, or
      every commit when the runs hold no run with the newest known commit. */
  function RunIds(all: seq<Id>, unseen: seq<Id>, ids: seq<Id>, runs: RunStore): Result<seq<Id>> {
    if ids == all then Ok(ids)
    else
      var last :- LastKnown(all, unseen);
      if exists k | k in runs :: last.Some? && last.value in runs[k].commitIds then Ok(ids) else Ok(all)
  }

  /** The steps of `refresh_repo`, in order, once the ids are chosen. */
  function Steps(ids: seq<Id>, all: seq<Id>, runIds: seq<Id>, svn: bool, notify: bool): seq<Step> {
    [CommitInfos(ids), CommitRepos(all), ChildRefs(ids), BuildRuns(runIds)]
    + (if svn then [] else [CommitTrees(ids), ComputeDiffs(Reverse(all))])
    + (if notify then [Notify(ids)] else [])
  }

  /** The commits being refreshed get their info, children, trees and
      notifications; every commit gets its repository ids and, in reverse
      order, its diffs; Subversion skips trees and diffs. */
  lemma StepsOrder(ids: seq<Id>, all: seq<Id>, runIds: seq<Id>, svn: bool, notify: bool)
    ensures var r := Steps(ids, all, runIds, svn, notify);
            |r| == 4 + (if svn then 0 else 2) + (if notify then 1 else 0)
            && r[0] == CommitInfos(ids) && r[1] == CommitRepos(all) && r[2] == ChildRefs(ids) && r[3] == BuildRuns(runIds)
            && (!svn ==> r[4] == CommitTrees(ids) && r[5] == ComputeDiffs(Reverse(all)))
            && (notify ==> r[|r| - 1] == Notify(ids))
            && multiset(Reverse(all)) == multiset(all)
  {
    ReverseMultiset(all);
  }

  lemma {:induction false} ReverseMultiset(s: seq<Id>)
    ensures multiset(Reverse(s)) == multiset(s)
  {
    if |s| > 0 {
      ReverseMultiset(s[1..]);
      assert s == [s[0]] + s[1..];
    }
  }

  /** The steps of `refresh_repo` for a repository whose commits are `all`,
      against the commit ids already stored and the stored runs. */
  function Plan(all: seq<Id>, known: set<Id>, runs: RunStore, allCommits: bool, notify: bool, tool: string): Result<seq<Step>> {
    if |all| == 0 then Ok([])
    else
      var unseen := Unknown(all, known);
      var ids := if allCommits then all else unseen;
      var runIds :- RunIds(all, unseen, ids, runs);
      Ok(Steps(ids, all, runIds, Lower(tool) == "svn", notify))
  }

  /** A refresh of an empty repository does nothing; otherwise it refreshes
      the unknown commits (every commit with `all_commits`) and the run
      builder gets those or every commit. The `ValueError` of the
      newest-known lookup cannot happen here, so the plan always exists. */
  lemma PlanSteps(all: seq<Id>, known: set<Id>, runs: RunStore, allCommits: bool, notify: bool, tool: string)
    ensures var r := Plan(all, known, runs, allCommits, notify, tool);
            var ids := if allCommits then all else Unknown(all, known);
            var svn := Lower(tool) == "svn";
            r.Ok?
            && (|all| == 0 ==> r.value == [])
            && (|all| > 0 ==> r.value == Steps(ids, all, ids, svn, notify) || r.value == Steps(ids, all, all, svn, notify))
  {
    if |all| > 0 {
      var unseen := Unknown(all, known);
      if |unseen| > 0 {
        assert unseen[0] in unseen;
      }
    }
  }

  lemma {:induction false} UnknownNone(ids: seq<Id>, known: set<Id>)
    requires forall x | x in ids :: x in known
    ensures Unknown(ids, known) == []
  {
    if |ids| > 0 {
      assert forall x | x in ids[1..] :: x in ids;
      UnknownNone(ids[1..], known);
    }
  }

  lemma {:induction false} UnknownAll(ids: seq<Id>, known: set<Id>)
    requires forall x | x in ids :: x !in known
    ensures Unknown(ids, known) == ids
  {
    if |ids| > 0 {
      assert forall x | x in ids[1..] :: x in ids;
      UnknownAll(ids[1..], known);
      assert ids == [ids[0]] + ids[1..];
    }
  }

  /** With the stored commits first, the unknown ones are the rest. */
  lemma UnknownAfterStored(stored: seq<Id>, unseen: seq<Id>, known: set<Id>)
    requires forall x | x in stored :: x in known
    requires forall x | x in unseen :: x !in known
    ensures Unknown(stored + unseen, known) == unseen
  {
    UnknownAppend(stored, unseen, known);
    UnknownNone(stored, known);
    UnknownAll(unseen, known);
  }

  /** An incremental refresh of a repository whose stored commits are an
      oldest-first prefix hands the run builder just the new commits when a
      stored run holds the newest stored commit, and every commit when none
      does. */
  lemma PlanRebuildsLostRuns(stored: seq<Id>, unseen: seq<Id>, known: set<Id>, runs: RunStore, notify: bool, tool: string)
    requires |stored| > 0 && |unseen| > 0 && unseen[0] !in stored
    requires forall x | x in stored :: x in known
    requires forall x | x in unseen :: x !in known
    ensures var r := Plan(stored + unseen, known, runs, false, notify, tool);
            var kept := exists k | k in runs :: stored[|stored| - 1] in runs[k].commitIds;
            r == Ok(Steps(unseen, stored + unseen, if kept then unseen else stored + unseen, Lower(tool) == "svn", notify))
  {
    UnknownAfterStored(stored, unseen, known);
    var all := stored + unseen;
    assert unseen != all;
    LastKnownIsNewestKnown(stored, unseen);
    var kept := exists k | k in runs :: stored[|stored| - 1] in runs[k].commitIds;
    var runIds := if kept then unseen else all;
    assert RunIds(all, unseen, unseen, runs) == Ok(runIds);
    assert Plan(all, known, runs, false, notify, tool) == Ok(Steps(unseen, all, runIds, Lower(tool) == "svn", notify));
  }

  // ---------------------------------------------------------------------
  // trees, refresh_commit_trees

  /** `trees(id)`: the tree itself, then the trees under each subtree entry
      in entry order (a pre-order walk; a subtree reached twice is listed
      twice). */
  function Trees(index: TreeStore, ghost height: map<Id, nat>, id: Id): (r: seq<Id>)
    requires TreeDiff.Ranked(index, height) && id in index
    ensures |r| > 0 && r[0] == id && forall x | x in r :: x in index
    decreases height[id], 1
  {
    [id] + TreesUnder(index, height, height[id], index[id].treeIds)
  }

  function TreesUnder(index: TreeStore, ghost height: map<Id, nat>, ghost d: nat, es: seq<Entry>): (r: seq<Id>)
    requires TreeDiff.Ranked(index, height) && TreeDiff.EntriesFit(index, height, es, d)
    ensures forall x | x in r :: x in index
    decreases d, 0, |es|
  {
    if |es| == 0 then [] else Trees(index, height, es[0].id) + TreesUnder(index, height, d, es[1..])
  }

  /** The tree reached from `t` by taking, at each level, the subtree entry
      at the given position; the reference meaning of "a tree of `t`". */
  ghost function Under(index: TreeStore, t: Id, ps: seq<nat>): Option<Id>
    decreases |ps|
  {
    if |ps| == 0 then Some(t)
    else if t in index && ps[0] < |index[t].treeIds| then Under(index, index[t].treeIds[ps[0]].id, ps[1..])
    else None
  }

  lemma FitsTail(index: TreeStore, height: map<Id, nat>, es: seq<Entry>, d: nat)
    requires TreeDiff.EntriesFit(index, height, es, d) && |es| > 0
    ensures TreeDiff.EntriesFit(index, height, es[1..], d)
  {
    assert forall e | e in es[1..] :: e in es;
  }

  /** The walk below entry `i` is part of the walk below all entries. */
  lemma {:induction false} TreesUnderKeep(index: TreeStore, height: map<Id, nat>, d: nat, es: seq<Entry>, i: nat, x: Id)
    requires TreeDiff.Ranked(index, height) && TreeDiff.EntriesFit(index, height, es, d) && i < |es|
    requires x in Trees(index, height, es[i].id)
    ensures x in TreesUnder(index, height, d, es)
    decreases i
  {
    assert TreesUnder(index, height, d, es) == Trees(index, height, es[0].id) + TreesUnder(index, height, d, es[1..]);
    if i > 0 {
      FitsTail(index, height, es, d);
      assert es[1..][i - 1] == es[i];
      TreesUnderKeep(index, height, d, es[1..], i - 1, x);
    }
  }

  /** Something under the entries is under one of them. */
  lemma {:induction false} TreesUnderSplit(index: TreeStore, height: map<Id, nat>, d: nat, es: seq<Entry>, x: Id)
    returns (i: nat)
    requires TreeDiff.Ranked(index, height) && TreeDiff.EntriesFit(index, height, es, d)
    requires x in TreesUnder(index, height, d, es)
    ensures i < |es| && x in Trees(index, height, es[i].id)
    decreases |es|
  {
    assert TreesUnder(index, height, d, es) == Trees(index, height, es[0].id) + TreesUnder(index, height, d, es[1..]);
    if x in Trees(index, height, es[0].id) {
      i := 0;
    } else {
      FitsTail(index, height, es, d);
      var j := TreesUnderSplit(index, height, d, es[1..], x);
      i := j + 1;
    }
  }

  /** Every tree the walk lists is a tree of `id`. */
  lemma {:induction false} TreesSound(index: TreeStore, height: map<Id, nat>, id: Id, x: Id)
    requires TreeDiff.Ranked(index, height) && id in index
    requires x in Trees(index, height, id)
    ensures exists ps :: Under(index, id, ps) == Some(x)
    decreases height[id]
  {
    if x == id {
      assert Under(index, id, []) == Some(x);
    } else {
      var es := index[id].treeIds;
      var i := TreesUnderSplit(index, height, height[id], es, x);
      TreesSound(index, height, es[i].id, x);
      var ps :| Under(index, es[i].id, ps) == Some(x);
      assert ([i] + ps)[0] == i && ([i] + ps)[1..] == ps;
      assert Under(index, id, [i] + ps) == Some(x);
    }
  }

  /** Every tree of `id` is listed by the walk. */
  lemma {:induction false} TreesComplete(index: TreeStore, height: map<Id, nat>, id: Id, ps: seq<nat>, x: Id)
    requires TreeDiff.Ranked(index, height) && id in index
    requires Under(index, id, ps) == Some(x)
    ensures x in Trees(index, height, id)
    decreases |ps|
  {
    if |ps| > 0 {
      var es := index[id].treeIds;
      var e := es[ps[0]];
      assert e in es;
      TreesComplete(index, height, e.id, ps[1..], x);
      TreesUnderKeep(index, height, height[id], es, ps[0], x);
    }
  }

  /** `refresh_commit_trees`: a commit without a tree records nothing;
      otherwise the walk of its tree. */
  function TreesOfCommit(index: TreeStore, ghost height: map<Id, nat>, c: CommitDoc): (r: Option<seq<Id>>)
    requires TreeDiff.Ranked(index, height) && (c.treeId.Some? ==> c.treeId.value in index)
    ensures r.None? <==> c.treeId.None?
    ensures r.Some? ==> |r.value| > 0 && r.value[0] == c.treeId.value
  {
    if c.treeId.None? then None else Some(Trees(index, height, c.treeId.value))
  }

  // ---------------------------------------------------------------------
  // _summarize

  /** The line breaks of Python 2 `str.splitlines`. */
  predicate LineBreak(c: char) {
    c == '\n' || c == '\r'
  }

  /** The position of the first line break, or the length. */
  function FirstBreak(s: string): (i: nat)
    ensures i <= |s| && (forall j | 0 <= j < i :: !LineBreak(s[j])) && (i < |s| ==> LineBreak(s[i]))
  {
    if |s| == 0 || LineBreak(s[0]) then 0 else 1 + FirstBreak(s[1..])
  }

  /** `s.splitlines()`: lines end at "\n", "\r" or "\r\n", and there is
      no empty last line after a final break. */
  function SplitLines(s: string): (ls: seq<string>)
    ensures forall l | l in ls :: forall j | 0 <= j < |l| :: !LineBreak(l[j])
    decreases |s|
  {
    if |s| == 0 then []
    else
      var i := FirstBreak(s);
      if i == |s| then [s]
      else
        var k := if s[i] == '\r' && i + 1 < |s| && s[i + 1] == '\n' then i + 2 else i + 1;
        [s[..i]] + SplitLines(s[k..])
  }

  /** The leading lines, right-stripped, up to the first blank one. */
  function Paragraph(ls: seq<string>): (p: seq<string>)
    ensures |p| <= |ls|
    ensures forall i | 0 <= i < |p| :: p[i] == RStrip(ls[i]) && |p[i]| > 0
  {
    if |ls| == 0 || |RStrip(ls[0])| == 0 then [] else [RStrip(ls[0])] + Paragraph(ls[1..])
  }

  /** `_summarize`: the first paragraph of a commit message on one line. */
  function Summarize(message: string): string {
    if |message| == 0 then "" else Join(Paragraph(SplitLines(message)), " ")
  }

  /** A line followed by "\n" splits off as the first line. */
  lemma SplitLinesCons(line: string, rest: string)
    requires forall j | 0 <= j < |line| :: !LineBreak(line[j])
    ensures SplitLines(line + "\n" + rest) == [line] + SplitLines(rest)
  {
    var s := line + "\n" + rest;
    assert s[|line|] == '\n';
    assert forall j | 0 <= j < |line| :: s[j] == line[j];
    assert FirstBreak(s) == |line|;
    assert s[..|line|] == line && s[|line| + 1..] == rest;
  }

  /** Lines joined by "\n" and followed by a blank line split back into
      those lines and a blank one. */
  lemma {:induction false} SplitLinesParagraph(lines: seq<string>, rest: string)
    requires |lines| > 0
    requires forall l | l in lines :: forall j | 0 <= j < |l| :: !LineBreak(l[j])
    ensures SplitLines(Join(lines, "\n") + "\n\n" + rest) == lines + SplitLines("\n" + rest)
  {
    var after := SplitLines("\n" + rest);
    if |lines| == 1 {
      assert Join(lines, "\n") + "\n\n" + rest == lines[0] + "\n" + ("\n" + rest);
      SplitLinesCons(lines[0], "\n" + rest);
      ConsAppend(lines, after);
    } else {
      assert Join(lines, "\n") + "\n\n" + rest == lines[0] + "\n" + (Join(lines[1..], "\n") + "\n\n" + rest);
      assert lines[0] in lines;
      SplitLinesCons(lines[0], Join(lines[1..], "\n") + "\n\n" + rest);
      assert forall l | l in lines[1..] :: l in lines;
      SplitLinesParagraph(lines[1..], rest);
      ConsAppend(lines, after);
    }
  }

  lemma ConsAppend<T>(s: seq<T>, a: seq<T>)
    requires |s| > 0
    ensures [s[0]] + (s[1..] + a) == s + a
  {
    assert s == [s[0]] + s[1..];
  }

  /** The first paragraph of non-blank lines, the rest of the message
      ignored. */
  lemma {:induction false} ParagraphStops(lines: seq<string>, more: seq<string>)
    requires forall i | 0 <= i < |lines| :: |RStrip(lines[i])| > 0
    ensures Paragraph(lines + [""] + more) == seq(|lines|, i requires 0 <= i < |lines| => RStrip(lines[i]))
  {
    if |lines| > 0 {
      ParagraphStops(lines[1..], more);
      assert (lines + [""] + more)[1..] == lines[1..] + [""] + more;
    } else {
      assert (lines + [""] + more)[0] == "";
    }
  }

  /** A message whose first paragraph is `lines` (no line breaks inside, none
      blank) followed by a blank line is summarized as those lines,
      right-stripped and joined by spaces, whatever follows. */
  lemma SummarizeFirstParagraph(lines: seq<string>, rest: string)
    requires |lines| > 0
    requires forall l | l in lines :: forall j | 0 <= j < |l| :: !LineBreak(l[j])
    requires forall i | 0 <= i < |lines| :: |RStrip(lines[i])| > 0
    ensures Summarize(Join(lines, "\n") + "\n\n" + rest)
            == Join(seq(|lines|, i requires 0 <= i < |lines| => RStrip(lines[i])), " ")
  {
    var msg := Join(lines, "\n") + "\n\n" + rest;
    SplitLinesParagraph(lines, rest);
    SplitLinesCons("", rest);
    assert "" + "\n" + rest == "\n" + rest;
    assert SplitLines(msg) == lines + [""] + SplitLines(rest);
    ParagraphStops(lines, SplitLines(rest));
  }

  /** The summary is a single line. */
  lemma SummarizeOneLine(message: string)
    ensures forall j | 0 <= j < |Summarize(message)| :: !LineBreak(Summarize(message)[j])
  {
    if |message| > 0 {
      var p := Paragraph(SplitLines(message));
      forall i | 0 <= i < |p|
        ensures forall j | 0 <= j < |p[i]| :: !LineBreak(p[i][j])
      {
        var l := SplitLines(message)[i];
        assert l in SplitLines(message);
        assert p[i] == l[..|p[i]|];
      }
      JoinNoBreak(p, " ");
    }
  }

  lemma {:induction false} JoinNoBreak(parts: seq<string>, sep: string)
    requires forall j | 0 <= j < |sep| :: !LineBreak(sep[j])
    requires forall i | 0 <= i < |parts| :: forall j | 0 <= j < |parts[i]| :: !LineBreak(parts[i][j])
    ensures forall j | 0 <= j < |Join(parts, sep)| :: !LineBreak(Join(parts, sep)[j])
  {
    if |parts| > 1 {
      JoinNoBreak(parts[1..], sep);
      var r := Join(parts[1..], sep);
      assert Join(parts, sep) == parts[0] + sep + r;
      forall j | 0 <= j < |Join(parts, sep)|
        ensures !LineBreak(Join(parts, sep)[j])
      {
        if j < |parts[0]| {
        } else if j < |parts[0]| + |sep| {
          assert Join(parts, sep)[j] == sep[j - |parts[0]|];
        } else {
          assert Join(parts, sep)[j] == r[j - |parts[0]| - |sep|];
        }
      }
    }
  }
}
