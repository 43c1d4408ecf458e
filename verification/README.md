# Allura repository engine and rule cores, in Dafny

This project models the part of Allura, the SourceForge forge platform, that indexes source-code
repositories and answers history questions about them. It also models a handful of small rule
cores around it. Every store is an in-memory map or sequence, and every operation is a pure
function or a method with loop invariants. Digests, similarity ratios, regular expressions and
version-control calls become parameters.

One module per source component:

| file | module | what it models |
|---|---|---|
| `wrappers.dfy` | `Wrappers` | `Option` and `Result` |
| `repo_docs.dfy` | `RepoDocs` | the persisted commit, tree and commit-run documents |
| `text.dfy`, `sets.dfy`, `sorting.dfy` | `Text`, `Sets`, `Sorting` | string splitting and stripping, set cardinality, Python's stable `sorted` and string order |
| `commit_runs.dfy` | `CommitRuns` | `CommitRunBuilder.run` and `merge_runs`: single-parent chains of commits compressed into runs, indexed by `run_index` |
| `run_cleanup.dfy` | `RunCleanup` | `CommitRunBuilder.cleanup`, both passes, as written and corrected |
| `commit_log.dfy` | `CommitLog` | `commitlog`: `_visit` over runs, then the ready-set walk of `_gen_ids` with skip and limit; `Commit.log_iter` |
| `tree_diff.dfy` | `TreeDiff` | `_diff_trees` and `compute_diffs`: the lock-step diff of two trees |
| `last_commit.dfy` | `LastCommit` | `refresh_last_commit`: the last-commit records written for changed children |
| `refresh.dfy` | `Refresh` | `unknown_commit_ids`, `last_known_commit_id`, the step order of `refresh_repo`, `trees`, `_summarize` |
| `renames.dfy` | `Renames` | `Commit.diffs` and `_diffs_copied`: change classification and rename pairing |
| `tree_objects.dfy` | `TreeObjects` | `Tree.by_name`, `get_obj_by_path`, `ls` and paths |
| `git_tree.dfy` | `GitTree` | `GitLikeTree`: paths set and read, the canonical `repr` and `hex` |
| `topo_sort.dfy` | `TopoSort` | `topological_sort` |
| `repository.dfy` | `Repository` | `DiffObject`, `shorthand_for_commit`, `url_for_commit`, the `refresh` status protocol, `MergeRequest._commits` |
| `browser.dfy` | `Browser` | the commit browser's `topo_sort` and column allocation, `RefsController._lookup`, `CommitBrowser.index` paging, `commit_browser` status |
| `git_repo.dfy` | `GitRepo` | the Git adapter: the blob line iterator, hex ids, `log`, `all_commit_ids`, `commit` resolution, `refresh_tree_info`, `refresh_commit_info` |
| `markdown.dfy` | `Markdown` | the Markdown extensions: escaping, fenced code, the placeholder stash, link expansion, relative-link rewriting |
| `shortlinks.dfy` | `Shortlinks` | `Shortlink._parse_link`, `from_links` (as written and corrected), `from_artifact` upserts |
| `project_mounts.dfy` | `ProjectMounts` | `Project.ordered_mounts`, `next_mount_point`, `install_app`, `uninstall_app`, `private`, `roleids_with_permission`, `subprojects`, and the delete cascade of `delete_project` |
| `admin_groups.dfy` | `AdminGroups` | the project admin's trove categories, permission table, `change_perm`, `add_user`, `remove_user` and group update |
| `auth_registration.dfy` | `AuthRegistration` | `by_username`, `project_url`, password salt layout, `rate_limit`, `register_project` guards, `name_taken`, template groups |

Python's unspecified orders are modelled as follows:
- Dictionary and set iteration becomes an explicit order parameter or a nondeterministic choice.
- A Mongo query without a sort becomes the given sequence order.

## Model

| member | source | states |
|---|---|---|
| CommitRuns.ChainDescends | Allura/allura/model/repo_refresh.py:255-260 | along a run built by merging, every later commit lies strictly further back in history than every earlier one, so no commit repeats in a run |
| CommitRuns.Repoint | Allura/allura/model/repo_refresh.py:261-262 | after re-pointing, exactly the absorbed commits map to the absorbing run and every other index entry is unchanged |
| CommitRuns.AbsorbChain | Allura/allura/model/repo_refresh.py:258-260 | a run that absorbs the run headed by its only parent is still a parent-linked chain, and the absorbed run lies further back in history |
| CommitRuns.MergeIndexExact | Allura/allura/model/repo_refresh.py:258-266 | after a merge the run index still maps every commit to the one run that holds it |
| CommitRuns.RunsAfterMerge | Allura/allura/model/repo_refresh.py:258-266 | replacing a run by its merge with its parent's run and deleting the parent's run keeps every run a chain keyed by its newest commit; a run never absorbs itself |
| CommitRuns.IndexCovers | Allura/allura/model/repo_refresh.py:261-262 | every commit of an indexed run is indexed to that run (see also line 177) |
| CommitRuns.MergeStepValid | Allura/allura/model/repo_refresh.py:242-266 | one merge keeps the builder invariant and the set of indexed commits, and removes exactly one run |
| CommitRuns.MergeParent | Allura/allura/model/repo_refresh.py:246-257 | the run absorbed by a merge is the run keyed by the parent commit itself, distinct from the absorbing run |
| CommitRuns.MergeRunsValid | Allura/allura/model/repo_refresh.py:258-266 | the runs after one merge are chains keyed by their newest commits |
| CommitRuns.MergeIndexValid | Allura/allura/model/repo_refresh.py:261-262 | the index after one merge is exact and covers the same commits |
| CommitRuns.MergeRuns | Allura/allura/model/repo_refresh.py:239-266 | the merge loop ends (each merge removes a run), keeps the builder invariant and the indexed commits, and stops only when no run meets the four merge conditions |
| CommitRuns.AddCommits | Allura/allura/model/repo_refresh.py:173-182 | every found commit not yet indexed becomes indexed and starts a one-commit run; runs already indexed are untouched |
| CommitRuns.AddCommitsValid | Allura/allura/model/repo_refresh.py:173-182 | adding one-commit runs for unindexed commits keeps the builder invariant |
| CommitRuns.BuildRuns | Allura/allura/model/repo_refresh.py:171-189 | after `run` every stored commit among the ids is in exactly one run, every run is a chain keyed by its newest commit, and no run can absorb another |
| CommitRuns.LoneParentHeadsRun | Allura/allura/model/repo_refresh.py:243-257 | a run whose only parent is indexed and has no other child can absorb that parent's run |
| CommitRuns.SettledRunEndsAtRoot | Allura/allura/model/repo_refresh.py:239-266 | once a linear history is fully indexed and settled, every run ends at the history's first commit |
| CommitRuns.SameRoot | Allura/allura/model/repo_refresh.py:239-266 | in a settled linear history two runs are the same run |
| CommitRuns.LinearHistoryOneRun | Allura/allura/model/repo_refresh.py:171-189 | building the runs of a whole linear history leaves a single run holding every commit |
| CommitRuns.Singleton | Allura/allura/model/repo_refresh.py:173-182 | defined by its body: the one-commit run a newly seen commit starts, holding its parents and date; stated by CommitRuns.AddCommits |
| CommitRuns.Chain | Allura/allura/model/repo_refresh.py:255-260 | defined by its body: a run follows the commit graph, each commit's only parent being the next and the last commit's parents the run's; stated by CommitRuns.ChainDescends, CommitRuns.AbsorbChain |
| CommitRuns.Absorb | Allura/allura/model/repo_refresh.py:258-260 | defined by its body: a run extended by the run headed by its only parent, taking that run's parents; stated by CommitRuns.AbsorbChain, CommitRuns.RunsAfterMerge |
| CommitRuns.Mergeable | Allura/allura/model/repo_refresh.py:246-257 | defined by its body: the four conditions under which `merge_runs` lets a run absorb its parent's run; stated by CommitRuns.MergeParent, CommitRuns.MergeStepValid |
| CommitRuns.MergeStep | Allura/allura/model/repo_refresh.py:258-266 | defined by its body: one absorption, re-indexing the absorbed commits and dropping the absorbed run; stated by CommitRuns.MergeIndexExact, CommitRuns.MergeStepValid, CommitRuns.MergeRunsValid |
| RunCleanup.SaveRuns | Allura/allura/model/repo_refresh.py:187-188 | saving the built runs overwrites exactly their ids and leaves every other stored run unchanged |
| RunCleanup.Touching | Allura/allura/model/repo_refresh.py:194-199 | the first queries find every stored run holding one of the ids or listing one as a parent |
| RunCleanup.Grow | Allura/allura/model/repo_refresh.py:202-209 | one round of the walk adds exactly the runs holding a parent of a run already found |
| RunCleanup.Close | Allura/allura/model/repo_refresh.py:200-209 | the walk's result contains the start set and is closed: no run outside it holds a parent of a run in it |
| RunCleanup.CloseLeast | Allura/allura/model/repo_refresh.py:200-209 | the walk adds nothing beyond what closure forces: it is contained in every closed set containing the start |
| RunCleanup.AllRuns | Allura/allura/model/repo_refresh.py:191-209 | `_all_runs` yields the touching runs and is closed under holding-a-parent |
| RunCleanup.AllRunsLeast | Allura/allura/model/repo_refresh.py:191-209 | `_all_runs` yields no run that closure does not force |
| RunCleanup.Gathered | Allura/allura/model/repo_refresh.py:213-215 | the dictionary of gathered runs holds exactly the runs `_all_runs` yields, unchanged |
| RunCleanup.Pass1 | Allura/allura/model/repo_refresh.py:216-225 | the first pass keeps the dictionary's keys and only saves gathered runs; runs stay keyed by their newest commit |
| RunCleanup.Pass2 | Allura/allura/model/repo_refresh.py:226-237 | the second pass only deletes runs that are a subset of another run or hold another run's head, and afterwards no surviving run holds the head of a visited run |
| RunCleanup.DropHolders | Allura/allura/model/repo_refresh.py:233-237 | deleting the holders of run x's head removes exactly the other runs that contain x's head |
| RunCleanup.DropSubsetStep | Allura/allura/model/repo_refresh.py:228-232 | deleting a visited run that is a subset of another keeps the second pass's invariant |
| RunCleanup.DropHoldersStep | Allura/allura/model/repo_refresh.py:233-237 | deleting the other runs holding a visited run's head keeps the second pass's invariant |
| RunCleanup.AfterPass1 | Allura/allura/model/repo_refresh.py:213-225 | after the first pass every stored run is either untouched or one of the gathered runs |
| RunCleanup.Cleanup | Allura/allura/model/repo_refresh.py:211-237 | `cleanup` as written keeps only runs of the first pass's result, deletes only for one of the two causes, and leaves no run holding a visited run's head |
| RunCleanup.ExampleGathered | Allura/allura/model/repo_refresh.py:191-209 | for three one-commit runs a, b, c linked by parents, `_all_runs` on commit b gathers all three |
| RunCleanup.ExamplePass1 | Allura/allura/model/repo_refresh.py:216-225 | in the order a, b, c the first pass saves run a as a+b and saves run b again as b+c although b's document was deleted |
| RunCleanup.LostCommitExample | Allura/allura/model/repo_refresh.py:211-237 | on that example `cleanup` as written leaves commit a in no run at all (finding 1) |
| RunCleanup.ExampleSecondPass | Allura/allura/model/repo_refresh.py:226-237 | whatever order the second pass takes, it keeps run b and deletes run a, which holds b's head |
| RunCleanup.MergeKeepsCommits | Allura/allura/model/repo_refresh.py:221-225 | merging a run into its child keeps the set of held commits, and keeps disjoint runs disjoint |
| RunCleanup.AbsorbStep | Allura/allura/model/repo_refresh.py:221-225 | one corrected merge step removes the absorbed run from both the dictionary and the store and keeps every commit held |
| RunCleanup.MergeGathered | Allura/allura/model/repo_refresh.py:216-225 | the corrected first pass keeps every run a chain, loses no commit, keeps disjoint runs disjoint, and stops only when no gathered run can absorb another |
| RunCleanup.DisjointNothingToDelete | Allura/allura/model/repo_refresh.py:226-237 | on disjoint runs keyed by their heads the second pass deletes nothing |
| RunCleanup.CleanupFixed | Allura/allura/model/repo_refresh.py:211-237 | `cleanup` with the corrected first pass keeps every commit of disjoint runs in exactly one run |
| RunCleanup.IncrementalCleanup | Allura/allura/tests/model/test_repo.py:488-501 | adding a new parent commit to a history stored as one run, then running `cleanup` in any order, leaves one run: the old run followed by the new commit, still a chain |
| RunCleanup.Feeds | Allura/allura/model/repo_refresh.py:202-209 | defined by its body: a stored run holds a parent of another stored run's last commit; stated by RunCleanup.Grow |
| RunCleanup.FeedsOf | Allura/allura/model/repo_refresh.py:202-209 | ensures the runs it gives are runs of the store; stated by RunCleanup.Pass2 |
| RunCleanup.SubsetOfOther | Allura/allura/model/repo_refresh.py:228-232 | defined by its body: every commit of the run lies in some other run, the first reason to delete it; stated by RunCleanup.DropSubsetStep |
| RunCleanup.HoldsOtherHead | Allura/allura/model/repo_refresh.py:233-237 | defined by its body: the run holds the head of some other run, the second reason to delete it; stated by RunCleanup.DropHoldersStep, RunCleanup.DisjointNothingToDelete |
| RunCleanup.DeletedForCause | Allura/allura/model/repo_refresh.py:226-237 | defined by its body: every run deleted had one of the two reasons; stated by RunCleanup.Pass2, RunCleanup.Cleanup |
| RunCleanup.CanAbsorb | Allura/allura/model/repo_refresh.py:221-225 | defined by its body: a gathered run whose only parent heads another gathered run; stated by RunCleanup.AbsorbStep, RunCleanup.MergeGathered |
| RunCleanup.Commits | Allura/allura/model/repo_refresh.py:216-225 | defined by its body: the commits held by some run; stated by RunCleanup.MergeKeepsCommits, RunCleanup.CleanupFixed |
| CommitLog.Universe | Allura/allura/model/repo.py:606-607 | every commit held by a run the query can return is in the universe the walk can reach |
| CommitLog.Record | Allura/allura/model/repo.py:608-617 | recording a run from a position on marks exactly those commits seen and gives each its run time and, as parents, the next commit of the run or the run's own parents for the last one; nothing else recorded changes |
| CommitLog.Visit | Allura/allura/model/repo.py:604-619 | `_visit` only ever adds seen commits, from runs the query returns, keeps times and parents recorded for exactly the seen commits, and a commit some run holds ends up seen |
| CommitLog.VisitAll | Allura/allura/model/repo.py:653-654 | visiting each requested id in turn sees every requested id that some run holds |
| CommitLog.LoadGraph | Allura/allura/model/repo.py:649-654 | the loaded graph records times and parents for exactly the seen commits, all of which the run query can reach, including every requested id that a run holds |
| CommitLog.InitChildren | Allura/allura/model/repo.py:651-657 | the children table lists, for each id, exactly the loaded commits naming it as a parent |
| CommitLog.Release | Allura/allura/model/repo.py:640-646 | releasing a commit's parents removes it from each parent's children, readies exactly the parents left childless, and the new parent is the last one readied |
| CommitLog.Step | Allura/allura/model/repo.py:631-637 | one iteration as written either drops the pick while skip lasts or yields it, and uses up one unit of skip or limit |
| CommitLog.ReleaseKeepsInv | Allura/allura/model/repo.py:638-646 | releasing the parents of a ready commit keeps the walk's invariant: ready commits have no unpicked loaded children |
| CommitLog.StepKeepsInv | Allura/allura/model/repo.py:625-646 | each iteration as written keeps the walk's invariant |
| CommitLog.YieldKeepsOrder | Allura/allura/model/repo.py:636-637 | a yielded commit comes after all of its loaded children and is yielded only once |
| CommitLog.Latest | Allura/allura/model/repo.py:630 | a non-empty set of timed commits has one with the latest time |
| CommitLog.PickNext | Allura/allura/model/repo.py:627-630 | the pick is the just-released parent when it is ready, otherwise a ready commit with the latest time; it fails exactly when that max reads a commit with no time (the KeyError) |
| CommitLog.TraceSnoc | Allura/allura/model/repo.py:625-646 | a walk extended by one pick made by the pick rule is still a walk |
| CommitLog.PendingStep | Allura/allura/model/repo.py:638-646 | releasing the parents of a ready commit keeps every requested or reachable pending commit ready or done |
| CommitLog.RunStep | Allura/allura/model/repo.py:625-646 | one more pick by the rule extends a run of the walk |
| CommitLog.OrderedStep | Allura/allura/model/repo.py:625-646 | one iteration as written keeps the order invariant of the yielded commits |
| CommitLog.OrderedFixedStep | Allura/allura/model/repo.py:625-646 | one iteration of the corrected walk keeps its order invariant |
| CommitLog.GenIds | Allura/allura/model/repo.py:621-646 | `_gen_ids` as written yields the picks after the first skip ones, at most limit of them, each after its loaded children and once; it stops when nothing is ready or the limit is used; a failure is the KeyError of a commit with no time |
| CommitLog.CommitLogIds | Allura/allura/model/repo.py:602-659 | `commitlog` loads the graph from the requested ids and walks it with the properties of `_gen_ids`; it fails only on a commit the loaded graph never saw |
| CommitLog.SkipKeepsChildren | Allura/allura/model/repo.py:632-634 | a skipped pick as written leaves the children table unchanged and releases none of its parents |
| CommitLog.ChainChildren | Allura/allura/model/repo.py:655-657 | the children table of the history c, b, a built from the loaded parents |
| CommitLog.SkipOneYieldsNothing | Allura/allura/model/repo.py:632-634 | on the linear history c, b, a with skip 1, the walk as written picks a, drops it and stops with nothing yielded (finding 2) |
| CommitLog.StepFixed | Allura/allura/model/repo.py:631-646 | a corrected iteration releases the pick's parents whether or not the pick is skipped, and yields it only when skip is used up |
| CommitLog.SkipOneFixed | Allura/allura/model/repo.py:621-646 | with the correction, skipping one commit of c, b, a yields b then c |
| CommitLog.FixedFirst | Allura/allura/model/repo.py:621-646 | the corrected walk's first step after skipping a readies b |
| CommitLog.FixedSecond | Allura/allura/model/repo.py:621-646 | yielding b readies c |
| CommitLog.FixedThird | Allura/allura/model/repo.py:621-646 | yielding c empties the ready set |
| CommitLog.GenIdsFixed | Allura/allura/model/repo.py:621-646 | the corrected walk yields exactly the slice log_iter takes from all of its picks, each after its children and once, and when the limit is not reached it has picked every reachable commit |
| CommitLog.GenFixedDone | Allura/allura/model/repo.py:621-646 | the corrected walk's results once its loop ends |
| CommitLog.LookedUpStored | Allura/allura/model/repo.py:606 | a commit the run query finds is a stored commit |
| CommitLog.RunBelow | Allura/allura/model/repo.py:608-617 | the commits a run records from a position on are ancestors of the start, with their stored parents |
| CommitLog.RunParentsBelow | Allura/allura/model/repo.py:618-619 | the parents of a run found from an ancestor of the start are ancestors of the start |
| CommitLog.RecordBelow | Allura/allura/model/repo.py:608-617 | recording a chain found from an ancestor keeps every loaded commit an ancestor of the start |
| CommitLog.VisitBelow | Allura/allura/model/repo.py:604-619 | `_visit` from an ancestor loads only ancestors of the start |
| CommitLog.VisitAllBelow | Allura/allura/model/repo.py:653-654 | visiting ancestors in turn loads only ancestors of the start |
| CommitLog.SingleStartChildless | Allura/allura/model/repo.py:210 | a single requested commit in an acyclic history is nobody's loaded parent, so the walk yields each commit at most once |
| CommitLog.LogIterSlice | Allura/allura/model/repo.py:209-225 | the `log_iter` loop is the slice of the ids from skip to skip plus count, clamped to the length |
| CommitLog.ParentsAt | Allura/allura/model/repo.py:608-617 | defined by its body: the parents `_visit` records for a position of a run, the next commit or the run's parents at its end; stated by CommitLog.Record, CommitLog.RunBelow |
| CommitLog.Get | Allura/allura/model/repo.py:640-646 | defined by its body: a `defaultdict(set)` read, empty for a missing key; stated by CommitLog.Release |
| CommitLog.Freed | Allura/allura/model/repo.py:640-646 | defined by its body: the parents left without children once a commit is yielded; stated by CommitLog.Release |
| CommitLog.PickRule | Allura/allura/model/repo.py:627-630 | defined by its body: the just-released parent when it is ready, else a ready commit of latest time; stated by CommitLog.PickNext, CommitLog.RunStep |
| CommitLog.Start | Allura/allura/model/repo.py:621-626 | defined by its body: the state `_gen_ids` starts from; stated by CommitLog.GenIds, CommitLog.GenIdsFixed |
| CommitLog.Next | Allura/allura/model/repo.py:625-646 | defined by its body: one iteration of `_gen_ids`, as written or fixed; stated by CommitLog.TraceSnoc, CommitLog.RunStep |
| CommitLog.LogIter | Allura/allura/model/repo.py:209-225 | defined by its body: the first `skip` ids passed over, then ids taken while `count` lasts; stated by CommitLog.LogIterSlice |
| TreeDiff.Lookup | Allura/allura/model/repo_refresh.py:400-421 | the name lookup in the popped dictionary finds an id exactly when an entry of that name exists, and the entry found is one of the side's entries |
| TreeDiff.RightOnly | Allura/allura/model/repo_refresh.py:414-428 | the entries left in the dictionary after the left-hand loop are exactly the right-hand entries whose names the left side lacks |
| TreeDiff.Added | Allura/allura/model/repo_refresh.py:414-429 | each leftover right-hand entry is reported as added, with no left-hand id, at its own path |
| TreeDiff.DiffBlobs | Allura/allura/model/repo_refresh.py:420-427 | every blob report is a left-hand blob whose right-hand counterpart is missing or different, with both ids as looked up |
| TreeDiff.LookupUnique | Allura/allura/model/repo_refresh.py:400-402 | under unique names the dictionary lookup of an entry's name finds that entry's id |
| TreeDiff.ResolveDown | Allura/allura/model/repo_refresh.py:410-412 | a longer path resolves through the subtree its first component names |
| TreeDiff.LiftSound | Allura/allura/model/repo_refresh.py:410-413 | a difference found below two same-named subtrees is a real difference of the trees above, at the extended path |
| TreeDiff.TopSound | Allura/allura/model/repo_refresh.py:403-427 | a top-level report whose ids are what the two lookups give is a real difference |
| TreeDiff.AddedSound | Allura/allura/model/repo_refresh.py:414-429 | entries present only on the right are real additions |
| TreeDiff.RightOnlySound | Allura/allura/model/repo_refresh.py:414-429 | the leftovers of a uniquely named right side are real additions |
| TreeDiff.DiffBlobsSound | Allura/allura/model/repo_refresh.py:420-427 | every blob report is a real difference at its path |
| TreeDiff.DiffTreesSound | Allura/allura/model/repo_refresh.py:395-429 | every change `_diff_trees` reports is a real difference: the ids are what the path names on each side, they differ, and a subtree is reported only when one side lacks it |
| TreeDiff.DiffSubtreesSound | Allura/allura/model/repo_refresh.py:403-413 | every report of the subtree loop is a real difference |
| TreeDiff.RightOnlyCovered | Allura/allura/model/repo_refresh.py:414-428 | nothing is left over when every right-hand name is also on the left |
| TreeDiff.RightOnlyOfEmpty | Allura/allura/model/repo_refresh.py:414-428 | against an empty left side every right-hand entry is left over, in order |
| TreeDiff.DiffBlobsSame | Allura/allura/model/repo_refresh.py:422-423 | blobs with unchanged ids are never reported |
| TreeDiff.DiffSubtreesSame | Allura/allura/model/repo_refresh.py:405-406 | subtrees with unchanged ids are skipped without descending |
| TreeDiff.DiffSelf | Allura/allura/model/repo_refresh.py:395-429 | a tree compared with itself has no differences |
| TreeDiff.DiffFromEmpty | Allura/allura/model/repo_refresh.py:395-429 | against the empty tree every top-level subtree and blob is reported added once, by its own name, subtrees first (see also lines 321-322) |
| TreeDiff.ParentTree | Allura/allura/model/repo_refresh.py:302-324 | a commit without parents is compared against the empty tree |
| TreeDiff.TopHeight | Allura/allura/model/repo_refresh.py:320-324 | both trees of a commit's difference are indexed with their subtrees |
| TreeDiff.CommitDiffs | Allura/allura/model/repo_refresh.py:290-337 | `compute_diffs` records differences exactly for a commit with a tree; each recorded difference is real against the first parent's tree, and a root commit records every top-level entry as added |
| TreeDiff.RootDiff | Allura/allura/model/repo_refresh.py:321-322 | a root commit's difference is every top-level entry added |
| TreeDiff.DiffBlobsHas | Allura/allura/model/repo_refresh.py:420-427 | a changed or removed left-hand blob is reported at its path |
| TreeDiff.DiffSubtreesHas | Allura/allura/model/repo_refresh.py:403-413 | a left-hand subtree missing on the right is reported; one that differs contributes all of its sub-differences |
| TreeDiff.AddedHas | Allura/allura/model/repo_refresh.py:414-429 | a right-hand entry absent from the left is reported added |
| TreeDiff.DiffTreesComplete | Allura/allura/model/repo_refresh.py:395-429 | when a blob path names different ids on the two sides, the path or one of its leading parts is reported |
| TreeDiff.LiftReported | Allura/allura/model/repo_refresh.py:410-413 | a report inside a sub-difference is reported by the whole difference at the extended path |
| TreeDiff.SubtreeComplete | Allura/allura/model/repo_refresh.py:410-413 | a blob path below two different same-named subtrees is reported when it names different ids |
| TreeDiff.PathOf | Allura/allura/model/repo_refresh.py:396-397 | defined by its body: the reported path, components joined by `/`; stated by Renames.ClassifyMembers |
| TreeDiff.DiffTrees | Allura/allura/model/repo_refresh.py:395-429 | defined by its body: `_diff_trees`, subtrees first then blobs, recursing into differing subtrees; stated by TreeDiff.DiffTreesSound, TreeDiff.DiffTreesComplete, TreeDiff.DiffSelf, TreeDiff.DiffFromEmpty |
| TreeDiff.DiffSubtrees | Allura/allura/model/repo_refresh.py:403-413 | defined by its body: the subtree half of `_diff_trees`; stated by TreeDiff.DiffSubtreesSound, TreeDiff.DiffSubtreesSame, TreeDiff.DiffSubtreesHas |
| TreeDiff.Resolve | Allura/allura/model/repo_refresh.py:410-412 | defined by its body: the id a path names below a tree, the reference meaning of a reported change; stated by TreeDiff.ResolveDown, TreeDiff.DiffTreesComplete |
| TreeDiff.Sound | Allura/allura/model/repo_refresh.py:403-427 | defined by its body: a change whose ids are what its path names on each side and which really differs; stated by TreeDiff.DiffTreesSound, TreeDiff.TopSound |
| TreeDiff.Reported | Allura/allura/model/repo_refresh.py:395-429 | defined by its body: some change is reported at a path; stated by TreeDiff.DiffTreesComplete, TreeDiff.SubtreeComplete |
| LastCommit.ChildrenOf | Allura/allura/model/repo_refresh.py:467-471 | the children walked are every subtree, blob and other entry of the tree, and nothing else |
| LastCommit.EntryChildren | Allura/allura/model/repo_refresh.py:467-471 | each entry becomes a child with its own name and id, in order |
| LastCommit.OtherChildren | Allura/allura/model/repo_refresh.py:467-471 | each other-kind entry becomes a child with its own name and id, in order |
| LastCommit.LeftMapOf | Allura/allura/model/repo_refresh.py:465-468 | the left-hand map has a name exactly when some left-hand child has it, and maps it to the id of the last such child |
| LastCommit.ChildWrites | Allura/allura/model/repo_refresh.py:471-473 | every record written for a tree's children is at that tree's path and carries the commit's info |
| LastCommit.ChildWritesExact | Allura/allura/model/repo_refresh.py:471-473 | a child gets a record exactly when its id differs from the same-named left-hand id or there is none, and every record is for such a child |
| LastCommit.Refresh | Allura/allura/model/repo_refresh.py:446-482 | every record written lies at or below the starting path and carries the commit's info |
| LastCommit.LeftTree | Allura/allura/model/repo_refresh.py:479-481 | the left-hand tree of a subtree entry is a stored tree when there is one |
| LastCommit.RefreshSubtrees | Allura/allura/model/repo_refresh.py:476-482 | every record written for the subtrees lies strictly below the path |
| LastCommit.RefreshDirect | Allura/allura/model/repo_refresh.py:460-473 | for a changed tree the records at its own path are exactly its children whose id changed or that are new |
| LastCommit.RefreshSubtreesKeep | Allura/allura/model/repo_refresh.py:476-482 | every subtree entry is refreshed at the path extended by its name and a slash, against the same-named left-hand tree, and all those records are kept |
| LastCommit.RefreshDescends | Allura/allura/model/repo_refresh.py:476-482 | `refresh_last_commit` descends into every subtree of a changed tree |
| LastCommit.RefreshRoot | Allura/allura/model/repo_refresh.py:446-482 | with no left-hand tree every object of the whole tree, at every depth, gets a record at its path |
| LastCommit.KeyOf | Allura/allura/model/repo_refresh.py:486 | defined by its body: the record id `<repo>:<path>:<name>`; only a format, no property is stated about it |
| LastCommit.Children | Allura/allura/model/repo_refresh.py:467-471 | defined by its body: the entries of a tree written with a record; stated by LastCommit.ChildrenOf, LastCommit.RefreshDirect |
| LastCommit.LeftMap | Allura/allura/model/repo_refresh.py:465-468 | defined by its body: the left-hand name map, later kinds overriding earlier ones; stated by LastCommit.LeftMapOf, LastCommit.RefreshDirect |
| LastCommit.Get | Allura/allura/model/repo_refresh.py:471-473 | defined by its body: `lhs_map.get(name)`; stated by LastCommit.ChildWritesExact |
| Refresh.Unknown | Allura/allura/model/repo_refresh.py:280-288 | the unknown ids are exactly the given ids the database does not hold, in order |
| Refresh.UnknownAppend | Allura/allura/model/repo_refresh.py:280-288 | filtering distributes over concatenation, so it keeps the order |
| Refresh.UnknownChunkedIsUnknown | Allura/allura/model/repo_refresh.py:280-288 | querying in chunks of QSIZE changes nothing: the result is the ids the database lacks, in the repository's order |
| Refresh.UnknownSameOn | Allura/allura/model/repo_refresh.py:286-287 | filtering only depends on the known set restricted to the ids themselves |
| Refresh.LastKnown | Allura/allura/model/repo_refresh.py:493-505 | `last_known_commit_id` is None for no ids, the newest id when nothing is new, one of the ids otherwise, and a ValueError when the first new id is not among all ids |
| Refresh.LastKnownIsNewestKnown | Allura/allura/model/repo_refresh.py:494-505 | when the ids are the known ones followed by the new ones, the result is the newest known id |
| Refresh.LastKnownAllNew | Allura/allura/model/repo_refresh.py:505 | when every id is new the index arithmetic wraps around to the newest id of all, which is not a known one |
| Refresh.Lower | Allura/allura/model/repo_refresh.py:78-92 | lower-casing keeps the length |
| Refresh.StepsOrder | Allura/allura/model/repo_refresh.py:42-103 | `refresh_repo` runs commit info, commit repos over all ids, child refs, runs, then trees and diffs (diffs over all ids newest first) except for Subversion, then notifications when asked |
| Refresh.ReverseMultiset | Allura/allura/model/repo_refresh.py:93 | the diffs walk visits every commit, newest first |
| Refresh.PlanSteps | Allura/allura/model/repo_refresh.py:24-103 | an empty repository does nothing; otherwise the steps use the unknown ids, or all ids when asked, and the runs are built from those ids or from all ids |
| Refresh.UnknownAfterStored | Allura/allura/model/repo_refresh.py:280-288 | with the stored ids first, the unknown ones are the rest |
| Refresh.PlanRebuildsLostRuns | Allura/allura/model/repo_refresh.py:58-72 | when no stored run holds the newest known commit, the runs are rebuilt from every commit; otherwise only from the new ones |
| Refresh.Trees | Allura/allura/model/repo_refresh.py:268-278 | the trees walk starts with the tree itself and lists only stored trees |
| Refresh.TreesUnder | Allura/allura/model/repo_refresh.py:276-278 | the walk below entries lists only stored trees |
| Refresh.TreesUnderKeep | Allura/allura/model/repo_refresh.py:276-278 | the walk below one entry is part of the walk below all of them |
| Refresh.TreesUnderSplit | Allura/allura/model/repo_refresh.py:276-278 | a tree found below the entries is found below one of them |
| Refresh.TreesSound | Allura/allura/model/repo_refresh.py:268-278 | every tree the walk lists is reached from the root through subtree entries |
| Refresh.TreesComplete | Allura/allura/model/repo_refresh.py:268-278 | every tree reached from the root through subtree entries is listed |
| Refresh.TreesOfCommit | Allura/allura/model/repo_refresh.py:105-115 | a commit without a tree records nothing; otherwise the list starts with its own tree |
| Refresh.FirstBreak | Allura/allura/model/repo_refresh.py:389 | the first line break is found, with none before it |
| Refresh.SplitLines | Allura/allura/model/repo_refresh.py:389 | no line produced by `splitlines` contains a line break |
| Refresh.Paragraph | Allura/allura/model/repo_refresh.py:388-392 | the summary's lines are the leading right-stripped lines, each non-blank, up to the first blank one |
| Refresh.SplitLinesCons | Allura/allura/model/repo_refresh.py:389 | a line followed by a newline splits off first |
| Refresh.SplitLinesParagraph | Allura/allura/model/repo_refresh.py:389 | lines joined by newlines and followed by a blank line split back into those lines and a blank one |
| Refresh.ParagraphStops | Allura/allura/model/repo_refresh.py:388-392 | the paragraph stops at the first blank line, whatever follows |
| Refresh.SummarizeFirstParagraph | Allura/allura/model/repo_refresh.py:386-393 | `_summarize` is the first paragraph's lines, right-stripped and joined by spaces, whatever follows the blank line |
| Refresh.SummarizeOneLine | Allura/allura/model/repo_refresh.py:386-393 | the summary holds no line break |
| Refresh.JoinNoBreak | Allura/allura/model/repo_refresh.py:393 | joining break-free parts with a break-free separator gives a break-free line |
| Refresh.UnknownChunked | Allura/allura/model/repo_refresh.py:280-288 | defined by its body: `unknown_commit_ids`, one query per chunk; stated by Refresh.UnknownChunkedIsUnknown |
| Refresh.IndexOf | Allura/allura/model/repo_refresh.py:505 | ensures the position holds `x` and no earlier one does, as `list.index`; stated by Refresh.LastKnown |
| Refresh.Reverse | Allura/allura/model/repo_refresh.py:93 | ensures the result has the same length and holds the elements in reverse order; stated by Refresh.StepsOrder, Refresh.ReverseMultiset |
| Refresh.RunIds | Allura/allura/model/repo_refresh.py:58-68 | defined by its body: the refreshed ids, or all ids when no stored run holds the last known commit; stated by Refresh.PlanRebuildsLostRuns |
| Refresh.Steps | Allura/allura/model/repo_refresh.py:42-103 | defined by its body: the steps of `refresh_repo` in order; stated by Refresh.StepsOrder, Refresh.PlanSteps |
| Refresh.Plan | Allura/allura/model/repo_refresh.py:24-103 | defined by its body: the steps of `refresh_repo` from the stored state; stated by Refresh.PlanSteps, Refresh.PlanRebuildsLostRuns |
| Refresh.Under | Allura/allura/model/repo_refresh.py:268-278 | defined by its body: the tree reached by a path of subtree positions, the reference meaning of "a tree of t"; stated by Refresh.TreesSound, Refresh.TreesComplete |
| Refresh.LineBreak | Allura/allura/model/repo_refresh.py:389 | defined by its body: the line breaks of Python 2 `splitlines`; stated by Refresh.FirstBreak, Refresh.SplitLines |
| Refresh.Summarize | Allura/allura/model/repo_refresh.py:386-393 | defined by its body: `_summarize`; stated by Refresh.SummarizeFirstParagraph, Refresh.SummarizeOneLine |
| Renames.Classify | Allura/allura/model/repo.py:261-271 | every stored difference is classified into exactly one of added, removed or changed |
| Renames.ClassifyMembers | Allura/allura/model/repo.py:265-271 | a difference without a right-hand id is removed, one without a left-hand id is added, the rest changed; and every listed path comes from a difference of that kind |
| Renames.RemoveFirst | Allura/allura/model/repo.py:334-335 | `list.remove` takes out exactly one occurrence of the value |
| Renames.TreeRename | Allura/allura/model/repo.py:311-318 | `_trees_similarity` reports an exact copy to an added path holding a tree with the same id, and reports nothing exactly when no added path holds one |
| Renames.ScanBest | Allura/allura/model/repo.py:283-297 | the scan's best ratio never drops, and it ends at an added blob whose ratio is at least every added blob's ratio |
| Renames.BlobRenameRule | Allura/allura/model/repo.py:282-309 | `_blobs_similarity` reports the best-scoring added blob when its ratio exceeds DIFF_SIMILARITY_THRESHOLD, with no diff for a perfect match; otherwise every added blob scores at most the threshold |
| Renames.RenameOfAdded | Allura/allura/model/repo.py:324-333 | a rename found for a removed path pairs it with an added path above the threshold |
| Renames.Pairings | Allura/allura/model/repo.py:324-336 | every pair found takes one path out of the added list and one out of the removed list, and scores above the threshold |
| Renames.Copied | Allura/allura/model/repo.py:277-336 | `_diffs_copied` finds nothing when nothing was removed; otherwise the remaining lists plus the paired paths are exactly the original lists |
| Renames.CommitChanges | Allura/allura/model/repo.py:257-275 | `Commit.diffs` is four empty lists without a stored record; otherwise changed is as classified, and added and removed lose exactly the paths that were paired as renames |
| Renames.RenameOfNoneSub | Allura/allura/model/repo.py:324-333 | a removed path with no rename among the added paths has none among any part of them, so paths paired later cannot make an earlier refusal wrong |
| Renames.ConsMaximal | Allura/allura/model/repo.py:324-336 | putting the first removed path's decision in front keeps every refused path unpairable against the added paths left at the end |
| Renames.PairedCons | Allura/allura/model/repo.py:324-336 | one more removed path in front, decided by `RenameOf` over the added list and followed by the rest decided over what it leaves, still follows the pairing rule |
| Renames.PairingsRule | Allura/allura/model/repo.py:324-336 | the loop decides each removed path in order by `RenameOf` over the added paths not yet taken; the pairs are exactly the renames found, the added list left is the original minus each pair's new path, and every removed path left unpaired has no rename among the added paths left |
| Renames.CopiedRule | Allura/allura/model/repo.py:277-336 | `_diffs_copied` follows that rule over the whole removed list: nothing paired that the rule would not pair, and nothing left that it would |
| Renames.CommitChangesRule | Allura/allura/model/repo.py:257-275 | `Commit.diffs` pairs the classified removed paths with the classified added paths by that rule; its copied list is the renames and its added list what the renames leave |
| Renames.ScanBlobs | Allura/allura/model/repo.py:283-297 | defined by its body: the similarity scan, a strictly better ratio replacing the best and a perfect one stopping; stated by Renames.ScanBest |
| Renames.BlobRename | Allura/allura/model/repo.py:282-309 | defined by its body: `_blobs_similarity`, the best added blob above the threshold; stated by Renames.BlobRenameRule |
| Renames.RenameOf | Allura/allura/model/repo.py:324-333 | defined by its body: the rename found for one removed path by its kind; stated by Renames.RenameOfAdded, Renames.RenameOfNoneSub |
| Renames.NewPaths | Allura/allura/model/repo.py:324-336 | ensures the i-th path is the i-th rename's new path; stated by Renames.Pairings |
| Renames.OldPaths | Allura/allura/model/repo.py:324-336 | ensures the i-th path is the i-th rename's old path; stated by Renames.Pairings |
| Renames.Remaining | Allura/allura/model/repo.py:335 | defined by its body: the added paths left after `added.remove(new)` for each rename found; stated by Renames.PairedCons |
| Renames.Found | Allura/allura/model/repo.py:324-336 | defined by its body: the renames among the decisions, in order; stated by Renames.PairingsRule |
| Renames.PairedByRule | Allura/allura/model/repo.py:324-336 | defined by its body: the decisions follow the loop, and an unpaired removed path has no rename among the paths left; stated by Renames.PairedCons, Renames.PairingsRule, Renames.CopiedRule, Renames.CommitChangesRule |
| Renames.Decisions | Allura/allura/model/repo.py:324-336 | defined by its body: the loop's decision for each removed path; stated by Renames.PairingsRule, Renames.CopiedRule |
| TreeObjects.EntryTable | Allura/allura/model/repo.py:482-486 | a name is in the table exactly when some entry has it, and the table entry is one of the entries with that name |
| TreeObjects.OtherTable | Allura/allura/model/repo.py:480 | the same for other entries, each keeping its own type |
| TreeObjects.ByNameNames | Allura/allura/model/repo.py:479-487 | `by_name` holds exactly the names of the tree's entries |
| TreeObjects.ByNamePrecedence | Allura/allura/model/repo.py:479-487 | a blob entry wins over a subtree of the same name, which wins over an other entry |
| TreeObjects.Child | Allura/allura/model/repo.py:366-376 | `tree[name]` is a blob exactly when the name denotes a blob, and a subtree only when its document is stored (the `compute_tree_new` rebuild is left out) |
| TreeObjects.Walk | Allura/allura/model/repo.py:384-390 | a walk ends at a stored tree when it ends at a tree, and fails only when a later part indexes into a blob |
| TreeObjects.WalkAppend | Allura/allura/model/repo.py:384-390 | walking a path is walking its prefix and then the rest from the tree reached; a missing part makes the lookup None |
| TreeObjects.WalkMissing | Allura/allura/model/repo.py:386-389 | a part missing from the tree reached so far makes `get_obj_by_path` None whatever follows |
| TreeObjects.LeadingSlash | Allura/allura/model/repo.py:381-382 | one leading slash does not change the lookup |
| TreeObjects.TreePathJoin | Allura/allura/model/repo.py:468-473 | a tree's path is a slash followed by the subtree names, each followed by a slash |
| TreeObjects.JoinSnoc | Allura/allura/model/repo.py:383 | joining one more part adds the separator and the part |
| TreeObjects.BlobPathLookup | Allura/allura/model/repo.py:378-390 | looking up a blob's own path walks its tree names and then its name: `get_obj_by_path` inverts `Blob.path` (see also lines 508-509) |
| TreeObjects.EntryRows | Allura/allura/model/repo.py:433-459 | each directory or file row carries the entry's name, its href (with a trailing slash for directories) and the last commit looked up by name, then by id |
| TreeObjects.OtherRows | Allura/allura/model/repo.py:460-465 | each other row carries the entry's own type, its name, no href and the looked-up last commit |
| TreeObjects.NameOrders | Allura/allura/model/repo.py:448-460 | ordering by name is a total preorder, so sorting by it is well defined |
| TreeObjects.LsListing | Allura/allura/model/repo.py:415-466 | `ls` lists the subtrees, then the blobs, then the other entries, each group a name-sorted permutation of its entries |
| TreeObjects.ByName | Allura/allura/model/repo.py:479-487 | defined by its body: the name table, blobs over subtrees over other entries; stated by TreeObjects.ByNameNames, TreeObjects.ByNamePrecedence |
| TreeObjects.GetObjByPath | Allura/allura/model/repo.py:378-390 | defined by its body: `get_obj_by_path`, one leading `/` dropped and the rest split on `/`; stated by TreeObjects.LeadingSlash, TreeObjects.BlobPathLookup |
| TreeObjects.TreePath | Allura/allura/model/repo.py:468-473 | defined by its body: `Tree.path()`; stated by TreeObjects.TreePathJoin |
| TreeObjects.BlobPath | Allura/allura/model/repo.py:508-509 | defined by its body: `Blob.path()`, the tree's path then the name; stated by TreeObjects.BlobPathLookup |
| TreeObjects.LastCommitFor | Allura/allura/model/repo.py:433-459 | defined by its body: an entry's last-commit record, by name else by id; stated by TreeObjects.EntryRows, TreeObjects.OtherRows |
| TreeObjects.NameLe | Allura/allura/model/repo.py:448-460 | defined by its body: the `key=lambda x: x.name` order; stated by TreeObjects.NameOrders |
| TreeObjects.OtherNameLe | Allura/allura/model/repo.py:460 | defined by its body: the same order on other entries; stated by TreeObjects.NameOrders |
| TreeObjects.Ls | Allura/allura/model/repo.py:415-466 | defined by its body: `Tree.ls`, directories then files then other entries, each sorted by name; stated by TreeObjects.LsListing |
| GitTree.FindBlob | Allura/allura/model/repository.py:1081 | a file found under a name is an entry with that name |
| GitTree.PutBlob | Allura/allura/model/repository.py:1090 | after `blobs[name] = oid` the name reads as the oid, every other name reads as before, and no other entry appears |
| GitTree.FindSub | Allura/allura/model/repository.py:1071 | a subdirectory found under a name is an entry with that name |
| GitTree.PutSub | Allura/allura/model/repository.py:1063-1071 | after `trees[name] = node` the name reads as the node, every other name as before, and no other entry appears |
| GitTree.PutSubSame | Allura/allura/model/repository.py:1071 | putting back the subdirectory a name already has leaves the dict unchanged, so reading an existing `defaultdict` entry changes nothing |
| GitTree.Parts | Allura/allura/model/repository.py:1076-1085 | splitting a path always gives at least the final name |
| GitTree.SetAtFrame | Allura/allura/model/repository.py:1083-1090 | after a write the written file reads back as its oid and every other file, in any directory, reads as before |
| GitTree.TouchFrame | Allura/allura/model/repository.py:1069-1071 | walking the `defaultdict` along a path creates no file and loses none |
| GitTree.TouchMakesDirs | Allura/allura/model/repository.py:1069-1071 | walking a path leaves every directory on it in place |
| GitTree.TouchExisting | Allura/allura/model/repository.py:1069-1071 | walking a path whose directories all exist changes nothing |
| GitTree.SetAtMakesDirs | Allura/allura/model/repository.py:1087-1089 | a write creates every directory on its path |
| GitTree.SetThenGet | Allura/allura/model/repository.py:1074-1090 | `get_blob` after `set_blob` of the same path returns the oid and changes nothing further, with or without a leading slash on the write |
| GitTree.SetBlobFrame | Allura/allura/model/repository.py:1083-1090 | `set_blob` creates the directories of its path and leaves every file at another path as it was |
| GitTree.ReadsOnlyAddDirs | Allura/allura/model/repository.py:1066-1081 | `get_blob` and `get_tree` only add empty directories: every file reads as before and the walked directories exist |
| GitTree.BlobLines | Allura/allura/model/repository.py:1104-1105 | each file gives the line `b <oid> <name>`, in order |
| GitTree.TreeLines | Allura/allura/model/repository.py:1102-1103 | each subdirectory gives one line |
| GitTree.TreeLinesAt | Allura/allura/model/repository.py:1102-1103 | the line of a subdirectory is `t <hex> <name>` with its own recursive hash |
| GitTree.PutBlobUnique | Allura/allura/model/repository.py:1090 | writing a file keeps the file names of a directory distinct |
| GitTree.PutSubUnique | Allura/allura/model/repository.py:1071 | adding or replacing a subdirectory keeps the subdirectory names distinct |
| GitTree.PutSubWellFormed | Allura/allura/model/repository.py:1071 | replacing or adding one well-formed subdirectory keeps the directory well formed |
| GitTree.SubOrWellFormed | Allura/allura/model/repository.py:1063-1071 | the subdirectory read from the `defaultdict` is well formed |
| GitTree.SetAtWellFormed | Allura/allura/model/repository.py:1087-1090 | a write keeps every level of the tree free of duplicate names |
| GitTree.TouchWellFormed | Allura/allura/model/repository.py:1069-1071 | a walk keeps every level free of duplicate names |
| GitTree.OperationsKeepWellFormed | Allura/allura/model/repository.py:1061-1090 | the empty tree and every tree built by `set_blob`, `get_blob` and `get_tree` hold at most one entry per name in each dict |
| GitTree.SameContentSameHex | Allura/allura/model/repository.py:1092-1106 | `hex` depends only on the tree's contents: because `__repr__` sorts its lines, the dict order does not matter |
| GitTree.BlobsMultiset | Allura/allura/model/repository.py:1104-1106 | two name-unique file lists with the same entries give the same lines up to order |
| GitTree.KeyedMultiset | Allura/allura/model/repository.py:1102-1106 | two lists of distinct names with the same names, whose lines agree name by name, give the same lines up to order |
| GitTree.SubOr | Allura/allura/model/repository.py:1069-1071 | defined by its body: `trees[name]` on the `defaultdict`; stated by GitTree.SubOrWellFormed |
| GitTree.Follow | Allura/allura/model/repository.py:1069-1071 | defined by its body: the directory a walk reaches, a missing step reading as empty; stated by GitTree.TouchFrame, GitTree.SetAtFrame |
| GitTree.BlobAt | Allura/allura/model/repository.py:1074-1081 | defined by its body: the file a directory holds under a name; stated by GitTree.SetAtFrame, GitTree.ReadsOnlyAddDirs |
| GitTree.Touch | Allura/allura/model/repository.py:1069-1071 | defined by its body: the walk creating missing directories; stated by GitTree.TouchFrame, GitTree.TouchMakesDirs, GitTree.TouchExisting |
| GitTree.SetAt | Allura/allura/model/repository.py:1083-1090 | defined by its body: the walk then `blobs[name] = oid`; stated by GitTree.SetAtFrame, GitTree.SetAtMakesDirs |
| GitTree.Normalize | Allura/allura/model/repository.py:1066-1081 | defined by its body: one leading `/` dropped; stated by GitTree.ReadsOnlyAddDirs |
| GitTree.DirOf | Allura/allura/model/repository.py:1076-1077 | defined by its body: every path part but the last; stated by GitTree.SetBlobFrame |
| GitTree.NameOf | Allura/allura/model/repository.py:1076-1077 | defined by its body: the last path part; stated by GitTree.SetThenGet |
| GitTree.SetBlob | Allura/allura/model/repository.py:1083-1090 | defined by its body: `set_blob(path, oid)`; stated by GitTree.SetThenGet, GitTree.SetBlobFrame, GitTree.OperationsKeepWellFormed |
| GitTree.GetBlob | Allura/allura/model/repository.py:1074-1081 | defined by its body: `get_blob(path)`, `None` for the `KeyError`; stated by GitTree.SetThenGet, GitTree.ReadsOnlyAddDirs |
| GitTree.GetTree | Allura/allura/model/repository.py:1066-1072 | defined by its body: `get_tree(path)`; stated by GitTree.ReadsOnlyAddDirs, GitTree.OperationsKeepWellFormed |
| GitTree.TreeLine | Allura/allura/model/repository.py:1102-1103 | defined by its body: `t <hex> <name>`; stated by GitTree.TreeLinesAt |
| GitTree.BlobLine | Allura/allura/model/repository.py:1104-1105 | defined by its body: `b <oid> <name>`; stated by GitTree.BlobLines |
| GitTree.Repr | Allura/allura/model/repository.py:1100-1106 | defined by its body: the entry lines sorted and joined by newlines; stated by GitTree.SameContentSameHex, GitTree.TreeLinesAt, GitTree.BlobLines |
| GitTree.Hex | Allura/allura/model/repository.py:1092-1098 | defined by its body: the digest of `tree\n` and the repr; stated by GitTree.SameContentSameHex |
| TopoSort.Roots | Allura/allura/model/repository.py:1133-1138 | the roots are exactly the nodes without parents, with no repeats |
| TopoSort.Children | Allura/allura/model/repository.py:1133-1139 | `children[n]` is exactly the nodes listing n as a parent, with no repeats |
| TopoSort.TopologicalSort | Allura/allura/model/repository.py:1121-1149 | `topological_sort` yields distinct nodes, each after all of its parents; it yields every node (the final assertion holds) exactly when the graph is acyclic and closed |
| TopoSort.SortStart | Allura/allura/model/repository.py:1132-1139 | before the loop the stack holds the parentless nodes and every other node waits with all of its parents |
| TopoSort.SortDone | Allura/allura/model/repository.py:1141-1149 | when the stack empties, the graph left over is empty exactly when every node was yielded, and exactly when the graph has no cycle |
| TopoSort.EmitStep | Allura/allura/model/repository.py:1142-1143 | yielding a node whose parents are all out keeps every node after its parents |
| TopoSort.Release | Allura/allura/model/repository.py:1144-1148 | after the children of n are released, each child waits on exactly its parents not yet yielded, or is on the stack when none is left |
| TopoSort.ReleaseStart | Allura/allura/model/repository.py:1142-1144 | popping n and marking it yielded starts the release of its children |
| TopoSort.ReleaseReady | Allura/allura/model/repository.py:1145-1148 | a child whose last remaining parent was n leaves the graph and is pushed on the stack |
| TopoSort.ReleaseWait | Allura/allura/model/repository.py:1145-1146 | a child with other parents left stays in the graph without n |
| TopoSort.PushParentsFirst | Allura/allura/model/repository.py:1143 | a node whose parents are all out may be yielded next |
| TopoSort.AllDone | Allura/allura/model/repository.py:1149 | in an acyclic graph, if every node not yet yielded had a parent not yet yielded, every node would be yielded |
| TopoSort.PositionsRank | Allura/allura/model/repository.py:1121-1149 | a complete output with every node after its parents ranks the graph by position, so a graph the sort finishes has no cycle |
| GitRepo.Find | ForgeGit/forgegit/model/git_repo.py:327 | `buffer.find('\n')` is the first line break, or the length when there is none |
| GitRepo.LinesSound | ForgeGit/forgegit/model/git_repo.py:315-333 | the lines the iterator yields are together the whole blob; each is non-empty, holds a line break only at its end, and all but the last end in one; an empty blob yields nothing |
| GitRepo.LinesConcat | ForgeGit/forgegit/model/git_repo.py:315-333 | the lines concatenate back to the blob |
| GitRepo.LinesShaped | ForgeGit/forgegit/model/git_repo.py:315-333 | every line is non-empty with a break at most at its end, and every line but the last ends in a break |
| GitRepo.LinesBuffered | ForgeGit/forgegit/model/git_repo.py:327-333 | when the buffer holds a line break, the first line is the buffer up to and including it, whatever is still unread |
| GitRepo.Read | ForgeGit/forgegit/model/git_repo.py:323 | a read takes at most CHUNK_SIZE characters from the position on, and returns nothing only at the end |
| GitRepo.IterLines | ForgeGit/forgegit/model/git_repo.py:307-333 | `_OpenedGitBlob.__iter__`, reading CHUNK_SIZE characters at a time, yields exactly the blob's lines, whatever the chunk boundaries |
| GitRepo.Fill | ForgeGit/forgegit/model/git_repo.py:322-325 | the refill loop moves text from the stream into the buffer without losing any, and stops with a line break in the buffer or the stream exhausted |
| GitRepo.YieldLine | ForgeGit/forgegit/model/git_repo.py:327-333 | yielding the buffer up to its first line break keeps the yielded lines a prefix of the blob's lines |
| GitRepo.LastLine | ForgeGit/forgegit/model/git_repo.py:326-331 | an unterminated buffer at the end of the stream is the last line |
| GitRepo.IntBase16 | ForgeGit/forgegit/model/git_repo.py:292 | `int(e + o, 16)` of two hex digits is their value; besides digits it accepts a sign or surrounding white space, and raises otherwise |
| GitRepo.PairByte | ForgeGit/forgegit/model/git_repo.py:292 | `chr(int(e + o, 16))` succeeds exactly when `int` succeeds with a non-negative value, and gives that value |
| GitRepo.PairByteCases | ForgeGit/forgegit/model/git_repo.py:292 | two hex digits decode to their value; a leading '+' or white space and a trailing white space are accepted; '-' succeeds only as "-0"; otherwise only hex digits decode |
| GitRepo.HexToBinary | ForgeGit/forgegit/model/git_repo.py:287-292 | `_object` decodes one byte per pair of characters, ignores an odd last character, and raises exactly when some pair fails |
| GitRepo.BinaryToHex | ForgeGit/forgegit/model/git_repo.py:292 | the hex form of an id has two lower-case digits per byte, the high one first (see also line 151) |
| GitRepo.HexRoundTrip | ForgeGit/forgegit/model/git_repo.py:287-292 | decoding the hex form of a binary id gives the id back |
| GitRepo.DateLeTotal | ForgeGit/forgegit/model/git_repo.py:244 | ordering candidates by commit date is a total preorder |
| GitRepo.Pick | ForgeGit/forgegit/model/git_repo.py:244-245 | sorting the candidates by date and popping the last gives a candidate with the latest date, the rest being the other candidates |
| GitRepo.PickLatest | ForgeGit/forgegit/model/git_repo.py:244-245 | the sorted list's last element is a candidate with the latest date, and the others are the remaining candidates |
| GitRepo.TakeStep | ForgeGit/forgegit/model/git_repo.py:245-253 | taking an unseen latest candidate keeps every taken commit the latest available when taken, and the candidates cover everything available |
| GitRepo.SeenStep | ForgeGit/forgegit/model/git_repo.py:246 | popping a candidate already seen changes nothing else |
| GitRepo.LogSeen | ForgeGit/forgegit/model/git_repo.py:246 | popping a seen commit keeps the loop's state |
| GitRepo.LogTake | ForgeGit/forgegit/model/git_repo.py:247-253 | an unseen commit is skipped while skip lasts and collected after, and its parents join the candidates |
| GitRepo.LogDone | ForgeGit/forgegit/model/git_repo.py:243-254 | when the loop stops, the result holds at most count distinct commits, starts at the object when nothing is skipped, and a short result means nothing is left |
| GitRepo.Log | ForgeGit/forgegit/model/git_repo.py:238-254 | `log` returns the commits after the first skip of a newest-first walk, at most count of them, with the candidates left over; a short result means the walk exhausted every ancestor |
| GitRepo.LogClosed | ForgeGit/forgegit/model/git_repo.py:243-253 | a walk with nothing left available has taken the start and every parent of every commit it took |
| GitRepo.AllCommitIds | ForgeGit/forgegit/model/git_repo.py:142-151 | `all_commit_ids` yields each commit reachable from some head exactly once |
| GitRepo.ResolveRev | ForgeGit/forgegit/model/git_repo.py:120-123 | the first cached head, branch or tag named like the revision gives its id; otherwise the revision itself is the id |
| GitRepo.CommitFor | ForgeGit/forgegit/model/git_repo.py:115-140 | `commit` returns only indexed commits, and the one the cached refs name when it is indexed |
| GitRepo.CachedNameWins | ForgeGit/forgegit/model/git_repo.py:120-124 | a cached ref named like the revision decides the id looked up |
| GitRepo.Partition | ForgeGit/forgegit/model/git_repo.py:218-234 | every entry of a Git tree lands in the stored document under its kind: trees, blobs, or other with its type kept |
| GitRepo.RefreshTree | ForgeGit/forgegit/model/git_repo.py:214-236 | `refresh_tree_info` skips a seen tree when lazy; otherwise it marks it seen and saves its document as the partition of its entries; the seen set and saved documents only grow |
| GitRepo.RefreshEntries | ForgeGit/forgegit/model/git_repo.py:223-234 | the loop over a tree's entries refreshes every subtree and marks it seen |
| GitRepo.RefreshTreeCloses | ForgeGit/forgegit/model/git_repo.py:214-236 | after a refresh, lazy or not, the tree and every tree under it is stored |
| GitRepo.ClosedAdd | ForgeGit/forgegit/model/git_repo.py:216-217 | marking a tree seen keeps everything below it stored |
| GitRepo.RefreshEntriesCloses | ForgeGit/forgegit/model/git_repo.py:223-234 | after the entry loop every subtree and everything below it is stored |
| GitRepo.RefreshCommitInfo | ForgeGit/forgegit/model/git_repo.py:184-212 | `refresh_commit_info` does nothing for a stored commit when lazy; otherwise it saves the commit document with no children and refreshes its tree |
| GitRepo.Lines | ForgeGit/forgegit/model/git_repo.py:315-333 | defined by its body: the lines of a text, each with its break; stated by GitRepo.LinesSound, GitRepo.LinesConcat, GitRepo.LinesShaped |
| GitRepo.HexValue | ForgeGit/forgegit/model/git_repo.py:292 | defined by its body: a hexadecimal digit's value in either case; stated by GitRepo.IntBase16 |
| GitRepo.Space | ForgeGit/forgegit/model/git_repo.py:292 | defined by its body: the whitespace `int()` skips; stated by GitRepo.IntBase16, GitRepo.PairByteCases |
| GitRepo.Digit | ForgeGit/forgegit/model/git_repo.py:292 | defined by its body: the lower-case hex digit of a value; stated by GitRepo.BinaryToHex |
| GitRepo.CommittedDate | ForgeGit/forgegit/model/git_repo.py:244-245 | defined by its body: a commit's date, the sort key; stated by GitRepo.Pick, GitRepo.PickLatest |
| GitRepo.DateLe | ForgeGit/forgegit/model/git_repo.py:244 | defined by its body: `key=lambda c: c.committed_date` as an order; stated by GitRepo.DateLeTotal, GitRepo.PickLatest |
| Repository.MakeDiff | Allura/allura/model/repository.py:1026-1042 | `is_new` holds exactly when the left object is absent and `is_delete` exactly when the right one is; each present side gives its path and id, an absent one leaves them None |
| Repository.DiffReprKinds | Allura/allura/model/repository.py:1044-1050 | `repr` reads "<new path>" exactly for a new file, "<remove …>" for a deletion and "<change …>" otherwise, naming the right path for a new file and the left path otherwise |
| Repository.Shorthand | Allura/allura/model/repository.py:104-105 | the short form is the first six characters of the id (all of it when shorter) in square brackets |
| Repository.ShorthandSame | Allura/allura/model/repository.py:104-105 | two ids share a short form exactly when their first six characters agree |
| Repository.UrlForCommit | Allura/allura/model/repository.py:115-121 | a commit URL is the repository URL, then `ci/`, and ends in a slash |
| Repository.UrlRoundTrip | Allura/allura/model/repository.py:115-121 | the id can be read back out of its commit URL, and a commit and its id give the same URL |
| Repository.Refresh | Allura/allura/model/repository.py:313-329 | `refresh` first sets the status to 'analyzing' and always ends by setting it to 'ready' |
| Repository.Run | Allura/allura/model/repository.py:319-325 | each step of the refresh is performed, in order |
| Repository.RefreshRestoresReady | Allura/allura/model/repository.py:313-329 | between the two status writes only work happens; an exception is raised exactly when a step fails, stops the work right after that step, and still leaves the status 'ready' |
| Repository.CountRefs | Allura/allura/model/repository.py:322-325 | each head, branch and tag keeps its name and id, and gets the revision count of its commit when the commit is found, keeping its old count otherwise |
| Repository.PathsOfAppend | Allura/allura/model/repository.py:424-430 | the work a queue represents is the sum over its parts |
| Repository.ExpandHead | Allura/allura/model/repository.py:425-430 | replacing the head of the queue by its parents lowers the work left, so the walk terminates on an acyclic history |
| Repository.MergeCommits | Allura/allura/model/repository.py:420-433 | `_commits` as written lists only stored commits outside the target repository |
| Repository.MergeCommitsFixed | Allura/allura/model/repository.py:420-433 | the walk with a record of visited commits lists stored commits outside the target repository, none already visited and each at most once |
| Repository.MergeCommitsLeast | Allura/allura/model/repository.py:420-433 | every commit the written walk lists lies in each set that holds the queue and the parents of its stored commits outside the target |
| Repository.MergeCommitsComplete | Allura/allura/model/repository.py:420-433 | when the written walk succeeds, every queued commit and every parent of a listed commit is either in the target repository or listed |
| Repository.MergeCommitsErrReaches | Allura/allura/model/repository.py:424-427 | when the written walk fails, every set closed under the walk holds a commit the index lacks |
| Repository.StoredClosure | Allura/allura/model/repository.py:420-433 | a listing that names every stored commit the walk must list leaves a closed set of stored commits, so the walk reaches no missing commit |
| Repository.MergeCommitsFails | Allura/allura/model/repository.py:424-427 | the written walk fails exactly when every set closed under the walk holds a commit the index lacks, that is when it reaches an unloadable commit |
| Repository.MergeCommitsFixedLeast | Allura/allura/model/repository.py:420-433 | the same least-set bound for the walk with a visited record |
| Repository.MergeCommitsFixedComplete | Allura/allura/model/repository.py:420-433 | when the corrected walk succeeds, every queued commit and every parent of a listed commit was visited before, is in the target repository, or is listed |
| Repository.MergeCommitsFixedErrReaches | Allura/allura/model/repository.py:424-427 | when the corrected walk fails, every set closed under the walk holds a commit the index lacks |
| Repository.MergeCommitsFixedFails | Allura/allura/model/repository.py:424-427 | the corrected walk fails exactly when the written one would: when it reaches a commit the index lacks |
| Repository.MergeWalksAgree | Allura/allura/model/repository.py:420-433 | when both walks succeed they list the same commits; only the repetitions differ |
| Repository.DiamondRanked | Allura/allura/model/repository.py:420-433 | the diamond history used below is acyclic |
| Repository.MergeCommitsRepeats | Allura/allura/model/repository.py:424-430 | as written, on a diamond D→B,C→A the root is listed twice |
| Repository.DiamondUpper | Allura/allura/model/repository.py:424-430 | the walk from B and C lists B, C and then the root twice |
| Repository.DiamondMiddle | Allura/allura/model/repository.py:424-430 | the walk from C and A lists C and then the root twice |
| Repository.DiamondTail | Allura/allura/model/repository.py:424-430 | the root queued twice is listed twice |
| Repository.MergeCommitsFixedOnce | Allura/allura/model/repository.py:420-433 | with a visited set the same diamond lists D, B, C, A once each |
| Repository.DiffRepr | Allura/allura/model/repository.py:1044-1050 | defined by its body: `repr(diff)`; stated by Repository.DiffReprKinds |
| Repository.CommitIdOfUrl | Allura/allura/model/repository.py:115-121 | defined by its body: the id read back out of a commit URL; stated by Repository.UrlRoundTrip |
| Repository.Works | Allura/allura/model/repository.py:319-325 | defined by its body: the heads, the new refresh when enabled, the revision counts; stated by Repository.Refresh, Repository.RefreshRestoresReady |
| Repository.Top | Allura/allura/model/repository.py:425-430 | ensures the bound exceeds every rank of the queue; stated by Repository.ExpandHead |
| Browser.CommitBrowserStatus | Allura/allura/controllers/repository.py:176-184 | the page is 'not_ready' exactly when there is no repository or it is not ready, 'no_commits' exactly when a ready repository has no commits, and 'ready' otherwise |
| Browser.StatusAfterLast | Allura/allura/controllers/repository.py:177 | the last status write decides the status the page reads |
| Browser.RefreshedRepoBrowsable | Allura/allura/controllers/repository.py:176-184 | after any refresh, failed or not, the page does not say 'not_ready': it shows the commits or says there are none |
| Browser.DateLeTotal | Allura/allura/controllers/repository.py:570 | ordering by date is a total preorder |
| Browser.Dedup | Allura/allura/controllers/repository.py:570 | `list(set(head_ids))` holds every head exactly once |
| Browser.StartStack | Allura/allura/controllers/repository.py:570 | the first stack holds the heads, the latest-dated one on top |
| Browser.SortedByDate | Allura/allura/controllers/repository.py:570 | sorting the heads by date keeps them and puts the latest last |
| Browser.Released | Allura/allura/controllers/repository.py:577-581 | after a visit, exactly the parents all of whose children are visited are queued |
| Browser.SkipStep | Allura/allura/controllers/repository.py:573-574 | popping an already visited commit changes nothing else |
| Browser.VisitStep | Allura/allura/controllers/repository.py:573-581 | visiting an unvisited commit keeps every output commit distinct and after all of its children, or a head |
| Browser.TopoSortBrowser | Allura/allura/controllers/repository.py:569-581 | `topo_sort` yields distinct commits including every head, each one a head or after all of its children, the latest head first; a parent whose children all come out comes out too |
| Browser.FirstOut | Allura/allura/controllers/repository.py:570-573 | the first commit out is the latest head |
| Browser.Finish | Allura/allura/controllers/repository.py:572 | when the stack empties every head is out and every parent whose children are all out is out |
| Browser.FirstFree | Allura/allura/controllers/repository.py:223-224 | the scan finds the first free slot from a position on, every slot before it taken |
| Browser.FindColumn | Allura/allura/controllers/repository.py:222-226 | `find_column` returns the lowest free slot, appending a free one only when every slot is taken |
| Browser.Occupy | Allura/allura/controllers/repository.py:235-240 | a parent without a column gets the lowest free slot and waits in it; a parent with one changes nothing; columns once handed out are kept |
| Browser.OccupyAll | Allura/allura/controllers/repository.py:235-240 | after the loop every parent of the commit has a column |
| Browser.Place | Allura/allura/controllers/repository.py:228-234 | a visited commit keeps the column it waits in, or gets the lowest free slot, and frees that slot |
| Browser.AssignColumns | Allura/allura/controllers/repository.py:220-246 | every commit gets a column, which is a slot, and every parent of a listed commit has a column; the number of slots is `next_column` |
| Browser.TakeRef | Allura/allura/controllers/repository.py:346-351 | the reference parts run up to and including the first one ending in '~', and all parts are kept between the reference and the rest |
| Browser.MapParts | Allura/allura/controllers/repository.py:345 | each part is unquoted in place |
| Browser.RefsLookup | Allura/allura/controllers/repository.py:344-353 | `_lookup` joins a prefix of the unquoted parts with '/' and drops the last character, returning the remaining parts |
| Browser.JoinEscaped | Allura/allura/controllers/repository.py:352 | the escape character after the last segment ends the joined name |
| Browser.TakeEscaped | Allura/allura/controllers/repository.py:347-351 | the scan stops at the first segment ending in the escape character |
| Browser.RefsLookupRoundTrip | Allura/allura/controllers/repository.py:344-353 | a reference whose segments do not end in '~', followed by '~' and a path, is read back as that reference and path |
| Browser.Keep | Allura/allura/controllers/repository.py:407-410 | a removed path is always listed; another change is listed only when a blob is at its path, and a failing lookup propagates |
| Browser.Paths | Allura/allura/controllers/repository.py:408-409 | each difference path becomes one item |
| Browser.Copies | Allura/allura/controllers/repository.py:408-409 | each rename record becomes one item |
| Browser.Artifacts | Allura/allura/controllers/repository.py:407-410 | the listing holds exactly the commit's differences, of every kind, that are shown |
| Browser.RemovedAlwaysListed | Allura/allura/controllers/repository.py:410 | every removed path is in the listing |
| Browser.Page | Allura/allura/controllers/repository.py:412 | a page holds at most `limit` artifacts |
| Browser.CommitIndex | Allura/allura/controllers/repository.py:405-413 | `index` counts all the listed artifacts and returns at most `limit` of them, each a listed one |
| Browser.PagesCover | Allura/allura/controllers/repository.py:412 | paging through the listing shows every artifact once, in order |
| Browser.StatusAfter | Allura/allura/controllers/repository.py:176-184 | defined by its body: the status after the last status write; stated by Browser.StatusAfterLast, Browser.RefreshedRepoBrowsable |
| Browser.Kids | Allura/allura/controllers/repository.py:577-581 | defined by its body: `children[p]` of a `defaultdict(list)`; stated by Browser.Released, Browser.TopoSortBrowser |
| Browser.DateLe | Allura/allura/controllers/repository.py:570 | defined by its body: `key=lambda x: dates[x]` as an order; stated by Browser.DateLeTotal, Browser.SortedByDate |
| Browser.DropLast | Allura/allura/controllers/repository.py:344-353 | defined by its body: `s[:-1]`; stated by Browser.RefsLookup |
| Browser.RefUrlParts | Allura/allura/controllers/repository.py:344-353 | defined by its body: a branch URL's segments; stated by Browser.RefsLookupRoundTrip |
| Browser.LookupPath | Allura/allura/controllers/repository.py:407-410 | defined by its body: the path looked up, a rename by its new path; stated by Browser.Keep |
| Browser.IsBlobAt | Allura/allura/controllers/repository.py:407-410 | defined by its body: `get_blob_by_path` finds a blob, its failure propagating; stated by Browser.Keep |
| Browser.Shown | Allura/allura/controllers/repository.py:407-410 | defined by its body: a removed path always, anything else when a blob is there; stated by Browser.Keep |
| Browser.Listed | Allura/allura/controllers/repository.py:407-410 | defined by its body: the artifacts the commit page lists; stated by Browser.Artifacts, Browser.RemovedAlwaysListed |
| Browser.PagesFrom | Allura/allura/controllers/repository.py:412 | defined by its body: consecutive pages concatenated; stated by Browser.PagesCover |
| Markdown.Escape | Allura/allura/lib/markdown_extensions.py:71-77 | the escaped text holds no raw '<', '>' or '"' |
| Markdown.ReplaceAppend | Allura/allura/lib/markdown_extensions.py:73-76 | `str.replace` of a character works part by part |
| Markdown.EscapeOne | Allura/allura/lib/markdown_extensions.py:71-77 | one character escapes to its entity, or to itself |
| Markdown.EscapeIsCharwise | Allura/allura/lib/markdown_extensions.py:71-77 | replacing '&' first makes the four passes one character-wise escape, so no entity is escaped twice |
| Markdown.EscapeRoundTrip | Allura/allura/lib/markdown_extensions.py:71-77 | escaped text decodes back to the original |
| Markdown.UnescapeEach | Allura/allura/lib/markdown_extensions.py:71-77 | decoding the character-wise escape gives the text back |
| Markdown.Kept | Allura/allura/lib/markdown_extensions.py:85-88 | the lines kept are all but the fence lines |
| Markdown.FencedKeeps | Allura/allura/lib/markdown_extensions.py:82-93 | `run` outputs one line per non-fence line, in order, each the line itself or the line indented by four spaces |
| Markdown.NoFenceUnchanged | Allura/allura/lib/markdown_extensions.py:82-93 | text without fence lines passes unchanged |
| Markdown.IndentAll | Allura/allura/lib/markdown_extensions.py:90 | every line of a block gets the four-space prefix |
| Markdown.InsideBlock | Allura/allura/lib/markdown_extensions.py:89-90 | inside a block every non-fence line is indented |
| Markdown.FencedBlock | Allura/allura/lib/markdown_extensions.py:82-93 | a fenced block becomes an indented code block and both fences go |
| Markdown.FenceFlips | Allura/allura/lib/markdown_extensions.py:86-88 | a fence line flips the state and produces nothing |
| Markdown.FenceIsFence | Allura/allura/lib/markdown_extensions.py:80-86 | the fence pattern itself is recognised as a fence |
| Markdown.Decimal | Allura/allura/lib/markdown_extensions.py:99 | the decimal form of a number is a non-empty digit string |
| Markdown.Pad4 | Allura/allura/lib/markdown_extensions.py:99 | `%.4d` gives at least four digits |
| Markdown.StoreIn | Allura/allura/lib/markdown_extensions.py:130-133 | `_store` appends the value to its stash, changes no other stash, and returns the placeholder naming the stash and the value's position |
| Markdown.StoreThenLookup | Allura/allura/lib/markdown_extensions.py:130-138 | after `_store` the value's position looks up the value, and every other lookup, including past the end or in an unknown stash, is unchanged |
| Markdown.ParseDecimalOf | Allura/allura/lib/markdown_extensions.py:100 | a number's decimal digits read back as the number |
| Markdown.ParseLeadingZeros | Allura/allura/lib/markdown_extensions.py:99-100 | leading zeros do not change the number read |
| Markdown.Pad4Value | Allura/allura/lib/markdown_extensions.py:99-100 | the padded index reads back as the index |
| Markdown.PlaceholderRoundTrip | Allura/allura/lib/markdown_extensions.py:99-100 | a placeholder for a word-character stash name reads back as that name and position (see also line 199) |
| Markdown.ParseFromParts | Allura/allura/lib/markdown_extensions.py:100 | a framed token whose middle is a word and digits matches `placeholder_re` |
| Markdown.Framed | Allura/allura/lib/markdown_extensions.py:100 | the middle of a framed placeholder is recovered by slicing |
| Markdown.SplitOnce | Allura/allura/lib/markdown_extensions.py:100 | a name and digits separated by one colon split back into both |
| Markdown.Store | Allura/allura/lib/markdown_extensions.py:122-128 | `store` puts bracketed text into the macro stash without its first and last characters, other text into the artifact stash, and returns empty text (and text starting with a line break, which `.+` cannot match) as it is |
| Markdown.ExpandAlink | Allura/allura/lib/markdown_extensions.py:160-169 | a resolved link becomes an anchor to its url; an unresolved one becomes a `notfound` anchor in wiki mode when it has no ':', and stays as it is otherwise |
| Markdown.ExpandLink | Allura/allura/lib/markdown_extensions.py:171-177 | a link is marked `notfound` exactly when it is unresolved, not a `mailto:` and has no '#' |
| Markdown.CompiledArtifact | Allura/allura/lib/markdown_extensions.py:140-169 | as written, when both lookups succeed every artifact link parsed, and a link becomes the anchor of the shortlink `from_links` picked for it, which is stored and eligible, or the unresolved form when none was picked |
| Markdown.AsWrittenKeys | Allura/allura/model/index.py:138-176 | a written lookup that succeeds answers every link of its batch and nothing else |
| Markdown.CompiledArtifactFixed | Allura/allura/lib/markdown_extensions.py:140-169 | over the corrected lookups, a link becomes the anchor of the earliest eligible stored shortlink, or the unresolved form when there is none or the link does not parse |
| Markdown.UnparsedLinkUnresolvesAll | Allura/allura/lib/markdown_extensions.py:142-149 | as written, one artifact link that does not parse makes every link of the page unresolved |
| Markdown.CompileRaises | Allura/allura/lib/markdown_extensions.py:142-149 | when a written lookup raises, the bare `except` empties the table: every artifact link takes the unresolved form and a plain link is `notfound` exactly when it is neither a `mailto:` nor has a '#' |
| Markdown.Rewrite | Allura/allura/lib/markdown_extensions.py:249-267 | spaces become %20; the value is marked nofollow exactly when it holds `://` and names neither sf.net nor sourceforge.net, and gets the `../` prefix exactly when it is not absolute and starts with none of `/`, `.`, `mailto:` and `#` |
| Markdown.RewriteIdempotent | Allura/allura/lib/markdown_extensions.py:249-267 | rewriting a rewritten value changes nothing more |
| Markdown.EscapeChar | Allura/allura/lib/markdown_extensions.py:71-77 | defined by its body: the entity of one character; stated by Markdown.EscapeOne |
| Markdown.EscapeEach | Allura/allura/lib/markdown_extensions.py:71-77 | defined by its body: escaping character by character; stated by Markdown.EscapeIsCharwise, Markdown.UnescapeEach |
| Markdown.Unescape | Allura/allura/lib/markdown_extensions.py:71-77 | defined by its body: the decoder of the four entities, the partner of escaping; stated by Markdown.EscapeRoundTrip, Markdown.UnescapeEach |
| Markdown.IsFence | Allura/allura/lib/markdown_extensions.py:80-86 | defined by its body: a fence line; stated by Markdown.FenceIsFence |
| Markdown.Fences | Allura/allura/lib/markdown_extensions.py:82-93 | defined by its body: the fence lines of a text; stated by Markdown.FencedKeeps, Markdown.NoFenceUnchanged |
| Markdown.Fenced | Allura/allura/lib/markdown_extensions.py:82-93 | defined by its body: `run(lines)`, fences dropped and lines inside indented; stated by Markdown.FencedKeeps, Markdown.NoFenceUnchanged, Markdown.InsideBlock, Markdown.FencedBlock |
| Markdown.Zeros | Allura/allura/lib/markdown_extensions.py:99-100 | ensures k characters all `0`; stated by Markdown.ParseLeadingZeros |
| Markdown.Placeholder | Allura/allura/lib/markdown_extensions.py:99 | defined by its body: `placeholder % (stash_name, index)`; stated by Markdown.StoreIn, Markdown.PlaceholderRoundTrip |
| Markdown.Lookup | Allura/allura/lib/markdown_extensions.py:135-138 | defined by its body: the stored value, or `''` for an unknown stash or position; stated by Markdown.StoreThenLookup |
| Markdown.ParseDecimal | Allura/allura/lib/markdown_extensions.py:100 | defined by its body: the number a digit string denotes; stated by Markdown.ParseDecimalOf, Markdown.Pad4Value |
| Markdown.ParsePlaceholder | Allura/allura/lib/markdown_extensions.py:100 | defined by its body: `placeholder_re` on a whole token; stated by Markdown.PlaceholderRoundTrip, Markdown.ParseFromParts |
| Markdown.MacroPrefix | Allura/allura/lib/markdown_extensions.py:122-128 | defined by its body: `macro_re.match(raw)`; stated by Markdown.Store |
| Markdown.Urls | Allura/allura/lib/markdown_extensions.py:144-145 | defined by its body: the urls of a lookup answer; stated by Markdown.CompiledArtifact |
| Markdown.CompileAlinks | Allura/allura/lib/markdown_extensions.py:140-149 | defined by its body: `compile`'s table over the written lookup, empty when either lookup raised; stated by Markdown.CompiledArtifact, Markdown.UnparsedLinkUnresolvesAll, Markdown.CompileRaises |
| Markdown.CompileAlinksFixed | Allura/allura/lib/markdown_extensions.py:140-149 | defined by its body: the same table over the corrected lookup; stated by Markdown.CompiledArtifactFixed |
| Markdown.CompileWith | Allura/allura/lib/markdown_extensions.py:142-147 | defined by its body: the two answers merged, nothing when either failed; stated by Markdown.CompiledArtifact, Markdown.CompileRaises |
| Markdown.Anchor | Allura/allura/lib/markdown_extensions.py:160-169 | defined by its body: the anchor of a resolved link; stated by Markdown.ExpandAlink, Markdown.CompiledArtifact |
| Markdown.Unresolved | Allura/allura/lib/markdown_extensions.py:160-169 | defined by its body: an unresolved link, a `notfound` anchor in wiki mode without `:`; stated by Markdown.ExpandAlink, Markdown.UnparsedLinkUnresolvesAll |
| Shortlinks.FindByName | Allura/allura/model/index.py:195 | the project lookup finds a project with that name in the neighborhood, or reports that there is none |
| Shortlinks.FindById | Allura/allura/model/index.py:157-160 | `m.project` is the project with the shortlink's project id, or none |
| Shortlinks.Unwrap | Allura/allura/model/index.py:181-185 | stripping takes off white space and at most one bracket on each side |
| Shortlinks.UnwrapBracketed | Allura/allura/model/index.py:181-185 | a bracketed reference unwraps to exactly what is between the brackets |
| Shortlinks.ParseLinkParts | Allura/allura/model/index.py:186-219 | `_parse_link` returns None exactly when there are more than three colon-separated parts; otherwise the last part is the artifact, the one before it the tool, three parts name the project (its id when it is found, else the context's) and fewer take the context's project |
| Shortlinks.ParseLinkShape | Allura/allura/model/index.py:186-217 | a parsed artifact holds no colon, and the reference is the artifact, the tool and artifact, or the project, tool and artifact, joined by colons |
| Shortlinks.ParseFormat | Allura/allura/model/index.py:179-217 | parsing a formatted reference `[project:app:artifact]`, `[app:artifact]` or `[artifact]` gives back its parts, the missing ones coming from the context |
| Shortlinks.FormatSplits | Allura/allura/model/index.py:181-186 | the text between the brackets splits back into the reference's parts |
| Shortlinks.Survives | Allura/allura/model/index.py:155-164 | a candidate whose project is gone raises; otherwise it survives by project, neighborhood, mounted tool and requested tool |
| Shortlinks.Survivors | Allura/allura/model/index.py:155-165 | the surviving candidates are exactly the matching ones, in order, and one orphan among the candidates raises |
| Shortlinks.SurvivorsStep | Allura/allura/model/index.py:155-165 | one more candidate in front keeps that contract: it raises if it is an orphan, and leads the survivors exactly when it matches |
| Shortlinks.Query | Allura/allura/model/index.py:144-147 | the query returns the stored shortlinks whose link is a wanted artifact and whose project is a wanted one |
| Shortlinks.AllWith | Allura/allura/model/index.py:149-154 | the candidates of an artifact are all the query's shortlinks of that link |
| Shortlinks.GroupRuns | Allura/allura/model/index.py:149-151 | `groupby` gives non-empty runs of one link each, starting with the first shortlink |
| Shortlinks.GroupRunsFlatten | Allura/allura/model/index.py:149-151 | the runs together are the query result |
| Shortlinks.RunDict | Allura/allura/model/index.py:149-151 | each link of the dictionary maps to one of the runs, and that run is of that link |
| Shortlinks.InFlatten | Allura/allura/model/index.py:149-151 | a shortlink of one run is among the runs put together |
| Shortlinks.FromLinksAsWrittenSound | Allura/allura/model/index.py:138-169 | as written, a successful batch parsed every link and answers it; a shortlink it picks is stored and passes the project, application and survivor filters |
| Shortlinks.ResolveOk | Allura/allura/model/index.py:153-169 | when no pick raises, every link of the batch gets its pick |
| Shortlinks.UnparsedRaises | Allura/allura/model/index.py:138-143 | as written, a single link that does not parse makes the whole batch raise |
| Shortlinks.FromLinksEmpty | Allura/allura/model/index.py:134-176 | `from_links()` with no links returns an empty dictionary |
| Shortlinks.FromLinksKeys | Allura/allura/model/index.py:153-169 | every link of the batch gets an answer, and only those |
| Shortlinks.FromLinksRaises | Allura/allura/model/index.py:155-165 | the intended batch raises only when a stored candidate has lost its project |
| Shortlinks.FromLinksFirst | Allura/allura/model/index.py:153-169 | each link maps to the earliest eligible stored shortlink, or None; an unparsed link maps to None |
| Shortlinks.CandidatesFirst | Allura/allura/model/index.py:153-169 | filtering the query by artifact and then by the survivor conditions finds the earliest eligible shortlink |
| Shortlinks.ShiftResolved | Allura/allura/model/index.py:166-169 | a non-eligible shortlink in front does not change the pick |
| Shortlinks.LongLinkUnparsed | Allura/allura/model/index.py:186-219 | a link of four colon-separated parts does not parse |
| Shortlinks.AllUnparsedNone | Allura/allura/model/index.py:138-169 | in the intended version an unparsed link resolves to None |
| Shortlinks.ResolveUnparsed | Allura/allura/model/index.py:166-169 | a batch of one unparsed link resolves it to None |
| Shortlinks.LongLinkRaises | Allura/allura/model/index.py:138-143 | a link with four parts makes the batch as written raise, where the intended version resolves it to None |
| Shortlinks.QueryAll | Allura/allura/model/index.py:144-147 | the query keeps the whole collection when every shortlink is wanted |
| Shortlinks.ExGrouped | Allura/allura/model/index.py:149-151 | in the example the later run of an artifact replaces the earlier one |
| Shortlinks.RunDictStep | Allura/allura/model/index.py:149-151 | a later run of the same link wins in the dictionary |
| Shortlinks.ExRuns | Allura/allura/model/index.py:149-151 | the example's collection, unsorted, groups into three runs |
| Shortlinks.UnsortedGroupLoses | Allura/allura/model/index.py:149-154 | as written, the first link of the example resolves to None, though its own project has a matching shortlink, which the intended version finds |
| Shortlinks.ExWritten | Allura/allura/model/index.py:149-169 | the example's first link resolves to None as written |
| Shortlinks.ExIntended | Allura/allura/model/index.py:149-169 | grouping all the candidates of each artifact resolves the example's first link to its own project's shortlink |
| Shortlinks.ParseOne | Allura/allura/model/index.py:211-217 | a one-part reference takes the context's project |
| Shortlinks.ParseThree | Allura/allura/model/index.py:194-203 | a three-part reference names its project, with the looked-up id when the project exists |
| Shortlinks.ReferenceFor | Allura/allura/model/index.py:53-66 | `ArtifactReference.from_artifact` returns the stored reference under the artifact's index id, or creates one from the artifact, changing nothing else |
| Shortlinks.ReferenceForIdempotent | Allura/allura/model/index.py:53-66 | a second call returns the first call's reference and changes nothing |
| Shortlinks.ShortlinkFor | Allura/allura/model/index.py:114-131 | `Shortlink.from_artifact` sets the link and url from the artifact, keeping an existing record's project and tool; without a shorthand id the record is deleted and None returned |
| Shortlinks.ShortlinkForIdempotent | Allura/allura/model/index.py:114-131 | refreshing a shortlink twice from the same artifact is refreshing it once |
| Shortlinks.ParseLink | Allura/allura/model/index.py:179-219 | defined by its body: `_parse_link`, three, two or one parts, more giving `None`; stated by Shortlinks.ParseLinkParts, Shortlinks.ParseLinkShape, Shortlinks.ParseFormat |
| Shortlinks.Format | Allura/allura/model/index.py:181-186 | defined by its body: the bracketed form of a reference, the partner of parsing; stated by Shortlinks.ParseFormat, Shortlinks.FormatSplits |
| Shortlinks.AppGiven | Allura/allura/model/index.py:161 | defined by its body: `d['app']` is truthy; stated by Shortlinks.Survives |
| Shortlinks.Matches | Allura/allura/model/index.py:155-164 | defined by its body: a candidate passes both filters; stated by Shortlinks.Survivors, Shortlinks.CandidatesFirst |
| Shortlinks.Orphan | Allura/allura/model/index.py:157 | defined by its body: a candidate whose project is gone; stated by Shortlinks.Survivors, Shortlinks.FromLinksRaises |
| Shortlinks.First | Allura/allura/model/index.py:165-169 | defined by its body: the first survivor, or `None`; stated by Shortlinks.CandidatesFirst |
| Shortlinks.Flatten | Allura/allura/model/index.py:149-151 | defined by its body: the runs put back together; stated by Shortlinks.GroupRunsFlatten, Shortlinks.InFlatten |
| Shortlinks.ParseAll | Allura/allura/model/index.py:138 | defined by its body: `parsed_links`; stated by Shortlinks.FromLinksAsWrittenSound, Shortlinks.FromLinksFirst |
| Shortlinks.Artifacts | Allura/allura/model/index.py:141-145 | defined by its body: the artifacts the parsed links name; stated by Shortlinks.FromLinksKeys |
| Shortlinks.ProjectIds | Allura/allura/model/index.py:140-142 | defined by its body: the project ids the parsed links carry; stated by Shortlinks.FromLinksAsWrittenSound, Shortlinks.FromLinksFirst |
| Shortlinks.Candidates | Allura/allura/model/index.py:154 | defined by its body: `matches_by_artifact.get(a, [])`; stated by Shortlinks.FromLinksAsWrittenSound, Shortlinks.FromLinksRaises |
| Shortlinks.Pick | Allura/allura/model/index.py:153-169 | defined by its body: one link's first survivor, or `None`; stated by Shortlinks.ResolveOk |
| Shortlinks.Resolve | Allura/allura/model/index.py:153-169 | defined by its body: every link to its pick, a raising pick raising the batch; stated by Shortlinks.ResolveOk |
| Shortlinks.FromLinksAsWritten | Allura/allura/model/index.py:134-176 | defined by its body: `from_links` as written; stated by Shortlinks.FromLinksAsWrittenSound, Shortlinks.LongLinkRaises, Markdown.AsWrittenKeys |
| Shortlinks.Grouped | Allura/allura/model/index.py:149-151 | defined by its body: each artifact to all its shortlinks of the query, as intended; stated by Shortlinks.FromLinksFirst, Shortlinks.FromLinksRaises |
| Shortlinks.FromLinks | Allura/allura/model/index.py:134-176 | defined by its body: `from_links` corrected; stated by Shortlinks.FromLinksEmpty, Shortlinks.FromLinksKeys, Shortlinks.FromLinksRaises, Shortlinks.FromLinksFirst |
| Shortlinks.Eligible | Allura/allura/model/index.py:144-164 | defined by its body: a stored shortlink the query and both filters let through; stated by Shortlinks.FromLinksAsWrittenSound, Shortlinks.ShiftResolved |
| Shortlinks.ResolvedTo | Allura/allura/model/index.py:153-169 | defined by its body: the earliest eligible shortlink, or `None`; stated by Shortlinks.FromLinksFirst, Shortlinks.CandidatesFirst |
| ProjectMounts.MountOrder | Allura/allura/model/project.py:544 | the `(ordinal, rank)` order is a total preorder |
| ProjectMounts.SubMountsListed | Allura/allura/model/project.py:536-537 | the subproject rows are exactly the live subprojects, each with rank 1 |
| ProjectMounts.ToolMountsListed | Allura/allura/model/project.py:538-543 | the tool rows are exactly the tools shown, all of them with `include_hidden` |
| ProjectMounts.OrderedMountsSpec | Allura/allura/model/project.py:532-544 | `ordered_mounts` lists exactly the live subprojects and the shown tools, sorted by ordinal and rank, with rank 0 exactly for the tool mounted at `home` |
| ProjectMounts.NextMountPointSpec | Allura/allura/model/project.py:568-573 | `next_mount_point` is 0 when nothing is listed, otherwise one past the highest listed ordinal |
| ProjectMounts.LastHighest | Allura/allura/model/project.py:572 | in toolbar order the last row has the highest ordinal |
| ProjectMounts.DefaultMountPointSpec | Allura/allura/model/project.py:463-467 | the default mount point is the first free of `base`, `base-0` … `base-8`, and `base-9` when all those are taken |
| ProjectMounts.InstallAppSpec | Allura/allura/model/project.py:461-493 | `install_app` succeeds exactly when the mount point is a valid path, not reserved and not in use; it appends one tool with the chosen mount point, the label given or the default, the ordinal given or one above every mount, changes nothing else and keeps mount points unique |
| ProjectMounts.InstallAppDefault | Allura/allura/model/project.py:463-467 | with no mount point given a free default is chosen whenever one of the ten candidates is free |
| ProjectMounts.InstallAppAgrees | Allura/allura/model/project.py:478-479 | the intended version agrees with the code wherever the code does not raise; they differ only with no ordinal and no mounts at all |
| ProjectMounts.InstallIntoEmpty | Allura/allura/model/project.py:478-479 | as written, installing without an ordinal into a project with no mounts raises IndexError; the intended version gives ordinal 0 |
| ProjectMounts.RemoveFirst | Allura/allura/model/project.py:495-501 | removing a tool config never adds one |
| ProjectMounts.UninstallApp | Allura/allura/model/project.py:495-501 | `uninstall_app` on an unknown mount point changes nothing; it clears the support page exactly when it names the removed mount, and leaves subprojects and ACL alone |
| ProjectMounts.RemoveFirstUnique | Allura/allura/model/project.py:495-501 | with unique mount points, removing one leaves no tool at it |
| ProjectMounts.UninstallFrees | Allura/allura/model/project.py:495-501 | with unique mount points the uninstalled mount point is free afterwards |
| ProjectMounts.UninstallAfterInstall | Allura/allura/model/project.py:461-501 | uninstalling what was just installed gives the project back, unless its support page named that mount point |
| ProjectMounts.RemoveAce | Allura/allura/model/project.py:277 | `acl.remove` takes out one occurrence of the entry |
| ProjectMounts.SetPrivate | Allura/allura/model/project.py:269-279 | setting `private` only touches the ACL |
| ProjectMounts.PrivateRoundTrip | Allura/allura/model/project.py:265-280 | setting `private` to its current value changes nothing; False makes the project readable; True makes it private when the entry was there at most once; only the anonymous read entry is added or removed |
| ProjectMounts.AllowedRolesMember | Allura/allura/model/project.py:321-323 | a role is collected from an ACL exactly when it holds an allow entry for the permission |
| ProjectMounts.RoleIdsMember | Allura/allura/model/project.py:318-324 | `roleids_with_permission` holds a role exactly when some ACL on the way up allows it the permission |
| ProjectMounts.TakePrefixed | Allura/allura/model/project.py:439-443 | the loop keeps only names under the project, and stops at the first that is not |
| ProjectMounts.Subprojects | Allura/allura/model/project.py:435-443 | the intended `subprojects`: every project of the neighborhood whose name starts with the project's name and '/', in name order |
| ProjectMounts.Below | Allura/allura/model/project.py:440 | the names under the project are exactly those starting with its name and '/' |
| ProjectMounts.ExampleAfter | Allura/allura/model/project.py:437-438 | in the example, the names after "a" in order are "a-1" and then "a/sub" |
| ProjectMounts.SubprojectsSkipped | Allura/allura/model/project.py:437-443 | as written, "u/test-user-1" sorts between "u/test-user" and "u/test-user/sub", the loop stops there, and no subproject is found |
| ProjectMounts.CascadeClosed | Allura/allura/lib/plugin.py:536-544 | with the corrected `subprojects`, the projects the cascade reaches are exactly the project and every project whose name lies under it |
| ProjectMounts.DeleteProject | Allura/allura/lib/plugin.py:536-539 | corrected `delete_project` marks the project and everything under it deleted and changes nothing else |
| ProjectMounts.UndeleteProject | Allura/allura/lib/plugin.py:541-544 | corrected `undelete_project` clears the mark on the project and everything under it and changes nothing else |
| ProjectMounts.UndeleteAfterDelete | Allura/allura/lib/plugin.py:536-544 | with the corrected cascade, undeleting what was deleted leaves the subtree undeleted and every other project as it was |
| ProjectMounts.AfterMember | Allura/allura/model/project.py:438-440 | every name the sorted query lists is a project of the neighborhood |
| ProjectMounts.SubprojectsAsWrittenSound | Allura/allura/model/project.py:436-443 | the written scan lists only true subprojects |
| ProjectMounts.CascadeAsWrittenWithin | Allura/allura/lib/plugin.py:536-544 | the written cascade reaches the project itself and only projects under it |
| ProjectMounts.DeleteProjectAsWritten | Allura/allura/lib/plugin.py:536-539 | `delete_project` as written marks the project deleted, newly marks only projects under it, keeps every earlier mark and changes no name |
| ProjectMounts.UndeleteProjectAsWritten | Allura/allura/lib/plugin.py:541-544 | `undelete_project` as written clears the project's mark, clears only marks under it, and leaves every live project live |
| ProjectMounts.DeleteSkipsSubproject | Allura/allura/lib/plugin.py:536-539 | as written, deleting `u/test-user` next to `u/test-user-1` leaves `u/test-user/sub` live, while the corrected cascade deletes it |
| ProjectMounts.ToolOrdinal | Allura/allura/model/project.py:541 | defined by its body: `ac.options.get('ordinal', 0)`; stated by ProjectMounts.ToolMountsListed |
| ProjectMounts.ToolMount | Allura/allura/model/project.py:538-543 | defined by its body: a tool's row, rank 0 only at `home`; stated by ProjectMounts.ToolMountsListed |
| ProjectMounts.SubMounts | Allura/allura/model/project.py:536-537 | defined by its body: the rows of the live subprojects; stated by ProjectMounts.SubMountsListed |
| ProjectMounts.ToolMounts | Allura/allura/model/project.py:538-543 | defined by its body: the rows of the tools shown; stated by ProjectMounts.ToolMountsListed |
| ProjectMounts.MountLe | Allura/allura/model/project.py:544 | defined by its body: the sort key `(ordinal, rank)`; stated by ProjectMounts.MountOrder, ProjectMounts.OrderedMountsSpec |
| ProjectMounts.OrderedMounts | Allura/allura/model/project.py:532-544 | defined by its body: `ordered_mounts`; stated by ProjectMounts.OrderedMountsSpec |
| ProjectMounts.NextMountPoint | Allura/allura/model/project.py:568-573 | defined by its body: `next_mount_point`; stated by ProjectMounts.NextMountPointSpec |
| ProjectMounts.InUse | Allura/allura/model/project.py:466 | defined by its body: `app_instance(mount_point) is not None`; stated by ProjectMounts.DefaultMountPointSpec, ProjectMounts.InstallAppSpec |
| ProjectMounts.Candidate | Allura/allura/model/project.py:463-467 | defined by its body: the k-th name tried; stated by ProjectMounts.DefaultMountPointSpec |
| ProjectMounts.DefaultMountPoint | Allura/allura/model/project.py:463-467 | defined by its body: the first free name tried; stated by ProjectMounts.DefaultMountPointSpec, ProjectMounts.InstallAppDefault |
| ProjectMounts.ChosenMountPoint | Allura/allura/model/project.py:462-467 | defined by its body: the mount point given, or the default; stated by ProjectMounts.InstallAppSpec |
| ProjectMounts.MountPointError | Allura/allura/model/project.py:468-476 | defined by its body: the `ToolError` for an unusable mount point; stated by ProjectMounts.InstallAppSpec, ProjectMounts.InstallIntoEmpty |
| ProjectMounts.Installed | Allura/allura/model/project.py:477-493 | defined by its body: the project with the new tool added; stated by ProjectMounts.InstallAppSpec, ProjectMounts.InstallIntoEmpty |
| ProjectMounts.InstallAppAsWritten | Allura/allura/model/project.py:461-493 | defined by its body: `install_app` as written; stated by ProjectMounts.InstallAppAgrees, ProjectMounts.InstallIntoEmpty |
| ProjectMounts.InstallApp | Allura/allura/model/project.py:461-493 | defined by its body: `install_app` corrected; stated by ProjectMounts.InstallAppSpec, ProjectMounts.InstallAppAgrees, ProjectMounts.UninstallAfterInstall |
| ProjectMounts.AnonRead | Allura/allura/model/project.py:265-280 | defined by its body: the ACE letting anonymous users read; stated by ProjectMounts.PrivateRoundTrip |
| ProjectMounts.Private | Allura/allura/model/project.py:265-280 | defined by its body: `private`; stated by ProjectMounts.PrivateRoundTrip |
| ProjectMounts.AllowedRoles | Allura/allura/model/project.py:321-323 | defined by its body: the roles an ACL allows; stated by ProjectMounts.AllowedRolesMember |
| ProjectMounts.RoleIdsWithPermission | Allura/allura/model/project.py:318-324 | defined by its body: `roleids_with_permission` over the parents; stated by ProjectMounts.RoleIdsMember |
| ProjectMounts.After | Allura/allura/model/project.py:437-438 | defined by its body: the shortnames after `s` in order; stated by ProjectMounts.AfterMember, ProjectMounts.ExampleAfter |
| ProjectMounts.SubprojectsAsWritten | Allura/allura/model/project.py:436-443 | defined by its body: `subprojects` as written; stated by ProjectMounts.SubprojectsSkipped, ProjectMounts.SubprojectsAsWrittenSound |
| ProjectMounts.Cascade | Allura/allura/lib/plugin.py:536-544 | defined by its body: the names the corrected delete reaches; stated by ProjectMounts.CascadeClosed |
| ProjectMounts.InSubtree | Allura/allura/lib/plugin.py:536-544 | defined by its body: a project's own document or one below it; stated by ProjectMounts.DeleteProject, ProjectMounts.UndeleteProject |
| ProjectMounts.CascadeAsWritten | Allura/allura/lib/plugin.py:536-544 | defined by its body: the names the written delete reaches; stated by ProjectMounts.CascadeAsWrittenWithin |
| AdminGroups.AddTrove | Allura/allura/ext/admin/admin_main.py:350-364 | adding a category refuses when the kind's limit (6, or 3 for topics) is reached or the category is already listed; otherwise it appends the category, or does nothing when the id names no category |
| AdminGroups.AddTroveKeeps | Allura/allura/ext/admin/admin_main.py:354-363 | a project within the limit stays within it, and no category is listed twice |
| AdminGroups.Put | Allura/allura/ext/admin/admin_main.py:562-564 | `permissions[perm] = ids` changes that key only and keeps keys distinct |
| AdminGroups.Fresh | Allura/allura/ext/admin/admin_main.py:578-579 | the fresh table has exactly the project's permissions, each with no roles |
| AdminGroups.GrantedMember | Allura/allura/ext/admin/admin_main.py:580-582 | a role is collected for a permission exactly when the ACL has an allow entry for it |
| AdminGroups.IndexPermissions | Allura/allura/ext/admin/admin_main.py:577-583 | `_index_permissions` raises KeyError exactly when an allow entry names an undeclared permission; otherwise every declared permission maps to the roles allowed it, in ACL order |
| AdminGroups.FirstGranted | Allura/allura/ext/admin/admin_main.py:613-617 | the first child role holding the permission, or none when no child holds it |
| AdminGroups.PermissionFor | Allura/allura/ext/admin/admin_main.py:607-624 | a cell reads "yes" exactly when the role itself is granted; "no" exactly when neither the role, a child, the anonymous role nor (for roles other than anonymous) the authenticated role is granted; it inherits from the first granted child before Anonymous and Authenticated |
| AdminGroups.RowFor | Allura/allura/ext/admin/admin_main.py:604-625 | a role's row has one cell per permission, in table order |
| AdminGroups.Rows | Allura/allura/ext/admin/admin_main.py:604-605 | the rows are keyed by exactly the roles' ids, the last role with an id giving its row |
| AdminGroups.MapGroupPermissions | Allura/allura/ext/admin/admin_main.py:598-626 | `_map_group_permissions` has rows for the named roles, the authenticated role and the anonymous role, the anonymous row computed last |
| AdminGroups.AnonymousNotAuthenticated | Allura/allura/ext/admin/admin_main.py:619-624 | a permission granted only to authenticated users reads "no" for the anonymous role and not "no" for every other role |
| AdminGroups.CardIds | Allura/allura/ext/admin/admin_main.py:553-563 | a form row sets exactly its checked and added ids, plus the Admin group on the `admin` row |
| AdminGroups.ApplyCards | Allura/allura/ext/admin/admin_main.py:544-564 | permissions the form does not name keep their roles, and each permission the form names gets its last row's ids |
| AdminGroups.AclOf | Allura/allura/ext/admin/admin_main.py:565-573 | the rebuilt ACL holds exactly one allow entry for each permission and role of the table |
| AdminGroups.AclOfLookup | Allura/allura/ext/admin/admin_main.py:565-573 | with distinct keys, the rebuilt ACL allows a role a permission exactly when the table lists it |
| AdminGroups.PermissionsUpdate | Allura/allura/ext/admin/admin_main.py:541-575 | `PermissionsController.update` fails exactly when indexing fails, and the new ACL holds only allow entries |
| AdminGroups.PermissionsUpdateKeepsAdmin | Allura/allura/ext/admin/admin_main.py:552-561 | a form with an `admin` row leaves the Admin group holding `admin` |
| AdminGroups.PermissionsUpdateFrame | Allura/allura/ext/admin/admin_main.py:562-573 | a permission the form does not name keeps exactly the roles the old ACL allowed |
| AdminGroups.ChangePerm | Allura/allura/ext/admin/admin_main.py:659-670 | granting appends one allow entry; revoking `admin` from the Admin group is refused; otherwise revoking removes one entry, or raises ValueError when there is none |
| AdminGroups.ChangePermKeepsAdmin | Allura/allura/ext/admin/admin_main.py:664-666 | no `change_perm` call takes `admin` away from the Admin group |
| AdminGroups.GrantThenRevoke | Allura/allura/ext/admin/admin_main.py:659-668 | granting and then revoking a permission restores the ACL up to order |
| AdminGroups.Members | Allura/allura/ext/admin/admin_main.py:699 | a group's members are exactly the users whose roles hold it |
| AdminGroups.AddUser | Allura/allura/ext/admin/admin_main.py:676-690 | `add_user` succeeds exactly when the name is non-empty, not anonymous, the group exists, the stripped name is a user, and that user is not already in the group; it then adds the user to the members and changes no other user |
| AdminGroups.RemoveId | Allura/allura/ext/admin/admin_main.py:708 | `list.remove` takes out one occurrence |
| AdminGroups.RemoveUser | Allura/allura/ext/admin/admin_main.py:696-710 | `remove_user` raises exactly when the group is missing, because `group.name` is read first; it refuses for the last Admin; it succeeds exactly when the group exists, is not the last Admin's, and the stripped user exists and holds it; the user then keeps the group only if it held it more than once |
| AdminGroups.RemoveUserKeepsAdmin | Allura/allura/ext/admin/admin_main.py:699-700 | `remove_user` never leaves a non-empty Admin group empty |
| AdminGroups.AddNew | Allura/allura/ext/admin/admin_main.py:728-737 | the adding loop stops at the first name that is not a user, and keeps the set of users |
| AdminGroups.AddNewMembers | Allura/allura/ext/admin/admin_main.py:727-737 | after the loop a user holds the group exactly when it held it or was named with a real id; ids are unchanged; the flag is set exactly when someone was added |
| AdminGroups.Without | Allura/allura/ext/admin/admin_main.py:749 | the filtered roles are the old ones without the group |
| AdminGroups.DropUnlisted | Allura/allura/ext/admin/admin_main.py:744-750 | every earlier member with a real id that the form no longer lists loses the group, and nothing else changes |
| AdminGroups.GroupUpdate | Allura/allura/ext/admin/admin_main.py:716-752 | one row of `GroupsController.update` is refused exactly when a new name is not a user, or the group is Admin with an empty list and nobody added; otherwise a user holds the group afterwards exactly as `Remains` says |
| AdminGroups.GroupUpdateEmptiesAdmin | Allura/allura/ext/admin/admin_main.py:739-750 | as written, a form listing only an empty id passes the guard and empties the Admin group |
| AdminGroups.GroupUpdateFixed | Allura/allura/ext/admin/admin_main.py:738-750 | the corrected guard refuses exactly when a new name is unknown or, for Admin, nobody would hold the group afterwards |
| AdminGroups.GroupUpdateFixedKeepsAdmin | Allura/allura/ext/admin/admin_main.py:738-742 | with the corrected guard the Admin group keeps a member |
| AdminGroups.GroupUpdateFixedAgrees | Allura/allura/ext/admin/admin_main.py:716-752 | where both guards pass, the corrected row does what the original does |
| AdminGroups.GroupUpdateSkipsAnonymous | Allura/allura/ext/admin/admin_main.py:733-734 | the anonymous user is never added to a group |
| AdminGroups.TroveLimit | Allura/allura/ext/admin/admin_main.py:350-364 | defined by its body: how many categories of a kind a project may have; stated by AdminGroups.AddTrove, AdminGroups.AddTroveKeeps |
| AdminGroups.Lookup | Allura/allura/ext/admin/admin_main.py:577-583 | defined by its body: `permissions[k]` in the table; stated by AdminGroups.Put, AdminGroups.IndexPermissions, AdminGroups.AclOfLookup |
| AdminGroups.Granted | Allura/allura/ext/admin/admin_main.py:580-582 | defined by its body: the role ids allowed a permission, in ACL order; stated by AdminGroups.GrantedMember, AdminGroups.IndexPermissions |
| AuthRegistration.ByUsername | Allura/allura/lib/plugin.py:188-194 | `by_username` finds the first stored user whose whole name matches the query, `-` and `_` matching each other (and a final newline accepted), and finds none exactly when no name matches |
| AuthRegistration.Canon | Allura/allura/lib/plugin.py:208 | `_` becomes `-` and every other character stays |
| AuthRegistration.SameUrlIffMatch | Allura/allura/lib/plugin.py:188-208 | two user names share a project URL exactly when they have the same length and differ only in `-` versus `_`, that is when `by_username` would match one with the other |
| AuthRegistration.ByUsernameFindsSelf | Allura/allura/lib/plugin.py:188-208 | a stored name is always found by itself, and whatever is found instead (of the same length) has the same project URL |
| AuthRegistration.EncodePassword | Allura/allura/lib/plugin.py:199-205 | the stored password is `sha256`, then the salt, then the digest of salt and password |
| AuthRegistration.Slice | Allura/allura/lib/plugin.py:183 | Python's slice is clamped to the string |
| AuthRegistration.ValidatePassword | Allura/allura/lib/plugin.py:180-186 | no user or an empty password never validates; a password validates only if re-encoding it with the stored salt gives the stored value |
| AuthRegistration.EncodeThenValidate | Allura/allura/lib/plugin.py:180-205 | a password encoded with a salt of the configured length validates |
| AuthRegistration.ValidateOnlyThatPassword | Allura/allura/lib/plugin.py:180-205 | with a collision-free digest only the encoded password validates |
| AuthRegistration.UserAge | Allura/allura/lib/plugin.py:352-353 | the user's age is the whole seconds, rounded down, in the age in microseconds |
| AuthRegistration.RateLimit | Allura/allura/lib/plugin.py:339-355 | `rate_limit` raises ProjectRatelimitError exactly when the user is not a neighborhood admin and some configured (rate, count) pair has the user younger than the rate with at least count projects |
| AuthRegistration.RateLimitMonotone | Allura/allura/lib/plugin.py:351-355 | a younger user with as many projects or more stays limited |
| AuthRegistration.NoSlashes | Allura/allura/lib/plugin.py:416 | removing the slashes keeps every other character |
| AuthRegistration.RegisterProject | Allura/allura/lib/plugin.py:391-421 | `register_project` gets past its guards exactly when private projects are allowed or not asked for, the neighborhood is under its limit, the rate limit passes, the shortname without slashes is a valid path portion, and the shortname is not taken |
| AuthRegistration.RegisterConflict | Allura/allura/lib/plugin.py:416-421 | a taken shortname never registers, and it is reported as ProjectConflict exactly when every earlier guard passes |
| AuthRegistration.NameTaken | Allura/allura/lib/plugin.py:320-328 | `name_taken` reports a taken name first, else the message of the first extra check whose pattern matches, else nothing |
| AuthRegistration.Common | Allura/allura/lib/plugin.py:444-445 | the group's permissions are those both the template and the project declare, each once |
| AuthRegistration.AddToGroup | Allura/allura/lib/plugin.py:458-463 | each template user that resolves to a real user gets the group once, and nobody else changes |
| AuthRegistration.TemplateGroup | Allura/allura/lib/plugin.py:441-463 | a template group with no name is skipped; a new group is created only when it has permissions; otherwise the groups are as before |
| AuthRegistration.TemplateGroupAcl | Allura/allura/lib/plugin.py:449-457 | an existing group leaves the ACL alone; a new group adds exactly one allow entry per permission both the template and the project declare |
| AuthRegistration.TemplateUsersOnce | Allura/allura/lib/plugin.py:458-463 | a template user joins a group at most once |
| AuthRegistration.AddedOnce | Allura/allura/lib/plugin.py:462-463 | appending only when absent adds the group at most once |
| AuthRegistration.CharMatch | Allura/allura/lib/plugin.py:188-194 | defined by its body: one position of the pattern, `-` and `_` matching either; stated by AuthRegistration.SameUrlIffMatch |
| AuthRegistration.NameMatches | Allura/allura/lib/plugin.py:188-194 | defined by its body: `^pattern$` against a whole name; stated by AuthRegistration.ByUsername |
| AuthRegistration.ProjectUrl | Allura/allura/lib/plugin.py:207-208 | defined by its body: `project_url`; stated by AuthRegistration.SameUrlIffMatch, AuthRegistration.ByUsernameFindsSelf |
| AuthRegistration.Limits | Allura/allura/lib/plugin.py:339-355 | defined by its body: one `(rate, count)` pair forbidding a project; stated by AuthRegistration.RateLimit |
| AuthRegistration.Resolves | Allura/allura/lib/plugin.py:458-463 | defined by its body: a template user name resolves to a user; stated by AuthRegistration.AddToGroup |
| Text.Contains | Allura/allura/lib/markdown_extensions.py:257-258 | defined by its body: Python's `sub in s`; stated by Markdown.Rewrite |
| Text.ReplaceChar | Allura/allura/lib/markdown_extensions.py:255 | ensures a pattern character the replacement lacks is gone, every character comes from the text or the replacement, and a text without the pattern is unchanged; stated by Markdown.Rewrite, Markdown.ReplaceAppend |
| Text.StartsWith | Allura/allura/model/index.py:182 | defined by its body: `s.startswith(p)`; stated by TreeObjects.LeadingSlash, Shortlinks.Unwrap |
| Text.EndsWith | Allura/allura/model/index.py:184 | defined by its body: `s.endswith(p)`; stated by Shortlinks.Unwrap, Browser.TakeRef |
| Text.Split | Allura/allura/model/index.py:186 | ensures at least one part and no part holds the separator, as `s.split(sep)`; stated by Shortlinks.ParseLinkParts, Markdown.SplitOnce |
| Text.Join | Allura/allura/model/repo.py:468-473 | defined by its body: `sep.join(parts)`; stated by TreeObjects.TreePathJoin, Refresh.JoinNoBreak |
| Text.LStrip | Allura/allura/model/index.py:181 | ensures the result is a suffix, starts with no space, and only spaces were dropped |
| Text.RStrip | Allura/allura/model/repo_refresh.py:390 | ensures the result is a prefix, ends with no space, and only spaces were dropped; stated by Refresh.Paragraph |
| Text.Strip | Allura/allura/model/index.py:181 | defined by its body: `s.strip()`, both strips; stated by Shortlinks.Unwrap, AdminGroups.AddUser |
| Sorting.SortBy | Allura/allura/controllers/repository.py:570 | ensures the result is a permutation of the input; stated by Browser.SortedByDate, GitRepo.PickLatest |
| Sorting.StrLe | Allura/allura/model/repository.py:1106 | defined by its body: string order by character code; stated by GitTree.SameContentSameHex, ProjectMounts.AfterMember |

## Left out

What the model does not cover, with the reason:
- Persistence is not modelled: Mongo, Ming sessions, batching and upsert races. Stores are maps, and concurrent writers are out of scope.
- Native Git calls are not modelled: `git.Repo`, `rev_parse`, `iter_commits`, clone and hooks. They become given maps of commits, trees and references.
- The adapter's `new_commits` is left out as a version-control call.
- Digests are opaque function parameters: SHA-1, SHA-256 and base64. Only their determinism and the layout around them are modelled.
- `SequenceMatcher.ratio` is a parameter. Only the 0.5 threshold and the pairing rules are modelled.
- `h.re_path_portion`, the extra name-check regular expressions and `child_roles()` are parameters.
- Notifications, feeds, audit-log writes, `flash`, `redirect`, logging and templates are side effects on collaborators, and are left out.
- The legacy `LogCache` log path and the old `Commit.compute_diffs` are superseded by the code modelled here.
- `Commit.count_revisions` and its repair rebuild (Allura/allura/model/repo.py:230-242) are not modelled. A rebuild of the runs from every commit id after a run was lost is therefore not stated either.
- `Commit.context` and the remaining controller actions are request plumbing.
- Python 2 `str` and `unicode` are one string type here. Encoding and decoding (`really_unicode`, `.encode('utf-8')`) are the identity, and sorting a mix of the two is plain string order.
- Browser.TopoSortBrowser: requires every parent to be a key of `parents`, and reads a missing date as 0. The source would raise KeyError at `parents[next]` or `dates[x]` (Allura/allura/controllers/repository.py:568-581).
- GitRepo.Log: requires every parent of a stored commit to be stored, as a Git object store guarantees.
- CommitRuns.MergeRuns: requires an acyclic commit graph, which every Git history is. A parent chain that leads back into a run's own commits is not modelled.
- RunCleanup.CleanupFixed: requires an acyclic commit graph, like the merge it uses.
- Repository.MergeCommits: requires an acyclic commit graph, given as a rank on the stored commits, which every Git history has. On a cycle the source's walk would not end. Repository.MergeCommitsFixed does not need it: its record of listed commits ends the walk on any graph.
- Refresh.SplitLines: breaks lines only at "\n", "\r" and "\r\n", as Python 2 `str.splitlines` does. `unicode.splitlines` also breaks at \v, \f, \x1c to \x1e, \x85, \u2028 and \u2029.
- Markdown.Fenced: strips ASCII white space before looking for the fence. Unicode `lstrip` also strips other white space.
- GitTree.Hex: always the digest of the current contents. The source caches the first value in `_hex`, and a later `set_blob` does not clear it (Allura/allura/model/repository.py:1093-1098).
- TreeDiff.RightOnly: reports right-only entries in the order of the right-hand tree. The source reports them in the order of a Python 2 dictionary, which is unspecified.
- TreeObjects.Child: an entry whose subtree document is not stored gives `None`, the `KeyError`. The source first asks the repository to rebuild that tree with `compute_tree_new` and looks it up again (Allura/allura/model/repo.py:370-372). The rebuild is a Git call outside this model, so the model answers as if it stored nothing.
- Renames.CommitChanges: the previous commit's objects are a parameter. The source reaches them through `self.log(1,1)[0]`, which for a merge is the parent released last.
- Shortlinks.ParseLink: does not URL-decode the link. The source decodes the artifact name with `unquote` where it groups and matches links (Allura/allura/model/index.py:143, 151, 154), so `[My%20Page]` resolves as "My Page" there and as "My%20Page" here.
- Shortlinks.Query: compares link names undecoded, for the same reason.
- GitRepo.IntBase16: accepts ASCII hex digits, one sign and ASCII white space. Python's `int` also accepts Unicode digits and Unicode white space.
- ProjectMounts.InstallAppSpec: `install_app`'s `override_options` and the application's own `install` hook are not modelled.
- ProjectMounts.UninstallApp: the application's own `uninstall` hook is not modelled.
- AdminGroups.IndexPermissions: the permissions dictionary keeps insertion order. Python 2 dictionary order is unspecified, and only the contents are stated.
- AdminGroups.GroupUpdate: models one form row. The users added before a redirect stay saved in the source; the model returns the refusal alone.
- AdminGroups.GroupUpdate: the `group.project == c.project` assertion is not modelled.
- AdminGroups: `delete_group` and the group creation form are not modelled.
- AuthRegistration.ByUsername: `User.by_username` is modelled as a whole-name match over the stored names in order. The first match of an unsorted Mongo query is that order.
- AuthRegistration.EncodePassword: the salt is a parameter. The source draws SALT_LEN random characters.
- AuthRegistration.RateLimit: the rates are already integers. The source parses them with `int(rate)`.
- AuthRegistration.RegisterProject: error texts are shortened. A private-project refusal does not carry the neighborhood's name.
- AuthRegistration.TemplateGroup: the template's permissions are a Python set in the source. The model adds the ACL entries in the template's order.

## Findings

| source | as written | input that shows it | evidently intended | confidence | as-written member | corrected member |
|---|---|---|---|---|---|---|
| Allura/allura/model/repo_refresh.py:216-237 | The first pass of `cleanup` merges a run into its parent's run and deletes the parent's document. The parent's in-memory copy can still absorb its own parent and be saved again. | Three persisted singleton runs a -> b -> c, visited in the order a, b, c. Run a absorbs b; then the stale run b absorbs c and is saved again. The second pass deletes run a, and commit a is in no run. | Every commit is still in some run after `cleanup`. | medium; not executed; depends on dictionary order | RunCleanup.LostCommitExample | RunCleanup.CleanupFixed |
| Allura/allura/model/repo.py:632-634 | A skipped pick is dropped before its parents are released. Latent: no caller visible here passes `skip`. | `commitlog(["a"], skip=1)` on the chain c <- b <- a yields nothing. | Skipped commits still release their parents, so the call yields b and then c. | low; not executed; latent | CommitLog.SkipOneYieldsNothing | CommitLog.GenIdsFixed |
| Allura/allura/model/project.py:478-479 | With no ordinal, `install_app` takes the last ordered mount's ordinal. | A project with no tools and no subprojects: `ordered_mounts(...)[-1]` raises IndexError. | Ordinal 0 when nothing is mounted yet, as `next_mount_point` gives. | medium; not executed | ProjectMounts.InstallIntoEmpty | ProjectMounts.InstallAppAgrees |
| Allura/allura/model/index.py:138-143 | A link that `_parse_link` rejects gives `None`, and reading `d['project_id']` from it raises. | A single link `[a:b:c:d]` with four parts makes the whole `from_links` call raise TypeError. | Such a link maps to `None`, like any link that does not resolve. | high; not executed | Shortlinks.LongLinkRaises, Markdown.UnparsedLinkUnresolvesAll | Shortlinks.AllUnparsedNone, Markdown.CompiledArtifactFixed |
| Allura/allura/model/index.py:149-151 | `groupby` runs over a query that is not sorted by link, so a link's matches can form several runs, and the dictionary keeps only the last run. | Links `[x]`, `[q:wiki:x]` and `[y]` from project p, with shortlinks x in p, y in p and x in q, in that query order. The runs are x, y, x, the dictionary keeps only the last run of x, and `[x]` resolves to `None`. | All matches of a link are grouped together, and `[x]` resolves to the shortlink in p. | high; not executed | Shortlinks.UnsortedGroupLoses | Shortlinks.ExIntended |
| Allura/allura/model/repository.py:420-433 | `_commits` walks parents breadth-first without remembering what it has already listed. | A diamond: D with parents B and C, both with parent A. The result is D, B, C, A, A. | Each commit is listed once: D, B, C, A. | high; not executed | Repository.MergeCommitsRepeats | Repository.MergeCommitsFixedOnce, Repository.MergeWalksAgree |
| Allura/allura/model/project.py:436-443 | `subprojects` scans the names after the project's name in order and stops at the first that is not under it. | Projects `u/test-user`, `u/test-user-1` and `u/test-user/sub`: `-` sorts before `/`, so the scan stops at the sibling and finds no subproject. | Every project whose name starts with the project's name and `/`. | high; not executed | ProjectMounts.SubprojectsSkipped, ProjectMounts.DeleteSkipsSubproject | ProjectMounts.Subprojects, ProjectMounts.DeleteProject |
| Allura/allura/ext/admin/admin_main.py:739-750 | The Admin guard of `GroupsController.update` tests only whether the submitted list of ids is non-empty. | The Admin group with one member and a form listing only an empty id: the guard passes, and the member is removed. | Refuse whenever no user would hold the Admin group afterwards. | medium; not executed | AdminGroups.GroupUpdateEmptiesAdmin | AdminGroups.GroupUpdateFixedKeepsAdmin |
