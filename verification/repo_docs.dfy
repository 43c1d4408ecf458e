/** The persisted documents of the repository index: commits, trees and
    commit runs. Each collection is a map from the document's `_id` to the
    rest of the document. */
module RepoDocs {
  import opened Wrappers

  /** Object ids (hex SHA-1 strings for Git). */
  type Id = string

  /** A commit: its root tree, parents (first parent first), children, and
      authored date (seconds; only the ordering of dates matters here). */
  datatype CommitDoc = CommitDoc(
    treeId: Option<Id>,
    parentIds: seq<Id>,
    childIds: seq<Id>,
    authoredDate: int,
    message: string)

  /** A named reference from a tree to a subtree or blob. */
  datatype Entry = Entry(name: string, id: Id)

  /** The kind recorded for entries that are neither subtrees nor blobs. */
  datatype ObjKind = BlobKind | TreeKind | Submodule

  datatype OtherEntry = OtherEntry(name: string, id: Id, kind: ObjKind)

  /** A tree: its subtrees, blobs, and other entries (submodules, links). */
  datatype TreeDoc = TreeDoc(treeIds: seq<Entry>, blobIds: seq<Entry>, otherIds: seq<OtherEntry>)

  /** A commit run: a linear series of single-parent commits, newest first,
      with their authored dates and the parents of the oldest one. */
  datatype Run = Run(parentIds: seq<Id>, commitIds: seq<Id>, commitTimes: seq<int>)

  /** The commit summary stored with last-commit records (`get_commit_info`). */
  datatype CommitInfo = CommitInfo(id: Id, author: string, date: int, summary: string)

  type CommitStore = map<Id, CommitDoc>
  type TreeStore = map<Id, TreeDoc>
  type RunStore = map<Id, Run>
}
