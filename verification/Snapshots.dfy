/** The records the disk package and the hub exchange (internal/disk/scan.go). */
module Snapshots {
  import opened Ordering

  datatype Node = Node(path: string, bytes: int)

  /** The `reason` text of a snapshot; NoReason is the empty text. */
  datatype Reason = NoReason | TimeLimitOrCancellation | EntryLimit | UnreadableOrExcluded

  /** Times are nanoseconds. */
  datatype Snapshot = Snapshot(agent: string, root: string, at: int, depth: int, complete: bool,
                               entries: int, skipped: int, reason: Reason, nodes: seq<Node>)

  const nodePath: Node -> string := (n: Node) => n.path

  ghost predicate DistinctPaths(nodes: seq<Node>) {
    DistinctBy(nodePath, nodes)
  }
}
