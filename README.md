# rdf: finding and deleting duplicate files, modelled in Dafny

`rdf` is a small command-line tool. It walks a directory tree and hashes
every file it finds. It groups the files by digest, keeps the first file of
each group and removes the others. When no group has more than one file, it
prints "No duplicates found.". This project models that decision core over an
abstract filesystem and proves what the core guarantees.

- **The abstract filesystem** (`fs_tree.dfy`, module `FsTree`) is a tree of
  `Node`s. A node is a `File` (anything `stat` does not call a directory), a
  listable `Dir` with its entries in listing order, an `UnlistableDir` (`stat`
  says directory, `readdir` throws) or `Unstatable` (`stat` throws). A path
  is the sequence of its components, and joining a name onto a path appends
  one component. `Walk` specifies what the walk collects. `Prune` gives the
  tree after some files have been removed.
- **The walker** (`walker.dfy`, `Walker.GetFilesInDirectory`) is the
  recursive method with its loop over a listing. It is proved equal to `Walk`.
- **Grouping** (`grouping.dfy`, module `Grouping`) is the `fileHashes` record.
  The model keeps its keys in creation order (the order `Object.keys`
  enumerates them in) plus a map from digest to paths. `GroupByDigest` hashes
  the paths in the order the hashing tasks complete. That order is an input:
  any reordering of the walker's output. Hashing is a parameter
  `Path -> Option<Digest>`, where `None` means reading the file throws.
- **Deletion** (`deletion.dfy`, module `Deletion`) is the loop over the keys.
  `ProcessGroup` is the body of the per-key callback. Whether `fs.rm`
  succeeds is a parameter `Path -> bool`.
- **The whole pass** (`dedup.dfy`, `Dedup.FindAndDeleteDuplicates`) ends in
  one of two ways:
  - `HashRejected`: one hash failed, so `Promise.all` rejected before any
    group was looked at. Nothing is removed and nothing is reported.
  - `Completed`: it carries the table, the removal attempts, the removed
    paths and the `duplicateFound` flag.

Two failure paths in the code behave in ways a reader might not expect, and
the model follows the code in both:

- A reader might expect a file that cannot be hashed to be skipped while the
  others go on. In the code `getFileHash` is not guarded, so one rejection
  fails `Promise.all` and the whole function (index.ts:53-62).
- A reader might expect an unreadable entry to contribute nothing while its
  directory goes on. In the code a `stat` that throws on an entry ends its
  directory's loop, and that directory keeps only the files it had gathered
  before the failed entry (index.ts:23-38).

The un-awaited `forEach(async …)` (index.ts:65) does not make the report
wrong. Each callback sets `duplicateFound` before its first `await`, so the
flag is final by the time line 80 reads it. The model therefore treats the
flag as set by a sequential loop.

## Model

| member | source | states |
|---|---|---|
| `Walker.GetFilesInDirectory` | index.ts:21-40 | the recursive walk with its loop returns exactly `Walk(path, node)`, including the early return from the catch when listing or stat throws |
| `FsTree.WalkSplice` | index.ts:25-34 | within a directory, before any failing stat, a file entry adds its own path and a subdirectory adds its whole walk, each at the position where it is listed |
| `FsTree.StatFailureKeepsEarlierFiles` | index.ts:23-39 | when stat throws on entry k, the directory returns only the files gathered from entries 0..k-1 |
| `FsTree.UnlistableDirSkipped` | index.ts:23-39 | a subdirectory whose listing throws adds nothing, and its parent carries on with the entries listed after it |
| `FsTree.WalkSound` | index.ts:24-34 | every returned path extends the directory path and names a non-directory entry reached by following listings, whatever failures occur |
| `FsTree.WalkFindsExactlyTheFiles` | index.ts:21-40 | when no stat throws, a path is returned if and only if it names a non-directory entry reachable through directory listings (unlistable directories have nothing below them) |
| `FsTree.WalkNoDup` | index.ts:24-34 | when every listing names each entry once, the walk returns no path twice |
| `FsTree.WalkAfterRemoval` | index.ts:73 | walking the tree after files are removed gives the earlier walk minus the removed paths, in the same order |
| `Grouping.GroupByDigest` | index.ts:51-62 | succeeds if and only if every path hashes; on success the table is a grouping (one key per digest that occurs, each group being the paths with that digest in completion order); otherwise the error is the first path, in completion order, whose hash failed |
| `Grouping.InsertKeepsGrouping` | index.ts:55-59 | appending to an existing key's group or creating a singleton group for a new key extends the grouping by one more completed hash |
| `Grouping.GroupStartsWithFirstInsertion` | index.ts:55-59 | a key's group starts as exactly the path whose hash first produced that digest |
| `Grouping.KeeperIsFirstCompletion` | index.ts:53-71 | in a finished grouping, the group of a digest begins with the first path, in completion order, whose hash produced it, so that path is the one the deletion loop keeps |
| `Grouping.EachPathInItsOwnGroup` | index.ts:53-60 | every hashed path is in the group keyed by its own digest and in no other group |
| `Grouping.GroupsAreNonemptyAndUniform` | index.ts:53-60 | every group is nonempty and holds only hashed paths with that group's digest |
| `Grouping.GroupSizesSumToInputs` | index.ts:51-62 | the group sizes add up to the number of paths hashed |
| `Grouping.DuplicatesIffSharedDigest` | index.ts:64-68 | some group has more than one member if and only if two hashed paths share a digest |
| `Deletion.ProcessGroup` | index.ts:66-77 | a group is reported as a duplicate exactly when it has more than one member; the removals attempted are exactly its members from index 1 on; the removed set is the attempts that succeed |
| `Deletion.RemoveDuplicates` | index.ts:64-79 | the attempts are the non-first members of every group, group by group; the removed paths are the attempts whose removal succeeds, so a failed removal stops nothing; `duplicateFound` holds if and only if some group has more than one member |
| `Deletion.SurplusMembers` | index.ts:71-77 | a path is attempted if and only if it stands at index 1 or later in some group |
| `Deletion.AttemptedIffNotKeeper` | index.ts:67-77 | with distinct paths, a path is attempted if and only if it is not the first member of its digest's group, so index 0 is never attempted and a file with unique content is never touched |
| `Deletion.NoAttemptsIffNoDuplicates` | index.ts:67-79 | no removal is attempted if and only if no group has more than one member |
| `Deletion.AttemptCount` | index.ts:65-77 | the number of removal attempts is the number of hashed paths minus the number of distinct digests |
| `Dedup.FindAndDeleteDuplicates` | index.ts:49-83 | a failing hash rejects the pass (with a failing path) and nothing else happens; otherwise the table is a grouping of the completion order, the attempts and removals are as above, and "No duplicates found." is reported if and only if all files hash to pairwise distinct digests |
| `Dedup.OrderNoDup` | index.ts:50-53 | in a well-formed tree, the files in completion order repeat no path |
| `Dedup.KeepersSurvive` | index.ts:65-79 | whatever removals fail, the first member of every group is still in the tree afterwards |
| `Dedup.OneSurvivorPerDigest` | index.ts:65-79 | when every removal succeeds, the files left are exactly the first member of each digest's group |
| `Dedup.SurvivorsHaveDistinctDigests` | index.ts:65-79 | when every removal succeeds, no two files left share a digest |
| `Dedup.SecondPassFindsNoDuplicates` | index.ts:49-83 | a second pass over the tree the first pass left, after every removal succeeded, hashes every file and finds no group with more than one member, so it reports "No duplicates found." and attempts no removal |
| `Dedup.NoDuplicatesLeaveTreeUnchanged` | index.ts:64-82 | a pass over files with distinct digests removes nothing and leaves the tree as it was |

## Left out

- Argument handling, `isValidDirectory` and the exit codes (index.ts:7-19, 85-89) are command-line glue. The model starts from an already validated root.
- Reading and hashing a file (index.ts:42-47) is a foreign crypto and I/O call. The model takes it as the parameter `hash: Path -> Option<Digest>`, and `None` stands for a read that throws. The digest value is not computed, and equal digests stand for equal content.
- `fs.readdir`, `fs.stat` and `fs.rm` are replaced by the `Node` tree and by the parameter `rmSucceeds: Path -> bool`. The outcome of a removal depends only on its path. The model does not track how earlier removals change later ones.
- `path.join` builds a string and normalises it. In the model a path is a sequence of components, and joining appends a name, so the string form and normalisation are not modelled.
- Concurrency is left out. The `Promise.all` fan-out (index.ts:53-62) becomes a completion order passed in as `order`. Callbacks that finish after a rejection only touch the discarded record, so they are not modelled. The removals started by the un-awaited `forEach(async …)` (index.ts:65-79) are modelled as one loop in key order, so their interleaving across groups is not modelled.
- The uncaught rejection that ends the process after a failed hash is modelled as the `HashRejected` outcome.
- Console output (index.ts:17, 37, 69-70, 75, 81) is modelled only as the `duplicateFound` flag and as `Dedup.ReportsNoDuplicates`. The table holds the group lists that would be printed.
- Symlink loops: the tree is a finite datatype, so the unbounded recursion a directory cycle would cause cannot be expressed.
- Aliasing: the tree has no symlinked directory or file and no hard links, so every path names its own file and removing one path never removes another. `fs.stat` follows symlinks (index.ts:27-28), so in the program a symlinked directory is walked a second time and `fs.rm` on one name of a file can delete the group's kept copy, or leave a dangling link. `Dedup.KeepersSurvive`, `Dedup.OneSurvivorPerDigest` and `Dedup.SecondPassFindsNoDuplicates` hold only for alias-free trees.
- The record is modelled as a plain dictionary. Hex digests never match a property name inherited from `Object.prototype`, so the `if (fileHashes[hash])` test is modelled as a key lookup.
- Grouping.GroupByDigest: its contract does not fix the order of the table's keys. The method creates them in first-insertion order, which is the order `Object.keys` enumerates. The contract states only that the keys are distinct and match the groups. The order of removal attempts follows the keys the method returns.
