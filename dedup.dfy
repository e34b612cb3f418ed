/** The whole pass: walk the tree, group the files by digest, remove all but
    the first of each group, and report when nothing was found. */
module Dedup {
  import opened Wrappers
  import opened Seqs
  import opened FsTree
  import opened Walker
  import opened Grouping
  import opened Deletion

  /** How a pass ends. A rejected hash rejects the whole pass before any
      group is looked at, so it carries no table and removes nothing. */
  datatype Outcome =
    | HashRejected(path: Path)
    | Completed(table: Table, attempts: seq<Path>, removed: set<Path>, duplicateFound: bool)

  /** The paths the pass removed. */
  function Removed(out: Outcome): set<Path>
  {
    if out.Completed? then out.removed else {}
  }

  /** The pass prints "No duplicates found." */
  predicate ReportsNoDuplicates(out: Outcome)
  {
    out.Completed? && !out.duplicateFound
  }

  /** One run below `root`. Hashing tasks are started for the walker's files
      and complete in the order `order`, a reordering of them; `hash` and
      `rmSucceeds` stand for reading and hashing a file and for `fs.rm`. */
  method FindAndDeleteDuplicates(root: Path, tree: Node, order: seq<Path>, hash: Hasher, rmSucceeds: Remover)
    returns (out: Outcome)
    requires multiset(order) == multiset(Walk(root, tree))
    ensures out.HashRejected? <==> !AllHashed(order, hash)
    ensures out.HashRejected? ==> out.path in order && hash(out.path).None?
    ensures out.HashRejected? ==> Removed(out) == {}
    ensures out.Completed? ==> IsGrouping(order, hash, out.table)
    ensures out.Completed? ==> out.attempts == Surplus(out.table.groups, out.table.keys)
    ensures out.Completed? ==> out.removed == Succeeded(out.attempts, rmSucceeds)
    ensures out.Completed? ==> (out.duplicateFound <==> HasDuplicates(out.table))
    ensures ReportsNoDuplicates(out) <==>
            AllHashed(order, hash) && forall i, j :: 0 <= i < j < |order| ==> hash(order[i]) != hash(order[j])
  {
    var files := GetFilesInDirectory(root, tree);
    assert multiset(order) == multiset(files);
    var grouped := GroupByDigest(order, hash);
    if grouped.Err? {
      return HashRejected(grouped.error);
    }
    var t := grouped.value;
    var attempts, removed, duplicateFound := RemoveDuplicates(t, rmSucceeds);
    out := Completed(t, attempts, removed, duplicateFound);
    DuplicatesIffSharedDigest(order, hash, t);
  }

  // ---------------------------------------------------------------------------
  // What survives a pass

  /** The files of a well-formed tree, in any order, repeat no path. */
  lemma OrderNoDup(root: Path, tree: Node, order: seq<Path>)
    requires WellFormed(tree) && multiset(order) == multiset(Walk(root, tree))
    ensures NoDup(order)
  {
    WalkNoDup(root, tree);
    NoDupPermutation(Walk(root, tree), order);
  }

  /** Whatever removals fail, the first member of every group is left in the tree. */
  lemma KeepersSurvive(root: Path, tree: Node, order: seq<Path>, hash: Hasher, t: Table, removed: set<Path>)
    requires WellFormed(tree) && multiset(order) == multiset(Walk(root, tree))
    requires IsGrouping(order, hash, t)
    requires forall p :: p in removed ==> p in Surplus(t.groups, t.keys)
    ensures forall d :: d in t.groups ==> t.groups[d][0] in Walk(root, Prune(root, tree, removed))
  {
    OrderNoDup(root, tree, order);
    WalkAfterRemoval(root, tree, removed);
    forall d | d in t.groups
      ensures t.groups[d][0] in Without(Walk(root, tree), removed)
    {
      GroupsAreNonemptyAndUniform(order, hash, t, d);
      var keeper := t.groups[d][0];
      AttemptedIffNotKeeper(order, hash, t, keeper);
      assert keeper in multiset(order);
    }
  }

  /** When every removal succeeds, the files left are exactly the first member
      of each digest's group: one file per content, all others gone. */
  lemma OneSurvivorPerDigest(root: Path, tree: Node, order: seq<Path>, hash: Hasher, t: Table, removed: set<Path>, p: Path)
    requires WellFormed(tree) && multiset(order) == multiset(Walk(root, tree))
    requires IsGrouping(order, hash, t)
    requires removed == set q | q in Surplus(t.groups, t.keys)
    ensures p in Walk(root, Prune(root, tree, removed)) <==>
            p in order && hash(p).Some? && hash(p).value in t.groups && p == t.groups[hash(p).value][0]
  {
    OrderNoDup(root, tree, order);
    WalkAfterRemoval(root, tree, removed);
    assert p in order <==> p in Walk(root, tree) by {
      assert p in order <==> p in multiset(order);
    }
    if p in order {
      AttemptedIffNotKeeper(order, hash, t, p);
    }
  }

  /** When every removal succeeds, no two files left share a digest. */
  lemma SurvivorsHaveDistinctDigests(root: Path, tree: Node, order: seq<Path>, hash: Hasher, t: Table, removed: set<Path>, p: Path, q: Path)
    requires WellFormed(tree) && multiset(order) == multiset(Walk(root, tree))
    requires IsGrouping(order, hash, t)
    requires removed == set x | x in Surplus(t.groups, t.keys)
    requires p in Walk(root, Prune(root, tree, removed)) && q in Walk(root, Prune(root, tree, removed))
    requires hash(p) == hash(q)
    ensures p == q
  {
    OneSurvivorPerDigest(root, tree, order, hash, t, removed, p);
    OneSurvivorPerDigest(root, tree, order, hash, t, removed, q);
  }

  /** A second pass over the tree the first one left, after every removal
      succeeded, hashes every file (each was hashed before) and finds no group
      with more than one member: it reports "No duplicates found." and removes
      nothing. */
  lemma SecondPassFindsNoDuplicates(root: Path, tree: Node, order: seq<Path>, hash: Hasher, t: Table, removed: set<Path>,
                                    order2: seq<Path>, t2: Table)
    requires WellFormed(tree) && multiset(order) == multiset(Walk(root, tree))
    requires IsGrouping(order, hash, t)
    requires removed == set x | x in Surplus(t.groups, t.keys)
    requires multiset(order2) == multiset(Walk(root, Prune(root, tree, removed)))
    ensures AllHashed(order2, hash)
    ensures IsGrouping(order2, hash, t2) ==> !HasDuplicates(t2) && Surplus(t2.groups, t2.keys) == []
  {
    var left := Walk(root, Prune(root, tree, removed));
    WalkAfterRemoval(root, tree, removed);
    forall i | 0 <= i < |order2| ensures hash(order2[i]).Some? {
      var x := order2[i];
      assert x in multiset(left);
      assert x in Walk(root, tree);
      assert x in multiset(order);
      EachPathInItsOwnGroup(order, hash, t, x);
    }
    if IsGrouping(order2, hash, t2) {
      forall i, j | 0 <= i < j < |order2| ensures hash(order2[i]) != hash(order2[j]) {
        ReorderedSurvivorsDiffer(root, tree, order, hash, t, removed, order2, i, j);
      }
      DuplicatesIffSharedDigest(order2, hash, t2);
      NoAttemptsIffNoDuplicates(t2);
    }
  }

  lemma ReorderedSurvivorsDiffer(root: Path, tree: Node, order: seq<Path>, hash: Hasher, t: Table, removed: set<Path>,
                                 order2: seq<Path>, i: nat, j: nat)
    requires WellFormed(tree) && multiset(order) == multiset(Walk(root, tree))
    requires IsGrouping(order, hash, t)
    requires removed == set x | x in Surplus(t.groups, t.keys)
    requires multiset(order2) == multiset(Walk(root, Prune(root, tree, removed)))
    requires i < j < |order2|
    ensures hash(order2[i]) != hash(order2[j])
  {
    var left := Walk(root, Prune(root, tree, removed));
    WalkAfterRemoval(root, tree, removed);
    WalkNoDup(root, tree);
    WithoutNoDup(Walk(root, tree), removed);
    NoDupPermutation(left, order2);
    assert order2[i] in multiset(order2) && order2[j] in multiset(order2);
    assert order2[i] in left && order2[j] in left;
    if hash(order2[i]) == hash(order2[j]) {
      SurvivorsHaveDistinctDigests(root, tree, order, hash, t, removed, order2[i], order2[j]);
    }
  }

  /** A pass over a tree whose files all have distinct digests removes nothing,
      so the tree is left as it was. */
  lemma NoDuplicatesLeaveTreeUnchanged(root: Path, tree: Node, order: seq<Path>, hash: Hasher, t: Table,
                                       rmSucceeds: Remover, removed: set<Path>)
    requires IsGrouping(order, hash, t) && !HasDuplicates(t)
    requires removed == Succeeded(Surplus(t.groups, t.keys), rmSucceeds)
    ensures removed == {}
    ensures Prune(root, tree, removed) == tree
  {
    NoAttemptsIffNoDuplicates(t);
    PruneNothing(root, tree);
  }
}
