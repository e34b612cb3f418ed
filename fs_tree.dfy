/** An abstract filesystem as the directory walk sees it, the walk's
    specification, and what the walk is proved to return.

    A path is the sequence of its components from the filesystem root;
    joining a directory path with an entry name appends one component. */
module FsTree {
  import opened Seqs

  type Name = string
  type Path = seq<Name>

  function Join(dir: Path, name: Name): (p: Path)
    ensures |p| == |dir| + 1 && p[..|dir|] == dir && p[|dir|] == name
  {
    dir + [name]
  }

  /** What the filesystem answers about one entry. */
  datatype Node =
    | File                        // stat succeeds and says "not a directory" (regular file, symlink, ...)
    | Dir(entries: seq<Entry>)    // a directory that can be listed, in listing order
    | UnlistableDir               // stat says "directory", listing it throws
    | Unstatable                  // stat itself throws

  datatype Entry = Entry(name: Name, node: Node)

  /** `stat(...).isDirectory()` */
  predicate IsDirectory(n: Node)
  {
    n.Dir? || n.UnlistableDir?
  }

  // ---------------------------------------------------------------------------
  // The walk, as a specification

  /** The files the walk collects below the directory `dir`, whose node is `n`:
      listing a non-directory or an unlistable directory throws inside the
      try, so nothing is collected. */
  function Walk(dir: Path, n: Node): seq<Path>
    decreases n
  {
    if n.Dir? then WalkEntries(dir, n.entries) else []
  }

  /** The files collected from the entries `es` of directory `dir`: the
      first entry whose stat throws ends that directory's loop. */
  function WalkEntries(dir: Path, es: seq<Entry>): seq<Path>
    decreases es
  {
    if es == [] then []
    else if es[0].node.Unstatable? then []
    else Visit(dir, es[0]) + WalkEntries(dir, es[1..])
  }

  /** What one entry whose stat succeeds contributes: its own path when it is
      not a directory, the walk of it when it is. */
  function Visit(dir: Path, e: Entry): seq<Path>
    decreases e
  {
    if IsDirectory(e.node) then Walk(Join(dir, e.name), e.node) else [Join(dir, e.name)]
  }

  predicate NoneUnstatable(es: seq<Entry>)
  {
    forall k :: 0 <= k < |es| ==> !es[k].node.Unstatable?
  }

  // ---------------------------------------------------------------------------
  // Reference notions: where the files are

  /** Following the components `rel` down from `n` through directory
      listings reaches a non-directory entry. */
  ghost predicate FileAt(n: Node, rel: seq<Name>)
    decreases n
  {
    if rel == [] then n.File?
    else n.Dir? && exists k :: 0 <= k < |n.entries| && EntryFileAt(n.entries[k], rel)
  }

  ghost predicate EntryFileAt(e: Entry, rel: seq<Name>)
    requires rel != []
    decreases e
  {
    e.name == rel[0] && FileAt(e.node, rel[1..])
  }

  /** No stat anywhere in the tree throws. */
  ghost predicate StatsSucceed(n: Node)
    decreases n
  {
    n.Dir? ==> forall k :: 0 <= k < |n.entries| ==>
      !n.entries[k].node.Unstatable? && StatsSucceed(n.entries[k].node)
  }

  /** Every listing names each entry once, as a directory read does. */
  ghost predicate WellFormed(n: Node)
    decreases n
  {
    n.Dir? ==>
      (forall i, j :: 0 <= i < j < |n.entries| ==> n.entries[i].name != n.entries[j].name) &&
      (forall k :: 0 <= k < |n.entries| ==> WellFormed(n.entries[k].node))
  }

  // ---------------------------------------------------------------------------
  // Splicing: each entry contributes at its own position

  lemma {:induction false} WalkEntriesAppend(dir: Path, a: seq<Entry>, b: seq<Entry>)
    requires NoneUnstatable(a)
    ensures WalkEntries(dir, a + b) == WalkEntries(dir, a) + WalkEntries(dir, b)
  {
    if a == [] {
      assert a + b == b;
    } else {
      assert (a + b)[0] == a[0];
      assert (a + b)[1..] == a[1..] + b;
      WalkEntriesAppend(dir, a[1..], b);
    }
  }

  /** Within one directory, the entries before the first failing stat each
      contribute at their own position: a file its path, a subdirectory all
      of its walk, spliced in where it is listed. */
  lemma WalkSplice(dir: Path, before: seq<Entry>, e: Entry, after: seq<Entry>)
    requires NoneUnstatable(before) && !e.node.Unstatable?
    ensures Walk(dir, Dir(before + [e] + after)) ==
            WalkEntries(dir, before) +
            (if IsDirectory(e.node) then Walk(Join(dir, e.name), e.node) else [Join(dir, e.name)]) +
            WalkEntries(dir, after)
  {
    var rest := [e] + after;
    calc {
      Walk(dir, Dir(before + [e] + after));
      { assert before + [e] + after == before + rest; }
      WalkEntries(dir, before + rest);
      { WalkEntriesAppend(dir, before, rest); }
      WalkEntries(dir, before) + WalkEntries(dir, rest);
      { assert rest[0] == e && rest[1..] == after; }
      WalkEntries(dir, before) + (Visit(dir, e) + WalkEntries(dir, after));
    }
  }

  /** A stat that throws at position `k` ends the directory: only the files
      gathered from the entries listed before it are returned. */
  lemma StatFailureKeepsEarlierFiles(dir: Path, es: seq<Entry>, k: nat)
    requires k < |es| && es[k].node.Unstatable? && NoneUnstatable(es[..k])
    ensures Walk(dir, Dir(es)) == WalkEntries(dir, es[..k])
  {
    assert es == es[..k] + es[k..];
    WalkEntriesAppend(dir, es[..k], es[k..]);
  }

  /** A subdirectory that cannot be listed contributes nothing, and the parent
      carries on with the entries after it. */
  lemma UnlistableDirSkipped(dir: Path, before: seq<Entry>, name: Name, after: seq<Entry>)
    requires NoneUnstatable(before)
    ensures Walk(dir, Dir(before + [Entry(name, UnlistableDir)] + after)) ==
            WalkEntries(dir, before) + WalkEntries(dir, after)
  {
    WalkSplice(dir, before, Entry(name, UnlistableDir), after);
  }

  // ---------------------------------------------------------------------------
  // Soundness and completeness against FileAt

  lemma {:induction false} WalkSound(dir: Path, n: Node, x: Path)
    requires x in Walk(dir, n)
    ensures |x| > |dir| && x[..|dir|] == dir && FileAt(n, x[|dir|..])
    decreases n, 1
  {
    WalkEntriesSound(dir, n.entries, x);
    var k :| 0 <= k < |n.entries| && n.entries[k].name == x[|dir|] &&
             FileAt(n.entries[k].node, x[|dir| + 1..]);
    assert x[|dir|..][1..] == x[|dir| + 1..];
    assert EntryFileAt(n.entries[k], x[|dir|..]);
  }

  lemma {:induction false} WalkEntriesSound(dir: Path, es: seq<Entry>, x: Path)
    requires x in WalkEntries(dir, es)
    ensures |x| > |dir| && x[..|dir|] == dir
    ensures exists k :: 0 <= k < |es| && es[k].name == x[|dir|] && FileAt(es[k].node, x[|dir| + 1..])
    decreases es, 0
  {
    var e := es[0];
    if x in Visit(dir, e) {
      var sub := Join(dir, e.name);
      if IsDirectory(e.node) {
        WalkSound(sub, e.node, x);
        assert x[..|dir|] == x[..|sub|][..|dir|];
        assert x[|dir|] == x[..|sub|][|dir|];
        assert x[|sub|..] == x[|dir| + 1..];
      } else {
        assert x == sub && x[|dir| + 1..] == [];
      }
      assert es[0].name == x[|dir|] && FileAt(es[0].node, x[|dir| + 1..]);
    } else {
      WalkEntriesSound(dir, es[1..], x);
      var k :| 0 <= k < |es[1..]| && es[1..][k].name == x[|dir|] && FileAt(es[1..][k].node, x[|dir| + 1..]);
      assert es[k + 1] == es[1..][k];
    }
  }

  lemma {:induction false} WalkComplete(dir: Path, n: Node, rel: seq<Name>)
    requires StatsSucceed(n) && FileAt(n, rel) && rel != []
    ensures dir + rel in Walk(dir, n)
    decreases n
  {
    var es := n.entries;
    var k :| 0 <= k < |es| && EntryFileAt(es[k], rel);
    var e := es[k];
    var sub := Join(dir, e.name);
    assert dir + rel == sub + rel[1..];
    if rel[1..] == [] {
      assert sub == dir + rel;
      assert FileAt(e.node, rel[1..]);
    } else {
      WalkComplete(sub, e.node, rel[1..]);
    }
    assert dir + rel in Visit(dir, e);
    assert NoneUnstatable(es[..k]);
    assert es == es[..k] + [e] + es[k + 1..];
    WalkSplice(dir, es[..k], e, es[k + 1..]);
  }

  /** When no stat throws, the walk returns exactly the paths that name a
      non-directory entry reachable from the root through directory listings. */
  lemma WalkFindsExactlyTheFiles(dir: Path, n: Node, x: Path)
    requires StatsSucceed(n)
    ensures x in Walk(dir, n) <==> |x| > |dir| && x[..|dir|] == dir && FileAt(n, x[|dir|..])
  {
    if x in Walk(dir, n) {
      WalkSound(dir, n, x);
    }
    if |x| > |dir| && x[..|dir|] == dir && FileAt(n, x[|dir|..]) {
      assert x == dir + x[|dir|..];
      WalkComplete(dir, n, x[|dir|..]);
    }
  }

  // ---------------------------------------------------------------------------
  // Distinct paths

  /** A well-formed tree yields every path once. */
  lemma {:induction false} WalkNoDup(dir: Path, n: Node)
    requires WellFormed(n)
    ensures NoDup(Walk(dir, n))
    decreases n, 1
  {
    if n.Dir? {
      WalkEntriesNoDup(dir, n.entries);
    }
  }

  lemma {:induction false} WalkEntriesNoDup(dir: Path, es: seq<Entry>)
    requires forall i, j :: 0 <= i < j < |es| ==> es[i].name != es[j].name
    requires forall k :: 0 <= k < |es| ==> WellFormed(es[k].node)
    ensures NoDup(WalkEntries(dir, es))
    decreases es, 0
  {
    if es != [] && !es[0].node.Unstatable? {
      var e := es[0];
      var rest := es[1..];
      assert forall k :: 0 <= k < |rest| ==> rest[k] == es[k + 1];
      WalkEntriesNoDup(dir, rest);
      if IsDirectory(e.node) {
        WalkNoDup(Join(dir, e.name), e.node);
      }
      forall x | x in Visit(dir, e)
        ensures x !in WalkEntries(dir, rest)
      {
        var sub := Join(dir, e.name);
        if IsDirectory(e.node) {
          WalkSound(sub, e.node, x);
          assert x[|dir|] == x[..|sub|][|dir|];
        }
        assert x[|dir|] == e.name;
        if x in WalkEntries(dir, rest) {
          WalkEntriesSound(dir, rest, x);
        }
      }
      NoDupAppend(Visit(dir, e), WalkEntries(dir, rest));
    }
  }

  // ---------------------------------------------------------------------------
  // Removing files from the tree

  /** The tree after the non-directory entries whose paths are in `gone` have
      been removed. */
  function Prune(dir: Path, n: Node, gone: set<Path>): Node
    decreases n
  {
    if n.Dir? then Dir(PruneEntries(dir, n.entries, gone)) else n
  }

  function PruneEntries(dir: Path, es: seq<Entry>, gone: set<Path>): seq<Entry>
    decreases es
  {
    if es == [] then []
    else
      var e := es[0];
      var rest := PruneEntries(dir, es[1..], gone);
      if !IsDirectory(e.node) && !e.node.Unstatable? && Join(dir, e.name) in gone then rest
      else [Entry(e.name, Prune(Join(dir, e.name), e.node, gone))] + rest
  }

  /** Walking the tree after removals returns the earlier walk without the
      removed paths. */
  lemma {:induction false} WalkAfterRemoval(dir: Path, n: Node, gone: set<Path>)
    ensures Walk(dir, Prune(dir, n, gone)) == Without(Walk(dir, n), gone)
    decreases n, 1
  {
    if n.Dir? {
      WalkEntriesAfterRemoval(dir, n.entries, gone);
    }
  }

  lemma {:induction false} WalkEntriesAfterRemoval(dir: Path, es: seq<Entry>, gone: set<Path>)
    ensures WalkEntries(dir, PruneEntries(dir, es, gone)) == Without(WalkEntries(dir, es), gone)
    decreases es, 0
  {
    if es != [] {
      var e := es[0];
      var p := Join(dir, e.name);
      var rest := PruneEntries(dir, es[1..], gone);
      WalkEntriesAfterRemoval(dir, es[1..], gone);
      if e.node.Unstatable? {
      } else if !IsDirectory(e.node) && p in gone {
        WithoutAppend([p], WalkEntries(dir, es[1..]), gone);
      } else {
        var e' := Entry(e.name, Prune(p, e.node, gone));
        assert PruneEntries(dir, es, gone) == [e'] + rest;
        assert ([e'] + rest)[1..] == rest;
        if IsDirectory(e.node) {
          WalkAfterRemoval(p, e.node, gone);
        }
        WithoutAppend(Visit(dir, e), WalkEntries(dir, es[1..]), gone);
      }
    }
  }

  /** Removing nothing leaves the tree as it was. */
  lemma {:induction false} PruneNothing(dir: Path, n: Node)
    ensures Prune(dir, n, {}) == n
    decreases n, 1
  {
    if n.Dir? {
      PruneEntriesNothing(dir, n.entries);
    }
  }

  lemma {:induction false} PruneEntriesNothing(dir: Path, es: seq<Entry>)
    ensures PruneEntries(dir, es, {}) == es
    decreases es, 0
  {
    if es != [] {
      PruneEntriesNothing(dir, es[1..]);
      PruneNothing(Join(dir, es[0].name), es[0].node);
      assert es == [es[0]] + es[1..];
    }
  }
}
