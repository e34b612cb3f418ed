/** The recursive directory walk: each directory's listing is visited in
    order inside one try block. */
module Walker {
  import opened FsTree

  /** Collects the paths of the non-directory entries below `path`, whose
      node is `node`. The result is the walk specification, so every property
      proved about `Walk` holds of it. */
  method GetFilesInDirectory(path: Path, node: Node) returns (files: seq<Path>)
    ensures files == Walk(path, node)
    decreases node
  {
    files := [];
    if !node.Dir? {
      // listing throws; the catch returns the empty collection
      return;
    }
    var items := node.entries;
    var i := 0;
    while i < |items|
      invariant 0 <= i <= |items|
      invariant NoneUnstatable(items[..i])
      invariant files == WalkEntries(path, items[..i])
    {
      var item := items[i];
      var fullPath := Join(path, item.name);
      if item.node.Unstatable? {
        // stat throws; the catch returns what was collected so far
        StatFailureKeepsEarlierFiles(path, items, i);
        return;
      }
      if IsDirectory(item.node) {
        var subdirFiles := GetFilesInDirectory(fullPath, item.node);
        files := files + subdirFiles;
      } else {
        files := files + [fullPath];
      }
      assert items[..i + 1] == items[..i] + [item];
      WalkEntriesAppend(path, items[..i], [item]);
      i := i + 1;
    }
    assert items[..i] == items;
  }
}
