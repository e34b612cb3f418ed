/** Grouping hashed paths by digest: the `fileHashes` record that the
    hashing callbacks fill in, in the order the hashes complete. */
module Grouping {
  import opened Wrappers
  import opened Seqs
  import opened FsTree

  /** A content digest (the hex form of a SHA-256 hash). */
  type Digest = string

  /** Reading and hashing one file: `None` when reading it throws. */
  type Hasher = Path -> Option<Digest>

  /** The record from digest to paths. `keys` lists its keys in the order they
      were created, which is the order `Object.keys` enumerates them in. */
  datatype Table = Table(keys: seq<Digest>, groups: map<Digest, seq<Path>>) {
    predicate Valid()
    {
      NoDup(keys) && (forall d :: d in groups ==> d in keys) && (forall k :: 0 <= k < |keys| ==> keys[k] in groups)
    }
  }

  /** The group under `d`, or none. */
  function Members(groups: map<Digest, seq<Path>>, d: Digest): seq<Path>
  {
    if d in groups then groups[d] else []
  }

  predicate AllHashed(order: seq<Path>, hash: Hasher)
  {
    forall i :: 0 <= i < |order| ==> hash(order[i]).Some?
  }

  /** The paths of `order` whose digest is `d`, in the order of `order`. */
  function GroupOf(order: seq<Path>, hash: Hasher, d: Digest): seq<Path>
  {
    if order == [] then []
    else
      var last := order[|order| - 1];
      GroupOf(order[..|order| - 1], hash, d) + (if hash(last) == Some(d) then [last] else [])
  }

  /** `t` groups the paths of `order`: there is a key for exactly the digests
      that occur, and the group of each is the subsequence of `order` with
      that digest. */
  ghost predicate IsGrouping(order: seq<Path>, hash: Hasher, t: Table)
  {
    && AllHashed(order, hash)
    && t.Valid()
    && (forall d :: d in t.groups ==> t.groups[d] == GroupOf(order, hash, d) && t.groups[d] != [])
    && (forall d :: GroupOf(order, hash, d) != [] ==> d in t.groups)
  }

  // ---------------------------------------------------------------------------
  // The grouping loop

  /** Hashes the paths in completion order `order` and files each under its
      digest. The first hash that fails rejects the whole `Promise.all`, so the
      result is that path and no table. */
  method GroupByDigest(order: seq<Path>, hash: Hasher) returns (r: Result<Table, Path>)
    ensures r.Ok? <==> AllHashed(order, hash)
    ensures r.Ok? ==> IsGrouping(order, hash, r.value)
    ensures r.Err? ==> exists i :: 0 <= i < |order| && order[i] == r.error &&
                                  hash(order[i]).None? && AllHashed(order[..i], hash)
  {
    var keys: seq<Digest> := [];
    var groups: map<Digest, seq<Path>> := map[];
    var i := 0;
    while i < |order|
      invariant 0 <= i <= |order|
      invariant IsGrouping(order[..i], hash, Table(keys, groups))
    {
      var file := order[i];
      var h := hash(file);
      if h.None? {
        assert AllHashed(order[..i], hash) && !AllHashed(order, hash);
        return Err(file);
      }
      var d := h.value;
      ghost var before := Table(keys, groups);
      if d in groups {
        groups := groups[d := groups[d] + [file]];
      } else {
        keys := keys + [d];
        groups := groups[d := [file]];
      }
      InsertKeepsGrouping(order, i, hash, before, Table(keys, groups));
      i := i + 1;
    }
    assert order[..i] == order;
    r := Ok(Table(keys, groups));
  }

  // ---------------------------------------------------------------------------
  // What a grouping is

  lemma {:induction false} GroupOfMembers(order: seq<Path>, hash: Hasher, d: Digest, p: Path)
    ensures p in GroupOf(order, hash, d) <==> p in order && hash(p) == Some(d)
  {
    if order != [] {
      var init := order[..|order| - 1];
      GroupOfMembers(init, hash, d, p);
      assert order == init + [order[|order| - 1]];
    }
  }

  lemma {:induction false} GroupOfNoDup(order: seq<Path>, hash: Hasher, d: Digest)
    requires NoDup(order)
    ensures NoDup(GroupOf(order, hash, d))
  {
    if order != [] {
      var init := order[..|order| - 1];
      var last := order[|order| - 1];
      GroupOfNoDup(init, hash, d);
      GroupOfMembers(init, hash, d, last);
      NoDupAppend(GroupOf(init, hash, d), if hash(last) == Some(d) then [last] else []);
    }
  }

  /** Every path lands in exactly one group: the one keyed by its own digest. */
  lemma EachPathInItsOwnGroup(order: seq<Path>, hash: Hasher, t: Table, p: Path)
    requires IsGrouping(order, hash, t) && p in order
    ensures hash(p).Some? && hash(p).value in t.groups && p in t.groups[hash(p).value]
    ensures forall d :: d in t.groups && p in t.groups[d] ==> d == hash(p).value
  {
    var i :| 0 <= i < |order| && order[i] == p;
    var d := hash(p).value;
    GroupOfMembers(order, hash, d, p);
    forall e | e in t.groups && p in t.groups[e] ensures e == d {
      GroupOfMembers(order, hash, e, p);
    }
  }

  /** Every group is nonempty and holds only paths of its digest. */
  lemma GroupsAreNonemptyAndUniform(order: seq<Path>, hash: Hasher, t: Table, d: Digest)
    requires IsGrouping(order, hash, t) && d in t.groups
    ensures t.groups[d] != []
    ensures forall p :: p in t.groups[d] ==> p in order && hash(p) == Some(d)
  {
    forall p | p in t.groups[d] ensures p in order && hash(p) == Some(d) {
      GroupOfMembers(order, hash, d, p);
    }
  }

  /** One insertion step of the hashing callback: append to the digest's
      group when the key exists, start a singleton group otherwise. */
  lemma InsertKeepsGrouping(completed: seq<Path>, i: nat, hash: Hasher, t: Table, t': Table)
    requires i < |completed| && IsGrouping(completed[..i], hash, t) && hash(completed[i]).Some?
    requires var p, d := completed[i], hash(completed[i]).value;
             t' == if d in t.groups then Table(t.keys, t.groups[d := t.groups[d] + [p]])
                   else Table(t.keys + [d], t.groups[d := [p]])
    ensures IsGrouping(completed[..i + 1], hash, t')
  {
    var prefix, p := completed[..i], completed[i];
    assert completed[..i + 1] == prefix + [p];
    assert AllHashed(prefix + [p], hash) by {
      forall j | 0 <= j < |prefix + [p]| ensures hash((prefix + [p])[j]).Some? {
        if j < i {
          assert (prefix + [p])[j] == prefix[j];
        }
      }
    }
    if hash(p).value in t.groups {
      AppendKeepsGrouping(prefix, hash, t, p);
    } else {
      NewKeyKeepsGrouping(prefix, hash, t, p);
    }
  }

  lemma AppendKeepsGrouping(prefix: seq<Path>, hash: Hasher, t: Table, p: Path)
    requires IsGrouping(prefix, hash, t) && AllHashed(prefix + [p], hash)
    requires hash(p).Some? && hash(p).value in t.groups
    ensures IsGrouping(prefix + [p], hash, Table(t.keys, t.groups[hash(p).value := t.groups[hash(p).value] + [p]]))
  {
    var d := hash(p).value;
    forall e ensures GroupOf(prefix + [p], hash, e) == GroupOf(prefix, hash, e) + (if e == d then [p] else []) {
      GroupOfSnoc(prefix, hash, p, e);
    }
  }

  lemma NewKeyKeepsGrouping(prefix: seq<Path>, hash: Hasher, t: Table, p: Path)
    requires IsGrouping(prefix, hash, t) && AllHashed(prefix + [p], hash)
    requires hash(p).Some? && hash(p).value !in t.groups
    ensures IsGrouping(prefix + [p], hash, Table(t.keys + [hash(p).value], t.groups[hash(p).value := [p]]))
  {
    var d := hash(p).value;
    forall e ensures GroupOf(prefix + [p], hash, e) == GroupOf(prefix, hash, e) + (if e == d then [p] else []) {
      GroupOfSnoc(prefix, hash, p, e);
    }
    assert d !in t.keys;
    NoDupAppend(t.keys, [d]);
  }

  lemma GroupOfSnoc(prefix: seq<Path>, hash: Hasher, p: Path, e: Digest)
    ensures GroupOf(prefix + [p], hash, e) == GroupOf(prefix, hash, e) + (if hash(p) == Some(e) then [p] else [])
  {
    assert (prefix + [p])[..|prefix|] == prefix;
  }

  /** A key's group starts as the single path whose hash created it. */
  lemma {:induction false} GroupStartsWithFirstInsertion(order: seq<Path>, hash: Hasher, i: nat, d: Digest)
    requires i < |order| && hash(order[i]) == Some(d)
    requires forall j :: 0 <= j < i ==> hash(order[j]) != Some(d)
    ensures GroupOf(order[..i + 1], hash, d) == [order[i]]
  {
    assert order[..i + 1][..i] == order[..i];
    NoEarlierMembers(order[..i], hash, d);
  }

  /** In the finished table, a digest's group begins with the first path
      whose hash produced that digest: that path is the one kept. */
  lemma KeeperIsFirstCompletion(order: seq<Path>, hash: Hasher, t: Table, i: nat, d: Digest)
    requires IsGrouping(order, hash, t)
    requires i < |order| && hash(order[i]) == Some(d)
    requires forall j :: 0 <= j < i ==> hash(order[j]) != Some(d)
    ensures d in t.groups && t.groups[d][0] == order[i]
  {
    GroupStartsWithFirstInsertion(order, hash, i, d);
    GroupOfPrefix(order, hash, d, i + 1);
  }

  /** The group of a prefix of `order` is a prefix of the group of `order`. */
  lemma {:induction false} GroupOfPrefix(order: seq<Path>, hash: Hasher, d: Digest, k: nat)
    requires k <= |order|
    ensures GroupOf(order[..k], hash, d) <= GroupOf(order, hash, d)
    decreases |order| - k
  {
    if k < |order| {
      var front := order[..|order| - 1];
      assert front[..k] == order[..k];
      GroupOfPrefix(front, hash, d, k);
    } else {
      assert order[..k] == order;
    }
  }

  lemma {:induction false} NoEarlierMembers(prefix: seq<Path>, hash: Hasher, d: Digest)
    requires forall j :: 0 <= j < |prefix| ==> hash(prefix[j]) != Some(d)
    ensures GroupOf(prefix, hash, d) == []
  {
    if prefix != [] {
      NoEarlierMembers(prefix[..|prefix| - 1], hash, d);
    }
  }

  // ---------------------------------------------------------------------------
  // Group sizes

  /** The sum of the sizes of the groups under `keys`. */
  function TotalSize(groups: map<Digest, seq<Path>>, keys: seq<Digest>): nat
  {
    if keys == [] then 0
    else TotalSize(groups, keys[..|keys| - 1]) + |Members(groups, keys[|keys| - 1])|
  }

  /** The group sizes add up to the number of paths hashed. */
  lemma GroupSizesSumToInputs(order: seq<Path>, hash: Hasher, t: Table)
    requires IsGrouping(order, hash, t)
    ensures TotalSize(t.groups, t.keys) == |order|
  {
    forall i | 0 <= i < |order| ensures hash(order[i]).value in t.keys {
      GroupOfMembers(order, hash, hash(order[i]).value, order[i]);
    }
    TotalSizeIsTally(order, hash, t.groups, t.keys);
    TallyCountsAll(order, hash, t.keys);
  }

  ghost function Tally(order: seq<Path>, hash: Hasher, keys: seq<Digest>): nat
  {
    if keys == [] then 0
    else Tally(order, hash, keys[..|keys| - 1]) + |GroupOf(order, hash, keys[|keys| - 1])|
  }

  lemma {:induction false} TotalSizeIsTally(order: seq<Path>, hash: Hasher, groups: map<Digest, seq<Path>>, keys: seq<Digest>)
    requires forall k :: 0 <= k < |keys| ==> keys[k] in groups && groups[keys[k]] == GroupOf(order, hash, keys[k])
    ensures TotalSize(groups, keys) == Tally(order, hash, keys)
  {
    if keys != [] {
      TotalSizeIsTally(order, hash, groups, keys[..|keys| - 1]);
    }
  }

  lemma {:induction false} TallyOfNothing(hash: Hasher, keys: seq<Digest>)
    ensures Tally([], hash, keys) == 0
  {
    if keys != [] {
      TallyOfNothing(hash, keys[..|keys| - 1]);
    }
  }

  lemma {:induction false} TallyStep(init: seq<Path>, hash: Hasher, p: Path, keys: seq<Digest>)
    requires hash(p).Some?
    ensures Tally(init + [p], hash, keys) == Tally(init, hash, keys) + multiset(keys)[hash(p).value]
  {
    var order := init + [p];
    assert order[..|order| - 1] == init;
    if keys != [] {
      var ks := keys[..|keys| - 1];
      TallyStep(init, hash, p, ks);
      assert keys == ks + [keys[|keys| - 1]];
    }
  }

  lemma {:induction false} TallyCountsAll(order: seq<Path>, hash: Hasher, keys: seq<Digest>)
    requires NoDup(keys) && AllHashed(order, hash)
    requires forall i :: 0 <= i < |order| ==> hash(order[i]).value in keys
    ensures Tally(order, hash, keys) == |order|
  {
    if order == [] {
      TallyOfNothing(hash, keys);
    } else {
      var init := order[..|order| - 1];
      var p := order[|order| - 1];
      assert order == init + [p];
      assert forall i :: 0 <= i < |init| ==> init[i] == order[i];
      TallyCountsAll(init, hash, keys);
      TallyStep(init, hash, p, keys);
      NoDupIffSingleCounts(keys);
    }
  }

  // ---------------------------------------------------------------------------
  // When a duplicate group exists

  /** Some group has more than one member exactly when two of the hashed
      paths share a digest. */
  lemma DuplicatesIffSharedDigest(order: seq<Path>, hash: Hasher, t: Table)
    requires IsGrouping(order, hash, t)
    ensures (exists d :: d in t.groups && |t.groups[d]| > 1) <==>
            (exists i, j :: 0 <= i < j < |order| && hash(order[i]) == hash(order[j]))
  {
    if exists d :: d in t.groups && |t.groups[d]| > 1 {
      var d :| d in t.groups && |t.groups[d]| > 1;
      var i, j := LargeGroupHasTwoPositions(order, hash, d);
    }
    if exists i, j :: 0 <= i < j < |order| && hash(order[i]) == hash(order[j]) {
      var i, j :| 0 <= i < j < |order| && hash(order[i]) == hash(order[j]);
      var d := hash(order[i]).value;
      TwoPositionsMakeLargeGroup(order, hash, d, i, j);
    }
  }

  lemma {:induction false} TwoPositionsMakeLargeGroup(order: seq<Path>, hash: Hasher, d: Digest, i: nat, j: nat)
    requires i < j < |order| && hash(order[i]) == Some(d) && hash(order[j]) == Some(d)
    ensures |GroupOf(order, hash, d)| > 1
  {
    var init := order[..|order| - 1];
    if j == |order| - 1 {
      assert init[i] == order[i];
      GroupOfMembers(init, hash, d, order[i]);
    } else {
      assert init[i] == order[i] && init[j] == order[j];
      TwoPositionsMakeLargeGroup(init, hash, d, i, j);
    }
  }

  lemma {:induction false} LargeGroupHasTwoPositions(order: seq<Path>, hash: Hasher, d: Digest) returns (i: nat, j: nat)
    requires |GroupOf(order, hash, d)| > 1
    ensures i < j < |order| && hash(order[i]) == Some(d) && hash(order[j]) == Some(d)
  {
    var init := order[..|order| - 1];
    var last := order[|order| - 1];
    if hash(last) == Some(d) {
      var p := GroupOf(init, hash, d)[0];
      GroupOfMembers(init, hash, d, p);
      var k :| 0 <= k < |init| && init[k] == p;
      i, j := k, |order| - 1;
    } else {
      i, j := LargeGroupHasTwoPositions(init, hash, d);
    }
  }
}
