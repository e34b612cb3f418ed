/** The deletion pass over the groups: every member of a group after the
    first is removed, each removal on its own. */
module Deletion {
  import opened Seqs
  import opened FsTree
  import opened Grouping

  /** Whether `fs.rm` of a path succeeds. */
  type Remover = Path -> bool

  function Tail(g: seq<Path>): seq<Path>
  {
    if g == [] then [] else g[1..]
  }

  /** The members after the first of the groups under `keys`, group by group
      in key order and member by member in group order. */
  function Surplus(groups: map<Digest, seq<Path>>, keys: seq<Digest>): seq<Path>
  {
    if keys == [] then []
    else Surplus(groups, keys[..|keys| - 1]) + Tail(Members(groups, keys[|keys| - 1]))
  }

  /** Some group has more than one member. */
  predicate HasDuplicates(t: Table)
  {
    exists d :: d in t.groups && |t.groups[d]| > 1
  }

  /** The body of the callback run for each key: a group with more than one
      member is reported, and each member from index 1 on is removed, a failed
      removal being logged and passed over. */
  method ProcessGroup(group: seq<Path>, rmSucceeds: Remover) returns (tried: seq<Path>, gone: set<Path>, duplicate: bool)
    ensures duplicate <==> |group| > 1
    ensures tried == Tail(group)
    ensures gone == Succeeded(tried, rmSucceeds)
  {
    tried, gone, duplicate := [], {}, false;
    if |group| > 1 {
      duplicate := true;
      var i := 1;
      while i < |group|
        invariant 1 <= i <= |group|
        invariant tried == group[1..i]
        invariant gone == Succeeded(tried, rmSucceeds)
      {
        if rmSucceeds(group[i]) {
          gone := gone + {group[i]};
        }
        tried := tried + [group[i]];
        i := i + 1;
      }
    }
  }

  /** The loop over the record's keys. The removal attempts, and the set of
      paths whose removal succeeded, are given in their own terms: a failed
      removal stops nothing. The flag says whether some group had more than one
      member. */
  method RemoveDuplicates(t: Table, rmSucceeds: Remover) returns (attempts: seq<Path>, removed: set<Path>, duplicateFound: bool)
    requires t.Valid()
    ensures attempts == Surplus(t.groups, t.keys)
    ensures removed == Succeeded(attempts, rmSucceeds)
    ensures duplicateFound <==> HasDuplicates(t)
  {
    attempts, removed, duplicateFound := [], {}, false;
    var k := 0;
    while k < |t.keys|
      invariant 0 <= k <= |t.keys|
      invariant attempts == Surplus(t.groups, t.keys[..k])
      invariant removed == Succeeded(attempts, rmSucceeds)
      invariant duplicateFound <==> attempts != []
    {
      var tried, gone, duplicate := ProcessGroup(t.groups[t.keys[k]], rmSucceeds);
      assert t.keys[..k + 1][..k] == t.keys[..k];
      assert Surplus(t.groups, t.keys[..k + 1]) == Surplus(t.groups, t.keys[..k]) + tried;
      SucceededAppend(attempts, tried, rmSucceeds);
      attempts := attempts + tried;
      removed := removed + gone;
      duplicateFound := duplicateFound || duplicate;
      k := k + 1;
    }
    assert t.keys[..k] == t.keys;
    NoAttemptsIffNoDuplicates(t);
  }

  /** The attempted paths whose removal succeeds. */
  function Succeeded(attempts: seq<Path>, rmSucceeds: Remover): set<Path>
  {
    set p | p in attempts && rmSucceeds(p)
  }

  lemma SucceededAppend(a: seq<Path>, b: seq<Path>, rmSucceeds: Remover)
    ensures Succeeded(a + b, rmSucceeds) == Succeeded(a, rmSucceeds) + Succeeded(b, rmSucceeds)
  {
  }

  // ---------------------------------------------------------------------------
  // Which paths are attempted

  /** A path is attempted exactly when it stands at index 1 or later in one of
      the groups. */
  lemma {:induction false} SurplusMembers(groups: map<Digest, seq<Path>>, keys: seq<Digest>, p: Path)
    requires forall k :: 0 <= k < |keys| ==> keys[k] in groups
    ensures p in Surplus(groups, keys) <==>
            exists k, i :: 0 <= k < |keys| && 1 <= i < |groups[keys[k]]| && groups[keys[k]][i] == p
  {
    if keys != [] {
      var init := keys[..|keys| - 1];
      var last := keys[|keys| - 1];
      SurplusMembers(groups, init, p);
      if p in Tail(groups[last]) {
        var i :| 0 <= i < |Tail(groups[last])| && Tail(groups[last])[i] == p;
        assert groups[keys[|keys| - 1]][i + 1] == p;
      }
      if exists k, i :: 0 <= k < |keys| && 1 <= i < |groups[keys[k]]| && groups[keys[k]][i] == p {
        var k, i :| 0 <= k < |keys| && 1 <= i < |groups[keys[k]]| && groups[keys[k]][i] == p;
        if k < |init| {
          assert init[k] == keys[k];
        } else {
          assert Tail(groups[last])[i - 1] == p;
        }
      }
    }
  }

  /** With distinct paths, a path is attempted exactly when it is not the
      first member (the keeper) of its digest's group: the keeper of every
      group survives, and a path whose content is unique is never touched. */
  lemma AttemptedIffNotKeeper(order: seq<Path>, hash: Hasher, t: Table, p: Path)
    requires IsGrouping(order, hash, t) && NoDup(order) && p in order
    ensures hash(p).Some? && hash(p).value in t.groups
    ensures p in Surplus(t.groups, t.keys) <==> p != t.groups[hash(p).value][0]
  {
    EachPathInItsOwnGroup(order, hash, t, p);
    var d := hash(p).value;
    var g := t.groups[d];
    SurplusMembers(t.groups, t.keys, p);
    GroupOfNoDup(order, hash, d);
    if p in Surplus(t.groups, t.keys) {
      var k, i :| 0 <= k < |t.keys| && 1 <= i < |t.groups[t.keys[k]]| && t.groups[t.keys[k]][i] == p;
      assert p in t.groups[t.keys[k]];
      assert t.keys[k] == d;
      assert g[0] != g[i];
    }
    if p != g[0] {
      var i :| 0 <= i < |g| && g[i] == p;
      var k :| 0 <= k < |t.keys| && t.keys[k] == d;
      assert 1 <= i < |t.groups[t.keys[k]]| && t.groups[t.keys[k]][i] == p;
    }
  }

  /** Nothing is attempted exactly when no group has more than one member;
      on a tree without duplicates the pass changes nothing. */
  lemma {:induction false} NoAttemptsIffNoDuplicates(t: Table)
    requires t.Valid()
    ensures Surplus(t.groups, t.keys) == [] <==> !HasDuplicates(t)
  {
    if HasDuplicates(t) {
      var d :| d in t.groups && |t.groups[d]| > 1;
      var k :| 0 <= k < |t.keys| && t.keys[k] == d;
      SurplusMembers(t.groups, t.keys, t.groups[d][1]);
    } else if Surplus(t.groups, t.keys) != [] {
      var p := Surplus(t.groups, t.keys)[0];
      SurplusMembers(t.groups, t.keys, p);
    }
  }

  /** One removal is attempted per path beyond the first of each digest. */
  lemma AttemptCount(order: seq<Path>, hash: Hasher, t: Table)
    requires IsGrouping(order, hash, t)
    ensures |Surplus(t.groups, t.keys)| == |order| - |t.keys|
  {
    GroupSizesSumToInputs(order, hash, t);
    SurplusCount(order, hash, t, t.keys);
  }

  lemma {:induction false} SurplusCount(order: seq<Path>, hash: Hasher, t: Table, keys: seq<Digest>)
    requires IsGrouping(order, hash, t)
    requires forall k :: 0 <= k < |keys| ==> keys[k] in t.groups
    ensures |Surplus(t.groups, keys)| == TotalSize(t.groups, keys) - |keys|
  {
    if keys != [] {
      SurplusCount(order, hash, t, keys[..|keys| - 1]);
      assert t.groups[keys[|keys| - 1]] != [];
    }
  }
}
