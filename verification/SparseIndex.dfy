/** Collapsing a directory of skip-worktree entries into one sparse-directory entry changes no observation. */
module SparseIndex {
  import opened Wrappers
  import opened FileModes
  import opened Bytes
  import opened Ordering
  import opened Paths
  import opened Fingerprint
  import opened ActiveSets
  import opened Observing
  import SplitIndex

  // ---------------------------------------------------------------- a directory is one block of a sorted index

  /** The record lies below the directory. */
  predicate Within(prefix: Path, r: SplitIndex.Record) { prefix + [SLASH] <= r.path }

  lemma {:induction false} BetweenSharesPrefix(prefix: Path, a: Path, b: Path, c: Path)
    requires prefix <= a && prefix <= c && !PathLess(b, a) && !PathLess(c, b)
    ensures prefix <= b
  {
    if prefix != [] {
      assert a[0] == prefix[0] == c[0];
      assert b != [] && b[0] == prefix[0];
      BetweenSharesPrefix(prefix[1..], a[1..], b[1..], c[1..]);
      assert prefix == [prefix[0]] + prefix[1..] && b == [b[0]] + b[1..];
    }
  }

  lemma Between(index: seq<SplitIndex.Record>, prefix: Path, i: nat, k: nat, j: nat)
    requires StrictlySorted(index, SplitIndex.BY_PATH_AND_STAGE)
    requires i < k < j < |index| && Within(prefix, index[i]) && Within(prefix, index[j])
    ensures Within(prefix, index[k])
  {
    var a, b, c := index[i], index[k], index[j];
    assert KeyLess(SplitIndex.BY_PATH_AND_STAGE(a), SplitIndex.BY_PATH_AND_STAGE(b));
    assert KeyLess(SplitIndex.BY_PATH_AND_STAGE(b), SplitIndex.BY_PATH_AND_STAGE(c));
    NotLessBack(a.path, b.path);
    NotLessBack(b.path, c.path);
    BetweenSharesPrefix(prefix + [SLASH], a.path, b.path, c.path);
  }

  lemma NotLessBack(a: Path, b: Path)
    ensures PathLess(a, b) ==> !PathLess(b, a)
    ensures a == b ==> !PathLess(b, a)
  {
    PathIrreflexive(a);
    if PathLess(a, b) && PathLess(b, a) {
      PathTransitive(a, b, a);
    }
  }

  /** The entries below a directory form one block of a sorted index. */
  lemma {:induction false} DirectoryIsABlock(index: seq<SplitIndex.Record>, prefix: Path) returns (i: nat, j: nat)
    requires StrictlySorted(index, SplitIndex.BY_PATH_AND_STAGE)
    ensures i <= j <= |index|
    ensures forall k :: 0 <= k < |index| ==> (Within(prefix, index[k]) <==> i <= k < j)
  {
    if index == [] {
      i, j := 0, 0;
    } else {
      var n := |index| - 1;
      var front := index[..n];
      i, j := DirectoryIsABlock(front, prefix);
      assert forall k :: 0 <= k < n ==> index[k] == front[k];
      if Within(prefix, index[n]) {
        if i == j {
          i, j := n, n + 1;
        } else {
          if j < n {
            Between(index, prefix, i, j, n);
          }
          j := n + 1;
        }
      }
    }
  }

  // ---------------------------------------------------------------- expansion

  type Expansion = Result<seq<SplitIndex.Record>, Refusal>

  /** The outcome of two expansions, one after the other. */
  function Then(a: Expansion, b: Expansion): Expansion {
    match a
    case Failure(_) => a
    case Success(records) => if b.Failure? then b else Success(records + b.value)
  }

  lemma ThenAssociative(a: Expansion, b: Expansion, c: Expansion)
    ensures Then(Then(a, b), c) == Then(a, Then(b, c))
  {
    if a.Success? && b.Success? && c.Success? {
      assert a.value + b.value + c.value == a.value + (b.value + c.value);
    }
  }

  lemma ExpandedLast(front: seq<SplitIndex.Record>, last: SplitIndex.Record, trees: map<Digest, seq<Leaf>>)
    ensures Expanded(front + [last], trees) == Then(Expanded(front, trees), ExpandRecord(last, trees))
  {
    assert (front + [last])[..|front|] == front;
  }

  lemma {:induction false} ExpandedConcat(a: seq<SplitIndex.Record>, b: seq<SplitIndex.Record>, trees: map<Digest, seq<Leaf>>)
    ensures Expanded(a + b, trees) == Then(Expanded(a, trees), Expanded(b, trees))
    decreases |b|
  {
    if b == [] {
      assert a + b == a;
      assert Expanded(a, trees).Success? ==> Expanded(a, trees).value + [] == Expanded(a, trees).value;
    } else {
      hide Expanded, ExpandRecord;
      var front, last := b[..|b| - 1], b[|b| - 1];
      assert b == front + [last] && a + b == a + front + [last];
      ExpandedConcat(a, front, trees);
      ExpandedLast(front, last, trees);
      ExpandedLast(a + front, last, trees);
      ThenAssociative(Expanded(a, trees), Expanded(front, trees), ExpandRecord(last, trees));
    }
  }

  ghost predicate PlainRecords(records: seq<SplitIndex.Record>) {
    forall i :: 0 <= i < |records| ==> records[i].entry.mode != DIRECTORY_MODE
  }

  lemma {:induction false} PlainIsExpanded(records: seq<SplitIndex.Record>, trees: map<Digest, seq<Leaf>>)
    requires PlainRecords(records)
    ensures Expanded(records, trees) == Success(records)
  {
    if records != [] {
      var front, last := records[..|records| - 1], records[|records| - 1];
      hide Expanded;
      PlainIsExpanded(front, trees);
      assert records == front + [last];
      ExpandedLast(front, last, trees);
    }
  }

  lemma {:induction false} SafePathHasNoSlashAtEnd(prefix: Path)
    requires SafePath(prefix)
    ensures StripSlashes(prefix + [SLASH]) == prefix
  {
    var p := prefix + [SLASH];
    assert p[..|p| - 1] == prefix;
    var parts := Split(prefix);
    assert SafeName(parts[|parts| - 1]);
    if prefix != [] && prefix[|prefix| - 1] == SLASH {
      var front := prefix[..|prefix| - 1];
      assert prefix == front + [SLASH] + [];
      SplitJoined(front, []);
    }
  }

  lemma {:induction false} LeavesArePlain(prefix: Path, entry: SplitIndex.Entry, leaves: seq<Leaf>)
    requires forall i :: 0 <= i < |leaves| ==> leaves[i].mode != DIRECTORY_MODE
    ensures PlainRecords(LeafRecords(prefix, entry, leaves))
  {
    if leaves != [] {
      LeavesArePlain(prefix, entry, leaves[..|leaves| - 1]);
    }
  }

  /** The index in which the block from `i` to `j` is one sparse-directory entry. */
  function Collapsed(index: seq<SplitIndex.Record>, i: nat, j: nat, prefix: Path, entry: SplitIndex.Entry): seq<SplitIndex.Record>
    requires i <= j <= |index|
  {
    index[..i] + [SplitIndex.Record(prefix + [SLASH], entry)] + index[j..]
  }

  /** The block is what the tree of `entry` holds, with skip-worktree set and the other flags of `entry`. */
  ghost predicate Collapsible(
    index: seq<SplitIndex.Record>, i: nat, j: nat, prefix: Path, entry: SplitIndex.Entry, trees: map<Digest, seq<Leaf>>)
  {
    && i <= j <= |index| && SafePath(prefix) && entry.mode == DIRECTORY_MODE && entry.oid in trees
    && (forall k :: 0 <= k < |trees[entry.oid]| ==> trees[entry.oid][k].mode != DIRECTORY_MODE)
    && index[i..j] == LeafRecords(prefix, entry, trees[entry.oid])
  }

  lemma SparseExpands(prefix: Path, entry: SplitIndex.Entry, trees: map<Digest, seq<Leaf>>, leaves: seq<SplitIndex.Record>)
    requires SafePath(prefix) && entry.mode == DIRECTORY_MODE && entry.oid in trees
    requires forall k :: 0 <= k < |trees[entry.oid]| ==> trees[entry.oid][k].mode != DIRECTORY_MODE
    requires leaves == LeafRecords(prefix, entry, trees[entry.oid])
    ensures Expanded([SplitIndex.Record(prefix + [SLASH], entry)], trees) == Success(leaves)
    ensures Expanded(leaves, trees) == Success(leaves)
  {
    var sparse := [SplitIndex.Record(prefix + [SLASH], entry)];
    LeavesArePlain(prefix, entry, trees[entry.oid]);
    PlainIsExpanded(leaves, trees);
    SafePathHasNoSlashAtEnd(prefix);
    hide LeafRecords, StripSlashes, SafePath;
    ExpandedLast([], sparse[0], trees);
    assert [] + sparse == sparse && [] + leaves == leaves;
  }

  /** Expanding the collapsed index gives what the full one gives. */
  lemma CollapseExpands(
    index: seq<SplitIndex.Record>, i: nat, j: nat, prefix: Path, entry: SplitIndex.Entry, trees: map<Digest, seq<Leaf>>)
    requires Collapsible(index, i, j, prefix, entry, trees)
    ensures Expanded(Collapsed(index, i, j, prefix, entry), trees) == Expanded(index, trees)
  {
    hide Expanded, LeafRecords, SafePath;
    var leaves := index[i..j];
    SparseExpands(prefix, entry, trees, leaves);
    Around(index[..i], [SplitIndex.Record(prefix + [SLASH], entry)], index[j..], trees);
    Around(index[..i], leaves, index[j..], trees);
    assert index == index[..i] + leaves + index[j..];
  }

  lemma Around(a: seq<SplitIndex.Record>, b: seq<SplitIndex.Record>, c: seq<SplitIndex.Record>, trees: map<Digest, seq<Leaf>>)
    ensures Expanded(a + b + c, trees) == Then(Then(Expanded(a, trees), Expanded(b, trees)), Expanded(c, trees))
  {
    hide *;
    ExpandedConcat(a, b, trees);
    ExpandedConcat(a + b, c, trees);
  }

  /** Two repositories that differ only in their index, one with a directory of it collapsed, get the
      same verdict and the same fingerprint. */
  lemma CollapseKeepsObservation(
    world: World, full: Repository, sparse: Repository, active: set<string>,
    index: seq<SplitIndex.Record>, i: nat, j: nat, prefix: Path, entry: SplitIndex.Entry)
    requires |active| <= MAX_DEPTH
    requires sparse == full.(indexPath := sparse.indexPath, indexes := sparse.indexes)
    requires SplitIndex.Entries(full.indexes, full.indexPath, {}, None) == Success(index)
    requires Collapsible(index, i, j, prefix, entry, full.trees)
    requires SplitIndex.Entries(sparse.indexes, sparse.indexPath, {}, None)
             == Success(Collapsed(index, i, j, prefix, entry))
    ensures Indexed(sparse, Collapsed(index, i, j, prefix, entry)) == Indexed(full, index)
    ensures ObserveRepository(world, sparse, active) == ObserveRepository(world, full, active)
  {
    IndexedIsKept(full, sparse, index, i, j, prefix, entry);
    hide *;
    SameRowsSameObservation(world, full, sparse, active, index, Collapsed(index, i, j, prefix, entry));
  }

  lemma IndexedIsKept(
    full: Repository, sparse: Repository,
    index: seq<SplitIndex.Record>, i: nat, j: nat, prefix: Path, entry: SplitIndex.Entry)
    requires sparse == full.(indexPath := sparse.indexPath, indexes := sparse.indexes)
    requires Collapsible(index, i, j, prefix, entry, full.trees)
    ensures Indexed(sparse, Collapsed(index, i, j, prefix, entry)) == Indexed(full, index)
  {
    CollapseExpands(index, i, j, prefix, entry, full.trees);
    hide Expanded, Rows;
  }

  lemma SameBesidesIndex(full: Repository, sparse: Repository, indexed: seq<IndexRow>)
    requires sparse == full.(indexPath := sparse.indexPath, indexes := sparse.indexes)
    ensures UntrackedFiles(sparse, indexed) == UntrackedFiles(full, indexed)
    ensures Committed(sparse) == Committed(full)
    ensures sparse.bare == full.bare && sparse.head == full.head
  {
  }

  lemma SameRowsSameObservation(
    world: World, full: Repository, sparse: Repository, active: set<string>,
    index: seq<SplitIndex.Record>, collapsed: seq<SplitIndex.Record>)
    requires |active| <= MAX_DEPTH
    requires sparse == full.(indexPath := sparse.indexPath, indexes := sparse.indexes)
    requires SplitIndex.Entries(full.indexes, full.indexPath, {}, None) == Success(index)
    requires SplitIndex.Entries(sparse.indexes, sparse.indexPath, {}, None) == Success(collapsed)
    requires Indexed(sparse, collapsed) == Indexed(full, index)
    ensures ObserveRepository(world, sparse, active) == ObserveRepository(world, full, active)
  {
    var indexed := Indexed(full, index);
    if indexed.Success? {
      SameBesidesIndex(full, sparse, indexed.value);
      WorkingIgnoresIndex(world, full, sparse, Chosen(indexed.value).Values(), active);
    } else {
      SameBesidesIndex(full, sparse, []);
    }
    hide Working, Indexed, Committed, UntrackedFiles, IdentityOf, IndexDirty, Chosen;
  }

  lemma {:induction false} WorkingIgnoresIndex(
    world: World, full: Repository, sparse: Repository, rows: seq<IndexRow>, active: set<string>)
    requires |active| <= MAX_DEPTH
    requires sparse == full.(indexPath := sparse.indexPath, indexes := sparse.indexes)
    ensures Working(world, sparse, rows, active) == Working(world, full, rows, active)
    decreases |rows|
  {
    if rows != [] {
      var n := |rows| - 1;
      WorkingIgnoresIndex(world, full, sparse, rows[..n], active);
      assert Inspect(sparse, rows[n]) == Inspect(full, rows[n]);
      assert InspectGitlink(world, sparse, rows[n], active) == InspectGitlink(world, full, rows[n], active);
      hide Inspect, InspectGitlink, Observe;
    }
  }

  // ---------------------------------------------------------------- a whole directory

  /** The leaves of a tree are listed by path. */
  ghost predicate InPathOrder(leaves: seq<Leaf>) {
    forall i, j :: 0 <= i < j < |leaves| ==> PathLess(leaves[i].path, leaves[j].path)
  }

  lemma {:induction false} LessBelow(prefix: Path, a: Path, b: Path)
    requires PathLess(a, b)
    ensures PathLess(prefix + a, prefix + b)
  {
    if prefix == [] {
      assert prefix + a == a && prefix + b == b;
    } else {
      LessBelow(prefix[1..], a, b);
      assert (prefix + a)[1..] == prefix[1..] + a && (prefix + b)[1..] == prefix[1..] + b;
    }
  }

  /** What comes before a path below a directory, and is not below it, comes before the directory. */
  lemma {:induction false} BeforeDirectory(prefix: Path, a: Path, b: Path)
    requires PathLess(a, b) && prefix <= b && !(prefix <= a)
    ensures PathLess(a, prefix)
  {
    if a != [] && a[0] == prefix[0] {
      assert prefix == [prefix[0]] + prefix[1..] && a == [a[0]] + a[1..];
      BeforeDirectory(prefix[1..], a[1..], b[1..]);
    }
  }

  lemma {:induction false} BehindDirectory(prefix: Path, b: Path, c: Path)
    requires PathLess(b, c) && prefix <= b
    ensures PathLess(prefix, c) || prefix <= c
  {
    if prefix != [] && c[0] == prefix[0] {
      assert prefix == [prefix[0]] + prefix[1..] && c == [c[0]] + c[1..];
      BehindDirectory(prefix[1..], b[1..], c[1..]);
    }
  }

  lemma {:induction false} LeafRecordAt(prefix: Path, entry: SplitIndex.Entry, leaves: seq<Leaf>, k: nat)
    requires k < |leaves|
    ensures |LeafRecords(prefix, entry, leaves)| == |leaves|
    ensures LeafRecords(prefix, entry, leaves)[k] == LeafRecord(prefix, entry, leaves[k])
    decreases |leaves|
  {
    var front := leaves[..|leaves| - 1];
    LeafRecordsSize(prefix, entry, front);
    if k < |front| {
      LeafRecordAt(prefix, entry, front, k);
    }
  }

  lemma {:induction false} LeafRecordsSize(prefix: Path, entry: SplitIndex.Entry, leaves: seq<Leaf>)
    ensures |LeafRecords(prefix, entry, leaves)| == |leaves|
  {
    if leaves != [] {
      LeafRecordsSize(prefix, entry, leaves[..|leaves| - 1]);
    }
  }

  lemma LeafRecordsSorted(prefix: Path, entry: SplitIndex.Entry, leaves: seq<Leaf>)
    requires InPathOrder(leaves)
    ensures StrictlySorted(LeafRecords(prefix, entry, leaves), SplitIndex.BY_PATH_AND_STAGE)
  {
    LeafRecordsSize(prefix, entry, leaves);
    hide LeafRecords, PathLess;
    forall i, j | 0 <= i < j < |leaves|
      ensures KeyLess(SplitIndex.BY_PATH_AND_STAGE(LeafRecords(prefix, entry, leaves)[i]),
                      SplitIndex.BY_PATH_AND_STAGE(LeafRecords(prefix, entry, leaves)[j]))
    {
      LeafRecordAt(prefix, entry, leaves, i);
      LeafRecordAt(prefix, entry, leaves, j);
      LessBelow(prefix + [SLASH], leaves[i].path, leaves[j].path);
    }
  }

  /** The entries below a directory are the files of a tree, with skip-worktree set and the other flags of `entry`. */
  ghost predicate HoldsTree(index: seq<SplitIndex.Record>, prefix: Path, entry: SplitIndex.Entry, leaves: seq<Leaf>) {
    && InPathOrder(leaves) && leaves != []
    && (forall k :: 0 <= k < |leaves| ==> leaves[k].mode != DIRECTORY_MODE)
    && forall r :: r in index && Within(prefix, r) <==> r in LeafRecords(prefix, entry, leaves)
  }

  lemma SliceSorted(index: seq<SplitIndex.Record>, i: nat, j: nat)
    requires StrictlySorted(index, SplitIndex.BY_PATH_AND_STAGE) && i <= j <= |index|
    ensures StrictlySorted(index[i..j], SplitIndex.BY_PATH_AND_STAGE)
    ensures forall r :: r in index[i..j] <==> exists k :: i <= k < j && index[k] == r
  {
    var slice := index[i..j];
    assert forall k :: 0 <= k < |slice| ==> slice[k] == index[i + k];
    forall r
      ensures r in slice <==> exists k :: i <= k < j && index[k] == r
    {
      if k :| i <= k < j && index[k] == r {
        assert slice[k - i] == r;
      }
    }
  }

  /** Such a directory is a block of the index that can be collapsed. */
  lemma DirectoryCollapses(index: seq<SplitIndex.Record>, prefix: Path, entry: SplitIndex.Entry, trees: map<Digest, seq<Leaf>>)
    returns (i: nat, j: nat)
    requires StrictlySorted(index, SplitIndex.BY_PATH_AND_STAGE) && SafePath(prefix)
    requires entry.mode == DIRECTORY_MODE && entry.oid in trees && HoldsTree(index, prefix, entry, trees[entry.oid])
    ensures i < j && Collapsible(index, i, j, prefix, entry, trees)
    ensures forall k :: 0 <= k < |index| ==> (Within(prefix, index[k]) <==> i <= k < j)
  {
    i, j := DirectoryIsABlock(index, prefix);
    var leaves := trees[entry.oid];
    hide LeafRecords, Within, SafePath;
    SliceSorted(index, i, j);
    LeafRecordsSorted(prefix, entry, leaves);
    forall r
      ensures r in index[i..j] <==> r in LeafRecords(prefix, entry, leaves)
    {
      if r in index && Within(prefix, r) {
        var k :| 0 <= k < |index| && index[k] == r;
      }
    }
    hide InPathOrder, StrictlySorted;
    StrictOrderIsUnique(index[i..j], LeafRecords(prefix, entry, leaves), SplitIndex.BY_PATH_AND_STAGE);
    LeafRecordsSize(prefix, entry, leaves);
  }

  lemma DirectoryInPlace(index: seq<SplitIndex.Record>, i: nat, j: nat, prefix: Path, d: SplitIndex.Record)
    requires StrictlySorted(index, SplitIndex.BY_PATH_AND_STAGE) && i < j <= |index| && d.path == prefix + [SLASH]
    requires forall k :: 0 <= k < |index| ==> (Within(prefix, index[k]) <==> i <= k < j)
    ensures forall k :: 0 <= k < i ==> KeyLess(SplitIndex.BY_PATH_AND_STAGE(index[k]), SplitIndex.BY_PATH_AND_STAGE(d))
    ensures forall k :: j <= k < |index| ==> KeyLess(SplitIndex.BY_PATH_AND_STAGE(d), SplitIndex.BY_PATH_AND_STAGE(index[k]))
  {
    hide PathLess;
    forall k | 0 <= k < i
      ensures KeyLess(SplitIndex.BY_PATH_AND_STAGE(index[k]), SplitIndex.BY_PATH_AND_STAGE(d))
    {
      assert KeyLess(SplitIndex.BY_PATH_AND_STAGE(index[k]), SplitIndex.BY_PATH_AND_STAGE(index[i]));
      assert !Within(prefix, index[k]) && Within(prefix, index[i]);
      BeforeDirectory(d.path, index[k].path, index[i].path);
    }
    forall k | j <= k < |index|
      ensures KeyLess(SplitIndex.BY_PATH_AND_STAGE(d), SplitIndex.BY_PATH_AND_STAGE(index[k]))
    {
      assert KeyLess(SplitIndex.BY_PATH_AND_STAGE(index[j - 1]), SplitIndex.BY_PATH_AND_STAGE(index[k]));
      assert Within(prefix, index[j - 1]) && !Within(prefix, index[k]);
      BehindDirectory(d.path, index[j - 1].path, index[k].path);
    }
  }

  /** The index in which a directory is collapsed, by its contents. */
  ghost predicate IsCollapsed(
    collapsed: seq<SplitIndex.Record>, index: seq<SplitIndex.Record>, prefix: Path, entry: SplitIndex.Entry)
  {
    && StrictlySorted(collapsed, SplitIndex.BY_PATH_AND_STAGE)
    && forall r :: r in collapsed <==>
         (r in index && !Within(prefix, r)) || r == SplitIndex.Record(prefix + [SLASH], entry)
  }

  lemma CollapsedSorted(index: seq<SplitIndex.Record>, i: nat, j: nat, prefix: Path, entry: SplitIndex.Entry)
    requires StrictlySorted(index, SplitIndex.BY_PATH_AND_STAGE) && i < j <= |index|
    requires forall k :: 0 <= k < |index| ==> (Within(prefix, index[k]) <==> i <= k < j)
    ensures StrictlySorted(Collapsed(index, i, j, prefix, entry), SplitIndex.BY_PATH_AND_STAGE)
  {
    var d, all := SplitIndex.Record(prefix + [SLASH], entry), Collapsed(index, i, j, prefix, entry);
    DirectoryInPlace(index, i, j, prefix, d);
    hide KeyLess, Within;
    forall m, n | 0 <= m < n < |all|
      ensures KeyLess(SplitIndex.BY_PATH_AND_STAGE(all[m]), SplitIndex.BY_PATH_AND_STAGE(all[n]))
    {
      assert all[m] == if m < i then index[m] else if m == i then d else index[m - i - 1 + j];
      assert all[n] == if n < i then index[n] else if n == i then d else index[n - i - 1 + j];
    }
  }

  lemma CollapsedMembers(index: seq<SplitIndex.Record>, i: nat, j: nat, prefix: Path, entry: SplitIndex.Entry, r: SplitIndex.Record)
    requires i < j <= |index|
    requires forall k :: 0 <= k < |index| ==> (Within(prefix, index[k]) <==> i <= k < j)
    ensures r in Collapsed(index, i, j, prefix, entry) <==>
            (r in index && !Within(prefix, r)) || r == SplitIndex.Record(prefix + [SLASH], entry)
  {
    hide Within;
    if r in index && !Within(prefix, r) {
      var k :| 0 <= k < |index| && index[k] == r;
      assert k < i ==> index[..i][k] == r;
      assert k >= j ==> index[j..][k - j] == r;
    }
  }

  lemma CollapsedIs(collapsed: seq<SplitIndex.Record>, index: seq<SplitIndex.Record>, i: nat, j: nat,
                    prefix: Path, entry: SplitIndex.Entry)
    requires StrictlySorted(index, SplitIndex.BY_PATH_AND_STAGE) && i < j <= |index|
    requires forall k :: 0 <= k < |index| ==> (Within(prefix, index[k]) <==> i <= k < j)
    requires IsCollapsed(collapsed, index, prefix, entry)
    ensures collapsed == Collapsed(index, i, j, prefix, entry)
  {
    CollapsedSorted(index, i, j, prefix, entry);
    forall r
      ensures r in collapsed <==> r in Collapsed(index, i, j, prefix, entry)
    {
      CollapsedMembers(index, i, j, prefix, entry, r);
    }
    hide StrictlySorted, Within, Collapsed;
    StrictOrderIsUnique(collapsed, Collapsed(index, i, j, prefix, entry), SplitIndex.BY_PATH_AND_STAGE);
  }

  /**
   * A checkout in whose index a whole directory is collapsed, all of it skip-worktree and otherwise with the same flags,
   * has the verdict and the fingerprint of the one with the full index.
   */
  lemma SparseDirectoryKeepsObservation(
    world: World, full: Repository, sparse: Repository, active: set<string>,
    index: seq<SplitIndex.Record>, collapsed: seq<SplitIndex.Record>, prefix: Path, entry: SplitIndex.Entry)
    requires |active| <= MAX_DEPTH
    requires sparse == full.(indexPath := sparse.indexPath, indexes := sparse.indexes)
    requires SplitIndex.Entries(full.indexes, full.indexPath, {}, None) == Success(index)
    requires SplitIndex.Entries(sparse.indexes, sparse.indexPath, {}, None) == Success(collapsed)
    requires StrictlySorted(index, SplitIndex.BY_PATH_AND_STAGE) && SafePath(prefix)
    requires entry.mode == DIRECTORY_MODE && entry.oid in full.trees
             && HoldsTree(index, prefix, entry, full.trees[entry.oid])
    requires IsCollapsed(collapsed, index, prefix, entry)
    ensures ObserveRepository(world, sparse, active) == ObserveRepository(world, full, active)
  {
    hide *;
    var i, j := DirectoryCollapses(index, prefix, entry, full.trees);
    assert i < j <= |index| by { CollapsibleBounds(index, i, j, prefix, entry, full.trees); }
    CollapsedIs(collapsed, index, i, j, prefix, entry);
    CollapseKeepsObservation(world, full, sparse, active, index, i, j, prefix, entry);
  }

  lemma CollapsibleBounds(
    index: seq<SplitIndex.Record>, i: nat, j: nat, prefix: Path, entry: SplitIndex.Entry, trees: map<Digest, seq<Leaf>>)
    requires Collapsible(index, i, j, prefix, entry, trees)
    ensures i <= j <= |index|
  {
  }
}
