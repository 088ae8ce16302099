/** Every fingerprint of an observation is the hash of bytes that determine it. */
module ObservedBytes {
  import opened Wrappers
  import opened Bytes
  import opened Ordering
  import opened Fingerprint
  import opened Observing
  import opened ObservationMeaning
  import SplitIndex

  /** Object names are SHA-1 names, in the index and in the trees. */
  ghost predicate Sha1Names(repo: Repository) {
    && (forall t, k :: t in repo.trees && 0 <= k < |repo.trees[t]| ==> |repo.trees[t][k].oid| == 20)
    && var items := SplitIndex.Entries(repo.indexes, repo.indexPath, {}, None);
       items.Success? ==> RecordNames(items.value)
  }

  ghost predicate RecordNames(records: seq<SplitIndex.Record>) {
    forall i :: 0 <= i < |records| ==> |records[i].entry.oid| == 20
  }

  ghost predicate RowNames(rows: seq<IndexRow>) { forall i :: 0 <= i < |rows| ==> |rows[i].oid| == 20 }

  lemma {:induction false} LeafNames(prefix: Path, entry: SplitIndex.Entry, leaves: seq<Leaf>)
    requires forall k :: 0 <= k < |leaves| ==> |leaves[k].oid| == 20
    ensures RecordNames(LeafRecords(prefix, entry, leaves))
  {
    if leaves != [] {
      LeafNames(prefix, entry, leaves[..|leaves| - 1]);
    }
  }

  lemma {:induction false} ExpandedNames(repo: Repository, items: seq<SplitIndex.Record>)
    requires Sha1Names(repo) && RecordNames(items)
    ensures Expanded(items, repo.trees).Success? ==> RecordNames(Expanded(items, repo.trees).value)
    decreases |items|
  {
    if items != [] {
      var record := items[|items| - 1];
      ExpandedNames(repo, items[..|items| - 1]);
      if record.entry.oid in repo.trees {
        LeafNames(StripSlashes(record.path), record.entry, repo.trees[record.entry.oid]);
      }
      hide LeafRecords, StripSlashes;
    }
  }

  lemma {:induction false} RowsNames(items: seq<SplitIndex.Record>)
    requires RecordNames(items)
    ensures Rows(items).Success? ==> RowNames(Rows(items).value)
  {
    if items != [] {
      RowsNames(items[..|items| - 1]);
    }
  }

  lemma SortedNames(rows: seq<IndexRow>)
    requires RowNames(rows)
    ensures RowNames(StableSort(rows, BY_PATH_AND_STAGE))
  {
    StableSortCorrect(rows, BY_PATH_AND_STAGE);
    var sorted := StableSort(rows, BY_PATH_AND_STAGE);
    hide StableSort;
    forall i | 0 <= i < |sorted|
      ensures |sorted[i].oid| == 20
    {
      assert sorted[i] in sorted;
      var k :| 0 <= k < |rows| && rows[k] == sorted[i];
    }
  }

  lemma IndexedNames(repo: Repository)
    requires Sha1Names(repo)
    ensures ListsOf(repo).Success? ==> RowNames(ListsOf(repo).value.indexed)
  {
    var items := SplitIndex.Entries(repo.indexes, repo.indexPath, {}, None);
    if items.Success? {
      ExpandedNames(repo, items.value);
      var expanded := Expanded(items.value, repo.trees);
      if expanded.Success? {
        RowsNames(expanded.value);
        if Rows(expanded.value).Success? {
          SortedNames(Rows(expanded.value).value);
        }
      }
    }
    hide Sha1Names, RecordNames, RowNames, Expanded, Rows, StableSort, Committed, SplitIndex.Entries;
  }

  /** What an observation has seen: the four parts that are hashed when the checkout is not clean. */
  ghost function Seen(world: World, canonical: string, active: set<string>): Observation
    requires Observe(world, canonical, active).Success?
  {
    ObservationParts(world, canonical, active);
    var repo := world.repositories[canonical];
    var indexed := ListsOf(repo).value.indexed;
    Observation(repo.head.value, indexed,
                Working(world, repo, Chosen(indexed).Values(), active + {canonical}).value.0,
                UntrackedFiles(repo, indexed).value)
  }

  lemma FingerprintOf(
    world: World, head: Digest, dirty: bool, indexed: seq<IndexRow>, working: seq<FileRow>, untracked: seq<FileRow>)
    ensures var r, o := IdentityOf(world, head, dirty, indexed, working, untracked), Observation(head, indexed, working, untracked);
            r.Success? && r.value.fingerprint.Some? ==> Fits(o) && r.value.fingerprint == Some(world.sha256(Preimage(o)))
  {
    hide Fits, Preimage;
  }

  /** A fingerprint is the hash of what was seen, whose object names all have twenty bytes. */
  lemma FingerprintIsHash(world: World, canonical: string, active: set<string>)
    requires Sha1Heads(world) && Observe(world, canonical, active).Success?
    requires canonical in world.repositories && Sha1Names(world.repositories[canonical])
    requires Observe(world, canonical, active).value.fingerprint.Some?
    ensures var o := Seen(world, canonical, active);
            && Fits(o) && HasWidth(o, 20)
            && Observe(world, canonical, active).value.fingerprint == Some(world.sha256(Preimage(o)))
  {
    ObservationParts(world, canonical, active);
    var repo := world.repositories[canonical];
    var lists := ListsOf(repo).value;
    var working := Working(world, repo, Chosen(lists.indexed).Values(), active + {canonical}).value;
    IndexedNames(repo);
    FingerprintOf(world, repo.head.value, working.1 || IndexDirty(lists.indexed, lists.committed), lists.indexed,
                  working.0, UntrackedFiles(repo, lists.indexed).value);
    hide Observe, ListsOf, Working, Chosen, UntrackedFiles, IdentityOf, IndexDirty, Fits, Preimage, Sha1Names;
  }

  /** Equal fingerprints mean that the same was seen, or that two different strings of bytes have one hash. */
  lemma EqualFingerprints(
    world: World, canonical: string, active: set<string>, world': World, canonical': string, active': set<string>)
    requires world.sha256 == world'.sha256
    requires Sha1Heads(world) && Observe(world, canonical, active).Success?
    requires canonical in world.repositories && Sha1Names(world.repositories[canonical])
    requires Sha1Heads(world') && Observe(world', canonical', active').Success?
    requires canonical' in world'.repositories && Sha1Names(world'.repositories[canonical'])
    requires Observe(world, canonical, active).value.fingerprint.Some?
    requires Observe(world', canonical', active').value.fingerprint == Observe(world, canonical, active).value.fingerprint
    ensures var a, b := Seen(world, canonical, active), Seen(world', canonical', active');
            && Fits(a) && Fits(b) && world.sha256(Preimage(a)) == world.sha256(Preimage(b))
            && (a == b || Preimage(a) != Preimage(b))
  {
    FingerprintIsHash(world, canonical, active);
    FingerprintIsHash(world', canonical', active');
    hide *;
    if Preimage(Seen(world, canonical, active)) == Preimage(Seen(world', canonical', active')) {
      PreimageInjective(Seen(world, canonical, active), Seen(world', canonical', active'), 20);
    }
  }
}
