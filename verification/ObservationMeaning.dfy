/** When a checkout is reported clean, and what sparse directories and submodules can change. */
module ObservationMeaning {
  import opened Wrappers
  import opened FileModes
  import opened Bytes
  import opened Ordering
  import opened Paths
  import opened Fingerprint
  import opened CheckoutTree
  import opened ActiveSets
  import opened Observing
  import WalkMeaning
  import EndOfLine
  import SplitIndex

  // ---------------------------------------------------------------- the lists of an observation

  /** The index, commit and chosen rows of a repository, once they can be read. */
  datatype Lists = Lists(indexed: seq<IndexRow>, committed: seq<IndexRow>)

  ghost function ListsOf(repo: Repository): Result<Lists, Refusal> {
    var items := SplitIndex.Entries(repo.indexes, repo.indexPath, {}, None);
    if items.Failure? then Failure(BadIndex(items.error))
    else
      var indexed :- Indexed(repo, items.value);
      var committed :- Committed(repo);
      Success(Lists(indexed, committed))
  }

  /** A successful observation entered the repository and read all its lists. */
  lemma ObservationParts(world: World, canonical: string, active: set<string>)
    requires Observe(world, canonical, active).Success?
    ensures canonical !in active && |active| < MAX_DEPTH && canonical in world.repositories
    ensures var repo := world.repositories[canonical];
            && repo.head.Some? && ListsOf(repo).Success?
            && var indexed := ListsOf(repo).value.indexed;
            && Working(world, repo, Chosen(indexed).Values(), active + {canonical}).Success?
            && UntrackedFiles(repo, indexed).Success?
            && Observe(world, canonical, active) ==
               IdentityOf(world, repo.head.value,
                          Working(world, repo, Chosen(indexed).Values(), active + {canonical}).value.1
                          || IndexDirty(indexed, ListsOf(repo).value.committed),
                          indexed, Working(world, repo, Chosen(indexed).Values(), active + {canonical}).value.0,
                          UntrackedFiles(repo, indexed).value)
  {
    var repo := world.repositories[canonical];
    hide Working, Indexed, Committed, Chosen, UntrackedFiles, IndexDirty;
    assert ObserveRepository(world, repo, active + {canonical}).Success?;
  }

  // ---------------------------------------------------------------- agreement of one path

  /** The working file counts as its blob, or it is absent and skip-worktree allows that. */
  predicate FileAgrees(repo: Repository, e: IndexRow) {
    && FileAt(repo.root, e.path).Success?
    && e.oid in repo.objects && repo.objects[e.oid].Blob?
    && var file, data := FileAt(repo.root, e.path).value, repo.objects[e.oid].data;
    || (file.mode == 0 && HasSkipWorktree(e))
    || (&& CountedMode(repo.rules, e.mode, file.mode) == e.mode
        && if e.mode == SYMLINK_MODE then file.body == data
           else EndOfLine.Normalize(file.body, file.mode, data, repo.rules.attributes(e.path),
                                    repo.rules.autocrlf, repo.rules.collapseIdent) == Success(data))
  }

  /** The submodule is not populated, or it is itself clean at the recorded commit. */
  ghost predicate GitlinkAgrees(world: World, repo: Repository, e: IndexRow, active: set<string>)
    requires |active| <= MAX_DEPTH
  {
    match repo.gitlinks(e.path)
    case Missing => true
    case Present(empty, metadata, canonical) =>
      (empty && !metadata) || Observe(world, canonical, active) == Success(Identity(e.oid, None))
    case _ => false
  }

  ghost predicate RowAgrees(world: World, repo: Repository, e: IndexRow, active: set<string>)
    requires |active| <= MAX_DEPTH
  {
    if e.mode == GITLINK_MODE then GitlinkAgrees(world, repo, e, active) else FileAgrees(repo, e)
  }

  lemma InspectMeaning(repo: Repository, e: IndexRow)
    requires Inspect(repo, e).Success?
    ensures !Inspect(repo, e).value.1 <==> FileAgrees(repo, e)
    ensures Success(Inspect(repo, e).value.0) == FileAt(repo.root, e.path)
  {
  }

  /** Every HEAD in the world is a SHA-1 name. */
  ghost predicate Sha1Heads(world: World) {
    forall c :: c in world.repositories && world.repositories[c].head.Some? ==> |world.repositories[c].head.value| == 20
  }

  lemma ObservedCommit(world: World, canonical: string, active: set<string>)
    requires Sha1Heads(world) && Observe(world, canonical, active).Success?
    ensures |Observe(world, canonical, active).value.commit| == 20
  {
    ObservationParts(world, canonical, active);
  }

  lemma SubmoduleBodyMeaning(identity: Identity, oid: Digest)
    requires |identity.commit| == 20 && |oid| == 20
    ensures SubmoduleBody(identity) == oid + [0] <==> identity == Identity(oid, None)
  {
    var body := SubmoduleBody(identity);
    assert body[..20] == identity.commit && (oid + [0])[..20] == oid;
    assert body[20] == 0 <==> identity.fingerprint.None?;
  }

  lemma InspectGitlinkMeaning(world: World, repo: Repository, e: IndexRow, active: set<string>)
    requires |active| <= MAX_DEPTH && Sha1Heads(world) && |e.oid| == 20
    requires InspectGitlink(world, repo, e, active).Success?
    ensures !InspectGitlink(world, repo, e, active).value.1 <==> GitlinkAgrees(world, repo, e, active)
  {
    var link := repo.gitlinks(e.path);
    if link.Present? && link.metadata {
      ObservedCommit(world, link.canonical, active);
      SubmoduleBodyMeaning(Observe(world, link.canonical, active).value, e.oid);
    }
  }

  lemma {:induction false} WorkingMeaning(world: World, repo: Repository, rows: seq<IndexRow>, active: set<string>)
    requires |active| <= MAX_DEPTH && Sha1Heads(world)
    requires forall i :: 0 <= i < |rows| ==> |rows[i].oid| == 20
    requires Working(world, repo, rows, active).Success?
    ensures !Working(world, repo, rows, active).value.1 <==>
            forall i :: 0 <= i < |rows| ==> RowAgrees(world, repo, rows[i], active)
    decreases |rows|
  {
    if rows != [] {
      var n := |rows| - 1;
      WorkingMeaning(world, repo, rows[..n], active);
      if rows[n].mode == GITLINK_MODE {
        InspectGitlinkMeaning(world, repo, rows[n], active);
      } else {
        InspectMeaning(repo, rows[n]);
      }
      assert RowAgrees(world, repo, rows[n], active) <==> !InspectRow(world, repo, rows[n], active).value.1;
      hide RowAgrees, InspectRow;
      forall i | 0 <= i < n
        ensures rows[..n][i] == rows[i]
      {
      }
    }
  }

  // ---------------------------------------------------------------- the verdict

  /** A file that the index does not track, and that nothing hides. */
  ghost predicate HasUntracked(repo: Repository, indexed: seq<IndexRow>) {
    exists names :: WalkMeaning.Reportable(repo.root, names, FilterOf(repo, indexed))
  }

  lemma UntrackedMeaning(repo: Repository, indexed: seq<IndexRow>)
    requires UntrackedFiles(repo, indexed).Success? && WalkMeaning.ValidNode(repo.root)
    ensures UntrackedFiles(repo, indexed).value == [] <==> !HasUntracked(repo, indexed)
  {
    var filter := FilterOf(repo, indexed);
    var rows := Untracked(repo.root, repo.root.entries, [], filter);
    assert repo.root.Directory? && rows.Success? && UntrackedFiles(repo, indexed).value == StableSort(rows.value, BY_PATH)
      by { hide Untracked, StableSort, FilterOf; }
    hide *;
    StableSortCorrect(rows.value, BY_PATH);
    EmptyBoth(rows.value, StableSort(rows.value, BY_PATH));
    WalkedSomething(repo.root, filter);
    Unhidden(repo, indexed);
  }

  lemma Unhidden(repo: Repository, indexed: seq<IndexRow>)
    ensures HasUntracked(repo, indexed) <==>
            exists names :: WalkMeaning.Reportable(repo.root, names, FilterOf(repo, indexed))
  {
  }

  lemma EmptyBoth(a: seq<FileRow>, b: seq<FileRow>)
    requires multiset(a) == multiset(b)
    ensures a == [] <==> b == []
  {
    assert |multiset(a)| == |a| && |multiset(b)| == |b|;
  }

  lemma ReportableRow(root: Node, names: seq<Name>, filter: Filter)
    requires WalkMeaning.Reportable(root, names, filter) && NodeAt(root, names) != Some(Special)
    ensures RowOf(PathOf(names), NodeAt(root, names)).Success?
  {
    hide WalkMeaning.AllVisible, NodeAt, PathOf;
  }

  lemma WalkedSomething(root: Node, filter: Filter)
    requires WalkMeaning.ValidNode(root) && root.Directory? && Untracked(root, root.entries, [], filter).Success?
    ensures Untracked(root, root.entries, [], filter).value == []
            <==> !exists names :: WalkMeaning.Reportable(root, names, filter)
  {
    hide *;
    WalkMeaning.WalkMeaning(root, filter);
    var rows := Untracked(root, root.entries, [], filter).value;
    if rows != [] {
      assert rows[0] in rows;
    }
    if names :| WalkMeaning.Reportable(root, names, filter) {
      ReportableRow(root, names, filter);
      assert RowOf(PathOf(names), NodeAt(root, names)).value in rows;
    }
  }

  /** The checkout is reported clean exactly when no index entry is conflicted or only intended, the
      index lists what the commit lists, every chosen entry agrees with the working tree, and nothing
      is untracked. */
  lemma CleanExactly(world: World, canonical: string, active: set<string>)
    requires Sha1Heads(world) && Observe(world, canonical, active).Success?
    requires var repo := world.repositories[canonical];
             canonical in world.repositories && WalkMeaning.ValidNode(repo.root)
             && (ListsOf(repo).Success? ==>
                 forall e :: e in Chosen(ListsOf(repo).value.indexed).Values() ==> |e.oid| == 20)
    ensures var repo, identity := world.repositories[canonical], Observe(world, canonical, active).value;
            && ListsOf(repo).Success? && repo.head == Some(identity.commit) && |active| < MAX_DEPTH
            && var Lists(indexed, committed) := ListsOf(repo).value;
            && (identity.fingerprint.None? <==>
                && (forall i :: 0 <= i < |indexed| ==> indexed[i].stage == 0 && !HasIntentToAdd(indexed[i]))
                && WithoutFlags(indexed) == WithoutFlags(committed)
                && (forall e :: e in Chosen(indexed).Values() ==> RowAgrees(world, repo, e, active + {canonical}))
                && !HasUntracked(repo, indexed))
  {
    hide *;
    ObservationParts(world, canonical, active);
    var repo := world.repositories[canonical];
    var Lists(indexed, committed) := ListsOf(repo).value;
    var rows, inside := Chosen(indexed).Values(), active + {canonical};
    RowsByIndex(world, repo, rows, inside);
    WorkingMeaning(world, repo, rows, inside);
    UntrackedMeaning(repo, indexed);
    IndexCleanExactly(indexed, committed);
    IdentityCleanExactly(
      world, repo.head.value, Working(world, repo, rows, inside).value.1 || IndexDirty(indexed, committed),
      indexed, Working(world, repo, rows, inside).value.0, UntrackedFiles(repo, indexed).value);
  }

  lemma RowsByIndex(world: World, repo: Repository, rows: seq<IndexRow>, active: set<string>)
    ensures (forall e :: e in rows ==> |e.oid| == 20) ==> forall i :: 0 <= i < |rows| ==> |rows[i].oid| == 20
    ensures |active| <= MAX_DEPTH ==>
              ((forall i :: 0 <= i < |rows| ==> RowAgrees(world, repo, rows[i], active))
               <==> (forall e :: e in rows ==> RowAgrees(world, repo, e, active)))
  {
    hide RowAgrees;
  }

  lemma IndexCleanExactly(indexed: seq<IndexRow>, committed: seq<IndexRow>)
    ensures !IndexDirty(indexed, committed) <==>
            && (forall i :: 0 <= i < |indexed| ==> indexed[i].stage == 0 && !HasIntentToAdd(indexed[i]))
            && WithoutFlags(indexed) == WithoutFlags(committed)
  {
    hide HasIntentToAdd, WithoutFlags;
  }

  lemma IdentityCleanExactly(
    world: World, head: Digest, dirty: bool, indexed: seq<IndexRow>, working: seq<FileRow>, untracked: seq<FileRow>)
    ensures var r := IdentityOf(world, head, dirty, indexed, working, untracked);
            r.Success? ==> r.value.commit == head && (r.value.fingerprint.None? <==> !dirty && untracked == [])
  {
    hide Fits, Preimage;
  }

  /** Neither assume-valid nor skip-worktree hides an edit to a file that is present. */
  lemma FlagsNeverHideAnEdit(world: World, canonical: string, active: set<string>, e: IndexRow)
    requires Observe(world, canonical, active).Success?
    requires var repo := world.repositories[canonical];
             && canonical in world.repositories && ListsOf(repo).Success?
             && e in Chosen(ListsOf(repo).value.indexed).Values() && e.mode != GITLINK_MODE
             && FileAt(repo.root, e.path).Success? && FileAt(repo.root, e.path).value.mode != 0
             && !FileAgrees(repo, e)
    ensures Observe(world, canonical, active).value.fingerprint.Some?
  {
    ObservationParts(world, canonical, active);
    var repo := world.repositories[canonical];
    var rows := Chosen(ListsOf(repo).value.indexed).Values();
    var i :| 0 <= i < |rows| && rows[i] == e;
    DifferingRowIsDirty(world, repo, rows, active + {canonical}, i);
  }

  lemma {:induction false} DifferingRowIsDirty(world: World, repo: Repository, rows: seq<IndexRow>, active: set<string>, i: nat)
    requires |active| <= MAX_DEPTH && Working(world, repo, rows, active).Success?
    requires i < |rows| && rows[i].mode != GITLINK_MODE && !FileAgrees(repo, rows[i])
    ensures Working(world, repo, rows, active).value.1
    decreases |rows|
  {
    var n := |rows| - 1;
    if i < n {
      assert rows[..n][i] == rows[i];
      DifferingRowIsDirty(world, repo, rows[..n], active, i);
    } else {
      InspectMeaning(repo, rows[n]);
    }
  }

  // ---------------------------------------------------------------- one row per path

  /** The last row for a path, of stage 2 only if so asked. */
  function LastFor(indexed: seq<IndexRow>, path: Path, ours: bool): Option<IndexRow> {
    if indexed == [] then None
    else
      var last := indexed[|indexed| - 1];
      if last.path == path && (ours ==> last.stage == 2) then Some(last)
      else LastFor(indexed[..|indexed| - 1], path, ours)
  }

  /** Every path of the index is chosen, by its last row of stage 2 if it has one, and otherwise by its last row. */
  lemma {:induction false} ChosenMeaning(indexed: seq<IndexRow>, p: Path)
    ensures var rows := Chosen(indexed).rows;
            && (p in rows <==> LastFor(indexed, p, false).Some?)
            && (p in rows ==>
                  rows[p] == if LastFor(indexed, p, true).Some? then LastFor(indexed, p, true).value
                             else LastFor(indexed, p, false).value)
  {
    if indexed != [] {
      var front := indexed[..|indexed| - 1];
      ChosenMeaning(front, p);
      LastForStage(front, p);
      assert Chosen(indexed) == Chosen(front).Add(indexed[|indexed| - 1]);
      hide Chosen;
    }
  }

  /** The order holds exactly the keys, each once. */
  ghost predicate OnceEach(d: Distinct) {
    && (forall p :: p in d.order <==> p in d.rows)
    && (forall i, j :: 0 <= i < j < |d.order| ==> d.order[i] != d.order[j])
  }

  lemma AddKeepsOnceEach(d: Distinct, e: IndexRow)
    requires OnceEach(d)
    ensures OnceEach(d.Add(e))
  {
    var more := d.order + [e.path];
    forall p
      ensures p in more <==> p in d.order || p == e.path
    {
      if p == e.path {
        assert more[|d.order|] == p;
      }
    }
  }

  /** No path is chosen twice. */
  lemma {:induction false} ChosenOnce(indexed: seq<IndexRow>)
    ensures OnceEach(Chosen(indexed))
  {
    if indexed != [] {
      var front := indexed[..|indexed| - 1];
      ChosenOnce(front);
      AddKeepsOnceEach(Chosen(front), indexed[|indexed| - 1]);
      hide OnceEach;
    }
  }

  lemma {:induction false} LastForStage(indexed: seq<IndexRow>, path: Path)
    ensures LastFor(indexed, path, true).Some? ==>
              LastFor(indexed, path, true).value.stage == 2 && LastFor(indexed, path, false).Some?
    ensures LastFor(indexed, path, false).Some? && LastFor(indexed, path, false).value.stage == 2 ==>
              LastFor(indexed, path, true) == LastFor(indexed, path, false)
  {
    if indexed != [] {
      LastForStage(indexed[..|indexed| - 1], path);
    }
  }

  // ---------------------------------------------------------------- submodules

  /** The observation of `outer` observes the submodule `inner`. */
  ghost predicate Nested(world: World, outer: string, inner: string) {
    && outer in world.repositories
    && var repo := world.repositories[outer];
    && ListsOf(repo).Success?
    && exists e :: e in Chosen(ListsOf(repo).value.indexed).Values() && Populated(repo, e, inner)
  }

  predicate Populated(repo: Repository, e: IndexRow, inner: string) {
    && e.mode == GITLINK_MODE
    && repo.gitlinks(e.path).Present? && repo.gitlinks(e.path).metadata
    && repo.gitlinks(e.path).canonical == inner
  }

  ghost predicate Chain(world: World, chain: seq<string>) {
    chain != [] && forall i :: 0 <= i < |chain| - 1 ==> Nested(world, chain[i], chain[i + 1])
  }

  lemma {:induction false} PopulatedIsObserved(
    world: World, repo: Repository, rows: seq<IndexRow>, active: set<string>, i: nat, inner: string)
    requires |active| <= MAX_DEPTH && Working(world, repo, rows, active).Success?
    requires i < |rows| && Populated(repo, rows[i], inner)
    ensures Observe(world, inner, active).Success?
    decreases |rows|
  {
    var n := |rows| - 1;
    if i < n {
      assert rows[..n][i] == rows[i];
      PopulatedIsObserved(world, repo, rows[..n], active, i, inner);
    } else {
      assert InspectGitlink(world, repo, rows[n], active).Success?;
    }
  }

  lemma NestedIsObserved(world: World, outer: string, inner: string, active: set<string>)
    requires Observe(world, outer, active).Success? && Nested(world, outer, inner)
    ensures outer !in active && |active| < MAX_DEPTH
    ensures Observe(world, inner, active + {outer}).Success?
  {
    ObservationParts(world, outer, active);
    hide Observe, Working, Chosen, ListsOf, UntrackedFiles, IdentityOf, IndexDirty;
    var repo := world.repositories[outer];
    var rows := Chosen(ListsOf(repo).value.indexed).Values();
    var e :| e in rows && Populated(repo, e, inner);
    var i :| 0 <= i < |rows| && rows[i] == e;
    PopulatedIsObserved(world, repo, rows, active + {outer}, i, inner);
  }

  /** A successful observation has met no cycle of submodules, and no nesting deeper than the bound. */
  lemma {:induction false} NestingIsBounded(world: World, chain: seq<string>, active: set<string>)
    requires Chain(world, chain) && Observe(world, chain[0], active).Success?
    ensures |active| + |chain| <= MAX_DEPTH
    ensures forall i :: 0 <= i < |chain| ==> chain[i] !in active
    ensures forall i, j :: 0 <= i < j < |chain| ==> chain[i] != chain[j]
    decreases |chain|
  {
    hide Observe, Nested;
    if |chain| == 1 {
      ObservationParts(world, chain[0], active);
    } else {
      var outer, rest := chain[0], chain[1..];
      assert Nested(world, chain[0], chain[1]);
      NestedIsObserved(world, outer, chain[1], active);
      RestOfChain(world, chain);
      NestingIsBounded(world, rest, active + {outer});
      assert forall k :: 0 < k < |chain| ==> chain[k] == rest[k - 1];
    }
  }

  lemma RestOfChain(world: World, chain: seq<string>)
    requires Chain(world, chain) && |chain| > 1
    ensures Chain(world, chain[1..])
  {
    forall i | 0 <= i < |chain| - 2
      ensures Nested(world, chain[1..][i], chain[1..][i + 1])
    {
      assert Nested(world, chain[i + 1], chain[i + 2]);
    }
  }
}
