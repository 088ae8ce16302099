/**
 * Observing a checkout: its commit, and whether the index, the working files, the submodules and
 * the untracked files all agree with it.  The object store, the ignore and attribute rules and the
 * hash are parameters of the world that is observed.
 */
module Observing {
  import opened Wrappers
  import opened Bytes
  import opened FileModes
  import opened Ordering
  import opened Paths
  import opened Fingerprint
  import opened CheckoutTree
  import opened ActiveSets
  import EndOfLine
  import SplitIndex

  datatype Object = Blob(data: seq<Byte>) | OtherObject

  /** A file or link of a Git tree, with its path from the root of that tree. */
  datatype Leaf = Leaf(path: Path, mode: nat, oid: Digest)

  datatype Rules = Rules(
    casefold: bool, filemode: bool, symlinks: bool, autocrlf: bool,
    ignored: (Path, bool) -> bool, attributes: Path -> EndOfLine.Attrs, collapseIdent: seq<Byte> -> seq<Byte>)

  /** What stands where the index has a gitlink. */
  datatype Gitlink =
    | Missing
    | Unreadable
    | NotADirectory
    | Present(empty: bool, metadata: bool, canonical: string)

  /** A repository with its working tree. */
  datatype Repository = Repository(
    bare: bool,
    head: Option<Digest>,            // the commit that HEAD names, if it names one
    commitTree: Digest,
    indexPath: string,
    indexes: SplitIndex.Store,
    objects: map<Digest, Object>,
    trees: map<Digest, seq<Leaf>>,   // the leaves of a tree, in path order
    root: Node,
    gitlinks: Path -> Gitlink,
    rules: Rules)

  datatype World = World(repositories: map<string, Repository>, sha256: seq<Byte> -> Digest)

  datatype Refusal =
    | CycleOrTooDeep
    | NotARepository
    | Bare
    | HeadIsNotACommit
    | BadIndex(index: SplitIndex.Reason)
    | MissingTree
    | MissingObject
    | NotABlob
    | BadFile(file: TreeRefusal)
    | UnreadableSubmodule
    | SubmoduleWithoutMetadata
    | UnsupportedConversion
    | ValueTooLarge

  /** The commit, and the fingerprint when the working tree is not clean. */
  datatype Identity = Identity(commit: Digest, fingerprint: Option<Digest>)

  // ---------------------------------------------------------------- the index

  /** `path.rstrip(b"/")`. */
  function StripSlashes(path: Path): Path {
    if path != [] && path[|path| - 1] == SLASH then StripSlashes(path[..|path| - 1]) else path
  }

  function LeafRecord(prefix: Path, entry: SplitIndex.Entry, leaf: Leaf): SplitIndex.Record {
    SplitIndex.Record(prefix + [SLASH] + leaf.path, entry.(mode := leaf.mode, oid := leaf.oid, skipWorktree := true))
  }

  function LeafRecords(prefix: Path, entry: SplitIndex.Entry, leaves: seq<Leaf>): seq<SplitIndex.Record> {
    if leaves == [] then []
    else LeafRecords(prefix, entry, leaves[..|leaves| - 1]) + [LeafRecord(prefix, entry, leaves[|leaves| - 1])]
  }

  /** One index record, or the leaves of a sparse directory. */
  function ExpandRecord(record: SplitIndex.Record, trees: map<Digest, seq<Leaf>>)
    : Result<seq<SplitIndex.Record>, Refusal>
  {
    if record.entry.mode == DIRECTORY_MODE then
      var prefix := StripSlashes(record.path);
      if !SafePath(prefix) then Failure(BadFile(UnsafePath))
      else if record.entry.oid !in trees then Failure(MissingTree)
      else Success(LeafRecords(prefix, record.entry, trees[record.entry.oid]))
    else Success([record])
  }

  function Expanded(items: seq<SplitIndex.Record>, trees: map<Digest, seq<Leaf>>)
    : Result<seq<SplitIndex.Record>, Refusal>
  {
    if items == [] then Success([])
    else
      var front :- Expanded(items[..|items| - 1], trees);
      var last :- ExpandRecord(items[|items| - 1], trees);
      Success(front + last)
  }

  const INTENT_TO_ADD: nat := 2
  const SKIP_WORKTREE: nat := 4

  function FlagsOf(e: SplitIndex.Entry): nat {
    (if e.assumeValid then 1 else 0) + (if e.intentToAdd then INTENT_TO_ADD else 0) + (if e.skipWorktree then SKIP_WORKTREE else 0)
  }

  predicate HasIntentToAdd(row: IndexRow) { row.flags / 2 % 2 == 1 }
  predicate HasSkipWorktree(row: IndexRow) { row.flags / 4 % 2 == 1 }

  function RowOfRecord(r: SplitIndex.Record): IndexRow {
    IndexRow(r.path, r.entry.mode, r.entry.stage, FlagsOf(r.entry), r.entry.oid)
  }

  function Rows(items: seq<SplitIndex.Record>): Result<seq<IndexRow>, Refusal> {
    if items == [] then Success([])
    else
      var front :- Rows(items[..|items| - 1]);
      if !SafePath(items[|items| - 1].path) then Failure(BadFile(UnsafePath))
      else Success(front + [RowOfRecord(items[|items| - 1])])
  }

  const BY_PATH_AND_STAGE: IndexRow -> Key := (e: IndexRow) => Key(e.path, e.stage)
  const BY_PATH_AND_MODE: IndexRow -> Key := (e: IndexRow) => Key(e.path, e.mode)
  const BY_PATH: FileRow -> Key := (f: FileRow) => Key(f.path, 0)

  /** The sorted `indexed` list. */
  function Indexed(repo: Repository, items: seq<SplitIndex.Record>): Result<seq<IndexRow>, Refusal> {
    var expanded :- Expanded(items, repo.trees);
    var rows :- Rows(expanded);
    Success(StableSort(rows, BY_PATH_AND_STAGE))
  }

  function CommittedRow(leaf: Leaf): IndexRow { IndexRow(leaf.path, leaf.mode, 0, 0, leaf.oid) }

  /** The sorted leaves of the commit, as rows of stage 0 without flags. */
  function Committed(repo: Repository): Result<seq<IndexRow>, Refusal> {
    if repo.commitTree !in repo.trees then Failure(MissingTree)
    else
      var leaves := repo.trees[repo.commitTree];
      Success(StableSort(seq(|leaves|, i requires 0 <= i < |leaves| => CommittedRow(leaves[i])), BY_PATH_AND_MODE))
  }

  function WithoutFlags(rows: seq<IndexRow>): seq<IndexRow> {
    seq(|rows|, i requires 0 <= i < |rows| => rows[i].(flags := 0))
  }

  /** The index alone makes the checkout dirty. */
  predicate IndexDirty(indexed: seq<IndexRow>, committed: seq<IndexRow>) {
    || (exists i :: 0 <= i < |indexed| && (indexed[i].stage != 0 || HasIntentToAdd(indexed[i])))
    || WithoutFlags(indexed) != WithoutFlags(committed)
  }

  // ---------------------------------------------------------------- one row per path

  /** The dictionary `distinct`: its keys in insertion order, and its values. */
  datatype Distinct = Distinct(order: seq<Path>, rows: map<Path, IndexRow>) {
    function Add(e: IndexRow): Distinct {
      if e.path !in rows then Distinct(order + [e.path], rows[e.path := e])
      else if rows[e.path].stage != 2 || e.stage == 2 then Distinct(order, rows[e.path := e])
      else this
    }

    predicate Valid() {
      forall i :: 0 <= i < |order| ==> order[i] in rows
    }

    function Values(): seq<IndexRow>
      requires Valid()
    {
      seq(|order|, i requires 0 <= i < |order| => rows[order[i]])
    }
  }

  function Chosen(indexed: seq<IndexRow>): (d: Distinct)
    ensures d.Valid()
  {
    if indexed == [] then Distinct([], map[])
    else Chosen(indexed[..|indexed| - 1]).Add(indexed[|indexed| - 1])
  }

  // ---------------------------------------------------------------- working files

  /** The mode of the working file, as the configuration lets it count. */
  function CountedMode(rules: Rules, mode: nat, actual: nat): nat {
    var plain := actual == REGULAR_MODE || actual == EXECUTABLE_MODE;
    if mode == SYMLINK_MODE && plain && !rules.symlinks then mode
    else if (mode == REGULAR_MODE || mode == EXECUTABLE_MODE) && plain && !rules.filemode then mode
    else actual
  }

  /** A tracked file that is no gitlink: its row, and whether it differs from its blob. */
  function Inspect(repo: Repository, e: IndexRow): Result<(FileRow, bool), Refusal> {
    match FileAt(repo.root, e.path)
    case Failure(reason) => Failure(BadFile(reason))
    case Success(file) =>
      if e.oid !in repo.objects then Failure(MissingObject)
      else if !repo.objects[e.oid].Blob? then Failure(NotABlob)
      else
        var data := repo.objects[e.oid].data;
        var normalized := if e.mode == SYMLINK_MODE then Success(file.body)
                          else EndOfLine.Normalize(file.body, file.mode, data, repo.rules.attributes(e.path),
                                                   repo.rules.autocrlf, repo.rules.collapseIdent);
        if normalized.Failure? then Failure(UnsupportedConversion)
        else
          var differs := CountedMode(repo.rules, e.mode, file.mode) != e.mode || normalized.value != data;
          Success((file, (file.mode != 0 || !HasSkipWorktree(e)) && differs))
  }

  /** What the fingerprint records of a submodule. */
  function SubmoduleBody(identity: Identity): seq<Byte> {
    identity.commit + (if identity.fingerprint.None? then [0] else [1] + identity.fingerprint.value)
  }

  ghost function InspectGitlink(world: World, repo: Repository, e: IndexRow, active: set<string>)
    : Result<(FileRow, bool), Refusal>
    requires |active| <= MAX_DEPTH
    decreases MAX_DEPTH - |active|, 1, 0
  {
    match repo.gitlinks(e.path)
    case Unreadable => Failure(UnreadableSubmodule)
    case NotADirectory =>
      (match FileAt(repo.root, e.path)
       case Failure(reason) => Failure(BadFile(reason))
       case Success(file) => Success((file, true)))
    case Missing => Success((FileRow(e.path, GITLINK_MODE, e.oid + [0]), false))
    case Present(empty, metadata, canonical) =>
      if empty && !metadata then Success((FileRow(e.path, GITLINK_MODE, e.oid + [0]), false))
      else if !metadata then Failure(SubmoduleWithoutMetadata)
      else
        var identity :- Observe(world, canonical, active);
        var body := SubmoduleBody(identity);
        Success((FileRow(e.path, GITLINK_MODE, body), body != e.oid + [0]))
  }

  ghost function InspectRow(world: World, repo: Repository, e: IndexRow, active: set<string>): Result<(FileRow, bool), Refusal>
    requires |active| <= MAX_DEPTH
    decreases MAX_DEPTH - |active|, 2, 0
  {
    if e.mode == GITLINK_MODE then InspectGitlink(world, repo, e, active) else Inspect(repo, e)
  }

  /** The `working` list, and whether one of its files makes the checkout dirty. */
  ghost function Working(world: World, repo: Repository, rows: seq<IndexRow>, active: set<string>)
    : Result<(seq<FileRow>, bool), Refusal>
    requires |active| <= MAX_DEPTH
    decreases MAX_DEPTH - |active|, 3, |rows|
  {
    if rows == [] then Success(([], false))
    else
      var (files, dirty) :- Working(world, repo, rows[..|rows| - 1], active);
      var (file, differs) :- InspectRow(world, repo, rows[|rows| - 1], active);
      Success((files + [file], dirty || differs))
  }

  function FilterOf(repo: Repository, indexed: seq<IndexRow>): Filter {
    Filter(Chosen(indexed).rows.Keys, repo.rules.casefold, repo.rules.ignored)
  }

  /** The sorted `untracked` list. */
  function UntrackedFiles(repo: Repository, indexed: seq<IndexRow>): Result<seq<FileRow>, Refusal> {
    if !repo.root.Directory? then Failure(NotARepository)
    else
      match Untracked(repo.root, repo.root.entries, [], FilterOf(repo, indexed))
      case Failure(reason) => Failure(BadFile(reason))
      case Success(rows) => Success(StableSort(rows, BY_PATH))
  }

  /** The recorded state of a repository, once its lists are known. */
  function IdentityOf(
    world: World, head: Digest, dirty: bool, indexed: seq<IndexRow>, working: seq<FileRow>, untracked: seq<FileRow>)
    : Result<Identity, Refusal>
  {
    if !dirty && untracked == [] then Success(Identity(head, None))
    else
      var o := Observation(head, indexed, working, untracked);
      if Fits(o) then Success(Identity(head, Some(world.sha256(Preimage(o))))) else Failure(ValueTooLarge)
  }

  ghost function ObserveRepository(world: World, repo: Repository, active: set<string>): Result<Identity, Refusal>
    requires |active| <= MAX_DEPTH
    decreases MAX_DEPTH - |active|, 4, 0
  {
    if repo.bare then Failure(Bare)
    else if repo.head.None? then Failure(HeadIsNotACommit)
    else
      var items := SplitIndex.Entries(repo.indexes, repo.indexPath, {}, None);
      if items.Failure? then Failure(BadIndex(items.error))
      else
        var indexed :- Indexed(repo, items.value);
        var committed :- Committed(repo);
        var (working, dirty) :- Working(world, repo, Chosen(indexed).Values(), active);
        var untracked :- UntrackedFiles(repo, indexed);
        IdentityOf(world, repo.head.value, dirty || IndexDirty(indexed, committed), indexed, working, untracked)
  }

  /** `_observe` below the checkouts that are `active` further up. */
  ghost function Observe(world: World, canonical: string, active: set<string>): Result<Identity, Refusal>
    decreases MAX_DEPTH - |active|, 0, 0
  {
    if canonical in active || |active| >= MAX_DEPTH then Failure(CycleOrTooDeep)
    else if canonical !in world.repositories then Failure(NotARepository)
    else ObserveRepository(world, world.repositories[canonical], active + {canonical})
  }

  // ---------------------------------------------------------------- the observation step by step

  lemma ExpandedStep(items: seq<SplitIndex.Record>, trees: map<Digest, seq<Leaf>>, i: nat)
    requires i < |items| && Expanded(items[..i], trees).Success?
    ensures Expanded(items[..i + 1], trees) ==
            match ExpandRecord(items[i], trees)
            case Success(records) => Success(Expanded(items[..i], trees).value + records)
            case Failure(reason) => Failure(reason)
  {
    assert items[..i + 1][..i] == items[..i];
  }

  lemma {:induction false} ExpandedRefuses(items: seq<SplitIndex.Record>, trees: map<Digest, seq<Leaf>>, i: nat)
    requires i <= |items| && Expanded(items[..i], trees).Failure?
    ensures Expanded(items, trees) == Expanded(items[..i], trees)
    decreases |items|
  {
    if i < |items| {
      var front := items[..|items| - 1];
      assert front[..i] == items[..i];
      ExpandedRefuses(front, trees, i);
    } else {
      assert items[..i] == items;
    }
  }

  method ExpandItem(record: SplitIndex.Record, trees: map<Digest, seq<Leaf>>)
    returns (r: Result<seq<SplitIndex.Record>, Refusal>)
    ensures r == ExpandRecord(record, trees)
  {
    if record.entry.mode != DIRECTORY_MODE {
      return Success([record]);
    }
    var prefix := StripSlashes(record.path);
    if !SafePath(prefix) {
      return Failure(BadFile(UnsafePath));
    }
    if record.entry.oid !in trees {
      return Failure(MissingTree);
    }
    var leaves := trees[record.entry.oid];
    var records: seq<SplitIndex.Record> := [];
    for k := 0 to |leaves|
      invariant records == LeafRecords(prefix, record.entry, leaves[..k])
    {
      assert leaves[..k + 1][..k] == leaves[..k];
      records := records + [LeafRecord(prefix, record.entry, leaves[k])];
    }
    assert leaves[..|leaves|] == leaves;
    return Success(records);
  }

  /** The loop that opens sparse directories. */
  method ExpandItems(items: seq<SplitIndex.Record>, trees: map<Digest, seq<Leaf>>)
    returns (r: Result<seq<SplitIndex.Record>, Refusal>)
    ensures r == Expanded(items, trees)
  {
    var expanded: seq<SplitIndex.Record> := [];
    for i := 0 to |items|
      invariant Expanded(items[..i], trees) == Success(expanded)
    {
      ExpandedStep(items, trees, i);
      var records := ExpandItem(items[i], trees);
      if records.Failure? {
        ExpandedRefuses(items, trees, i + 1);
        return Failure(records.error);
      }
      expanded := expanded + records.value;
    }
    assert items[..|items|] == items;
    return Success(expanded);
  }

  lemma {:induction false} RowsRefuse(items: seq<SplitIndex.Record>, i: nat)
    requires i <= |items| && Rows(items[..i]).Failure?
    ensures Rows(items) == Rows(items[..i])
    decreases |items|
  {
    if i < |items| {
      var front := items[..|items| - 1];
      assert front[..i] == items[..i];
      RowsRefuse(front, i);
    } else {
      assert items[..i] == items;
    }
  }

  /** The loop that fills `indexed`, and its sort. */
  method IndexRows(repo: Repository, items: seq<SplitIndex.Record>) returns (r: Result<seq<IndexRow>, Refusal>)
    ensures r == Indexed(repo, items)
  {
    var expanded :- ExpandItems(items, repo.trees);
    var indexed: seq<IndexRow> := [];
    for i := 0 to |expanded|
      invariant Rows(expanded[..i]) == Success(indexed)
    {
      assert expanded[..i + 1][..i] == expanded[..i];
      if !SafePath(expanded[i].path) {
        RowsRefuse(expanded, i + 1);
        return Failure(BadFile(UnsafePath));
      }
      indexed := indexed + [RowOfRecord(expanded[i])];
    }
    assert expanded[..|expanded|] == expanded;
    return Success(StableSort(indexed, BY_PATH_AND_STAGE));
  }

  /** The loop that fills `distinct`. */
  method ChooseRows(indexed: seq<IndexRow>) returns (distinct: Distinct)
    ensures distinct == Chosen(indexed)
  {
    distinct := Distinct([], map[]);
    for i := 0 to |indexed|
      invariant distinct == Chosen(indexed[..i])
    {
      assert indexed[..i + 1][..i] == indexed[..i];
      var e := indexed[i];
      if e.path !in distinct.rows {
        distinct := Distinct(distinct.order + [e.path], distinct.rows[e.path := e]);
      } else if distinct.rows[e.path].stage != 2 || e.stage == 2 {
        distinct := Distinct(distinct.order, distinct.rows[e.path := e]);
      }
    }
    assert indexed[..|indexed|] == indexed;
  }

  lemma {:induction false} WorkingRefuses(world: World, repo: Repository, rows: seq<IndexRow>, active: set<string>, i: nat)
    requires |active| <= MAX_DEPTH && i <= |rows| && Working(world, repo, rows[..i], active).Failure?
    ensures Working(world, repo, rows, active) == Working(world, repo, rows[..i], active)
    decreases |rows|
  {
    if i < |rows| {
      var front := rows[..|rows| - 1];
      assert front[..i] == rows[..i];
      WorkingRefuses(world, repo, front, active, i);
    } else {
      assert rows[..i] == rows;
    }
  }

  /** The branch of the working-file loop for a gitlink. */
  method ObserveGitlink(world: World, repo: Repository, e: IndexRow, active: ActiveSet)
    returns (r: Result<(FileRow, bool), Refusal>)
    requires active.Valid()
    modifies active
    ensures active.Valid() && active.members == old(active.members) && active.stack == old(active.stack)
    ensures r == InspectGitlink(world, repo, e, old(active.members))
    decreases MAX_DEPTH - |active.members|, 1
  {
    var link := repo.gitlinks(e.path);
    if link.Unreadable? {
      return Failure(UnreadableSubmodule);
    }
    if link.NotADirectory? {
      var file := FileAt(repo.root, e.path);
      if file.Failure? {
        return Failure(BadFile(file.error));
      }
      return Success((file.value, true));
    }
    var empty := link.Missing? || link.empty;
    var metadata := link.Present? && link.metadata;
    var body: seq<Byte>;
    if empty && !metadata {
      body := e.oid + [0];
    } else {
      if !metadata {
        return Failure(SubmoduleWithoutMetadata);
      }
      var identity :- ObserveCheckout(world, link.canonical, active);
      body := SubmoduleBody(identity);
    }
    return Success((FileRow(e.path, GITLINK_MODE, body), body != e.oid + [0]));
  }

  /** The loop that fills `working`. */
  method ObserveWorking(world: World, repo: Repository, rows: seq<IndexRow>, active: ActiveSet)
    returns (r: Result<(seq<FileRow>, bool), Refusal>)
    requires active.Valid()
    modifies active
    ensures active.Valid() && active.members == old(active.members) && active.stack == old(active.stack)
    ensures r == Working(world, repo, rows, old(active.members))
    decreases MAX_DEPTH - |active.members|, 2
  {
    var working: seq<FileRow> := [];
    var dirty := false;
    for i := 0 to |rows|
      invariant active.Valid() && active.members == old(active.members) && active.stack == old(active.stack)
      invariant Working(world, repo, rows[..i], old(active.members)) == Success((working, dirty))
    {
      assert rows[..i + 1][..i] == rows[..i];
      var inspected;
      if rows[i].mode == GITLINK_MODE {
        inspected := ObserveGitlink(world, repo, rows[i], active);
      } else {
        inspected := Inspect(repo, rows[i]);
      }
      if inspected.Failure? {
        WorkingRefuses(world, repo, rows, old(active.members), i + 1);
        return Failure(inspected.error);
      }
      working := working + [inspected.value.0];
      dirty := dirty || inspected.value.1;
    }
    assert rows[..|rows|] == rows;
    return Success((working, dirty));
  }

  method ObserveUntracked(repo: Repository, distinct: Distinct, ghost indexed: seq<IndexRow>)
    returns (r: Result<seq<FileRow>, Refusal>)
    requires distinct == Chosen(indexed)
    ensures r == UntrackedFiles(repo, indexed)
  {
    if !repo.root.Directory? {
      return Failure(NotARepository);
    }
    var filter := Filter(distinct.rows.Keys, repo.rules.casefold, repo.rules.ignored);
    ghost var found := Untracked(repo.root, repo.root.entries, [], filter);
    assert found.Success? ==> [] + found.value == found.value;
    var rows := Walk(repo.root, repo.root, [], filter, []);
    if rows.Failure? {
      return Failure(BadFile(rows.error));
    }
    return Success(StableSort(rows.value, BY_PATH));
  }

  /** The body of the observation, with the repository entered. */
  method ObserveEntered(world: World, repo: Repository, active: ActiveSet) returns (r: Result<Identity, Refusal>)
    requires active.Valid()
    modifies active
    ensures active.Valid() && active.members == old(active.members) && active.stack == old(active.stack)
    ensures r == ObserveRepository(world, repo, old(active.members))
    decreases MAX_DEPTH - |active.members|, 3
  {
    if repo.bare {
      return Failure(Bare);
    }
    if repo.head.None? {
      return Failure(HeadIsNotACommit);
    }
    var reading := new ActiveSet();
    var items := SplitIndex.IndexEntries(repo.indexes, repo.indexPath, reading, None);
    if items.Failure? {
      return Failure(BadIndex(items.error));
    }
    var indexed :- IndexRows(repo, items.value);
    var committed :- Committed(repo);
    var dirty := IndexDirty(indexed, committed);
    var distinct := ChooseRows(indexed);
    var working :- ObserveWorking(world, repo, distinct.Values(), active);
    dirty := dirty || working.1;
    var untracked :- ObserveUntracked(repo, distinct, indexed);
    if !dirty && untracked == [] {
      return Success(Identity(repo.head.value, None));
    }
    var fingerprint := FingerprintV2(world.sha256, repo.head.value, indexed, working.0, untracked);
    if fingerprint.Failure? {
      return Failure(ValueTooLarge);
    }
    return Success(Identity(repo.head.value, Some(fingerprint.value)));
  }

  /** `_observe`.  Whatever the outcome, the shared `active` set is left as it was found. */
  method ObserveCheckout(world: World, canonical: string, active: ActiveSet) returns (r: Result<Identity, Refusal>)
    requires active.Valid()
    modifies active
    ensures active.Valid() && active.members == old(active.members) && active.stack == old(active.stack)
    ensures r == Observe(world, canonical, old(active.members))
    decreases MAX_DEPTH - |active.members|, 0
  {
    var entered := active.Enter(canonical);
    if !entered {
      return Failure(CycleOrTooDeep);
    }
    if canonical in world.repositories {
      r := ObserveEntered(world, world.repositories[canonical], active);
    } else {
      r := Failure(NotARepository);
    }
    active.Leave(canonical);
  }
}
