/** Concrete runs of `emit`: what it publishes when nothing interferes, and what can go wrong at its end. */
module ExampleRuns {
  import opened Wrappers
  import opened Bytes
  import opened ImageSets
  import opened Emitting
  import opened EmittingMeaning
  import opened PublishedSets
  import SplitIndex
  import CheckoutTree
  import Observing

  const RULES := Observing.Rules(false, true, true, false, (_, _) => false, _ => map[], s => s)

  /** A repository without an index, whose commit is empty, and an empty working tree. */
  const EMPTY_REPOSITORY := Observing.Repository(
    false, Some(Zeros(20)), Zeros(20), "index", SplitIndex.Store(map[], s => s, (s, _) => s), map[],
    map[Zeros(20) := []], CheckoutTree.Directory([]), _ => Observing.Missing, RULES)

  const EMPTY_WORLD := Observing.World(map["repo" := EMPTY_REPOSITORY], _ => Zeros(32))

  lemma EmptyLists()
    ensures Observing.Indexed(EMPTY_REPOSITORY, []) == Success([])
    ensures Observing.Committed(EMPTY_REPOSITORY) == Success([])
    ensures Observing.Chosen([]).Values() == []
    ensures Observing.UntrackedFiles(EMPTY_REPOSITORY, []) == Success([])
    ensures !Observing.IndexDirty([], [])
  {
  }

  lemma NoEntries()
    ensures SplitIndex.Entries(EMPTY_REPOSITORY.indexes, "index", {}, None) == Success([])
  {
  }

  lemma EmptyIsClean()
    ensures Observing.Observe(EMPTY_WORLD, "repo", {}) == Success(Observing.Identity(Zeros(20), None))
  {
    EmptyLists();
    NoEntries();
    assert Observing.Working(EMPTY_WORLD, EMPTY_REPOSITORY, [], {"repo"}) == Success(([], false));
    hide Observing.Indexed, Observing.Committed, Observing.Chosen, Observing.UntrackedFiles, Observing.IndexDirty,
         SplitIndex.Entries, Observing.Working;
    assert {} + {"repo"} == {"repo"};
    assert Observing.ObserveRepository(EMPTY_WORLD, EMPTY_REPOSITORY, {"repo"}) == Success(Observing.Identity(Zeros(20), None));
  }

  type Touch = (nat, Files) -> Option<Files>

  /**
   * A story of one artifact: which operations fail, how another process touches the staged files, what the source holds
   * at each tick, the hash, the bytes that are copied and the tick at which they are.
   */
  datatype Story = Story(
    failing: nat -> bool, touch: Touch, held: nat -> seq<Byte>, hash: seq<Byte> -> Digest, bytes: seq<Byte>, copied: nat)

  function Example(s: Story): Environment {
    Environment(
      (_, out) => out, s.touch, (_, _) => Regular, (t, _) => s.held(t), |s.bytes|, _ => EMPTY_WORLD, s.failing,
      (_, _) => false, s.hash, _ => None, _ => [123, 125])
  }

  /** Nothing fails before the rename, seven steps behind the copy. */
  ghost predicate FailsLate(s: Story) { forall t: nat :: t < s.copied + 7 ==> !s.failing(t) }

  /** Only once, when the manifest stands beside the artifact, another process touches the staged files. */
  ghost predicate TouchesOnce(s: Story) { forall t, files :: t != s.copied + 4 ==> s.touch(t, files) == Some(files) }

  predicate Copies(s: Story) {
    s.copied >= 3 && s.bytes != []
    && Copy(Example(s), "a", NAME, At(3, map[])) == (Success((s.hash(s.bytes), |s.bytes|)), At(s.copied, Alone(s)))
  }

  const ONE_ARTIFACT := Args(
    "x86_64", [Given("builder_vm", "text", "a")], [], 1, ["out"], ["repo"], "repo", true, Some(1), Some(1), Some([]), "")

  const START := Disk(0, Directory(map[]), None)

  const NAME := "builder-vm-x86_64-a"

  function TheRecord(s: Story): Record { Record(NAME, Ordinary("text"), s.hash(s.bytes), |s.bytes|) }

  function TheMember(s: Story): Member { Member("builder_vm", Some("x86_64"), true, [TheRecord(s)], []) }

  function At(clock: nat, files: Files): Disk { Disk(clock, Directory(map[]), Some(files)) }

  lemma Named()
    ensures "builder_vm" in RoleTable()
    ensures ArtifactName("builder_vm", "x86_64", "a") == Some(NAME)
  {
    assert Stem("builder_vm") == "builder-vm";
    assert Basename("a") == "a";
    assert GivenName("builder_vm", false, "x86_64", "a") == NAME;
    assert UsableName(NAME);
  }

  function Alone(s: Story): Files { map[NAME := s.bytes] }

  /** What is staged when the manifest has been written. */
  function Complete(s: Story): Files { map[NAME := s.bytes, MANIFEST_NAME := [123, 125]] }

  lemma Passes(s: Story, t: nat, files: Files)
    requires FailsLate(s) && TouchesOnce(s) && t < s.copied + 6 && t != s.copied + 4
    ensures !s.failing(t + 1) && Later(Example(s), At(t, files)) == At(t + 1, files)
  {
  }

  lemma ChunkWritten(t: nat, hashed: seq<Byte>, chunk: seq<Byte>)
    ensures WriteChunk(At(t, map[NAME := hashed]), NAME, |hashed|, chunk) == At(t, map[NAME := hashed + chunk])
  {
    WritesOn(hashed, chunk);
    hide Overwritten;
    var files: Files := map[NAME := hashed];
    assert files[NAME := hashed + chunk] == map[NAME := hashed + chunk];
  }

  lemma {:induction false} ReadsAll(s: Story, hashed: seq<Byte>, t: nat)
    requires FailsLate(s) && TouchesOnce(s) && StreamEnd(Example(s), "a", hashed, t) < s.copied
    ensures var env := Example(s); var all := Stream(env, "a", hashed, t);
            CopyRest(env, "a", NAME, hashed, At(t, map[NAME := hashed]))
            == (Success(all), At(StreamEnd(env, "a", hashed, t), map[NAME := all]))
    decreases |s.bytes| - |hashed|
  {
    var env := Example(s);
    var chunk := NextChunk(env, "a", |hashed|, t + 1);
    Passes(s, t, map[NAME := hashed]);
    hide NextChunk, FailsLate, TouchesOnce, Later;
    if chunk != [] {
      ChunkWritten(t + 1, hashed, chunk);
      hide WriteChunk;
      ReadsAll(s, hashed + chunk, t + 1);
    }
  }

  lemma StoryCopies(s: Story)
    requires FailsLate(s) && TouchesOnce(s) && s.bytes != []
    requires Stream(Example(s), "a", [], 4) == s.bytes && StreamEnd(Example(s), "a", [], 4) + 1 == s.copied
    ensures Copies(s)
  {
    var env := Example(s);
    Passes(s, 3, map[]);
    ReadsAll(s, [], 4);
    Passes(s, s.copied - 1, Alone(s));
    hide FailsLate, TouchesOnce, Later, Stream, StreamEnd;
    var none: Files := map[];
    assert none[NAME := []] == map[NAME := []];
    assert OpenBoth(env, "a", NAME, At(3, map[])) == (Success(()), At(4, map[NAME := []]));
    assert SetMode(env, NAME, At(s.copied - 1, Alone(s))) == (Success(()), At(s.copied, Alone(s)));
    hide OpenBoth, SetMode, CopyRest, Example;
  }

  lemma OneMember(s: Story)
    ensures RolesOf([Labelled("builder_vm", TheRecord(s))]) == ["builder_vm"]
    ensures MembersOf("x86_64", [Labelled("builder_vm", TheRecord(s))], []) == [TheMember(s)]
    ensures NamesOf([Labelled("builder_vm", TheRecord(s))]) == {NAME}
  {
    var labelled := Labelled("builder_vm", TheRecord(s));
    assert [labelled][..0] == [];
    assert RolesOf([labelled]) == ["builder_vm"];
    assert ArtifactsOf([labelled], "builder_vm") == [TheRecord(s)];
    assert [labelled][0].record.name == NAME;
    hide RolesOf, ArtifactsOf;
  }

  lemma Copied(s: Story)
    requires FailsLate(s) && TouchesOnce(s) && Copies(s)
    ensures Build(Example(s), ONE_ARTIFACT, At(2, map[])) == (Success([TheMember(s)]), At(s.copied, Alone(s)))
  {
    var env, given, labelled := Example(s), Given("builder_vm", "text", "a"), Labelled("builder_vm", TheRecord(s));
    Named();
    assert ArtifactFormat("text") == Some(Ordinary("text"));
    Passes(s, 2, map[]);
    assert CopyOne(env, "x86_64", {}, given, At(2, map[])) == (Success(labelled), At(s.copied, Alone(s))) by {
      hide Copy, Later, FailsLate, TouchesOnce, ArtifactName, ArtifactFormat, RoleTable;
    }
    hide CopyOne;
    assert [given][..0] == [];
    assert NamesOf([]) == {};
    assert CopyAll(env, "x86_64", [], At(2, map[])) == (Success([]), At(2, map[]));
    assert [] + [labelled] == [labelled];
    assert CopyAll(env, "x86_64", [given], At(2, map[])) == (Success([labelled]), At(s.copied, Alone(s)));
    hide CopyAll;
    OneMember(s);
    hide MembersOf, RolesOf;
  }

  lemma Prepared(s: Story, plan: Plan)
    requires plan == Plan(Observing.Identity(Zeros(20), None), 1, 1, [])
    ensures Prepare(Example(s), ONE_ARTIFACT, START) == (Success(plan), Disk(1, Directory(map[]), None))
  {
    EmptyIsClean();
    hide Observing.Observe;
    assert Identify(Example(s), "repo", START) == (Success(plan.before), Disk(1, Directory(map[]), None));
    hide Identify;
    assert "repo" != "out" by { assert "repo"[0] == 'r' && "out"[0] == 'o'; }
    assert ["repo"][0] == "repo" && ["out"][0] == "out";
    assert !(["repo"] <= ["out"]);
  }

  lemma NoRoots(s: Story, env: Environment, d: Disk, expected: int)
    ensures BaseContract(env, [TheMember(s)], expected, d) == (Success(expected), d)
  {
    assert [TheMember(s)][..0] == [];
    assert !IsRoot(TheMember(s));
    hide ReadRoot, Ext4Of, IsRoot;
    assert RootContracts(env, [], d) == (Success({}), d);
    assert RootContracts(env, [TheMember(s)], d) == (Success({}), d);
  }

  lemma Identified(s: Story, d: Disk)
    ensures Identify(Example(s), "repo", d)
            == (Success(Observing.Identity(Zeros(20), None)), Later(Example(s), d))
  {
    EmptyIsClean();
    hide Observing.Observe, Later;
  }

  lemma Collected(s: Story, plan: Plan)
    requires FailsLate(s) && TouchesOnce(s) && Copies(s)
    requires plan.before == Observing.Identity(Zeros(20), None)
    ensures Collect(Example(s), ONE_ARTIFACT, plan, At(2, map[]))
            == (Success(([TheMember(s)], plan.contract)), At(s.copied + 1, Alone(s)))
  {
    var env := Example(s);
    Passes(s, s.copied, Alone(s));
    Copied(s);
    NoRoots(s, env, At(s.copied, Alone(s)), plan.contract);
    Identified(s, At(s.copied, Alone(s)));
    hide Build, BaseContract, Identify, Example, At, FailsLate, TouchesOnce, Later, Copies;
  }

  lemma Rechecks(s: Story)
    requires FailsLate(s) && TouchesOnce(s)
    ensures RecheckOne(Example(s), TheRecord(s), At(s.copied + 1, Alone(s)))
            == (Success(()), At(s.copied + 3, Alone(s)))
  {
    Passes(s, s.copied + 1, Alone(s));
    Passes(s, s.copied + 2, Alone(s));
    hide FailsLate, TouchesOnce, Later;
  }

  lemma OneRecord(s: Story)
    ensures RecordsOf([TheMember(s)]) == [TheRecord(s)]
  {
    assert [TheMember(s)][..0] == [];
  }

  lemma RecheckSingle(env: Environment, record: Record, d: Disk)
    ensures Recheck(env, [record], d) == RecheckOne(env, record, d)
  {
    assert [record][..0] == [];
    assert Recheck(env, [], d) == (Success(()), d);
    hide RecheckOne;
  }

  lemma WritesManifest(s: Story)
    requires FailsLate(s) && TouchesOnce(s)
    ensures WriteManifest(Example(s), [123, 125], At(s.copied + 3, Alone(s))) == (Success(()), At(s.copied + 4, Complete(s)))
  {
    Passes(s, s.copied + 3, Alone(s));
    hide FailsLate, TouchesOnce, Later;
  }

  lemma Sealed(s: Story, manifest: Manifest)
    requires FailsLate(s) && TouchesOnce(s)
    requires manifest.members == [TheMember(s)]
    ensures Seal(Example(s), manifest, At(s.copied + 1, Alone(s))) == (Success(()), At(s.copied + 4, Complete(s)))
  {
    var env := Example(s);
    assert env.render(manifest) == [123, 125];
    OneRecord(s);
    RecheckSingle(env, TheRecord(s), At(s.copied + 1, Alone(s)));
    Rechecks(s);
    WritesManifest(s);
    hide RecordsOf, Recheck, RecheckOne, WriteManifest, Example, At, FailsLate, TouchesOnce, Complete;
  }

  lemma Published(s: Story)
    requires FailsLate(s) && TouchesOnce(s)
    ensures var touched := s.touch(s.copied + 4, Complete(s));
            Publish(Example(s), At(s.copied + 4, Complete(s))) ==
            if s.failing(s.copied + 7) || touched.None? then (Failure(OsError), Disk(s.copied + 7, Absent, touched))
            else (Success(()), Disk(s.copied + 7, Directory(touched.value), None))
  {
    hide Complete;
  }

  lemma RemovalFails(s: Story, staging: Option<Files>)
    requires TouchesOnce(s)
    ensures var d := RemoveStaging(Example(s), Disk(s.copied + 7, Absent, staging));
            d.out == Absent && d.staging == if staging.Some? && s.failing(s.copied + 9) then Some(map[]) else None
  {
    if staging.Some? {
      assert Stuck(Example(s), s.copied + 8, staging.value) == map[];
      hide Stuck;
    }
  }

  function TheManifest(s: Story): Manifest {
    ManifestOf(ONE_ARTIFACT, Plan(Observing.Identity(Zeros(20), None), 1, 1, []), [TheMember(s)], 1)
  }

  /**
   * The run of the example.  It publishes what the other process made of the manifest and the artifact.  If the rename
   * fails, the empty output directory is gone; if then the removal of the staging directory fails too, that one stays.
   */
  lemma ExampleRun(s: Story)
    requires FailsLate(s) && TouchesOnce(s) && Copies(s)
    ensures var (r, d) := Emit(Example(s), ONE_ARTIFACT, START);
            var touched := s.touch(s.copied + 4, Complete(s));
            if s.failing(s.copied + 7) || touched.None? then
              && r == Failure(OsError) && d.out == Absent
              && d.staging == if touched.Some? && s.failing(s.copied + 9) then Some(map[]) else None
            else r == Success(TheManifest(s)) && d.out == Directory(touched.value) && d.staging == None
  {
    var env := Example(s);
    var plan := Plan(Observing.Identity(Zeros(20), None), 1, 1, []);
    Prepared(s, plan);
    assert MakeStaging(env, Disk(1, Directory(map[]), None)) == (Success(()), At(2, map[])) by {
      hide Complete;
    }
    Collected(s, plan);
    var manifest := ManifestOf(ONE_ARTIFACT, plan, [TheMember(s)], 1);
    Sealed(s, manifest);
    Published(s);
    RemovalFails(s, s.touch(s.copied + 4, Complete(s)));
    hide Prepare, MakeStaging, Collect, Seal, Publish, RemoveStaging, Example, FailsLate, TouchesOnce, Copies, Complete;
  }

  // ---------------------------------------------------------------- runs with one byte

  const QUIET: Touch := (_, files) => Some(files)

  /** The source holds one byte throughout; it has been copied at tick 7. */
  function OneByte(failing: nat -> bool, touch: Touch): Story {
    Story(failing, touch, _ => [1], _ => Zeros(32), [1], 7)
  }

  lemma OneByteCopies(failing: nat -> bool, touch: Touch)
    requires FailsLate(OneByte(failing, touch)) && TouchesOnce(OneByte(failing, touch))
    ensures Copies(OneByte(failing, touch))
  {
    var env := Example(OneByte(failing, touch));
    assert NextChunk(env, "a", 0, 5) == [1] && NextChunk(env, "a", 1, 6) == [];
    hide NextChunk;
    assert [] + [1] == [1];
    assert Stream(env, "a", [1], 5) == [1] && StreamEnd(env, "a", [1], 5) == 6;
    assert Stream(env, "a", [], 4) == [1] && StreamEnd(env, "a", [], 4) == 6;
    StoryCopies(OneByte(failing, touch));
  }

  lemma OneByteRun(failing: nat -> bool, touch: Touch)
    requires FailsLate(OneByte(failing, touch)) && TouchesOnce(OneByte(failing, touch))
    ensures var s := OneByte(failing, touch);
            var (r, d) := Emit(Example(s), ONE_ARTIFACT, START);
            var touched := touch(11, Complete(s));
            if failing(14) || touched.None? then
              && r == Failure(OsError) && d.out == Absent
              && d.staging == if touched.Some? && failing(16) then Some(map[]) else None
            else r == Success(TheManifest(s)) && d.out == Directory(touched.value) && d.staging == None
  {
    OneByteCopies(failing, touch);
    ExampleRun(OneByte(failing, touch));
    hide Emit, Copies, FailsLate, TouchesOnce, Complete, TheManifest, Example;
  }

  const RENAME_FAILS := OneByte(t => t == 14, QUIET)

  /** A refusal that does not leave the output path as it was: the rename fails after the removal. */
  lemma EmptyOutputIsLost()
    ensures LeavesOutputAlone(Example(RENAME_FAILS))
    ensures var (r, d) := Emit(Example(RENAME_FAILS), ONE_ARTIFACT, START);
            r == Failure(OsError) && d.out == Absent && START.out == Directory(map[]) && d.staging == None
  {
    OneByteRun(t => t == 14, QUIET);
    hide Emit;
  }

  const REMOVAL_FAILS := OneByte(t => t == 14 || t == 16, QUIET)

  /** A refusal after which the staging directory is still there: its removal fails, and that is ignored. */
  lemma StagingStays()
    ensures var (r, d) := Emit(Example(REMOVAL_FAILS), ONE_ARTIFACT, START);
            r == Failure(OsError) && d.staging == Some(map[])
  {
    OneByteRun(t => t == 14 || t == 16, QUIET);
    hide Emit;
  }

  const REPLACE: Touch := (t, files) => Some(if t == 11 && NAME in files then files[NAME := [2, 2]] else files)
  const ADD: Touch := (t, files) => Some(if t == 11 then files["other" := [3]] else files)
  const REPLACING := OneByte(_ => false, REPLACE)
  const ADDING := OneByte(_ => false, ADD)

  lemma OnlyRecord(s: Story)
    ensures RecordsOf(TheManifest(s).members) == [TheRecord(s)]
  {
    OneRecord(s);
    hide RecordsOf;
  }

  /**
   * An artifact that another process replaces after its recheck is published with a record that does not match, in a
   * run in which no other file is added.
   */
  lemma ReplacedIsPublished(copied: seq<Labelled>)
    ensures AddsNothing(Example(REPLACING))
    ensures var (r, d) := Emit(Example(REPLACING), ONE_ARTIFACT, START);
            && r == Success(TheManifest(REPLACING)) && d.out == Directory(Complete(REPLACING)[NAME := [2, 2]])
            && !HoldsExactly(Example(REPLACING), d.out.files, copied, r.value)
  {
    var env := Example(REPLACING);
    var files := Complete(REPLACING)[NAME := [2, 2]];
    assert REPLACE(11, Complete(REPLACING)) == Some(files);
    assert FailsLate(REPLACING) && TouchesOnce(REPLACING) && AddsNothing(env);
    OneByteRun(_ => false, REPLACE);
    OnlyRecord(REPLACING);
    SizeDiffers(env, REPLACING);
    hide Emit, FailsLate, TouchesOnce, AddsNothing, HoldsExactly, Matches, RecordsOf, Complete, TheManifest, TheRecord, Example;
    OneMismatch(env, files, copied, TheManifest(REPLACING), 0);
  }

  lemma SizeDiffers(env: Environment, s: Story)
    requires |s.bytes| == 1
    ensures !Matches(env, Complete(s)[NAME := [2, 2]], TheRecord(s))
  {
  }

  lemma OneMismatch(env: Environment, files: Files, copied: seq<Labelled>, manifest: Manifest, i: nat)
    requires i < |RecordsOf(manifest.members)| && !Matches(env, files, RecordsOf(manifest.members)[i])
    ensures !HoldsExactly(env, files, copied, manifest)
  {
    hide RecordsOf, Matches;
  }

  /** A file that another process adds after the recheck is published, though no staged file is changed. */
  lemma AddedIsPublished()
    ensures var (r, d) := Emit(Example(ADDING), ONE_ARTIFACT, START);
            && r == Success(TheManifest(ADDING)) && d.out == Directory(Complete(ADDING)["other" := [3]])
            && Matches(Example(ADDING), d.out.files, TheRecord(ADDING))
            && !HoldsExactly(Example(ADDING), d.out.files, [Labelled("builder_vm", TheRecord(ADDING))], r.value)
  {
    assert ADD(11, Complete(ADDING)) == Some(Complete(ADDING)["other" := [3]]);
    assert FailsLate(ADDING) && TouchesOnce(ADDING);
    OneByteRun(_ => false, ADD);
    OtherAdded(ADDING, TheManifest(ADDING));
    hide Emit, FailsLate, TouchesOnce, HoldsExactly, Matches, RecordsOf, Complete, TheManifest, TheRecord, Example;
  }

  lemma OtherAdded(s: Story, manifest: Manifest)
    ensures var files := Complete(s)["other" := [3]];
            && Matches(Example(s), files, TheRecord(s))
            && !HoldsExactly(Example(s), files, [Labelled("builder_vm", TheRecord(s))], manifest)
  {
    OneMember(s);
    var files := Complete(s)["other" := [3]];
    assert |"other"| != |NAME| && |"other"| != |MANIFEST_NAME|;
    assert "other" in files.Keys;
    assert files[NAME] == s.bytes;
    hide NamesOf, MembersOf, RolesOf, RecordsOf;
  }

  // ---------------------------------------------------------------- a run with a source that is rewritten

  /** One byte more than a read returns, all of them the same. */
  function Content(b: Byte): seq<Byte> { seq(CHUNK_SIZE + 1, _ => b) }

  /** Nothing fails and the staged files are left alone, but the source is rewritten between its first two reads. */
  function Rewritten(hash: seq<Byte> -> Digest): Story {
    Story(_ => false, QUIET, t => if t <= 5 then Content(1) else Content(2), hash, Content(1)[..CHUNK_SIZE] + [2], 8)
  }

  lemma RewrittenReads(hash: seq<Byte> -> Digest)
    ensures var env := Example(Rewritten(hash));
            && NextChunk(env, "a", 0, 5) == Content(1)[..CHUNK_SIZE]
            && NextChunk(env, "a", CHUNK_SIZE, 6) == [2]
            && NextChunk(env, "a", CHUNK_SIZE + 1, 7) == []
  {
    assert Content(1)[0..CHUNK_SIZE] == Content(1)[..CHUNK_SIZE];
    assert Content(2)[CHUNK_SIZE..CHUNK_SIZE + 1] == [2];
    hide Content;
  }

  /** The bytes that are copied are neither the content before nor the content after. */
  lemma NeverHeld(hash: seq<Byte> -> Digest, u: nat)
    ensures Example(Rewritten(hash)).held(u, "a") != Rewritten(hash).bytes
  {
    var bytes := Rewritten(hash).bytes;
    assert bytes[0] == 1 && bytes[CHUNK_SIZE] == 2;
    assert Content(1)[CHUNK_SIZE] == 1 && Content(2)[0] == 2;
  }

  lemma RewrittenCopies(hash: seq<Byte> -> Digest)
    ensures Copies(Rewritten(hash))
  {
    var s := Rewritten(hash);
    var env := Example(s);
    RewrittenReads(hash);
    assert FailsLate(s) && TouchesOnce(s);
    hide NextChunk, FailsLate, TouchesOnce, Example, Rewritten, Content;
    var first := Content(1)[..CHUNK_SIZE];
    assert [] + first == first;
    assert Stream(env, "a", first + [2], 6) == first + [2] && StreamEnd(env, "a", first + [2], 6) == 7;
    assert Stream(env, "a", first, 5) == first + [2] && StreamEnd(env, "a", first, 5) == 7;
    assert Stream(env, "a", [], 4) == first + [2] && StreamEnd(env, "a", [], 4) == 7;
    StoryCopies(s);
  }

  /**
   * A source that is rewritten between two reads is recorded and published, under the digest of bytes that it never
   * held, whatever the hash.
   */
  lemma TornIsPublished(hash: seq<Byte> -> Digest)
    ensures var env, s := Example(Rewritten(hash)), Rewritten(hash);
            var (r, d) := Emit(env, ONE_ARTIFACT, START);
            && r == Success(TheManifest(s)) && d.out == Directory(Complete(s))
            && RecordsOf(r.value.members) == [TheRecord(s)]
    ensures var s := Rewritten(hash);
            && Complete(s)[NAME] == s.bytes
            && TheRecord(s) == Record(NAME, Ordinary("text"), hash(s.bytes), CHUNK_SIZE + 1)
            && forall u :: Example(s).held(u, "a") != s.bytes
  {
    var s := Rewritten(hash);
    RewrittenCopies(hash);
    OnlyRecord(s);
    assert FailsLate(s) && TouchesOnce(s) && s.touch(s.copied + 4, Complete(s)) == Some(Complete(s)) && !s.failing(s.copied + 7);
    forall u
      ensures Example(s).held(u, "a") != s.bytes
    {
      NeverHeld(hash, u);
    }
    assert |s.bytes| == CHUNK_SIZE + 1;
    TornRecord(s);
    hide *;
    ExampleRun(s);
  }

  lemma TornRecord(s: Story)
    requires |s.bytes| == CHUNK_SIZE + 1
    ensures Complete(s)[NAME] == s.bytes
    ensures TheRecord(s) == Record(NAME, Ordinary("text"), s.hash(s.bytes), CHUNK_SIZE + 1)
  {
  }
}
