/** `emit` publishes everything or nothing, whatever other processes do between its steps. */
module EmittingMeaning {
  import opened Wrappers
  import opened Bytes
  import opened ImageSets
  import opened Emitting
  import Observing

  // ---------------------------------------------------------------- the output path of a refused run

  /** What the other processes alone make of the output path. */
  function Alone(env: Environment, from: nat, end: nat, out: Out): Out
    decreases end
  {
    if end <= from then out else env.touchOut(end - 1, Alone(env, from, end - 1, out))
  }

  lemma {:induction false} AloneTwice(env: Environment, a: nat, b: nat, c: nat, out: Out)
    requires a <= b <= c
    ensures Alone(env, b, c, Alone(env, a, b, out)) == Alone(env, a, c, out)
    decreases c
  {
    if b < c {
      AloneTwice(env, a, b, c - 1, out);
    }
  }

  /** Between two states, the program did not touch the output path. */
  ghost predicate Untouched(env: Environment, d: Disk, later: Disk) {
    d.clock <= later.clock && later.out == Alone(env, d.clock, later.clock, d.out)
  }

  lemma UntouchedTwice(env: Environment, a: Disk, b: Disk, c: Disk)
    requires Untouched(env, a, b) && Untouched(env, b, c)
    ensures Untouched(env, a, c)
  {
    AloneTwice(env, a.clock, b.clock, c.clock, a.out);
  }

  lemma WaitingIsUntouched(env: Environment, d: Disk)
    ensures Untouched(env, d, Later(env, d)) && Untouched(env, d, d)
  {
    assert Alone(env, d.clock, d.clock, d.out) == d.out;
  }

  lemma StagedDiffers(env: Environment, d: Disk, later: Disk, same: Disk)
    requires Untouched(env, d, later) && same.clock == later.clock && same.out == later.out
    ensures Untouched(env, d, same)
  {
    hide Alone;
  }

  lemma OpenBothUntouched(env: Environment, path: string, name: string, d: Disk)
    ensures Untouched(env, d, OpenBoth(env, path, name, d).1)
  {
    WaitingIsUntouched(env, d);
    StagedDiffers(env, d, Later(env, d), OpenBoth(env, path, name, d).1);
    hide Untouched, Later;
  }

  lemma {:induction false} CopyRestUntouched(env: Environment, path: string, name: string, hashed: seq<Byte>, d: Disk)
    ensures Untouched(env, d, CopyRest(env, path, name, hashed, d).1)
    decreases env.largest - |hashed|
  {
    hide Untouched, NextChunk, Overwritten, Later;
    var now := Later(env, d);
    WaitingIsUntouched(env, d);
    var chunk := NextChunk(env, path, |hashed|, now.clock);
    if !env.fails(now.clock) && chunk != [] {
      var next := WriteChunk(now, name, |hashed|, chunk);
      CopyRestUntouched(env, path, name, hashed + chunk, next);
      StagedDiffers(env, d, now, next);
      UntouchedTwice(env, d, next, CopyRest(env, path, name, hashed + chunk, next).1);
    }
  }

  lemma CopyUntouched(env: Environment, path: string, name: string, d: Disk)
    ensures Untouched(env, d, Copy(env, path, name, d).1)
  {
    hide Untouched, OpenBoth, CopyRest, Later;
    var (files, d1) := OpenBoth(env, path, name, d);
    OpenBothUntouched(env, path, name, d);
    if files.Success? {
      var (hashed, d2) := CopyRest(env, path, name, [], d1);
      CopyRestUntouched(env, path, name, [], d1);
      UntouchedTwice(env, d, d1, d2);
      WaitingIsUntouched(env, d2);
      UntouchedTwice(env, d, d2, Later(env, d2));
    }
  }

  lemma CopyOneUntouched(env: Environment, arch: string, taken: set<string>, given: Given, d: Disk)
    ensures Untouched(env, d, CopyOne(env, arch, taken, given, d).1)
  {
    hide Untouched, Admit, Copy, Later;
    var d1 := Later(env, d);
    WaitingIsUntouched(env, d);
    if Admit(arch, taken, given).Success? {
      var name := Admit(arch, taken, given).value.0;
      CopyUntouched(env, given.path, name, d1);
      UntouchedTwice(env, d, d1, Copy(env, given.path, name, d1).1);
    }
  }

  lemma {:induction false} CopyAllUntouched(env: Environment, arch: string, given: seq<Given>, d: Disk)
    ensures Untouched(env, d, CopyAll(env, arch, given, d).1)
    decreases |given|
  {
    if given == [] {
      WaitingIsUntouched(env, d);
    } else {
      var front := CopyAll(env, arch, given[..|given| - 1], d);
      CopyAllUntouched(env, arch, given[..|given| - 1], d);
      if front.0.Success? {
        CopyOneUntouched(env, arch, NamesOf(front.0.value), given[|given| - 1], front.1);
        UntouchedTwice(env, d, front.1, CopyOne(env, arch, NamesOf(front.0.value), given[|given| - 1], front.1).1);
      }
    }
    hide Untouched, CopyOne, NamesOf;
  }

  lemma {:induction false} RootContractsUntouched(env: Environment, members: seq<Member>, d: Disk)
    ensures Untouched(env, d, RootContracts(env, members, d).1)
    decreases |members|
  {
    if members == [] {
      WaitingIsUntouched(env, d);
    } else {
      var front := RootContracts(env, members[..|members| - 1], d).1;
      RootContractsUntouched(env, members[..|members| - 1], d);
      WaitingIsUntouched(env, front);
      UntouchedTwice(env, d, front, Later(env, front));
    }
    hide Untouched, IsRoot, Ext4Of, Later;
  }

  lemma RecheckOneUntouched(env: Environment, record: Record, d: Disk)
    ensures Untouched(env, d, RecheckOne(env, record, d).1)
  {
    var d1 := Later(env, d);
    WaitingIsUntouched(env, d);
    WaitingIsUntouched(env, d1);
    UntouchedTwice(env, d, d1, Later(env, d1));
    hide Untouched, Later;
  }

  lemma {:induction false} RecheckUntouched(env: Environment, records: seq<Record>, d: Disk)
    ensures Untouched(env, d, Recheck(env, records, d).1)
    decreases |records|
  {
    if records == [] {
      WaitingIsUntouched(env, d);
    } else {
      var front := Recheck(env, records[..|records| - 1], d).1;
      RecheckUntouched(env, records[..|records| - 1], d);
      RecheckOneUntouched(env, records[|records| - 1], front);
      UntouchedTwice(env, d, front, RecheckOne(env, records[|records| - 1], front).1);
    }
    hide Untouched, RecheckOne;
  }

  lemma BuildUntouched(env: Environment, args: Args, d: Disk)
    ensures Untouched(env, d, Build(env, args, d).1)
  {
    CopyAllUntouched(env, args.arch, args.artifacts, d);
    hide Untouched, CopyAll, Assemble;
  }

  lemma BaseContractUntouched(env: Environment, members: seq<Member>, expected: int, d: Disk)
    ensures Untouched(env, d, BaseContract(env, members, expected, d).1)
  {
    RootContractsUntouched(env, members, d);
    hide Untouched, RootContracts;
  }

  lemma IdentifyUntouched(env: Environment, canonical: string, d: Disk)
    ensures Untouched(env, d, Identify(env, canonical, d).1)
  {
    WaitingIsUntouched(env, d);
    hide Untouched, Observing.Observe, Later;
  }

  lemma CollectUntouched(env: Environment, args: Args, plan: Plan, d: Disk)
    ensures Untouched(env, d, Collect(env, args, plan, d).1)
  {
    var (members, d1) := Build(env, args, d);
    BuildUntouched(env, args, d);
    hide Untouched, BaseContract, Build, Identify;
    if members.Success? {
      var d2 := BaseContract(env, members.value, plan.contract, d1).1;
      BaseContractUntouched(env, members.value, plan.contract, d1);
      UntouchedTwice(env, d, d1, d2);
      IdentifyUntouched(env, args.canonical, d2);
      UntouchedTwice(env, d, d2, Identify(env, args.canonical, d2).1);
    }
  }

  lemma SealUntouched(env: Environment, manifest: Manifest, d: Disk)
    ensures Untouched(env, d, Seal(env, manifest, d).1)
  {
    var d1 := Recheck(env, RecordsOf(manifest.members), d).1;
    RecheckUntouched(env, RecordsOf(manifest.members), d);
    WaitingIsUntouched(env, d1);
    UntouchedTwice(env, d, d1, Later(env, d1));
    hide Alone, Recheck, RecordsOf;
  }

  lemma PrepareUntouched(env: Environment, args: Args, d: Disk)
    ensures Untouched(env, d, Prepare(env, args, d).1)
  {
    WaitingIsUntouched(env, d);
    IdentifyUntouched(env, args.canonical, d);
    hide Untouched, Identify;
  }

  lemma MakeStagingUntouched(env: Environment, d: Disk)
    ensures Untouched(env, d, MakeStaging(env, d).1)
  {
    WaitingIsUntouched(env, d);
    hide Alone;
  }

  /** The run up to the manifest beside the staged artifacts. */
  ghost function BeforePublishing(env: Environment, args: Args, d: Disk): Outcome<Manifest> {
    var (plan, d1) := Prepare(env, args, d);
    if plan.Failure? then (Failure(plan.error), d1)
    else
      var (made, d2) := MakeStaging(env, d1);
      if made.Failure? then (Failure(made.error), d2)
      else
        var (collected, d3) := Collect(env, args, plan.value, d2);
        if collected.Failure? then (Failure(collected.error), d3)
        else
          var manifest := ManifestOf(args, plan.value, collected.value.0, collected.value.1);
          var (sealed, d4) := Seal(env, manifest, d3);
          if sealed.Failure? then (Failure(sealed.error), d4) else (Success(manifest), d4)
  }

  lemma BeforePublishingUntouched(env: Environment, args: Args, d: Disk)
    ensures Untouched(env, d, BeforePublishing(env, args, d).1)
  {
    hide Untouched, Prepare, MakeStaging, Collect, Seal, ManifestOf;
    var (plan, d1) := Prepare(env, args, d);
    PrepareUntouched(env, args, d);
    if plan.Success? {
      var (made, d2) := MakeStaging(env, d1);
      MakeStagingUntouched(env, d1);
      UntouchedTwice(env, d, d1, d2);
      if made.Success? {
        var (collected, d3) := Collect(env, args, plan.value, d2);
        CollectUntouched(env, args, plan.value, d2);
        UntouchedTwice(env, d, d2, d3);
        if collected.Success? {
          var manifest := ManifestOf(args, plan.value, collected.value.0, collected.value.1);
          SealUntouched(env, manifest, d3);
          UntouchedTwice(env, d, d3, Seal(env, manifest, d3).1);
        }
      }
    }
  }

  lemma PrepareLeavesNoStaging(env: Environment, args: Args, d: Disk)
    requires d.staging.None?
    ensures Prepare(env, args, d).1.staging.None?
  {
    hide Observing.Observe;
  }

  lemma MakeStagingFails(env: Environment, d: Disk)
    requires d.staging.None?
    ensures var (made, d1) := MakeStaging(env, d); made.Failure? ==> d1.staging.None?
  {
  }

  /** The staging directory has been made. */
  ghost predicate StagingMade(env: Environment, args: Args, d: Disk) {
    var (plan, d1) := Prepare(env, args, d);
    plan.Success? && MakeStaging(env, d1).0.Success?
  }

  /** The disk when the last step inside the `try`, or before it, has been taken. */
  ghost function LastStep(env: Environment, args: Args, d: Disk): Disk {
    var (sealed, d1) := BeforePublishing(env, args, d);
    if sealed.Failure? then d1 else Publish(env, d1).1
  }

  ghost predicate Publishes(env: Environment, args: Args, d: Disk) {
    var (sealed, d1) := BeforePublishing(env, args, d);
    sealed.Success? && Publish(env, d1).0.Success?
  }

  lemma EmitInTwo(env: Environment, args: Args, d: Disk)
    requires d.staging.None?
    ensures var (r, d1) := Emit(env, args, d);
            && (r.Success? <==> Publishes(env, args, d))
            && (r.Success? ==> r == BeforePublishing(env, args, d).0 && d1 == LastStep(env, args, d))
            && (r.Failure? && StagingMade(env, args, d) ==> d1 == RemoveStaging(env, LastStep(env, args, d)))
            && (r.Failure? && !StagingMade(env, args, d) ==> d1 == LastStep(env, args, d) && d1.staging.None?)
            && (r.Failure? && BeforePublishing(env, args, d).0.Success? ==> StagingMade(env, args, d))
  {
    PrepareLeavesNoStaging(env, args, d);
    MakeStagingFails(env, Prepare(env, args, d).1);
    hide Prepare, MakeStaging, Collect, Seal, ManifestOf, Publish, RemoveStaging;
  }

  lemma RemoveStagingUntouched(env: Environment, d: Disk)
    ensures Untouched(env, d, RemoveStaging(env, d))
  {
    hide Untouched, Stuck;
    var d1 := Later(env, d);
    WaitingIsUntouched(env, d);
    if d1.staging.Some? {
      var emptied := d1.(staging := Some(Stuck(env, d1.clock, d1.staging.value)));
      var d2 := Later(env, emptied);
      StagedDiffers(env, d, d1, emptied);
      WaitingIsUntouched(env, emptied);
      UntouchedTwice(env, d, emptied, d2);
      StagedDiffers(env, d, d2, RemoveStaging(env, d));
    }
  }

  /** An empty directory stood at the output path, and has been removed to make room. */
  ghost predicate Removes(env: Environment, d: Disk) {
    Later(env, d).out.Directory? && ClearOutput(env, d).0.Success?
  }

  lemma PublishOutput(env: Environment, d: Disk)
    ensures var (r, d1) := Publish(env, d);
            && (r.Failure? && !Removes(env, d) ==> Untouched(env, d, d1))
            && (r.Failure? && Removes(env, d) ==> d1.clock == d.clock + 3 && d1.out == env.touchOut(d.clock + 2, Absent))
            && (r.Success? ==> d1.staging.None? && d1.out.Directory?)
  {
    var d1 := Later(env, d);
    WaitingIsUntouched(env, d);
    WaitingIsUntouched(env, d1);
    UntouchedTwice(env, d, d1, Later(env, d1));
    hide Untouched;
  }

  /** The run got as far as removing the directory at the output path, and could not put the set in its place. */
  ghost predicate LosesDirectory(env: Environment, args: Args, d: Disk) {
    var (sealed, d1) := BeforePublishing(env, args, d);
    sealed.Success? && Removes(env, d1) && Publish(env, d1).0.Failure?
  }

  /** The removal succeeds, or another process has removed the staging directory before. */
  ghost predicate Removed(env: Environment, d: Disk) {
    var d1 := Later(env, d);
    d1.staging.None? ||
    var d2 := Later(env, d1.(staging := Some(Stuck(env, d1.clock, d1.staging.value))));
    d2.staging.None? || (d2.staging.value == map[] && !env.fails(d2.clock))
  }

  lemma RemovedExactly(env: Environment, d: Disk)
    ensures RemoveStaging(env, d).staging.None? <==> Removed(env, d)
  {
    hide Stuck;
  }

  /**
   * A success leaves no staging directory.  After a refusal the staging directory is gone if and only if it was never
   * made, or its removal succeeded, or another process had removed it.
   */
  lemma StagingGoneExactly(env: Environment, args: Args, d: Disk)
    requires d.staging.None?
    ensures var (r, d1) := Emit(env, args, d);
            && (r.Success? ==> d1.staging.None?)
            && (r.Failure? ==>
                  (d1.staging.None? <==> !StagingMade(env, args, d) || Removed(env, LastStep(env, args, d))))
  {
    EmitInTwo(env, args, d);
    PublishOutput(env, BeforePublishing(env, args, d).1);
    RemovedExactly(env, LastStep(env, args, d));
    hide BeforePublishing, Emit, Publish, Removes, Untouched, StagingMade, Removed, RemoveStaging;
  }

  /** When nothing else writes to the staged files, the removal succeeds if and only if no staged file is stuck and
      the directory can be removed. */
  lemma QuietRemoval(env: Environment, d: Disk)
    requires d.staging.Some? && forall t, files :: t >= d.clock ==> env.touchStaging(t, files) == Some(files)
    ensures Removed(env, d) <==>
            (forall name :: name in d.staging.value ==> !env.keeps(d.clock + 1, name)) && !env.fails(d.clock + 2)
  {
    var files := d.staging.value;
    var stuck := Stuck(env, d.clock + 1, files);
    if stuck != map[] {
      var name :| name in stuck;
      assert name in files && env.keeps(d.clock + 1, name);
    } else {
      forall name | name in files
        ensures !env.keeps(d.clock + 1, name)
      {
        assert name !in stuck;
      }
    }
    hide Stuck;
  }

  /** A refusal leaves the output path to the other processes, unless it lost the empty directory that stood there. */
  lemma RefusalLeavesOutput(env: Environment, args: Args, d: Disk)
    requires d.staging.None?
    ensures var (r, d1) := Emit(env, args, d);
            r.Failure? && !LosesDirectory(env, args, d) ==> Untouched(env, d, d1)
  {
    EmitInTwo(env, args, d);
    hide Emit, StagingMade, Publish, Removes, Alone, RemoveStaging, BeforePublishing;
    var last := LastStep(env, args, d);
    if Emit(env, args, d).0.Failure? && !LosesDirectory(env, args, d) {
      LastStepUntouched(env, args, d);
      RemoveStagingUntouched(env, last);
      UntouchedTwice(env, d, last, RemoveStaging(env, last));
    }
  }

  lemma LastStepUntouched(env: Environment, args: Args, d: Disk)
    requires !Publishes(env, args, d) && !LosesDirectory(env, args, d)
    ensures Untouched(env, d, LastStep(env, args, d))
  {
    var (sealed, d1) := BeforePublishing(env, args, d);
    BeforePublishingUntouched(env, args, d);
    hide BeforePublishing, Publish, Removes, Untouched;
    if sealed.Success? {
      PublishOutput(env, d1);
      UntouchedTwice(env, d, d1, Publish(env, d1).1);
    }
  }

  // ---------------------------------------------------------------- when nothing else writes to the output path

  ghost predicate LeavesOutputAlone(env: Environment) {
    forall t, out :: env.touchOut(t, out) == out
  }

  lemma {:induction false} AloneIsStill(env: Environment, from: nat, end: nat, out: Out)
    requires LeavesOutputAlone(env)
    ensures Alone(env, from, end, out) == out
    decreases end
  {
    if from < end {
      AloneIsStill(env, from, end - 1, out);
    }
  }

  /** The removal succeeds and the rename fails: the fault that loses an empty output directory. */
  ghost predicate RenameRefused(env: Environment, d: Disk) {
    && !env.fails(d.clock + 2)
    && (env.fails(d.clock + 3) || Later(env, Later(env, Later(env, d))).staging.None?)
  }

  lemma RemovesAndFails(env: Environment, d: Disk)
    requires LeavesOutputAlone(env)
    ensures Removes(env, d) && Publish(env, d).0.Failure? <==> d.out == Directory(map[]) && RenameRefused(env, d)
  {
  }

  lemma PreparedOutput(env: Environment, args: Args, d: Disk)
    ensures BeforePublishing(env, args, d).0.Success? ==> d.out == Absent || d.out == Directory(map[])
  {
    hide Identify, MakeStaging, Collect, Seal, ManifestOf;
  }

  /**
   * When no other process writes to the output path, a refusal leaves it as it was exactly when it was not an empty
   * directory, or the run ended before the rename, or the removal of that directory failed.
   */
  lemma OutputKeptExactly(env: Environment, args: Args, d: Disk)
    requires d.staging.None? && LeavesOutputAlone(env) && Emit(env, args, d).0.Failure?
    ensures var (sealed, d1) := BeforePublishing(env, args, d);
            Emit(env, args, d).1.out == d.out
            <==> !(d.out == Directory(map[]) && sealed.Success? && RenameRefused(env, d1))
  {
    var (sealed, d1) := BeforePublishing(env, args, d);
    EmitInTwo(env, args, d);
    BeforePublishingUntouched(env, args, d);
    AloneIsStill(env, d.clock, d1.clock, d.out);
    RemovesAndFails(env, d1);
    if LosesDirectory(env, args, d) {
      PublishOutput(env, d1);
      RemoveStagingUntouched(env, LastStep(env, args, d));
      AloneIsStill(env, LastStep(env, args, d).clock, Emit(env, args, d).1.clock, Absent);
    } else {
      RefusalLeavesOutput(env, args, d);
      AloneIsStill(env, d.clock, Emit(env, args, d).1.clock, d.out);
    }
    hide BeforePublishing, Emit, Publish, Removes, Alone, RenameRefused, StagingMade, RemoveStaging;
  }

  /** An output path that is not an empty directory is as it was after a refusal; if it is in use, that is the outcome. */
  lemma OutputKept(env: Environment, args: Args, d: Disk)
    requires d.staging.None? && LeavesOutputAlone(env) && d.out != Directory(map[])
    ensures var (r, d1) := Emit(env, args, d);
            && (r.Failure? ==> d1.out == d.out)
            && (r.Success? ==> d.out == Absent && d1.out.Directory? && d1.staging.None?)
  {
    EmitInTwo(env, args, d);
    PublishOutput(env, BeforePublishing(env, args, d).1);
    PreparedOutput(env, args, d);
    hide BeforePublishing, Emit, Publish, Removes, Alone, RenameRefused, StagingMade, RemoveStaging;
    if Emit(env, args, d).0.Failure? {
      OutputKeptExactly(env, args, d);
    }
  }

  // ---------------------------------------------------------------- the artifacts of a published set

  /** The bytes that successive reads of a source return from a tick on, behind those read before. */
  function Stream(env: Environment, path: string, hashed: seq<Byte>, tick: nat): (all: seq<Byte>)
    decreases env.largest - |hashed|
  {
    var chunk := NextChunk(env, path, |hashed|, tick + 1);
    if chunk == [] then hashed else Stream(env, path, hashed + chunk, tick + 1)
  }

  lemma {:induction false} CopyRestReads(env: Environment, path: string, name: string, hashed: seq<Byte>, d: Disk)
    ensures var r := CopyRest(env, path, name, hashed, d).0; r.Success? ==> r.value == Stream(env, path, hashed, d.clock)
    decreases env.largest - |hashed|
  {
    hide NextChunk, Overwritten;
    var now := Later(env, d);
    var chunk := NextChunk(env, path, |hashed|, now.clock);
    if !env.fails(now.clock) && chunk != [] {
      CopyRestReads(env, path, name, hashed + chunk, WriteChunk(now, name, |hashed|, chunk));
    }
  }

  /** What the record of an argument says. */
  ghost predicate Recorded(env: Environment, arch: string, given: Given, copied: Labelled) {
    && copied.role == given.role && given.role in RoleTable()
    && ArtifactName(given.role, arch, given.path) == Some(copied.record.name)
    && copied.record.name != MANIFEST_NAME
    && ArtifactFormat(given.format) == Some(copied.record.format)
    && copied.record.size > 0
    && exists t :: copied.record.digest == env.sha256(Stream(env, given.path, [], t))
                   && copied.record.size == |Stream(env, given.path, [], t)|
  }

  /** The tick at which the last read of a source returns nothing. */
  function StreamEnd(env: Environment, path: string, hashed: seq<Byte>, tick: nat): (end: nat)
    ensures end > tick
    decreases env.largest - |hashed|
  {
    var chunk := NextChunk(env, path, |hashed|, tick + 1);
    if chunk == [] then tick + 1 else StreamEnd(env, path, hashed + chunk, tick + 1)
  }

  lemma ReadsOn(data: seq<Byte>, position: nat, chunk: seq<Byte>)
    requires position <= |data| && position + |chunk| <= |data| && chunk == data[position..position + |chunk|]
    ensures data[..position] + chunk == data[..position + |chunk|]
  {
  }

  /** A source that does not change while it is read is copied and hashed as it is. */
  lemma {:induction false} SteadySource(env: Environment, path: string, position: nat, tick: nat, data: seq<Byte>)
    requires position <= |data| <= env.largest
    requires forall u :: tick < u <= StreamEnd(env, path, data[..position], tick) ==> env.held(u, path) == data
    ensures Stream(env, path, data[..position], tick) == data
    decreases |data| - position
  {
    var chunk := NextChunk(env, path, position, tick + 1);
    assert env.held(tick + 1, path) == data;
    if chunk == [] {
      assert data[..position] == data;
    } else {
      ReadsOn(data, position, chunk);
      hide NextChunk;
      SteadySource(env, path, position + |chunk|, tick + 1, data);
    }
  }

  /** How many bytes successive reads from a position on have returned in the end: only the lengths decide that. */
  function ReadSize(env: Environment, path: string, position: nat, tick: nat): (size: nat)
    ensures size >= position
    decreases env.largest - position
  {
    var chunk := NextChunk(env, path, position, tick + 1);
    if chunk == [] then position else ReadSize(env, path, position + |chunk|, tick + 1)
  }

  /** The tick of the read that returns the byte at `i`. */
  function ReadAt(env: Environment, path: string, position: nat, tick: nat, i: nat): nat
    decreases env.largest - position
  {
    var chunk := NextChunk(env, path, position, tick + 1);
    if chunk == [] || i < position + |chunk| then tick + 1 else ReadAt(env, path, position + |chunk|, tick + 1, i)
  }

  lemma ChunkHolds(env: Environment, path: string, position: nat, tick: nat)
    ensures var chunk := NextChunk(env, path, position, tick);
            && (chunk != [] ==> position + |chunk| <= |env.held(tick, path)|)
            && forall k :: 0 <= k < |chunk| ==> chunk[k] == env.held(tick, path)[position + k]
  {
  }

  lemma Extended(hashed: seq<Byte>, chunk: seq<Byte>, i: nat)
    ensures i < |hashed| ==> (hashed + chunk)[i] == hashed[i]
    ensures |hashed| <= i < |hashed| + |chunk| ==> (hashed + chunk)[i] == chunk[i - |hashed|]
  {
  }

  lemma {:induction false} StreamSize(env: Environment, path: string, hashed: seq<Byte>, tick: nat)
    ensures |Stream(env, path, hashed, tick)| == ReadSize(env, path, |hashed|, tick)
    decreases env.largest - |hashed|
  {
    var chunk := NextChunk(env, path, |hashed|, tick + 1);
    hide NextChunk;
    if chunk != [] {
      StreamSize(env, path, hashed + chunk, tick + 1);
    }
  }

  lemma ReadAtStep(env: Environment, path: string, position: nat, tick: nat, i: nat)
    ensures var chunk := NextChunk(env, path, position, tick + 1);
            && (chunk == [] || i < position + |chunk| ==> ReadAt(env, path, position, tick, i) == tick + 1)
            && (chunk != [] && position + |chunk| <= i ==>
                ReadAt(env, path, position, tick, i) == ReadAt(env, path, position + |chunk|, tick + 1, i))
  {
    hide NextChunk;
  }

  lemma StreamStep(env: Environment, path: string, hashed: seq<Byte>, tick: nat)
    ensures var chunk := NextChunk(env, path, |hashed|, tick + 1);
            Stream(env, path, hashed, tick) == if chunk == [] then hashed else Stream(env, path, hashed + chunk, tick + 1)
  {
    hide NextChunk;
  }

  /** The byte at `i` is what the source held there at the read that returns it. */
  lemma {:induction false} StreamAt(env: Environment, path: string, hashed: seq<Byte>, tick: nat, i: nat)
    requires i < |Stream(env, path, hashed, tick)|
    ensures var all := Stream(env, path, hashed, tick);
            if i < |hashed| then all[i] == hashed[i]
            else var held := env.held(ReadAt(env, path, |hashed|, tick, i), path); i < |held| && all[i] == held[i]
    decreases env.largest - |hashed|
  {
    hide *;
    var chunk := NextChunk(env, path, |hashed|, tick + 1);
    ChunkHolds(env, path, |hashed|, tick + 1);
    StreamStep(env, path, hashed, tick);
    ReadAtStep(env, path, |hashed|, tick, i);
    if chunk != [] {
      Extended(hashed, chunk, i);
      StreamAt(env, path, hashed + chunk, tick + 1, i);
      if |hashed| <= i < |hashed| + |chunk| {
        assert chunk[i - |hashed|] == env.held(tick + 1, path)[|hashed| + (i - |hashed|)];
      }
    }
  }

  /** The bytes that a copy hashes: what the reads after its first step return. */
  function CopiedBytes(env: Environment, path: string, d: Disk): seq<Byte> { Stream(env, path, [], d.clock + 1) }

  /** A source holds a byte when it is read. */
  predicate HeldWhenRead(env: Environment, path: string, d: Disk, i: nat, b: Byte) {
    var held := env.held(ReadAt(env, path, 0, d.clock + 1, i), path);
    i < |held| && held[i] == b
  }

  /**
   * A source is recorded with given bytes if and only if the lengths it has lead to as many bytes, and it holds each of
   * them when it is read.
   */
  lemma CopiedExactly(env: Environment, path: string, name: string, d: Disk, data: seq<Byte>)
    ensures var r := Copy(env, path, name, d).0; var read := CopiedBytes(env, path, d);
            && (r.Success? ==> r.value == (env.sha256(read), |read|))
            && (read == data <==>
                |data| == ReadSize(env, path, 0, d.clock + 1)
                && forall i :: 0 <= i < |data| ==> HeldWhenRead(env, path, d, i, data[i]))
  {
    var read := CopiedBytes(env, path, d);
    CopyReads(env, path, name, d);
    StreamSize(env, path, [], d.clock + 1);
    hide Copy, Stream, ReadSize, ReadAt;
    forall i | 0 <= i < |read|
      ensures HeldWhenRead(env, path, d, i, read[i])
    {
      StreamAt(env, path, [], d.clock + 1, i);
    }
  }

  /** From some tick on, a source always has the same length. */
  ghost predicate KeepsLength(env: Environment, path: string, tick: nat, size: nat) {
    size <= env.largest && forall u :: tick < u ==> |env.held(u, path)| == size
  }

  lemma ChunkSize(env: Environment, path: string, tick: nat, position: nat, size: nat)
    requires KeepsLength(env, path, tick, size) && position <= size
    ensures position + |NextChunk(env, path, position, tick + 1)| == Min(size, position + CHUNK_SIZE)
  {
  }

  lemma NextQuotient(position: nat, i: nat)
    requires position + CHUNK_SIZE <= i
    ensures (i - position) / CHUNK_SIZE == 1 + (i - (position + CHUNK_SIZE)) / CHUNK_SIZE
  {
  }

  /** Then all of it is read, 1 MiB by each read. */
  lemma {:induction false} ReadInPieces(env: Environment, path: string, position: nat, tick: nat, size: nat, i: nat)
    requires KeepsLength(env, path, tick, size) && position <= size
    ensures ReadSize(env, path, position, tick) == size
    ensures position <= i < size ==> ReadAt(env, path, position, tick, i) == tick + 1 + (i - position) / CHUNK_SIZE
    decreases size - position
  {
    var chunk := NextChunk(env, path, position, tick + 1);
    ChunkSize(env, path, tick, position, size);
    hide NextChunk;
    if chunk != [] {
      ReadInPieces(env, path, position + |chunk|, tick + 1, size, i);
      if position + |chunk| <= i < size {
        NextQuotient(position, i);
      }
    }
  }

  /**
   * In particular, a source that keeps its length is recorded with given bytes if and only if it holds the first 1 MiB
   * of them at the first read, the next 1 MiB at the second one, and so on.
   */
  lemma CopiedInPieces(env: Environment, path: string, name: string, d: Disk, data: seq<Byte>)
    requires KeepsLength(env, path, d.clock + 1, |data|)
    ensures CopiedBytes(env, path, d) == data <==>
            forall i :: 0 <= i < |data| ==> env.held(d.clock + 2 + i / CHUNK_SIZE, path)[i] == data[i]
  {
    CopiedExactly(env, path, name, d, data);
    ReadInPieces(env, path, 0, d.clock + 1, |data|, 0);
    hide ReadAt, ReadSize, Stream, CopiedBytes, HeldWhenRead;
    forall i | 0 <= i < |data|
      ensures HeldWhenRead(env, path, d, i, data[i]) <==> env.held(d.clock + 2 + i / CHUNK_SIZE, path)[i] == data[i]
    {
      HeldInPieces(env, path, d, data, i);
    }
  }

  lemma HeldInPieces(env: Environment, path: string, d: Disk, data: seq<Byte>, i: nat)
    requires KeepsLength(env, path, d.clock + 1, |data|) && i < |data|
    ensures |env.held(d.clock + 2 + i / CHUNK_SIZE, path)| == |data|
    ensures HeldWhenRead(env, path, d, i, data[i]) <==> env.held(d.clock + 2 + i / CHUNK_SIZE, path)[i] == data[i]
  {
    ReadInPieces(env, path, 0, d.clock + 1, |data|, i);
    hide ReadAt;
  }

  lemma WritesOn(content: seq<Byte>, chunk: seq<Byte>)
    ensures Overwritten(content, |content|, chunk) == content + chunk
  {
  }

  lemma UpdatedTwice(files: Files, name: string, first: seq<Byte>, second: seq<Byte>)
    ensures files[name := first][name := second] == files[name := second]
  {
  }

  /** When no other process touches the staged files meanwhile, the copy holds the bytes that were hashed. */
  lemma {:induction false} CopyHoldsStream(env: Environment, path: string, name: string, hashed: seq<Byte>, d: Disk)
    requires forall t, files :: t >= d.clock ==> env.touchStaging(t, files) == Some(files)
    requires d.staging.Some? && name in d.staging.value && d.staging.value[name] == hashed
    ensures var (r, d1) := CopyRest(env, path, name, hashed, d);
            r.Success? ==> d1.staging == Some(d.staging.value[name := r.value])
    decreases env.largest - |hashed|
  {
    var now := Later(env, d);
    assert now.staging == d.staging;
    var chunk := NextChunk(env, path, |hashed|, now.clock);
    hide NextChunk, Later;
    if !env.fails(now.clock) {
      if chunk == [] {
        assert d.staging.value[name := hashed] == d.staging.value;
      } else {
        WritesOn(hashed, chunk);
        hide Overwritten;
        var next := WriteChunk(now, name, |hashed|, chunk);
        assert next.staging == Some(d.staging.value[name := hashed + chunk]);
        CopyHoldsStream(env, path, name, hashed + chunk, next);
        var r := CopyRest(env, path, name, hashed + chunk, next).0;
        if r.Success? {
          UpdatedTwice(d.staging.value, name, hashed + chunk, r.value);
        }
      }
    }
  }

  lemma CopyReads(env: Environment, path: string, name: string, d: Disk)
    ensures var r, read := Copy(env, path, name, d).0, CopiedBytes(env, path, d);
            r.Success? ==> r.value == (env.sha256(read), |read|)
  {
    hide OpenBoth, CopyRest, Stream, SetMode;
    var d1 := OpenBoth(env, path, name, d).1;
    OpenTakesOneStep(env, path, name, d);
    CopyRestReads(env, path, name, [], d1);
  }

  lemma OpenTakesOneStep(env: Environment, path: string, name: string, d: Disk)
    ensures OpenBoth(env, path, name, d).1.clock == d.clock + 1
  {
  }

  lemma CopyOneMeaning(env: Environment, arch: string, taken: set<string>, given: Given, d: Disk)
    ensures var (r, d1) := CopyOne(env, arch, taken, given, d);
            r.Success? ==> Recorded(env, arch, given, r.value) && r.value.record.name !in taken
  {
    if CopyOne(env, arch, taken, given, d).0.Success? {
      NeverTheManifest(given.role, arch, given.path);
      CopyReads(env, given.path, Admit(arch, taken, given).value.0, Later(env, d));
      hide RoleTable, ArtifactName, ArtifactFormat, Copy, Stream;
    }
  }

  ghost predicate AllRecorded(env: Environment, arch: string, given: seq<Given>, copied: seq<Labelled>) {
    && |copied| == |given|
    && (forall i :: 0 <= i < |given| ==> Recorded(env, arch, given[i], copied[i]))
    && (forall i, j :: 0 <= i < j < |copied| ==> copied[i].record.name != copied[j].record.name)
  }

  lemma RecordedAppend(env: Environment, arch: string, given: seq<Given>, front: seq<Labelled>, last: Labelled)
    requires given != [] && AllRecorded(env, arch, given[..|given| - 1], front)
    requires Recorded(env, arch, given[|given| - 1], last) && last.record.name !in NamesOf(front)
    ensures AllRecorded(env, arch, given, front + [last])
  {
    hide Recorded;
  }

  /** Every argument is recorded once, in order, under its own name. */
  lemma {:induction false} CopyAllMeaning(env: Environment, arch: string, given: seq<Given>, d: Disk)
    ensures var (r, d1) := CopyAll(env, arch, given, d);
            r.Success? ==> AllRecorded(env, arch, given, r.value)
    decreases |given|
  {
    if given != [] {
      var (front, d1) := CopyAll(env, arch, given[..|given| - 1], d);
      CopyAllMeaning(env, arch, given[..|given| - 1], d);
      if front.Success? {
        var last := CopyOne(env, arch, NamesOf(front.value), given[|given| - 1], d1).0;
        CopyOneMeaning(env, arch, NamesOf(front.value), given[|given| - 1], d1);
        if last.Success? {
          assert CopyAll(env, arch, given, d).0 == Success(front.value + [last.value]) by { hide CopyOne, NamesOf; }
          hide *;
          RecordedAppend(env, arch, given, front.value, last.value);
        }
      }
      hide CopyOne, NamesOf, AllRecorded, Recorded;
    }
  }
}
