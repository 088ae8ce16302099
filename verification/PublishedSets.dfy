/** What a successful `emit` has published. */
module PublishedSets {
  import opened Wrappers
  import opened Bytes
  import opened ImageSets
  import opened Emitting
  import opened EmittingMeaning
  import Observing

  // ---------------------------------------------------------------- grouping loses and repeats nothing

  function RecordSeq(copied: seq<Labelled>): (records: seq<Record>)
    ensures |records| == |copied| && forall i :: 0 <= i < |copied| ==> records[i] == copied[i].record
  {
    seq(|copied|, i requires 0 <= i < |copied| => copied[i].record)
  }

  /** The artifacts of some roles, one role after the other. */
  function Listed(copied: seq<Labelled>, roles: seq<string>): seq<Record> {
    if roles == [] then [] else Listed(copied, roles[..|roles| - 1]) + ArtifactsOf(copied, roles[|roles| - 1])
  }

  lemma {:induction false} ListedAppend(copied: seq<Labelled>, x: Labelled, roles: seq<string>)
    requires forall i, j :: 0 <= i < j < |roles| ==> roles[i] != roles[j]
    ensures multiset(Listed(copied + [x], roles)) ==
            multiset(Listed(copied, roles)) + (if x.role in roles then multiset{x.record} else multiset{})
    decreases |roles|
  {
    if roles != [] {
      var front, last := roles[..|roles| - 1], roles[|roles| - 1];
      assert roles == front + [last];
      ListedAppend(copied, x, front);
      ArtifactsAppend(copied, x, last);
      assert last !in front;
      hide ArtifactsOf;
    }
  }

  lemma ListedNew(copied: seq<Labelled>, roles: seq<string>, role: string)
    requires role !in RolesOf(copied)
    ensures Listed(copied, roles + [role]) == Listed(copied, roles)
  {
    assert (roles + [role])[..|roles|] == roles;
    NoArtifactsOf(copied, role);
  }

  lemma RecordsAppend(front: seq<Labelled>, x: Labelled)
    ensures multiset(RecordSeq(front + [x])) == multiset(RecordSeq(front)) + multiset{x.record}
  {
    assert RecordSeq(front + [x]) == RecordSeq(front) + [x.record];
  }

  lemma {:induction false} GroupingConserves(copied: seq<Labelled>)
    ensures multiset(Listed(copied, RolesOf(copied))) == multiset(RecordSeq(copied))
    decreases |copied|
  {
    if copied != [] {
      var front, x := copied[..|copied| - 1], copied[|copied| - 1];
      assert copied == front + [x];
      var before := RolesOf(front);
      GroupingConserves(front);
      RolesAppend(front, x);
      RecordsAppend(front, x);
      hide RolesOf, Listed, RecordSeq;
      if x.role in before {
        ListedAppend(front, x, before);
      } else {
        ListedNew(front, before, x.role);
        ListedAppend(front, x, before + [x.role]);
      }
    }
  }

  lemma {:induction false} ListedRecords(arch: string, copied: seq<Labelled>, requests: seq<CapabilityRequest>, k: nat)
    requires KnownRoles(copied) && k <= |RolesOf(copied)|
    ensures RecordsOf(MembersOf(arch, copied, requests)[..k]) == Listed(copied, RolesOf(copied)[..k])
  {
    var members, roles := MembersOf(arch, copied, requests), RolesOf(copied);
    hide *;
    if k == 0 {
      NothingListed(members, copied, roles);
    } else {
      ListedRecords(arch, copied, requests, k - 1);
      MemberArtifacts(arch, copied, requests, k - 1);
      RecordsStep(members, k);
      ListedStep(copied, roles, k);
    }
  }

  lemma NothingListed(members: seq<Member>, copied: seq<Labelled>, roles: seq<string>)
    ensures RecordsOf(members[..0]) == [] && Listed(copied, roles[..0]) == []
  {
  }

  lemma MemberArtifacts(arch: string, copied: seq<Labelled>, requests: seq<CapabilityRequest>, k: nat)
    requires KnownRoles(copied) && k < |RolesOf(copied)|
    ensures MembersOf(arch, copied, requests)[k].artifacts == ArtifactsOf(copied, RolesOf(copied)[k])
  {
    hide RolesOf, ArtifactsOf, CapabilitiesOf;
  }

  lemma RecordsStep(members: seq<Member>, k: nat)
    requires 0 < k <= |members|
    ensures RecordsOf(members[..k]) == RecordsOf(members[..k - 1]) + members[k - 1].artifacts
  {
    assert members[..k][..k - 1] == members[..k - 1];
  }

  lemma ListedStep(copied: seq<Labelled>, roles: seq<string>, k: nat)
    requires 0 < k <= |roles|
    ensures Listed(copied, roles[..k]) == Listed(copied, roles[..k - 1]) + ArtifactsOf(copied, roles[k - 1])
  {
    assert roles[..k][..k - 1] == roles[..k - 1];
    hide ArtifactsOf;
  }

  /** Every recorded artifact is listed in the manifest once: the members hold the copied records, regrouped. */
  lemma MembersHoldTheRecords(arch: string, copied: seq<Labelled>, requests: seq<CapabilityRequest>)
    requires KnownRoles(copied)
    ensures multiset(RecordsOf(MembersOf(arch, copied, requests))) == multiset(RecordSeq(copied))
  {
    var members, roles := MembersOf(arch, copied, requests), RolesOf(copied);
    ListedRecords(arch, copied, requests, |roles|);
    GroupingConserves(copied);
    assert members[..|roles|] == members && roles[..|roles|] == roles;
    hide RolesOf, MembersOf, Listed, RecordsOf, RecordSeq;
  }

  // ---------------------------------------------------------------- the recheck

  /** When the digest of one of the records is read again. */
  function CheckAt(env: Environment, records: seq<Record>, i: nat, d: Disk): Disk
    requires i < |records|
  {
    Later(env, Recheck(env, records[..i], d).1)
  }

  predicate Holds(d: Disk, name: string) { d.staging.Some? && name in d.staging.value }

  /** The staged file had the recorded digest, and right after that the recorded size. */
  predicate Rechecked(env: Environment, record: Record, now: Disk) {
    && Holds(now, record.name) && env.sha256(now.staging.value[record.name]) == record.digest
    && Holds(Later(env, now), record.name) && |Later(env, now).staging.value[record.name]| == record.size
  }

  lemma {:induction false} RecheckMeaning(env: Environment, records: seq<Record>, d: Disk, i: nat)
    requires Recheck(env, records, d).0.Success? && i < |records|
    ensures Rechecked(env, records[i], CheckAt(env, records, i, d))
    decreases |records|
  {
    var front := records[..|records| - 1];
    if i == |front| {
      hide Recheck;
      RecheckStep(env, records, i, d);
      assert records[..i + 1] == records;
    } else {
      RecheckMeaning(env, front, d, i);
      assert front[..i] == records[..i];
      hide Rechecked, RecheckOne;
    }
  }

  // ---------------------------------------------------------------- a successful run

  lemma SuccessfulBuild(env: Environment, args: Args, d: Disk) returns (copied: seq<Labelled>)
    requires Build(env, args, d).0.Success?
    ensures KnownRoles(copied) && AllRecorded(env, args.arch, args.artifacts, copied)
    ensures Build(env, args, d).0.value == MembersOf(args.arch, copied, args.capabilities)
    ensures CapabilityFault(RolesOf(copied), args.capabilities) == None
    ensures CopyAll(env, args.arch, args.artifacts, d).0 == Success(copied)
  {
    hide CopyAll, RolesOf, MembersOf, CapabilityFault, AllRecorded, KnownRoles;
    copied := CopyAll(env, args.arch, args.artifacts, d).0.value;
    CopyAllMeaning(env, args.arch, args.artifacts, d);
  }

  lemma SuccessfulContract(env: Environment, members: seq<Member>, expected: int, d: Disk)
    ensures var r := BaseContract(env, members, expected, d).0; r.Success? ==> r.value == expected
  {
    hide RootContracts;
  }

  lemma SuccessfulIdentify(env: Environment, canonical: string, d: Disk)
    ensures var (r, d1) := Identify(env, canonical, d);
            && d1.clock == d.clock + 1
            && (r.Success? ==> Observing.Observe(env.checkout(d1.clock), canonical, {}) == Success(r.value))
  {
    hide Observing.Observe;
  }

  lemma SuccessfulCollect(env: Environment, args: Args, plan: Plan, d: Disk) returns (copied: seq<Labelled>)
    requires Collect(env, args, plan, d).0.Success?
    ensures var (r, d1) := Collect(env, args, plan, d);
            && KnownRoles(copied) && AllRecorded(env, args.arch, args.artifacts, copied)
            && CopyAll(env, args.arch, args.artifacts, d).0 == Success(copied)
            && r.value == (MembersOf(args.arch, copied, args.capabilities), plan.contract)
            && d.clock < d1.clock
            && Observing.Observe(env.checkout(d1.clock), args.canonical, {}) == Success(plan.before)
  {
    hide Build, BaseContract, Identify, MembersOf, Observing.Observe, AllRecorded, KnownRoles, Alone, CopyAll;
    copied := SuccessfulBuild(env, args, d);
    var (members, d1) := Build(env, args, d);
    BuildUntouched(env, args, d);
    var d2 := BaseContract(env, members.value, plan.contract, d1).1;
    BaseContractUntouched(env, members.value, plan.contract, d1);
    SuccessfulContract(env, members.value, plan.contract, d1);
    SuccessfulIdentify(env, args.canonical, d2);
    var (after, d3) := Identify(env, args.canonical, d2);
    assert d3 == Collect(env, args, plan, d).1;
    assert after == Success(plan.before);
    assert Observing.Observe(env.checkout(d3.clock), args.canonical, {}) == Success(after.value);
  }

  lemma SuccessfulPrepare(env: Environment, args: Args, d: Disk)
    ensures var (r, d1) := Prepare(env, args, d);
            r.Success? ==>
              && d1.clock == d.clock + 1
              && args.bootAbi == Some(r.value.bootAbi) && args.imageContract == Some(r.value.contract)
              && args.locks == Some(r.value.locks)
              && Observing.Observe(env.checkout(d1.clock), args.canonical, {}) == Success(r.value.before)
  {
    hide Observing.Observe;
  }

  /** The disk when the artifacts have been copied and the checkout observed again. */
  ghost function CollectedAt(env: Environment, args: Args, d: Disk): Disk {
    var (plan, d1) := Prepare(env, args, d);
    if plan.Failure? then d1 else Collect(env, args, plan.value, MakeStaging(env, d1).1).1
  }

  /** The records a run makes. */
  ghost function CopiedBy(env: Environment, args: Args, d: Disk): Result<seq<Labelled>, Reason> {
    CopyAll(env, args.arch, args.artifacts, MakeStaging(env, Prepare(env, args, d).1).1).0
  }

  /** The last steps of a successful run. */
  lemma SuccessfulEnd(env: Environment, args: Args, d: Disk)
    requires Emit(env, args, d).0.Success?
    ensures var (plan, d1) := Prepare(env, args, d);
            var (made, d2) := MakeStaging(env, d1);
            var collected := CollectedAt(env, args, d);
            && plan.Success? && made.Success?
            && Collect(env, args, plan.value, d2).0.Success? && Collect(env, args, plan.value, d2).1 == collected
            && var (members, contract) := Collect(env, args, plan.value, d2).0.value;
            && var manifest := ManifestOf(args, plan.value, members, contract);
            && Emit(env, args, d).0 == Success(manifest)
            && Seal(env, manifest, collected).0.Success?
            && Publish(env, Seal(env, manifest, collected).1).0.Success?
            && Publish(env, Seal(env, manifest, collected).1).1 == Emit(env, args, d).1
  {
    hide Prepare, MakeStaging, Collect, Seal, Publish, ManifestOf;
    var (plan, d1) := Prepare(env, args, d);
    var (made, d2) := MakeStaging(env, d1);
    assert plan.Success? && made.Success?;
    var (collected, d3) := Collect(env, args, plan.value, d2);
    assert collected.Success?;
    assert d3 == CollectedAt(env, args, d);
    var manifest := ManifestOf(args, plan.value, collected.value.0, collected.value.1);
    var (sealed, d4) := Seal(env, manifest, d3);
    assert sealed.Success?;
    var (published, d5) := Publish(env, d4);
    assert published.Success?;
    assert Emit(env, args, d) == (Success(manifest), d5);
  }

  /**
   * A successful run observed one checkout identity before the first copy and after the last one, recorded every
   * argument, and found every staged artifact as recorded when it looked again.
   */
  lemma SuccessMeans(env: Environment, args: Args, d: Disk) returns (copied: seq<Labelled>)
    requires Emit(env, args, d).0.Success?
    ensures var manifest, collected := Emit(env, args, d).0.value, CollectedAt(env, args, d);
            && KnownRoles(copied) && AllRecorded(env, args.arch, args.artifacts, copied)
            && CopiedBy(env, args, d) == Success(copied)
            && manifest.members == MembersOf(args.arch, copied, args.capabilities)
            && Some(manifest.contract) == args.imageContract && Some(manifest.bootAbi) == args.bootAbi
            && d.clock + 1 < collected.clock
            && Observing.Observe(env.checkout(d.clock + 1), args.canonical, {}) == Success(manifest.checkout)
            && Observing.Observe(env.checkout(collected.clock), args.canonical, {}) == Success(manifest.checkout)
            && AllRechecked(env, RecordsOf(manifest.members), collected)
  {
    var (plan, d1) := Prepare(env, args, d);
    SuccessfulEnd(env, args, d);
    SuccessfulPrepare(env, args, d);
    var d2 := MakeStaging(env, d1).1;
    assert d2.clock == d1.clock + 1;
    copied := SuccessfulCollect(env, args, plan.value, d2);
    assert CopiedBy(env, args, d) == Success(copied);
    var manifest := Emit(env, args, d).0.value;
    var collected := CollectedAt(env, args, d);
    assert Recheck(env, RecordsOf(manifest.members), collected).0.Success? by {
      hide Prepare, MakeStaging, Collect, Recheck, Publish, RecordsOf, Emit, CollectedAt, AllRecorded, KnownRoles;
    }
    RecheckedAll(env, RecordsOf(manifest.members), collected);
    hide Prepare, MakeStaging, Collect, Seal, Publish, RecordsOf, Emit, CollectedAt, MembersOf, CopiedBy, CopyAll, AllRecorded, KnownRoles, AllRechecked, Recheck, Observing.Observe;
  }

  ghost predicate AllRechecked(env: Environment, records: seq<Record>, d: Disk) {
    forall i :: 0 <= i < |records| ==> Rechecked(env, records[i], CheckAt(env, records, i, d))
  }

  lemma RecheckedAll(env: Environment, records: seq<Record>, d: Disk)
    requires Recheck(env, records, d).0.Success?
    ensures AllRechecked(env, records, d)
  {
    hide Recheck, Rechecked, CheckAt;
    forall i | 0 <= i < |records|
      ensures Rechecked(env, records[i], CheckAt(env, records, i, d))
    {
      RecheckMeaning(env, records, d, i);
    }
  }

  // ---------------------------------------------------------------- the contracts of the staged roots

  /** The disk on which the root of one of the members is read. */
  function RootReadAt(env: Environment, members: seq<Member>, i: nat, d: Disk): Disk
    requires i < |members|
  {
    Later(env, RootContracts(env, members[..i], d).1)
  }

  /** A workload root member has one ext4 artifact, and its staged bytes carry the contract. */
  predicate Carries(env: Environment, member: Member, contract: int, now: Disk) {
    var roots := Ext4Of(member.artifacts);
    |roots| == 1 && Holds(now, roots[0].name) && env.rootContract(now.staging.value[roots[0].name]) == Some(contract)
  }

  lemma {:induction false} RootsRead(env: Environment, members: seq<Member>, d: Disk, i: nat) returns (contract: int)
    requires RootContracts(env, members, d).0.Success? && i < |members| && IsRoot(members[i])
    ensures contract in RootContracts(env, members, d).0.value
    ensures Carries(env, members[i], contract, RootReadAt(env, members, i, d))
    decreases |members|
  {
    hide IsRoot, Ext4Of, Later;
    var front := members[..|members| - 1];
    if i == |front| {
      var now := RootReadAt(env, members, i, d);
      contract := env.rootContract(now.staging.value[Ext4Of(members[i].artifacts)[0].name]).value;
    } else {
      contract := RootsRead(env, front, d, i);
      assert front[..i] == members[..i];
    }
  }

  lemma ContractsAgree(env: Environment, members: seq<Member>, expected: int, d: Disk, i: nat)
    requires BaseContract(env, members, expected, d).0.Success? && i < |members| && IsRoot(members[i])
    ensures Carries(env, members[i], expected, RootReadAt(env, members, i, d))
  {
    hide RootContracts, Carries, RootReadAt, IsRoot;
    var contract := RootsRead(env, members, d, i);
  }

  /** The disk when the members have been built. */
  ghost function BuiltAt(env: Environment, args: Args, d: Disk): Disk {
    Build(env, args, MakeStaging(env, Prepare(env, args, d).1).1).1
  }

  /** After a success, every workload root had one ext4 artifact, which carried the recorded contract when it was read. */
  lemma RootsCarryContract(env: Environment, args: Args, d: Disk, i: nat)
    requires Emit(env, args, d).0.Success?
    requires i < |Emit(env, args, d).0.value.members| && IsRoot(Emit(env, args, d).0.value.members[i])
    ensures var manifest := Emit(env, args, d).0.value;
            Carries(env, manifest.members[i], manifest.contract, RootReadAt(env, manifest.members, i, BuiltAt(env, args, d)))
  {
    SuccessfulEnd(env, args, d);
    var plan, d1 := Prepare(env, args, d).0.value, Prepare(env, args, d).1;
    var d2 := MakeStaging(env, d1).1;
    CollectedContract(env, args, plan, d2);
    var manifest := Emit(env, args, d).0.value;
    assert BuiltAt(env, args, d) == Build(env, args, d2).1;
    hide Prepare, MakeStaging, Collect, Seal, Publish, Emit, CollectedAt, Build, BaseContract, BuiltAt, Carries, RootReadAt,
         IsRoot;
    ContractsAgree(env, manifest.members, plan.contract, Build(env, args, d2).1, i);
  }

  lemma CollectedContract(env: Environment, args: Args, plan: Plan, d: Disk)
    requires Collect(env, args, plan, d).0.Success?
    ensures var (members, d1) := Build(env, args, d);
            && members == Success(Collect(env, args, plan, d).0.value.0)
            && BaseContract(env, members.value, plan.contract, d1).0 == Success(plan.contract)
            && Collect(env, args, plan, d).0.value.1 == plan.contract
  {
    var (members, d1) := Build(env, args, d);
    hide Build, RootContracts, Identify;
  }

  // ---------------------------------------------------------------- the names of the staged files

  /** Other processes may change or remove staged files, but add none. */
  ghost predicate AddsNothing(env: Environment) {
    forall t, files :: env.touchStaging(t, files).Some? ==> env.touchStaging(t, files).value.Keys <= files.Keys
  }

  ghost predicate LeavesStagingAlone(env: Environment, from: nat) {
    forall t, files :: t >= from ==> env.touchStaging(t, files) == Some(files)
  }

  predicate Within(d: Disk, names: set<string>) { d.staging.Some? ==> d.staging.value.Keys <= names }

  lemma WaitWithin(env: Environment, d: Disk, names: set<string>)
    requires AddsNothing(env) && Within(d, names)
    ensures Within(Later(env, d), names)
  {
  }

  lemma {:induction false} CopyRestWithin(
    env: Environment, path: string, name: string, hashed: seq<Byte>, d: Disk, names: set<string>)
    requires AddsNothing(env) && Within(d, names)
    ensures Within(CopyRest(env, path, name, hashed, d).1, names)
    decreases env.largest - |hashed|
  {
    hide AddsNothing, NextChunk, Overwritten, Later;
    var now := Later(env, d);
    WaitWithin(env, d, names);
    var chunk := NextChunk(env, path, |hashed|, now.clock);
    if !env.fails(now.clock) && chunk != [] {
      CopyRestWithin(env, path, name, hashed + chunk, WriteChunk(now, name, |hashed|, chunk), names);
    }
  }

  lemma CopyWithin(env: Environment, path: string, name: string, d: Disk, taken: set<string>)
    requires AddsNothing(env) && Within(d, taken)
    ensures var (r, d1) := Copy(env, path, name, d); r.Success? ==> Within(d1, taken + {name})
  {
    hide AddsNothing, CopyRest, Later;
    WaitWithin(env, d, taken);
    var (files, d1) := OpenBoth(env, path, name, d);
    if files.Success? {
      assert Within(d1, taken + {name});
      CopyRestWithin(env, path, name, [], d1, taken + {name});
      WaitWithin(env, CopyRest(env, path, name, [], d1).1, taken + {name});
    }
  }

  lemma CopyOneWithin(env: Environment, arch: string, taken: set<string>, given: Given, d: Disk)
    requires AddsNothing(env) && Within(d, taken)
    ensures var (r, d1) := CopyOne(env, arch, taken, given, d); r.Success? ==> Within(d1, taken + {r.value.record.name})
  {
    hide AddsNothing, Admit, Later, Copy, Within;
    WaitWithin(env, d, taken);
    if Admit(arch, taken, given).Success? {
      var name := Admit(arch, taken, given).value.0;
      CopyWithin(env, given.path, name, Later(env, d), taken);
      var copied := Copy(env, given.path, name, Later(env, d));
      assert CopyOne(env, arch, taken, given, d).0.Success? ==>
               copied.0.Success? && CopyOne(env, arch, taken, given, d).1 == copied.1
               && CopyOne(env, arch, taken, given, d).0.value.record.name == name;
    }
  }

  lemma {:induction false} CopyAllWithin(env: Environment, arch: string, given: seq<Given>, d: Disk)
    requires AddsNothing(env) && Within(d, {})
    ensures var (r, d1) := CopyAll(env, arch, given, d); r.Success? ==> Within(d1, NamesOf(r.value))
    decreases |given|
  {
    if given != [] {
      var (front, d1) := CopyAll(env, arch, given[..|given| - 1], d);
      CopyAllWithin(env, arch, given[..|given| - 1], d);
      if front.Success? {
        var last := CopyOne(env, arch, NamesOf(front.value), given[|given| - 1], d1).0;
        CopyOneWithin(env, arch, NamesOf(front.value), given[|given| - 1], d1);
        if last.Success? {
          NamesAppend(front.value, last.value);
        }
      }
    }
    hide AddsNothing, CopyOne, NamesOf, Within;
  }

  lemma {:induction false} RootContractsWithin(env: Environment, members: seq<Member>, d: Disk, names: set<string>)
    requires AddsNothing(env) && Within(d, names)
    ensures Within(RootContracts(env, members, d).1, names)
    decreases |members|
  {
    if members != [] {
      RootContractsWithin(env, members[..|members| - 1], d, names);
      WaitWithin(env, RootContracts(env, members[..|members| - 1], d).1, names);
    }
    hide AddsNothing, Within, IsRoot, Ext4Of, Later;
  }

  lemma BuildDisk(env: Environment, args: Args, d: Disk)
    ensures Build(env, args, d).1 == CopyAll(env, args.arch, args.artifacts, d).1
  {
    hide CopyAll, Assemble;
  }

  lemma BaseContractDisk(env: Environment, members: seq<Member>, expected: int, d: Disk)
    ensures BaseContract(env, members, expected, d).1 == RootContracts(env, members, d).1
  {
    hide RootContracts;
  }

  lemma IdentifyDisk(env: Environment, canonical: string, d: Disk)
    ensures Identify(env, canonical, d).1 == Later(env, d)
  {
    hide Observing.Observe, Later;
  }

  lemma CollectDisk(env: Environment, args: Args, plan: Plan, d: Disk)
    requires Collect(env, args, plan, d).0.Success?
    ensures var (members, d1) := Build(env, args, d);
            && members.Success?
            && Collect(env, args, plan, d).1
               == Identify(env, args.canonical, BaseContract(env, members.value, plan.contract, d1).1).1
  {
    var (members, d1) := Build(env, args, d);
    assert members.Success?;
    hide Build, BaseContract, Identify;
  }

  lemma CollectWithin(env: Environment, args: Args, plan: Plan, d: Disk, copied: seq<Labelled>)
    requires AddsNothing(env) && d.staging == Some(map[])
    requires Collect(env, args, plan, d).0.Success? && CopyAll(env, args.arch, args.artifacts, d).0 == Success(copied)
    ensures Within(Collect(env, args, plan, d).1, NamesOf(copied))
  {
    CopyAllWithin(env, args.arch, args.artifacts, d);
    hide *;
    BuildDisk(env, args, d);
    CollectDisk(env, args, plan, d);
    var (members, d1) := Build(env, args, d);
    RootContractsWithin(env, members.value, d1, NamesOf(copied));
    BaseContractDisk(env, members.value, plan.contract, d1);
    var d2 := BaseContract(env, members.value, plan.contract, d1).1;
    WaitWithin(env, d2, NamesOf(copied));
    IdentifyDisk(env, args.canonical, d2);
  }

  /** A staged file is what its record says. */
  predicate Matches(env: Environment, files: Files, record: Record) {
    record.name in files && env.sha256(files[record.name]) == record.digest && |files[record.name]| == record.size
  }

  lemma RecordsAreListed(arch: string, copied: seq<Labelled>, requests: seq<CapabilityRequest>, name: string)
    requires KnownRoles(copied) && name in NamesOf(copied)
    ensures exists i :: 0 <= i < |RecordsOf(MembersOf(arch, copied, requests))|
                        && RecordsOf(MembersOf(arch, copied, requests))[i].name == name
  {
    MembersHoldTheRecords(arch, copied, requests);
    var listed := RecordsOf(MembersOf(arch, copied, requests));
    var k :| 0 <= k < |copied| && copied[k].record.name == name;
    hide *;
    var record := RecordSeq(copied)[k];
    assert record in multiset(RecordSeq(copied));
    assert record in multiset(listed);
    assert record in listed;
  }

  lemma ListedAreRecords(arch: string, copied: seq<Labelled>, requests: seq<CapabilityRequest>, i: nat)
    requires KnownRoles(copied) && i < |RecordsOf(MembersOf(arch, copied, requests))|
    ensures RecordsOf(MembersOf(arch, copied, requests))[i].name in NamesOf(copied)
  {
    MembersHoldTheRecords(arch, copied, requests);
    var record := RecordsOf(MembersOf(arch, copied, requests))[i];
    assert record in multiset(RecordsOf(MembersOf(arch, copied, requests))) by { hide *; }
    assert record in RecordSeq(copied) by { hide *; }
    var k :| 0 <= k < |copied| && RecordSeq(copied)[k] == record;
    assert copied[k].record.name == record.name;
    hide RecordsOf, MembersOf;
  }

  /** Exactly the manifest and the copied artifacts, each as its record says. */
  ghost predicate HoldsExactly(env: Environment, files: Files, copied: seq<Labelled>, manifest: Manifest) {
    && files.Keys == NamesOf(copied) + {MANIFEST_NAME}
    && files[MANIFEST_NAME] == env.render(manifest)
    && forall i :: 0 <= i < |RecordsOf(manifest.members)| ==> Matches(env, files, RecordsOf(manifest.members)[i])
  }

  lemma FilesHoldExactly(env: Environment, staged: Files, files: Files, arch: string, copied: seq<Labelled>,
                         requests: seq<CapabilityRequest>, manifest: Manifest)
    requires KnownRoles(copied) && manifest.members == MembersOf(arch, copied, requests)
    requires MANIFEST_NAME !in NamesOf(copied) && staged.Keys <= NamesOf(copied)
    requires forall i :: 0 <= i < |RecordsOf(manifest.members)| ==> Matches(env, staged, RecordsOf(manifest.members)[i])
    requires files == staged[MANIFEST_NAME := env.render(manifest)]
    ensures HoldsExactly(env, files, copied, manifest)
  {
    var records := RecordsOf(manifest.members);
    forall name | name in NamesOf(copied)
      ensures name in staged
    {
      RecordsAreListed(arch, copied, requests, name);
      var i :| 0 <= i < |records| && records[i].name == name;
      assert Matches(env, staged, records[i]);
    }
    forall i | 0 <= i < |records|
      ensures Matches(env, files, records[i])
    {
      assert Matches(env, staged, records[i]);
      ListedAreRecords(arch, copied, requests, i);
    }
    hide RecordsOf, MembersOf, NamesOf;
  }

  lemma NotTheManifest(env: Environment, arch: string, given: seq<Given>, copied: seq<Labelled>)
    requires AllRecorded(env, arch, given, copied)
    ensures MANIFEST_NAME !in NamesOf(copied)
  {
    forall i | 0 <= i < |copied|
      ensures copied[i].record.name != MANIFEST_NAME
    {
      assert Recorded(env, arch, given[i], copied[i]);
    }
  }

  lemma SuccessWithin(env: Environment, args: Args, d: Disk, copied: seq<Labelled>)
    requires Emit(env, args, d).0.Success? && AddsNothing(env)
    requires CopiedBy(env, args, d) == Success(copied)
    ensures Within(CollectedAt(env, args, d), NamesOf(copied))
  {
    SuccessfulEnd(env, args, d);
    var (plan, d1) := Prepare(env, args, d);
    var d2 := MakeStaging(env, d1).1;
    assert d2.staging == Some(map[]);
    CollectWithin(env, args, plan.value, d2, copied);
    hide Prepare, Collect, Emit, CollectedAt, Within, NamesOf, AddsNothing, MakeStaging, CopyAll;
  }

  // ---------------------------------------------------------------- what other processes make of the staged files

  /** What the other processes alone make of the staged files. */
  function AloneStaged(env: Environment, from: nat, end: nat, staging: Option<Files>): Option<Files>
    decreases end
  {
    if end <= from then staging
    else
      var before := AloneStaged(env, from, end - 1, staging);
      if before.None? then None else env.touchStaging(end - 1, before.value)
  }

  lemma {:induction false} AloneStagedTwice(env: Environment, a: nat, b: nat, c: nat, staging: Option<Files>)
    requires a <= b <= c
    ensures AloneStaged(env, b, c, AloneStaged(env, a, b, staging)) == AloneStaged(env, a, c, staging)
    decreases c
  {
    if b < c {
      AloneStagedTwice(env, a, b, c - 1, staging);
    }
  }

  /** Between two states, the program did not touch the staged files. */
  ghost predicate LeftStaged(env: Environment, d: Disk, later: Disk) {
    d.clock <= later.clock && later.staging == AloneStaged(env, d.clock, later.clock, d.staging)
  }

  lemma LeftTwice(env: Environment, a: Disk, b: Disk, c: Disk)
    requires LeftStaged(env, a, b) && LeftStaged(env, b, c)
    ensures LeftStaged(env, a, c)
  {
    AloneStagedTwice(env, a.clock, b.clock, c.clock, a.staging);
  }

  lemma WaitLeaves(env: Environment, d: Disk)
    ensures LeftStaged(env, d, d) && LeftStaged(env, d, Later(env, d))
  {
    assert AloneStaged(env, d.clock, d.clock, d.staging) == d.staging;
  }

  lemma RecheckOneLeaves(env: Environment, record: Record, d: Disk)
    ensures LeftStaged(env, d, RecheckOne(env, record, d).1)
  {
    var d1 := Later(env, d);
    WaitLeaves(env, d);
    WaitLeaves(env, d1);
    LeftTwice(env, d, d1, Later(env, d1));
    hide LeftStaged, Later;
  }

  lemma {:induction false} RecheckLeaves(env: Environment, records: seq<Record>, d: Disk)
    ensures LeftStaged(env, d, Recheck(env, records, d).1)
    decreases |records|
  {
    hide LeftStaged, RecheckOne;
    if records == [] {
      WaitLeaves(env, d);
    } else {
      var front := Recheck(env, records[..|records| - 1], d).1;
      RecheckLeaves(env, records[..|records| - 1], d);
      RecheckOneLeaves(env, records[|records| - 1], front);
      LeftTwice(env, d, front, RecheckOne(env, records[|records| - 1], front).1);
    }
  }

  lemma {:induction false} RecheckTicks(env: Environment, records: seq<Record>, d: Disk)
    requires Recheck(env, records, d).0.Success?
    ensures Recheck(env, records, d).1.clock == d.clock + 2 * |records|
    decreases |records|
  {
    if records != [] {
      RecheckTicks(env, records[..|records| - 1], d);
      hide Recheck;
    }
  }

  lemma {:induction false} RecheckFront(env: Environment, records: seq<Record>, i: nat, d: Disk)
    requires Recheck(env, records, d).0.Success? && i <= |records|
    ensures Recheck(env, records[..i], d).0.Success?
    decreases |records|
  {
    hide RecheckOne;
    if i == |records| {
      assert records[..i] == records;
    } else {
      var front := records[..|records| - 1];
      RecheckFront(env, front, i, d);
      assert front[..i] == records[..i];
    }
  }

  /** Every record takes two steps: one for the digest and one for the size. */
  lemma CheckTick(env: Environment, records: seq<Record>, i: nat, d: Disk)
    requires Recheck(env, records, d).0.Success? && i < |records|
    ensures CheckAt(env, records, i, d).clock == d.clock + 2 * i + 1
  {
    hide Recheck, Later;
    RecheckFront(env, records, i, d);
    RecheckTicks(env, records[..i], d);
  }

  /** The files at a recheck are what the other processes have made of the collected ones. */
  lemma CheckLeaves(env: Environment, records: seq<Record>, i: nat, d: Disk)
    requires i < |records|
    ensures LeftStaged(env, d, CheckAt(env, records, i, d)) && LeftStaged(env, d, Later(env, CheckAt(env, records, i, d)))
  {
    hide LeftStaged, Later, Recheck;
    var d1 := Recheck(env, records[..i], d).1;
    RecheckLeaves(env, records[..i], d);
    WaitLeaves(env, d1);
    LeftTwice(env, d, d1, Later(env, d1));
    WaitLeaves(env, Later(env, d1));
    LeftTwice(env, d, Later(env, d1), Later(env, Later(env, d1)));
  }

  /** When the manifest is written: behind two steps for each record. */
  function ManifestTick(manifest: Manifest, collected: Disk): nat { collected.clock + 2 * |RecordsOf(manifest.members)| + 1 }

  lemma SealAdds(env: Environment, manifest: Manifest, d: Disk)
    requires Seal(env, manifest, d).0.Success?
    ensures var d1 := Seal(env, manifest, d).1; var alone := AloneStaged(env, d.clock, d1.clock, d.staging);
            && d1.clock == ManifestTick(manifest, d) && alone.Some?
            && d1.staging == Some(alone.value[MANIFEST_NAME := env.render(manifest)])
  {
    var d1 := Recheck(env, RecordsOf(manifest.members), d).1;
    RecheckLeaves(env, RecordsOf(manifest.members), d);
    RecheckTicks(env, RecordsOf(manifest.members), d);
    WaitLeaves(env, d1);
    LeftTwice(env, d, d1, Later(env, d1));
    hide Recheck, Later, RecordsOf, AloneStaged;
  }

  lemma PublishMoves(env: Environment, d: Disk)
    requires Publish(env, d).0.Success?
    ensures var d1 := Publish(env, d).1; var alone := AloneStaged(env, d.clock, d1.clock, d.staging);
            d.clock < d1.clock && alone.Some? && d1.out == Directory(alone.value)
  {
    var d1 := Later(env, d);
    var d2 := Later(env, d1);
    WaitLeaves(env, d);
    WaitLeaves(env, d1);
    LeftTwice(env, d, d1, d2);
    var cleared := ClearOutput(env, d).1;
    assert (cleared.staging == d1.staging && cleared.clock == d1.clock)
           || (cleared.staging == d2.staging && cleared.clock == d2.clock);
    assert LeftStaged(env, d, cleared) by { hide AloneStaged, Later; }
    WaitLeaves(env, cleared);
    LeftTwice(env, d, cleared, Later(env, cleared));
    hide AloneStaged, ClearOutput, Later;
  }

  /** What the other processes alone have made of the collected files at a tick. */
  function StagedAt(env: Environment, collected: Disk, tick: nat): Option<Files> {
    AloneStaged(env, collected.clock, tick, collected.staging)
  }

  /** What they make of the collected files and then, once the manifest is among them, of all, until a tick. */
  function OthersMake(env: Environment, manifest: Manifest, collected: Disk, end: nat): Option<Files> {
    var sealed := ManifestTick(manifest, collected);
    var before := StagedAt(env, collected, sealed);
    if before.None? then None
    else AloneStaged(env, sealed, end, Some(before.value[MANIFEST_NAME := env.render(manifest)]))
  }

  /** What is published: the collected files with the manifest, as the other processes alone have changed them. */
  lemma PublishedFiles(env: Environment, args: Args, d: Disk)
    requires d.staging.None? && Emit(env, args, d).0.Success?
    ensures var (r, d1) := Emit(env, args, d);
            var made := OthersMake(env, r.value, CollectedAt(env, args, d), d1.clock);
            && CollectedAt(env, args, d).clock < ManifestTick(r.value, CollectedAt(env, args, d)) < d1.clock
            && made.Some? && d1.out == Directory(made.value)
  {
    SuccessfulEnd(env, args, d);
    hide Emit, CollectedAt, AloneStaged, RecordsOf, Seal, Publish, Prepare, MakeStaging, Collect;
    var manifest, collected := Emit(env, args, d).0.value, CollectedAt(env, args, d);
    SealAdds(env, manifest, collected);
    PublishMoves(env, Seal(env, manifest, collected).1);
  }

  /** A file has the digest that the other processes had given it at a tick, and the size one tick later. */
  predicate KeptSince(env: Environment, files: Files, name: string, collected: Disk, tick: nat) {
    var read, sized := StagedAt(env, collected, tick), StagedAt(env, collected, tick + 1);
    && name in files
    && read.Some? && name in read.value && env.sha256(files[name]) == env.sha256(read.value[name])
    && sized.Some? && name in sized.value && |files[name]| == |sized.value[name]|
  }

  /** The other processes add no file, leave the manifest alone, and keep each artifact since its recheck. */
  ghost predicate Kept(env: Environment, files: Files, copied: seq<Labelled>, manifest: Manifest, collected: Disk) {
    var records := RecordsOf(manifest.members);
    && files.Keys <= NamesOf(copied) + {MANIFEST_NAME}
    && MANIFEST_NAME in files && files[MANIFEST_NAME] == env.render(manifest)
    && forall i :: 0 <= i < |records| ==> KeptSince(env, files, records[i].name, collected, collected.clock + 2 * i + 1)
  }

  /** What was rechecked is what the other processes had made of the collected files. */
  lemma CheckSaw(env: Environment, records: seq<Record>, i: nat, d: Disk)
    requires Recheck(env, records, d).0.Success? && i < |records|
    ensures CheckAt(env, records, i, d).staging == StagedAt(env, d, d.clock + 2 * i + 1)
    ensures Later(env, CheckAt(env, records, i, d)).staging == StagedAt(env, d, d.clock + 2 * i + 2)
  {
    CheckTick(env, records, i, d);
    CheckLeaves(env, records, i, d);
    hide CheckAt, Recheck, AloneStaged;
  }

  lemma KeptMatches(env: Environment, files: Files, record: Record, checked: Disk, collected: Disk, tick: nat)
    requires Rechecked(env, record, checked)
    requires checked.staging == StagedAt(env, collected, tick) && Later(env, checked).staging == StagedAt(env, collected, tick + 1)
    ensures KeptSince(env, files, record.name, collected, tick) <==> Matches(env, files, record)
  {
    hide Later, StagedAt;
  }

  lemma KeptExactly(env: Environment, files: Files, arch: string, copied: seq<Labelled>, requests: seq<CapabilityRequest>,
                    manifest: Manifest, collected: Disk)
    requires KnownRoles(copied) && manifest.members == MembersOf(arch, copied, requests)
    requires Recheck(env, RecordsOf(manifest.members), collected).0.Success?
    ensures HoldsExactly(env, files, copied, manifest) <==> Kept(env, files, copied, manifest, collected)
  {
    var records := RecordsOf(manifest.members);
    hide Recheck, RecordsOf, MembersOf, NamesOf, CheckAt, Rechecked, KeptSince, Later, StagedAt;
    forall i | 0 <= i < |records|
      ensures KeptSince(env, files, records[i].name, collected, collected.clock + 2 * i + 1) <==> Matches(env, files, records[i])
    {
      RecheckMeaning(env, records, collected, i);
      CheckSaw(env, records, i, collected);
      KeptMatches(env, files, records[i], CheckAt(env, records, i, collected), collected, collected.clock + 2 * i + 1);
    }
    if forall i :: 0 <= i < |records| ==> Matches(env, files, records[i]) {
      forall name | name in NamesOf(copied)
        ensures name in files
      {
        RecordsAreListed(arch, copied, requests, name);
        var i :| 0 <= i < |records| && records[i].name == name;
        assert Matches(env, files, records[i]);
      }
    }
  }

  /**
   * After a success the output is what the other processes alone make of the collected files and the manifest.  It holds
   * exactly the manifest and the recorded artifacts if and only if they add no file, leave the manifest alone, and keep
   * the digest and the size of every artifact from the tick on at which it is rechecked.
   */
  lemma PublishedExactly(env: Environment, args: Args, d: Disk) returns (copied: seq<Labelled>)
    requires d.staging.None? && Emit(env, args, d).0.Success?
    ensures var (r, d1) := Emit(env, args, d);
            var made := OthersMake(env, r.value, CollectedAt(env, args, d), d1.clock);
            && AllRecorded(env, args.arch, args.artifacts, copied)
            && r.value.members == MembersOf(args.arch, copied, args.capabilities)
            && made.Some? && d1.out == Directory(made.value)
            && (HoldsExactly(env, made.value, copied, r.value)
                <==> Kept(env, made.value, copied, r.value, CollectedAt(env, args, d)))
  {
    hide *;
    copied := SuccessMeans(env, args, d);
    PublishedFiles(env, args, d);
    SealedIsRechecked(env, args, d);
    KeptExactly(env, Emit(env, args, d).1.out.files, args.arch, copied, args.capabilities,
                Emit(env, args, d).0.value, CollectedAt(env, args, d));
  }

  lemma SealedIsRechecked(env: Environment, args: Args, d: Disk)
    requires Emit(env, args, d).0.Success?
    ensures Recheck(env, RecordsOf(Emit(env, args, d).0.value.members), CollectedAt(env, args, d)).0.Success?
  {
    SuccessfulEnd(env, args, d);
    hide Emit, CollectedAt, Recheck, RecordsOf, Publish, Prepare, MakeStaging, Collect;
  }

  // ---------------------------------------------------------------- when nothing else writes to the staged files

  lemma {:induction false} AloneStagedIsStill(env: Environment, quiet: nat, from: nat, end: nat, staging: Option<Files>)
    requires LeavesStagingAlone(env, quiet) && quiet <= from
    ensures AloneStaged(env, from, end, staging) == staging
    decreases end
  {
    if from < end {
      AloneStagedIsStill(env, quiet, from, end - 1, staging);
    }
  }

  lemma StillChecked(env: Environment, records: seq<Record>, i: nat, d: Disk)
    requires LeavesStagingAlone(env, d.clock) && i < |records|
    ensures CheckAt(env, records, i, d).staging == d.staging
  {
    var checked := CheckAt(env, records, i, d);
    CheckLeaves(env, records, i, d);
    AloneStagedIsStill(env, d.clock, d.clock, checked.clock, d.staging);
    hide CheckAt, AloneStaged, LeavesStagingAlone, Later;
  }

  lemma AllMatch(env: Environment, records: seq<Record>, d: Disk)
    requires LeavesStagingAlone(env, d.clock) && AllRechecked(env, records, d) && d.staging.Some?
    ensures forall i :: 0 <= i < |records| ==> Matches(env, d.staging.value, records[i])
  {
    forall i | 0 <= i < |records|
      ensures Matches(env, d.staging.value, records[i])
    {
      var checked := CheckAt(env, records, i, d);
      assert Rechecked(env, records[i], checked);
      StillChecked(env, records, i, d);
      assert Later(env, checked).staging == checked.staging by {
        CheckLeaves(env, records, i, d);
        AloneStagedIsStill(env, d.clock, d.clock, Later(env, checked).clock, d.staging);
        hide CheckAt, AloneStaged, LeavesStagingAlone, Later;
      }
      hide CheckAt, LeavesStagingAlone, Later;
    }
    hide LeavesStagingAlone, Matches, Rechecked, CheckAt;
  }

  lemma EndOfQuietRun(env: Environment, args: Args, d: Disk)
    requires d.staging.None?
    requires Emit(env, args, d).0.Success? && LeavesStagingAlone(env, CollectedAt(env, args, d).clock)
    ensures var collected, manifest := CollectedAt(env, args, d), Emit(env, args, d).0.value;
            && collected.staging.Some?
            && Emit(env, args, d).1.out == Directory(collected.staging.value[MANIFEST_NAME := env.render(manifest)])
  {
    hide *;
    var collected, manifest := CollectedAt(env, args, d), Emit(env, args, d).0.value;
    PublishedFiles(env, args, d);
    QuietMake(env, manifest, collected, Emit(env, args, d).1.clock);
  }

  lemma QuietMake(env: Environment, manifest: Manifest, collected: Disk, end: nat)
    requires LeavesStagingAlone(env, collected.clock) && OthersMake(env, manifest, collected, end).Some?
    ensures collected.staging.Some?
    ensures OthersMake(env, manifest, collected, end)
            == Some(collected.staging.value[MANIFEST_NAME := env.render(manifest)])
  {
    var sealed := ManifestTick(manifest, collected);
    hide AloneStaged, LeavesStagingAlone, ManifestTick;
    AloneStagedIsStill(env, collected.clock, collected.clock, sealed, collected.staging);
    SealedLater(manifest, collected);
    AloneStagedIsStill(env, collected.clock, sealed, end, Some(collected.staging.value[MANIFEST_NAME := env.render(manifest)]));
  }

  lemma SealedLater(manifest: Manifest, collected: Disk)
    ensures ManifestTick(manifest, collected) >= collected.clock
  {
  }

  /**
   * In particular, the output is exact when no other process adds staged files, and none writes to them once the
   * checkout has been observed again.
   */
  lemma QuietlyPublished(env: Environment, args: Args, d: Disk) returns (copied: seq<Labelled>)
    requires d.staging.None? && Emit(env, args, d).0.Success?
    requires AddsNothing(env) && LeavesStagingAlone(env, CollectedAt(env, args, d).clock)
    ensures var (r, d1) := Emit(env, args, d);
            && AllRecorded(env, args.arch, args.artifacts, copied)
            && d1.out.Directory? && HoldsExactly(env, d1.out.files, copied, r.value)
  {
    hide *;
    var collected, manifest := CollectedAt(env, args, d), Emit(env, args, d).0.value;
    copied := SuccessMeans(env, args, d);
    SuccessWithin(env, args, d, copied);
    EndOfQuietRun(env, args, d);
    NotTheManifest(env, args.arch, args.artifacts, copied);
    AllMatch(env, RecordsOf(manifest.members), collected);
    var staged := collected.staging.value;
    assert staged.Keys <= NamesOf(copied) by { StagedWithin(collected, NamesOf(copied)); }
    FilesHoldExactly(env, staged, staged[MANIFEST_NAME := env.render(manifest)], args.arch, copied, args.capabilities, manifest);
  }

  lemma StagedWithin(d: Disk, names: set<string>)
    requires Within(d, names) && d.staging.Some?
    ensures d.staging.value.Keys <= names
  {
  }
}
