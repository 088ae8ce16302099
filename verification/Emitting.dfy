/** `emit`: recording an image set while other processes may change the disk between its steps. */
module Emitting {
  import opened Wrappers
  import opened Bytes
  import opened ImageSets
  import opened ActiveSets
  import Observing

  type Files = map<string, seq<Byte>>

  /** What stands at the output path. */
  datatype Out = Absent | NotADirectory | Directory(files: Files)

  datatype SourceFile = Missing | NotRegular | Regular

  /** How much one read of a source returns at most. */
  const CHUNK_SIZE: nat := 0x10_0000

  /**
   * Everything that is not decided by the program, by the tick of the clock at which it happens: what other processes
   * make of the output path and of the staged files, what a source path names, what an opened source holds (no file
   * is larger than `largest`), the checkout, which operations fail, and which staged files cannot be removed.
   */
  datatype Environment = Environment(
    touchOut: (nat, Out) -> Out,
    touchStaging: (nat, Files) -> Option<Files>,
    source: (nat, string) -> SourceFile,
    held: (nat, string) -> seq<Byte>,
    largest: nat,
    checkout: nat -> Observing.World,
    fails: nat -> bool,
    keeps: (nat, string) -> bool,
    sha256: seq<Byte> -> Digest,
    rootContract: seq<Byte> -> Option<int>,
    render: Manifest -> seq<Byte>)

  /** The part of the disk the program works on. */
  datatype Disk = Disk(clock: nat, out: Out, staging: Option<Files>)

  datatype Reason =
    | BadCacheContract
    | BadBootAbi
    | NoArtifacts
    | OutputInsideCheckout
    | OutputExists
    | NoParentDirectory
    | BadCheckout(observing: Observing.Refusal)
    | BadImageContract
    | BadLocks
    | OsError
    | UnknownRole
    | UnusableArtifactName
    | NameTaken
    | UnknownFormat
    | NoSuchFile
    | NotARegularFile
    | EmptyArtifact
    | CapabilityWithoutArtifact
    | UnknownCapability
    | NotOneRoot
    | UnreadableRoot
    | InconsistentContracts
    | CheckoutChanged
    | ArtifactChanged

  datatype Given = Given(role: string, format: string, path: string)

  datatype Args = Args(
    arch: string,
    artifacts: seq<Given>,
    capabilities: seq<CapabilityRequest>,
    cacheContract: int,
    out: seq<string>,
    checkout: seq<string>,
    canonical: string,
    parentExists: bool,
    bootAbi: Option<nat>,
    imageContract: Option<int>,
    locks: Option<seq<Digest>>,
    issuedAt: string)

  datatype Manifest = Manifest(
    issuedAt: string,
    checkout: Observing.Identity,
    contract: int,
    cacheContract: int,
    bootAbi: nat,
    locks: seq<Digest>,
    members: seq<Member>)

  /** What is read before anything is written. */
  datatype Plan = Plan(before: Observing.Identity, bootAbi: nat, contract: int, locks: seq<Digest>)

  type Outcome<T> = (Result<T, Reason>, Disk)

  // ---------------------------------------------------------------- the steps

  /** One step of the other processes. */
  function Later(env: Environment, d: Disk): (later: Disk)
    ensures later.clock == d.clock + 1
  {
    Disk(d.clock + 1, env.touchOut(d.clock, d.out),
         if d.staging.None? then None else env.touchStaging(d.clock, d.staging.value))
  }

  /** What can be refused about an argument before its file is looked at. */
  function Admit(arch: string, taken: set<string>, given: Given): Result<(string, Format), Reason> {
    if given.role !in RoleTable() then Failure(UnknownRole)
    else
      match ArtifactName(given.role, arch, given.path)
      case None => Failure(UnusableArtifactName)
      case Some(name) =>
        if name in taken then Failure(NameTaken)
        else
          match ArtifactFormat(given.format)
          case None => Failure(UnknownFormat)
          case Some(format) => Success((name, format))
  }

  /** `regular_file`. */
  function LookUp(env: Environment, path: string, d: Disk): Outcome<()> {
    var now := Later(env, d);
    match env.source(now.clock, path)
    case Missing => (Failure(NoSuchFile), now)
    case NotRegular => (Failure(NotARegularFile), now)
    case Regular => (Success(()), now)
  }

  /** Opening a source and, for exclusive creation, its copy. */
  function OpenBoth(env: Environment, path: string, name: string, d: Disk): Outcome<()> {
    var now := Later(env, d);
    if env.fails(now.clock) || !env.source(now.clock, path).Regular? || now.staging.None? || name in now.staging.value then
      (Failure(OsError), now)
    else (Success(()), now.(staging := Some(now.staging.value[name := []])))
  }

  function Min(a: nat, b: nat): nat { if a < b then a else b }

  /** `src.read(1 << 20)` at a position of the opened source. */
  function NextChunk(env: Environment, path: string, position: nat, tick: nat): (chunk: seq<Byte>)
    ensures chunk != [] ==> position + |chunk| <= env.largest
  {
    var data := env.held(tick, path);
    var end := Min(Min(|data|, env.largest), position + CHUNK_SIZE);
    if position < end then data[position..end] else []
  }

  /** Writing at a position of a file, which is filled up with zeros if it is shorter. */
  function Overwritten(content: seq<Byte>, position: nat, chunk: seq<Byte>): seq<Byte> {
    var filled := if |content| < position then content + Zeros(position - |content|) else content;
    var end := position + |chunk|;
    filled[..position] + chunk + (if end < |filled| then filled[end..] else [])
  }

  /** `out.write(chunk)`; a copy that is no longer in the staging directory is written on unseen. */
  function WriteChunk(d: Disk, name: string, position: nat, chunk: seq<Byte>): Disk {
    if d.staging.None? || name !in d.staging.value then d
    else d.(staging := Some(d.staging.value[name := Overwritten(d.staging.value[name], position, chunk)]))
  }

  /** The loop of `copy_and_hash` from some bytes on: all bytes that it hashes and writes. */
  function CopyRest(env: Environment, path: string, name: string, hashed: seq<Byte>, d: Disk): Outcome<seq<Byte>>
    decreases env.largest - |hashed|
  {
    var now := Later(env, d);
    if env.fails(now.clock) then (Failure(OsError), now)
    else
      var chunk := NextChunk(env, path, |hashed|, now.clock);
      if chunk == [] then (Success(hashed), now)
      else CopyRest(env, path, name, hashed + chunk, WriteChunk(now, name, |hashed|, chunk))
  }

  /** `os.chmod` on a copy. */
  function SetMode(env: Environment, name: string, d: Disk): Outcome<()> {
    var now := Later(env, d);
    if env.fails(now.clock) || now.staging.None? || name !in now.staging.value then (Failure(OsError), now)
    else (Success(()), now)
  }

  /** `copy_and_hash`. */
  function Copy(env: Environment, path: string, name: string, d: Disk): Outcome<(Digest, nat)> {
    var (files, d1) := OpenBoth(env, path, name, d);
    if files.Failure? then (Failure(files.error), d1)
    else
      var (hashed, d2) := CopyRest(env, path, name, [], d1);
      if hashed.Failure? then (Failure(hashed.error), d2)
      else
        var (mode, d3) := SetMode(env, name, d2);
        if mode.Failure? then (Failure(mode.error), d3)
        else (Success((env.sha256(hashed.value), |hashed.value|)), d3)
  }

  /** One turn of the loop over `--artifact`. */
  function CopyOne(env: Environment, arch: string, taken: set<string>, given: Given, d: Disk): Outcome<Labelled> {
    match Admit(arch, taken, given)
    case Failure(reason) => (Failure(reason), d)
    case Success((name, format)) =>
      var (found, d1) := LookUp(env, given.path, d);
      if found.Failure? then (Failure(found.error), d1)
      else
        var (copied, d2) := Copy(env, given.path, name, d1);
        if copied.Failure? then (Failure(copied.error), d2)
        else if copied.value.1 == 0 then (Failure(EmptyArtifact), d2)
        else (Success(Labelled(given.role, Record(name, format, copied.value.0, copied.value.1))), d2)
  }

  function CopyAll(env: Environment, arch: string, given: seq<Given>, d: Disk): (o: Outcome<seq<Labelled>>)
    ensures o.0.Success? ==> KnownRoles(o.0.value)
    decreases |given|
  {
    if given == [] then (Success([]), d)
    else
      var (front, d1) := CopyAll(env, arch, given[..|given| - 1], d);
      if front.Failure? then (front, d1)
      else
        var (last, d2) := CopyOne(env, arch, NamesOf(front.value), given[|given| - 1], d1);
        if last.Failure? then (Failure(last.error), d2) else (Success(front.value + [last.value]), d2)
  }

  /** The first thing wrong with the `--capability` arguments. */
  function CapabilityFault(roles: seq<string>, requests: seq<CapabilityRequest>): Option<Reason> {
    if requests == [] then None
    else
      var front, last := CapabilityFault(roles, requests[..|requests| - 1]), requests[|requests| - 1];
      if front.Some? then front
      else if last.role !in roles then Some(CapabilityWithoutArtifact)
      else if !KnownCapability(last.capability) then Some(UnknownCapability)
      else None
  }

  /** What `build_members` makes of the copied artifacts. */
  function Assemble(arch: string, copied: seq<Labelled>, requests: seq<CapabilityRequest>): Result<seq<Member>, Reason>
    requires KnownRoles(copied)
  {
    match CapabilityFault(RolesOf(copied), requests)
    case Some(reason) => Failure(reason)
    case None => Success(MembersOf(arch, copied, requests))
  }

  function Build(env: Environment, args: Args, d: Disk): Outcome<seq<Member>> {
    var (copied, d1) := CopyAll(env, args.arch, args.artifacts, d);
    if copied.Failure? then (Failure(copied.error), d1)
    else (Assemble(args.arch, copied.value, args.capabilities), d1)
  }

  // ---------------------------------------------------------------- the copied roots

  predicate IsRoot(member: Member) { member.role in RoleTable() && RoleTable()[member.role].schema.WorkloadRootfs? }

  function Ext4Of(records: seq<Record>): (roots: seq<Record>) {
    if records == [] then []
    else
      Ext4Of(records[..|records| - 1]) +
      (if records[|records| - 1].format == Ordinary("ext4") then [records[|records| - 1]] else [])
  }

  function ReadRoot(env: Environment, name: string, d: Disk): Outcome<int> {
    var now := Later(env, d);
    if env.fails(now.clock) || now.staging.None? || name !in now.staging.value then (Failure(UnreadableRoot), now)
    else
      match env.rootContract(now.staging.value[name])
      case None => (Failure(UnreadableRoot), now)
      case Some(contract) => (Success(contract), now)
  }

  /** The contracts of the roots among some members. */
  function RootContracts(env: Environment, members: seq<Member>, d: Disk): Outcome<set<int>>
    decreases |members|
  {
    if members == [] then (Success({}), d)
    else
      var (front, d1) := RootContracts(env, members[..|members| - 1], d);
      var last := members[|members| - 1];
      if front.Failure? || !IsRoot(last) then (front, d1)
      else
        var roots := Ext4Of(last.artifacts);
        if |roots| != 1 then (Failure(NotOneRoot), d1)
        else
          var (contract, d2) := ReadRoot(env, roots[0].name, d1);
          if contract.Failure? then (Failure(contract.error), d2) else (Success(front.value + {contract.value}), d2)
  }

  /** What `workload_base_contract` returns: the number every copied root carries. */
  function BaseContract(env: Environment, members: seq<Member>, expected: int, d: Disk): Outcome<int> {
    var (contracts, d1) := RootContracts(env, members, d);
    if contracts.Failure? then (Failure(contracts.error), d1)
    else if contracts.value != {} && contracts.value != {expected} then (Failure(InconsistentContracts), d1)
    else (Success(expected), d1)
  }

  // ---------------------------------------------------------------- the recheck

  function RecordsOf(members: seq<Member>): (records: seq<Record>) {
    if members == [] then [] else RecordsOf(members[..|members| - 1]) + members[|members| - 1].artifacts
  }

  /** The digest and the size are read one after the other. */
  function RecheckOne(env: Environment, record: Record, d: Disk): Outcome<()> {
    var d1 := Later(env, d);
    if env.fails(d1.clock) || d1.staging.None? || record.name !in d1.staging.value then (Failure(OsError), d1)
    else if env.sha256(d1.staging.value[record.name]) != record.digest then (Failure(ArtifactChanged), d1)
    else
      var d2 := Later(env, d1);
      if env.fails(d2.clock) || d2.staging.None? || record.name !in d2.staging.value then (Failure(OsError), d2)
      else if |d2.staging.value[record.name]| != record.size then (Failure(ArtifactChanged), d2)
      else (Success(()), d2)
  }

  /** `verify_staged_artifacts`, over the records of all members. */
  function Recheck(env: Environment, records: seq<Record>, d: Disk): Outcome<()>
    decreases |records|
  {
    if records == [] then (Success(()), d)
    else
      var (front, d1) := Recheck(env, records[..|records| - 1], d);
      if front.Failure? then (front, d1) else RecheckOne(env, records[|records| - 1], d1)
  }

  // ---------------------------------------------------------------- the whole

  /** `repo_identity`. */
  ghost function Identify(env: Environment, canonical: string, d: Disk): Outcome<Observing.Identity> {
    var now := Later(env, d);
    match Observing.Observe(env.checkout(now.clock), canonical, {})
    case Failure(reason) => (Failure(BadCheckout(reason)), now)
    case Success(identity) => (Success(identity), now)
  }

  function WriteManifest(env: Environment, body: seq<Byte>, d: Disk): Outcome<()> {
    var now := Later(env, d);
    if env.fails(now.clock) || now.staging.None? then (Failure(OsError), now)
    else (Success(()), now.(staging := Some(now.staging.value[MANIFEST_NAME := body])))
  }

  /** `if out.is_dir(): out.rmdir()`. */
  function ClearOutput(env: Environment, d: Disk): Outcome<()> {
    var d1 := Later(env, d);
    if !d1.out.Directory? then (Success(()), d1)
    else
      var d2 := Later(env, d1);
      if env.fails(d2.clock) || d2.out != Directory(map[]) then (Failure(OsError), d2)
      else (Success(()), d2.(out := Absent))
  }

  /** `os.rename(staging, out)`, which also takes the place of an empty directory. */
  function Rename(env: Environment, d: Disk): Outcome<()> {
    var now := Later(env, d);
    if env.fails(now.clock) || now.staging.None? || (now.out != Absent && now.out != Directory(map[])) then
      (Failure(OsError), now)
    else (Success(()), Disk(now.clock, Directory(now.staging.value), None))
  }

  /** The checks and readings before anything is written. */
  ghost function Prepare(env: Environment, args: Args, d: Disk): Outcome<Plan> {
    if args.cacheContract < 1 then (Failure(BadCacheContract), d)
    else if args.bootAbi.None? then (Failure(BadBootAbi), d)
    else if args.artifacts == [] then (Failure(NoArtifacts), d)
    else if args.checkout <= args.out then (Failure(OutputInsideCheckout), d)
    else if d.out != Absent && d.out != Directory(map[]) then (Failure(OutputExists), d)
    else if !args.parentExists then (Failure(NoParentDirectory), d)
    else
      var (before, d1) := Identify(env, args.canonical, d);
      if before.Failure? then (Failure(before.error), d1)
      else if args.imageContract.None? then (Failure(BadImageContract), d1)
      else if args.locks.None? then (Failure(BadLocks), d1)
      else (Success(Plan(before.value, args.bootAbi.value, args.imageContract.value, args.locks.value)), d1)
  }

  /** `tempfile.mkdtemp`. */
  function MakeStaging(env: Environment, d: Disk): Outcome<()> {
    var now := Later(env, d);
    if env.fails(now.clock) then (Failure(OsError), now) else (Success(()), now.(staging := Some(map[])))
  }

  /** The steps inside the `try`, up to the second look at the checkout. */
  ghost function Collect(env: Environment, args: Args, plan: Plan, d: Disk): Outcome<(seq<Member>, int)> {
    var (members, d1) := Build(env, args, d);
    if members.Failure? then (Failure(members.error), d1)
    else
      var (contract, d2) := BaseContract(env, members.value, plan.contract, d1);
      if contract.Failure? then (Failure(contract.error), d2)
      else
        var (after, d3) := Identify(env, args.canonical, d2);
        if after.Failure? then (Failure(after.error), d3)
        else if after.value != plan.before then (Failure(CheckoutChanged), d3)
        else (Success((members.value, contract.value)), d3)
  }

  function ManifestOf(args: Args, plan: Plan, members: seq<Member>, contract: int): Manifest {
    Manifest(args.issuedAt, plan.before, contract, args.cacheContract, plan.bootAbi, plan.locks, members)
  }

  /** The recheck, and the manifest beside the artifacts. */
  function Seal(env: Environment, manifest: Manifest, d: Disk): Outcome<()> {
    var (checked, d1) := Recheck(env, RecordsOf(manifest.members), d);
    if checked.Failure? then (Failure(checked.error), d1) else WriteManifest(env, env.render(manifest), d1)
  }

  function Publish(env: Environment, d: Disk): Outcome<()> {
    var (cleared, d1) := ClearOutput(env, d);
    if cleared.Failure? then (Failure(cleared.error), d1) else Rename(env, d1)
  }

  /** Everything inside the `try`. */
  ghost function Attempt(env: Environment, args: Args, plan: Plan, d: Disk): Outcome<Manifest> {
    var (collected, d1) := Collect(env, args, plan, d);
    if collected.Failure? then (Failure(collected.error), d1)
    else
      var manifest := ManifestOf(args, plan, collected.value.0, collected.value.1);
      var (sealed, d2) := Seal(env, manifest, d1);
      if sealed.Failure? then (Failure(sealed.error), d2)
      else
        var (published, d3) := Publish(env, d2);
        if published.Failure? then (Failure(published.error), d3) else (Success(manifest), d3)
  }

  /** The staged files that cannot be removed. */
  function Stuck(env: Environment, tick: nat, files: Files): (stuck: Files) {
    map name | name in files && env.keeps(tick, name) :: files[name]
  }

  /** `shutil.rmtree(staging, ignore_errors=True)`: the files, and then the directory if it is empty. */
  function RemoveStaging(env: Environment, d: Disk): Disk {
    var d1 := Later(env, d);
    if d1.staging.None? then d1
    else
      var d2 := Later(env, d1.(staging := Some(Stuck(env, d1.clock, d1.staging.value))));
      if d2.staging == Some(map[]) && !env.fails(d2.clock) then d2.(staging := None) else d2
  }

  /** `emit`. */
  ghost function Emit(env: Environment, args: Args, d: Disk): Outcome<Manifest> {
    var (plan, d1) := Prepare(env, args, d);
    if plan.Failure? then (Failure(plan.error), d1)
    else
      var (made, d2) := MakeStaging(env, d1);
      if made.Failure? then (Failure(made.error), d2)
      else
        var (r, d3) := Attempt(env, args, plan.value, d2);
        if r.Failure? then (r, RemoveStaging(env, d3)) else (r, d3)
  }

  // ---------------------------------------------------------------- how the loops unfold

  lemma CopyAllStep(env: Environment, arch: string, given: seq<Given>, i: nat, d: Disk)
    requires i < |given|
    ensures CopyAll(env, arch, given[..i + 1], d) ==
            var (front, d1) := CopyAll(env, arch, given[..i], d);
            if front.Failure? then (front, d1)
            else
              var (last, d2) := CopyOne(env, arch, NamesOf(front.value), given[i], d1);
              if last.Failure? then (Failure(last.error), d2) else (Success(front.value + [last.value]), d2)
  {
    assert given[..i + 1][..i] == given[..i];
    hide CopyOne, NamesOf;
  }

  lemma {:induction false} CopyAllRefuses(env: Environment, arch: string, given: seq<Given>, i: nat, d: Disk)
    requires i <= |given| && CopyAll(env, arch, given[..i], d).0.Failure?
    ensures CopyAll(env, arch, given, d) == CopyAll(env, arch, given[..i], d)
    decreases |given| - i
  {
    if i == |given| {
      assert given[..i] == given;
    } else {
      CopyAllStep(env, arch, given, i, d);
      CopyAllRefuses(env, arch, given, i + 1, d);
    }
    hide CopyAll;
  }

  lemma CapabilityFaultStep(roles: seq<string>, requests: seq<CapabilityRequest>, i: nat)
    requires i < |requests|
    ensures CapabilityFault(roles, requests[..i + 1]) ==
            var front := CapabilityFault(roles, requests[..i]);
            if front.Some? then front
            else if requests[i].role !in roles then Some(CapabilityWithoutArtifact)
            else if !KnownCapability(requests[i].capability) then Some(UnknownCapability)
            else None
  {
    assert requests[..i + 1][..i] == requests[..i];
  }

  lemma {:induction false} CapabilityFaultStays(roles: seq<string>, requests: seq<CapabilityRequest>, i: nat)
    requires i <= |requests| && CapabilityFault(roles, requests[..i]).Some?
    ensures CapabilityFault(roles, requests) == CapabilityFault(roles, requests[..i])
    decreases |requests| - i
  {
    if i == |requests| {
      assert requests[..i] == requests;
    } else {
      CapabilityFaultStep(roles, requests, i);
      CapabilityFaultStays(roles, requests, i + 1);
    }
    hide CapabilityFault;
  }

  lemma RootContractsStep(env: Environment, members: seq<Member>, i: nat, d: Disk)
    requires i < |members|
    ensures RootContracts(env, members[..i + 1], d) ==
            var (front, d1) := RootContracts(env, members[..i], d);
            if front.Failure? || !IsRoot(members[i]) then (front, d1)
            else
              var roots := Ext4Of(members[i].artifacts);
              if |roots| != 1 then (Failure(NotOneRoot), d1)
              else
                var (contract, d2) := ReadRoot(env, roots[0].name, d1);
                if contract.Failure? then (Failure(contract.error), d2) else (Success(front.value + {contract.value}), d2)
  {
    assert members[..i + 1][..i] == members[..i];
    hide IsRoot, ReadRoot, Ext4Of;
  }

  lemma {:induction false} RootContractsRefuse(env: Environment, members: seq<Member>, i: nat, d: Disk)
    requires i <= |members| && RootContracts(env, members[..i], d).0.Failure?
    ensures RootContracts(env, members, d) == RootContracts(env, members[..i], d)
    decreases |members| - i
  {
    if i == |members| {
      assert members[..i] == members;
    } else {
      RootContractsStep(env, members, i, d);
      RootContractsRefuse(env, members, i + 1, d);
    }
    hide RootContracts;
  }

  lemma RecheckStep(env: Environment, records: seq<Record>, i: nat, d: Disk)
    requires i < |records|
    ensures Recheck(env, records[..i + 1], d) ==
            var (front, d1) := Recheck(env, records[..i], d);
            if front.Failure? then (front, d1) else RecheckOne(env, records[i], d1)
  {
    assert records[..i + 1][..i] == records[..i];
    hide RecheckOne;
  }

  lemma {:induction false} RecheckRefuses(env: Environment, records: seq<Record>, i: nat, d: Disk)
    requires i <= |records| && Recheck(env, records[..i], d).0.Failure?
    ensures Recheck(env, records, d) == Recheck(env, records[..i], d)
    decreases |records| - i
  {
    if i == |records| {
      assert records[..i] == records;
    } else {
      RecheckStep(env, records, i, d);
      RecheckRefuses(env, records, i + 1, d);
    }
    hide Recheck;
  }

  /** The requests seen so far. */
  function Seen(requests: seq<CapabilityRequest>, i: nat): seq<CapabilityRequest>
    requires i <= |requests|
  {
    requests[..i]
  }

  lemma NothingSeen(roles: seq<string>, requests: seq<CapabilityRequest>)
    ensures Seen(requests, 0) == [] && CapabilityFault(roles, Seen(requests, 0)) == None
  {
  }

  lemma AssembleBy(arch: string, copied: seq<Labelled>, requests: seq<CapabilityRequest>)
    requires KnownRoles(copied)
    ensures var fault := CapabilityFault(RolesOf(copied), requests);
            Assemble(arch, copied, requests) ==
            if fault.Some? then Failure(fault.value) else Success(MembersOf(arch, copied, requests))
  {
    hide RolesOf, CapabilityFault, MembersOf;
  }

  lemma SeeOneMore(roles: seq<string>, requests: seq<CapabilityRequest>, i: nat)
    requires i < |requests| && CapabilityFault(roles, Seen(requests, i)) == None
    ensures Seen(requests, i) + [requests[i]] == Seen(requests, i + 1)
    ensures requests[i].role in roles && KnownCapability(requests[i].capability) ==>
              CapabilityFault(roles, Seen(requests, i + 1)) == None
    ensures requests[i].role !in roles ==> CapabilityFault(roles, requests) == Some(CapabilityWithoutArtifact)
    ensures requests[i].role in roles && !KnownCapability(requests[i].capability) ==>
              CapabilityFault(roles, requests) == Some(UnknownCapability)
  {
    CapabilityFaultStep(roles, requests, i);
    assert requests[..i] + [requests[i]] == requests[..i + 1];
    hide CapabilityFault, KnownCapability;
    if CapabilityFault(roles, requests[..i + 1]).Some? {
      CapabilityFaultStays(roles, requests, i + 1);
    }
  }

  lemma AllSeen(requests: seq<CapabilityRequest>)
    ensures Seen(requests, |requests|) == requests
  {
  }

  lemma KeysAreRoles(arch: string, copied: seq<Labelled>, requests: seq<CapabilityRequest>, order: seq<string>,
                     members: map<string, Member>, role: string)
    requires KnownRoles(copied) && Grouped(arch, copied, requests, order, members)
    ensures role in members <==> role in order
  {
  }

  /** The loop of `build_members` over `--capability`. */
  method AskCapabilities(arch: string, order: seq<string>, collected: map<string, Member>,
                         requests: seq<CapabilityRequest>, ghost copied: seq<Labelled>)
    returns (r: Result<seq<Member>, Reason>)
    requires KnownRoles(copied) && Grouped(arch, copied, [], order, collected)
    ensures r == Assemble(arch, copied, requests)
  {
    var members := collected;
    OrderIsRoles(arch, copied, order, members);
    AssembleBy(arch, copied, requests);
    NothingSeen(order, requests);
    hide *;
    for i := 0 to |requests|
      invariant CapabilityFault(order, Seen(requests, i)) == None
      invariant Grouped(arch, copied, Seen(requests, i), order, members)
    {
      SeeOneMore(order, requests, i);
      KeysAreRoles(arch, copied, Seen(requests, i), order, members, requests[i].role);
      if requests[i].role !in members {
        return Failure(CapabilityWithoutArtifact);
      }
      if !KnownCapability(requests[i].capability) {
        return Failure(UnknownCapability);
      }
      members := AddCapability(arch, order, members, requests[i], copied, Seen(requests, i));
    }
    AllSeen(requests);
    var listed := ListMembers(arch, order, members, copied, requests);
    return Success(listed);
  }

  lemma OrderIsRoles(arch: string, copied: seq<Labelled>, order: seq<string>, members: map<string, Member>)
    requires KnownRoles(copied) && Grouped(arch, copied, [], order, members)
    ensures order == RolesOf(copied)
  {
  }

  lemma {:induction false} RecordsPrefix(members: seq<Member>, i: nat)
    requires i <= |members|
    ensures RecordsOf(members[..i]) <= RecordsOf(members)
    decreases |members|
  {
    if i == |members| {
      assert members[..i] == members;
    } else {
      var front := members[..|members| - 1];
      assert front[..i] == members[..i];
      RecordsPrefix(front, i);
    }
  }

  /** Where the records of one member stand. */
  lemma RecordsAt(members: seq<Member>, i: nat)
    requires i < |members|
    ensures RecordsOf(members[..i + 1]) == RecordsOf(members[..i]) + members[i].artifacts
    ensures RecordsOf(members[..i + 1]) <= RecordsOf(members)
  {
    assert members[..i + 1][..i] == members[..i];
    RecordsPrefix(members, i + 1);
  }

  lemma SliceOfPrefix(all: seq<Record>, a: seq<Record>, b: seq<Record>)
    requires a + b <= all
    ensures all[..|a|] == a && all[|a|..|a| + |b|] == b && all[..|a| + |b|] == a + b
  {
  }

  // ---------------------------------------------------------------- the program

  /** The disk as the program changes it, step by step. */
  class Emitter {
    const env: Environment
    var clock: nat
    var out: Out
    var staging: Option<Files>

    constructor (env: Environment, clock: nat, out: Out)
      ensures this.env == env && Now() == Disk(clock, out, None)
    {
      this.env, this.clock, this.out, this.staging := env, clock, out, None;
    }

    ghost function Now(): Disk
      reads this
    {
      Disk(clock, out, staging)
    }

    /** The other processes go on. */
    method Wait()
      modifies this
      ensures Now() == Later(env, old(Now()))
    {
      out := env.touchOut(clock, out);
      if staging.Some? {
        staging := env.touchStaging(clock, staging.value);
      }
      clock := clock + 1;
    }

    method RegularFile(path: string) returns (r: Result<(), Reason>)
      modifies this
      ensures (r, Now()) == LookUp(env, path, old(Now()))
    {
      Wait();
      match env.source(clock, path) {
        case Missing => r := Failure(NoSuchFile);
        case NotRegular => r := Failure(NotARegularFile);
        case Regular => r := Success(());
      }
    }

    /** The loop of `copy_and_hash`; the hasher is the bytes it has absorbed. */
    method CopyChunks(path: string, name: string) returns (r: Result<seq<Byte>, Reason>)
      modifies this
      ensures (r, Now()) == CopyRest(env, path, name, [], old(Now()))
    {
      ghost var start := Now();
      var hashed: seq<Byte> := [];
      while true
        invariant CopyRest(env, path, name, [], start) == CopyRest(env, path, name, hashed, Now())
        decreases env.largest - |hashed|
      {
        ghost var before := Now();
        hide Overwritten, NextChunk, Later;
        Wait();
        if env.fails(clock) {
          return Failure(OsError);
        }
        var chunk := NextChunk(env, path, |hashed|, clock);
        if chunk == [] {
          return Success(hashed);
        }
        if staging.Some? && name in staging.value {
          staging := Some(staging.value[name := Overwritten(staging.value[name], |hashed|, chunk)]);
        }
        hashed := hashed + chunk;
      }
    }

    method CopyAndHash(path: string, name: string) returns (r: Result<(Digest, nat), Reason>)
      modifies this
      ensures (r, Now()) == Copy(env, path, name, old(Now()))
    {
      Wait();
      if env.fails(clock) || !env.source(clock, path).Regular? || staging.None? || name in staging.value {
        return Failure(OsError);
      }
      staging := Some(staging.value[name := []]);
      hide CopyRest;
      var hashed := CopyChunks(path, name);
      if hashed.Failure? {
        return Failure(hashed.error);
      }
      Wait();
      if env.fails(clock) || staging.None? || name !in staging.value {
        return Failure(OsError);
      }
      return Success((env.sha256(hashed.value), |hashed.value|));
    }

    /** The copying half of a turn of the loop of `build_members`. */
    method CopyGiven(arch: string, names: set<string>, given: Given) returns (r: Result<Record, Reason>)
      modifies this
      ensures CopyOne(env, arch, names, given, old(Now()))
              == (if r.Success? then Success(Labelled(given.role, r.value)) else Failure(r.error), Now())
      ensures r.Success? ==> given.role in RoleTable()
    {
      if given.role !in RoleTable() {
        return Failure(UnknownRole);
      }
      var name := ArtifactName(given.role, arch, given.path);
      if name.None? {
        return Failure(UnusableArtifactName);
      }
      if name.value in names {
        return Failure(NameTaken);
      }
      var format := ArtifactFormat(given.format);
      if format.None? {
        return Failure(UnknownFormat);
      }
      hide ArtifactName, ArtifactFormat, RoleTable, LookUp, Copy;
      var found := RegularFile(given.path);
      if found.Failure? {
        return Failure(found.error);
      }
      var copied := CopyAndHash(given.path, name.value);
      if copied.Failure? {
        return Failure(copied.error);
      }
      if copied.value.1 == 0 {
        return Failure(EmptyArtifact);
      }
      return Success(Record(name.value, format.value, copied.value.0, copied.value.1));
    }

    /** The loop of `build_members` over `--artifact`. */
    method CopyArtifacts(arch: string, given: seq<Given>)
      returns (r: Result<(seq<string>, map<string, Member>), Reason>, ghost copied: seq<Labelled>)
      modifies this
      ensures match r
              case Failure(reason) => CopyAll(env, arch, given, old(Now())) == (Failure(reason), Now())
              case Success((order, members)) =>
                && CopyAll(env, arch, given, old(Now())) == (Success(copied), Now())
                && Grouped(arch, copied, [], order, members)
    {
      ghost var start := Now();
      var order: seq<string>, members: map<string, Member>, names: set<string> := [], map[], {};
      copied := [];
      EmptyGroups(arch);
      assert CopyAll(env, arch, given[..0], start) == (Success(copied), Now());
      hide *;
      for i := 0 to |given|
        invariant CopyAll(env, arch, given[..i], start) == (Success(copied), Now())
        invariant KnownRoles(copied) && names == NamesOf(copied)
        invariant Grouped(arch, copied, [], order, members)
      {
        CopyAllStep(env, arch, given, i, start);
        var record := CopyGiven(arch, names, given[i]);
        if record.Failure? {
          CopyAllRefuses(env, arch, given, i + 1, start);
          return Failure(record.error), copied;
        }
        names := names + {record.value.name};
        order, members := AddArtifact(arch, order, members, given[i].role, record.value, copied);
        ghost var x := Labelled(given[i].role, record.value);
        NamesAppend(copied, x);
        copied := copied + [x];
      }
      assert given[..|given|] == given;
      return Success((order, members)), copied;
    }

    /** `build_members`. */
    method BuildMembers(args: Args) returns (r: Result<seq<Member>, Reason>)
      modifies this
      ensures (r, Now()) == Build(env, args, old(Now()))
    {
      var collected, copied := CopyArtifacts(args.arch, args.artifacts);
      if collected.Failure? {
        return Failure(collected.error);
      }
      r := AskCapabilities(args.arch, collected.value.0, collected.value.1, args.capabilities, copied);
      hide CopyAll, Assemble, Grouped;
    }

    method Ext4Roots(records: seq<Record>) returns (roots: seq<Record>)
      ensures roots == Ext4Of(records)
    {
      roots := [];
      for i := 0 to |records|
        invariant roots == Ext4Of(records[..i])
      {
        assert records[..i + 1][..i] == records[..i];
        if records[i].format == Ordinary("ext4") {
          roots := roots + [records[i]];
        }
      }
      assert records[..|records|] == records;
    }

    /** `read_base_image_contract` on a staged file. */
    method ReadBaseImageContract(name: string) returns (r: Result<int, Reason>)
      modifies this
      ensures (r, Now()) == ReadRoot(env, name, old(Now()))
    {
      Wait();
      if env.fails(clock) || staging.None? || name !in staging.value {
        return Failure(UnreadableRoot);
      }
      match env.rootContract(staging.value[name]) {
        case None => r := Failure(UnreadableRoot);
        case Some(contract) => r := Success(contract);
      }
    }

    /** `workload_base_contract`. */
    method WorkloadBaseContract(members: seq<Member>, expected: int) returns (r: Result<int, Reason>)
      modifies this
      ensures (r, Now()) == BaseContract(env, members, expected, old(Now()))
    {
      ghost var start := Now();
      var contracts: set<int> := {};
      assert RootContracts(env, members[..0], start) == (Success(contracts), start);
      hide RootContracts, ReadRoot, Ext4Of, Later;
      for i := 0 to |members|
        invariant RootContracts(env, members[..i], start) == (Success(contracts), Now())
      {
        RootContractsStep(env, members, i, start);
        if IsRoot(members[i]) {
          var roots := Ext4Roots(members[i].artifacts);
          if |roots| != 1 {
            RootContractsRefuse(env, members, i + 1, start);
            return Failure(NotOneRoot);
          }
          var contract := ReadBaseImageContract(roots[0].name);
          if contract.Failure? {
            RootContractsRefuse(env, members, i + 1, start);
            return Failure(contract.error);
          }
          contracts := contracts + {contract.value};
        }
      }
      assert members[..|members|] == members;
      if contracts != {} && contracts != {expected} {
        return Failure(InconsistentContracts);
      }
      return Success(expected);
    }

    method RecheckArtifact(record: Record) returns (r: Result<(), Reason>)
      modifies this
      ensures (r, Now()) == RecheckOne(env, record, old(Now())) && (r.Success? ==> r == Success(()))
    {
      Wait();
      if env.fails(clock) || staging.None? || record.name !in staging.value {
        return Failure(OsError);
      }
      if env.sha256(staging.value[record.name]) != record.digest {
        return Failure(ArtifactChanged);
      }
      Wait();
      if env.fails(clock) || staging.None? || record.name !in staging.value {
        return Failure(OsError);
      }
      if |staging.value[record.name]| != record.size {
        return Failure(ArtifactChanged);
      }
      return Success(());
    }

    /** The inner loop of `verify_staged_artifacts`, over the records from one position on. */
    method RecheckMember(records: seq<Record>, ghost all: seq<Record>, ghost from: nat, ghost start: Disk)
      returns (r: Result<(), Reason>)
      requires from + |records| <= |all| && all[from..from + |records|] == records
      requires Recheck(env, all[..from], start) == (Success(()), Now())
      modifies this
      ensures r.Success? ==> Recheck(env, all[..from + |records|], start) == (Success(()), Now())
      ensures r.Failure? ==> Recheck(env, all, start) == (r, Now())
    {
      hide *;
      for i := 0 to |records|
        invariant Recheck(env, all[..from + i], start) == (Success(()), Now())
      {
        RecheckStep(env, all, from + i, start);
        assert records[i] == all[from..from + |records|][i] == all[from + i];
        r := RecheckArtifact(records[i]);
        if r.Failure? {
          RecheckRefuses(env, all, from + i + 1, start);
          return;
        }
      }
      return Success(());
    }

    /** `verify_staged_artifacts`. */
    method VerifyStagedArtifacts(members: seq<Member>) returns (r: Result<(), Reason>)
      modifies this
      ensures (r, Now()) == Recheck(env, RecordsOf(members), old(Now()))
    {
      ghost var start, all := Now(), RecordsOf(members);
      assert RecordsOf(members[..0]) == [];
      assert Recheck(env, RecordsOf(members[..0]), start) == (Success(()), start);
      hide *;
      for i := 0 to |members|
        invariant Recheck(env, RecordsOf(members[..i]), start) == (Success(()), Now())
      {
        RecordsAt(members, i);
        SliceOfPrefix(all, RecordsOf(members[..i]), members[i].artifacts);
        r := RecheckMember(members[i].artifacts, all, |RecordsOf(members[..i])|, start);
        if r.Failure? {
          return;
        }
      }
      assert members[..|members|] == members;
      return Success(());
    }

    /** `repo_identity`. */
    method RepoIdentity(canonical: string) returns (r: Result<Observing.Identity, Reason>)
      modifies this
      ensures (r, Now()) == Identify(env, canonical, old(Now()))
    {
      Wait();
      var active := new ActiveSet();
      var identity := Observing.ObserveCheckout(env.checkout(clock), canonical, active);
      hide Observing.Observe;
      match identity {
        case Failure(reason) => r := Failure(BadCheckout(reason));
        case Success(value) => r := Success(value);
      }
    }

    method WriteManifestFile(body: seq<Byte>) returns (r: Result<(), Reason>)
      modifies this
      ensures (r, Now()) == WriteManifest(env, body, old(Now()))
    {
      Wait();
      if env.fails(clock) || staging.None? {
        return Failure(OsError);
      }
      staging := Some(staging.value[MANIFEST_NAME := body]);
      return Success(());
    }

    /** The last steps of the `try`. */
    method MoveIntoPlace() returns (r: Result<(), Reason>)
      modifies this
      ensures (r, Now()) == Publish(env, old(Now()))
    {
      Wait();
      if out.Directory? {
        Wait();
        if env.fails(clock) || out != Directory(map[]) {
          return Failure(OsError);
        }
        out := Absent;
      }
      Wait();
      if env.fails(clock) || staging.None? || (out != Absent && out != Directory(map[])) {
        return Failure(OsError);
      }
      out, staging := Directory(staging.value), None;
      return Success(());
    }

    method CheckBeforehand(args: Args) returns (r: Result<Plan, Reason>)
      modifies this
      ensures (r, Now()) == Prepare(env, args, old(Now()))
    {
      if args.cacheContract < 1 {
        return Failure(BadCacheContract);
      }
      if args.bootAbi.None? {
        return Failure(BadBootAbi);
      }
      if args.artifacts == [] {
        return Failure(NoArtifacts);
      }
      if args.checkout <= args.out {
        return Failure(OutputInsideCheckout);
      }
      if out.NotADirectory? || (out.Directory? && out.files != map[]) {
        return Failure(OutputExists);
      }
      if !args.parentExists {
        return Failure(NoParentDirectory);
      }
      hide Identify;
      var before := RepoIdentity(args.canonical);
      if before.Failure? {
        return Failure(before.error);
      }
      if args.imageContract.None? {
        return Failure(BadImageContract);
      }
      if args.locks.None? {
        return Failure(BadLocks);
      }
      return Success(Plan(before.value, args.bootAbi.value, args.imageContract.value, args.locks.value));
    }

    /** What stands inside the `try`. */
    method RecordAndPublish(args: Args, plan: Plan) returns (r: Result<Manifest, Reason>)
      modifies this
      ensures (r, Now()) == Attempt(env, args, plan, old(Now()))
    {
      hide Build, BaseContract, Identify, Recheck, RecordsOf, WriteManifest, Publish;
      var members := BuildMembers(args);
      if members.Failure? {
        return Failure(members.error);
      }
      var contract := WorkloadBaseContract(members.value, plan.contract);
      if contract.Failure? {
        return Failure(contract.error);
      }
      var again := RepoIdentity(args.canonical);
      if again.Failure? {
        return Failure(again.error);
      }
      if again.value != plan.before {
        return Failure(CheckoutChanged);
      }
      var manifest := ManifestOf(args, plan, members.value, contract.value);
      var checked := VerifyStagedArtifacts(members.value);
      if checked.Failure? {
        return Failure(checked.error);
      }
      var written := WriteManifestFile(env.render(manifest));
      if written.Failure? {
        return Failure(written.error);
      }
      var published := MoveIntoPlace();
      if published.Failure? {
        return Failure(published.error);
      }
      return Success(manifest);
    }

    /** `shutil.rmtree(staging, ignore_errors=True)`. */
    method RemoveStagingDirectory()
      modifies this
      ensures Now() == RemoveStaging(env, old(Now()))
    {
      Wait();
      if staging.None? {
        return;
      }
      staging := Some(Stuck(env, clock, staging.value));
      Wait();
      if staging == Some(map[]) && !env.fails(clock) {
        staging := None;
      }
    }

    /** `emit`. */
    method Run(args: Args) returns (r: Result<Manifest, Reason>)
      requires staging.None?
      modifies this
      ensures (r, Now()) == Emit(env, args, old(Now()))
    {
      hide Prepare, Attempt, RemoveStaging;
      var plan :- CheckBeforehand(args);
      Wait();
      if env.fails(clock) {
        return Failure(OsError);
      }
      staging := Some(map[]);
      r := RecordAndPublish(args, plan);
      if r.Failure? {
        RemoveStagingDirectory();
      }
    }
  }
}
