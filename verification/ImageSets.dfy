/** What an image set is made of: roles, artifact names and formats, and the grouping of artifacts into members. */
module ImageSets {
  import opened Wrappers
  import opened Bytes
  import opened Strings

  const MANIFEST_NAME := "image-set.json"
  const MAX_NAME: nat := 255

  datatype SchemaRole = Plain(name: string) | WorkloadKernel(profile: string) | WorkloadRootfs(profile: string)

  /** The role in the schema, whether it boots directly, and whether it is published once for every architecture. */
  datatype RoleInfo = RoleInfo(schema: SchemaRole, bootable: bool, independent: bool)

  function RoleTable(): map<string, RoleInfo> {
    map[
      "builder_vm" := RoleInfo(Plain("builder_vm"), true, false),
      "default_tenant_workload_kernel" := RoleInfo(WorkloadKernel("default_tenant"), true, false),
      "default_tenant_workload_rootfs" := RoleInfo(WorkloadRootfs("default_tenant"), false, false),
      "rootless_tenant_workload_kernel" := RoleInfo(WorkloadKernel("rootless_tenant"), true, false),
      "rootless_tenant_workload_rootfs" := RoleInfo(WorkloadRootfs("rootless_tenant"), false, false),
      "stage0_bootstrap_kernel" := RoleInfo(Plain("stage0_bootstrap_kernel"), true, false),
      "qemu_wasm_smoke_pack" := RoleInfo(Plain("qemu_wasm_smoke_pack"), false, true)
    ]
  }

  predicate KnownCapability(c: string) { c in {"virtio_vsock", "virtio_blk", "dm_verity"} }

  datatype Format = Kernel(kernel: string) | Ordinary(name: string)

  const KERNEL_FORMATS: set<string> := {"raw", "elf", "image", "image_gz", "image_bz2", "image_zstd", "pe", "pe_gz"}
  const PLAIN_FORMATS: set<string> := {"ext4", "verity_hash_tree", "verity_root_hash", "tar_gz", "text", "json"}

  /** `artifact_format`. */
  function ArtifactFormat(spec: string): Option<Format> {
    if "kernel:" <= spec then
      if spec[7..] in KERNEL_FORMATS then Some(Kernel(spec[7..])) else None
    else if spec in PLAIN_FORMATS then Some(Ordinary(spec))
    else None
  }

  /** `role.replace("_", "-")`. */
  function Stem(role: string): (stem: string)
    ensures |stem| == |role|
  {
    seq(|role|, i requires 0 <= i < |role| => if role[i] == '_' then '-' else role[i])
  }

  /** `os.path.basename`. */
  function Basename(path: string): string {
    if '/' !in path then path else Basename(path[1..])
  }

  predicate UsableName(name: string) {
    0 < |name| <= MAX_NAME && forall i :: 0 <= i < |name| ==> NameChar(name[i])
  }

  function GivenName(role: string, independent: bool, arch: string, given: string): string {
    Stem(role) + (if independent then "" else "-" + arch) + "-" + Basename(given)
  }

  /** `artifact_name`. */
  function ArtifactName(role: string, arch: string, given: string): Option<string>
    requires role in RoleTable()
  {
    var name := GivenName(role, RoleTable()[role].independent, arch, given);
    if UsableName(name) then Some(name) else None
  }

  /** No artifact takes the manifest's name: every name starts like its role, and no role starts with an i. */
  lemma NeverTheManifest(role: string, arch: string, given: string)
    requires role in RoleTable()
    ensures ArtifactName(role, arch, given) != Some(MANIFEST_NAME)
    ensures var name := ArtifactName(role, arch, given); name.Some? ==> '/' !in name.value
  {
    var name := GivenName(role, RoleTable()[role].independent, arch, given);
    assert name[0] == Stem(role)[0] == role[0];
    assert role[0] != 'i' && MANIFEST_NAME[0] == 'i';
  }

  // ---------------------------------------------------------------- members

  /** An artifact as the manifest records it. */
  datatype Record = Record(name: string, format: Format, digest: Digest, size: nat)

  /** A recorded artifact with the role it was given for. */
  datatype Labelled = Labelled(role: string, record: Record)

  datatype Member = Member(
    role: string,
    target: Option<string>,
    bootable: bool,
    artifacts: seq<Record>,
    capabilities: seq<string>)

  datatype CapabilityRequest = CapabilityRequest(role: string, capability: string)

  function NamesOf(copied: seq<Labelled>): (names: set<string>) {
    set i | 0 <= i < |copied| :: copied[i].record.name
  }

  /** The roles with an artifact, each where it occurs first. */
  function RolesOf(copied: seq<Labelled>): (roles: seq<string>)
    ensures forall r :: r in roles <==> exists i :: 0 <= i < |copied| && copied[i].role == r
    ensures forall i, j :: 0 <= i < j < |roles| ==> roles[i] != roles[j]
  {
    if copied == [] then []
    else
      var front, last := RolesOf(copied[..|copied| - 1]), copied[|copied| - 1];
      assert copied == copied[..|copied| - 1] + [last];
      if last.role in front then front else front + [last.role]
  }

  /** The artifacts given for a role, in order. */
  function ArtifactsOf(copied: seq<Labelled>, role: string): (records: seq<Record>) {
    if copied == [] then []
    else
      var front, last := ArtifactsOf(copied[..|copied| - 1], role), copied[|copied| - 1];
      if last.role == role then front + [last.record] else front
  }

  /** The capabilities asked for, each where it is asked for first. */
  function CapabilitiesOf(requests: seq<CapabilityRequest>, role: string): (capabilities: seq<string>)
    ensures forall c :: c in capabilities <==> CapabilityRequest(role, c) in requests
    ensures forall i, j :: 0 <= i < j < |capabilities| ==> capabilities[i] != capabilities[j]
  {
    if requests == [] then []
    else
      var front, last := CapabilitiesOf(requests[..|requests| - 1], role), requests[|requests| - 1];
      assert requests == requests[..|requests| - 1] + [last];
      if last.role == role && last.capability !in front then front + [last.capability] else front
  }

  function MemberOf(arch: string, role: string, artifacts: seq<Record>, capabilities: seq<string>): Member
    requires role in RoleTable()
  {
    var info := RoleTable()[role];
    Member(role, if info.independent then None else Some(arch), info.bootable, artifacts, capabilities)
  }

  predicate KnownRoles(copied: seq<Labelled>) {
    forall i :: 0 <= i < |copied| ==> copied[i].role in RoleTable()
  }

  /** The members of a set. */
  function MembersOf(arch: string, copied: seq<Labelled>, requests: seq<CapabilityRequest>): (members: seq<Member>)
    requires KnownRoles(copied)
    ensures |members| == |RolesOf(copied)|
  {
    var roles := RolesOf(copied);
    seq(|roles|, i requires 0 <= i < |roles| =>
      assert roles[i] in roles;
      MemberOf(arch, roles[i], ArtifactsOf(copied, roles[i]), CapabilitiesOf(requests, roles[i])))
  }

  /** The state of the `members` dict: its keys in insertion order, and its values. */
  ghost predicate Grouped(arch: string, copied: seq<Labelled>, requests: seq<CapabilityRequest>,
                          order: seq<string>, members: map<string, Member>)
    requires KnownRoles(copied)
  {
    && order == RolesOf(copied)
    && (forall role :: role in members <==> role in order)
    && forall role :: role in order ==>
         role in RoleTable()
         && members[role] == MemberOf(arch, role, ArtifactsOf(copied, role), CapabilitiesOf(requests, role))
  }

  lemma RolesAreKnown(copied: seq<Labelled>)
    requires KnownRoles(copied)
    ensures forall role :: role in RolesOf(copied) ==> role in RoleTable()
  {
  }

  lemma {:induction false} NoArtifactsOf(copied: seq<Labelled>, role: string)
    requires role !in RolesOf(copied)
    ensures ArtifactsOf(copied, role) == []
  {
    if copied != [] {
      var front := copied[..|copied| - 1];
      assert copied == front + [copied[|copied| - 1]];
      assert role !in RolesOf(front);
      NoArtifactsOf(front, role);
      assert copied[|copied| - 1].role != role;
    }
  }

  lemma ArtifactsAppend(copied: seq<Labelled>, x: Labelled, role: string)
    ensures ArtifactsOf(copied + [x], role) ==
            if x.role == role then ArtifactsOf(copied, role) + [x.record] else ArtifactsOf(copied, role)
  {
    assert (copied + [x])[..|copied|] == copied;
  }

  lemma RolesAppend(copied: seq<Labelled>, x: Labelled)
    ensures RolesOf(copied + [x]) == if x.role in RolesOf(copied) then RolesOf(copied) else RolesOf(copied) + [x.role]
  {
    assert (copied + [x])[..|copied|] == copied;
  }

  lemma NamesAppend(copied: seq<Labelled>, x: Labelled)
    ensures NamesOf(copied + [x]) == NamesOf(copied) + {x.record.name}
  {
    var all := copied + [x];
    forall name | name in NamesOf(copied) + {x.record.name}
      ensures name in NamesOf(all)
    {
      if name == x.record.name {
        assert all[|copied|].record.name == name;
      } else {
        var i :| 0 <= i < |copied| && copied[i].record.name == name;
        assert all[i].record.name == name;
      }
    }
  }

  lemma CapabilitiesAppend(requests: seq<CapabilityRequest>, x: CapabilityRequest, role: string)
    ensures var before := CapabilitiesOf(requests, role);
            CapabilitiesOf(requests + [x], role) ==
            if x.role == role && x.capability !in before then before + [x.capability] else before
  {
    assert (requests + [x])[..|requests|] == requests;
  }

  lemma MemberAdds(arch: string, role: string, artifacts: seq<Record>, record: Record, capabilities: seq<string>)
    requires role in RoleTable()
    ensures var member := MemberOf(arch, role, artifacts, capabilities);
            && member.artifacts == artifacts
            && member.(artifacts := artifacts + [record]) == MemberOf(arch, role, artifacts + [record], capabilities)
  {
    hide RoleTable;
  }

  lemma EmptyGroups(arch: string)
    ensures Grouped(arch, [], [], [], map[]) && NamesOf([]) == {}
  {
  }

  lemma NothingAsked(role: string)
    ensures CapabilitiesOf([], role) == []
  {
  }

  /** `members.setdefault(role, ...)["artifacts"].append(...)`. */
  method AddArtifact(arch: string, order: seq<string>, members: map<string, Member>, role: string, record: Record,
                     ghost copied: seq<Labelled>)
    returns (order': seq<string>, members': map<string, Member>)
    requires KnownRoles(copied) && role in RoleTable() && Grouped(arch, copied, [], order, members)
    ensures KnownRoles(copied + [Labelled(role, record)])
    ensures Grouped(arch, copied + [Labelled(role, record)], [], order', members')
  {
    hide RolesOf, RoleTable, ArtifactsOf, CapabilitiesOf, MemberOf;
    order', members' := order, members;
    if role !in members' {
      order' := order' + [role];
      members' := members'[role := MemberOf(arch, role, [], [])];
      NoArtifactsOf(copied, role);
      NothingAsked(role);
    }
    var member := members'[role];
    MemberAdds(arch, role, ArtifactsOf(copied, role), record, CapabilitiesOf([], role));
    members' := members'[role := member.(artifacts := member.artifacts + [record])];
    ghost var x := Labelled(role, record);
    RolesAppend(copied, x);
    forall r | r in order'
      ensures r in RoleTable()
      ensures members'[r] == MemberOf(arch, r, ArtifactsOf(copied + [x], r), CapabilitiesOf([], r))
    {
      ArtifactsAppend(copied, x, r);
    }
  }

  /** `if capability not in caps: caps.append(capability)`. */
  method AddCapability(arch: string, order: seq<string>, members: map<string, Member>, request: CapabilityRequest,
                       ghost copied: seq<Labelled>, ghost requests: seq<CapabilityRequest>)
    returns (members': map<string, Member>)
    requires KnownRoles(copied) && Grouped(arch, copied, requests, order, members) && request.role in order
    ensures Grouped(arch, copied, requests + [request], order, members')
  {
    hide RolesOf, RoleTable, ArtifactsOf, CapabilitiesOf, MemberOf;
    var member := members[request.role];
    members' := members;
    MemberAsks(arch, request.role, ArtifactsOf(copied, request.role), CapabilitiesOf(requests, request.role), request.capability);
    if request.capability !in member.capabilities {
      members' := members[request.role := member.(capabilities := member.capabilities + [request.capability])];
    }
    forall r | r in order
      ensures members'[r] == MemberOf(arch, r, ArtifactsOf(copied, r), CapabilitiesOf(requests + [request], r))
    {
      CapabilitiesAppend(requests, request, r);
    }
  }

  lemma MemberAsks(arch: string, role: string, artifacts: seq<Record>, capabilities: seq<string>, capability: string)
    requires role in RoleTable()
    ensures var member := MemberOf(arch, role, artifacts, capabilities);
            && member.capabilities == capabilities
            && member.(capabilities := capabilities + [capability])
               == MemberOf(arch, role, artifacts, capabilities + [capability])
  {
    hide RoleTable;
  }

  /** `list(members.values())`. */
  method ListMembers(arch: string, order: seq<string>, members: map<string, Member>,
                     ghost copied: seq<Labelled>, ghost requests: seq<CapabilityRequest>)
    returns (listed: seq<Member>)
    requires KnownRoles(copied) && Grouped(arch, copied, requests, order, members)
    ensures listed == MembersOf(arch, copied, requests)
  {
    hide RolesOf, RoleTable, ArtifactsOf, CapabilitiesOf, MemberOf;
    listed := seq(|order|, i requires 0 <= i < |order| => assert order[i] in order; members[order[i]]);
    RolesAreKnown(copied);
    forall i | 0 <= i < |order|
      ensures listed[i] == MembersOf(arch, copied, requests)[i]
    {
      assert order[i] in order;
    }
  }
}
