/** The members of a release, and the pairs that are selected from their rendering. */
module Inventory {
  import opened Wrappers
  import opened Pairing

  const ARCHES: seq<string> := ["x86_64", "aarch64"]
  const BLOCK_SIZE: nat := 8

  function KernelRole(profile: string): Role { Workload(Some(profile), None) }
  function RootRole(profile: string): Role { Workload(None, Some(profile)) }

  /** The members of one architecture. */
  function Block(arch: string): (specs: seq<Spec>)
    ensures |specs| == BLOCK_SIZE
  {
    [
      Spec("builder-vm-" + arch, Plain("builder_vm"), Some(arch), None, true),
      Spec("default-workload-kernel-" + arch, KernelRole("default_tenant"), Some(arch), None, true),
      Spec("default-workload-rootfs-" + arch, RootRole("default_tenant"), Some(arch), None, false),
      Spec("rootless-workload-kernel-" + arch, KernelRole("rootless_tenant"), Some(arch), None, true),
      Spec("rootless-workload-rootfs-" + arch, RootRole("rootless_tenant"), Some(arch), None, false),
      Spec("default-workload-kernel-dev-" + arch, KernelRole("default_tenant"), Some(arch), Some("dev"), true),
      Spec("default-workload-rootfs-dev-" + arch, RootRole("default_tenant"), Some(arch), Some("dev"), false),
      Spec("stage0-bootstrap-kernel-" + arch, Plain("stage0_bootstrap_kernel"), Some(arch), None, true)
    ]
  }

  const SMOKE_PACK := Spec("qemu-wasm-smoke-pack", Plain("qemu_wasm_smoke_pack"), None, None, false)

  function Blocks(arches: seq<string>): (specs: seq<Spec>)
    ensures |specs| == BLOCK_SIZE * |arches|
  {
    if arches == [] then [] else Blocks(arches[..|arches| - 1]) + Block(arches[|arches| - 1])
  }

  function Table(arches: seq<string>): (specs: seq<Spec>) { Blocks(arches) + [SMOKE_PACK] }

  /** `member_specs`. */
  method MemberSpecs() returns (specs: seq<Spec>)
    ensures specs == Table(ARCHES)
  {
    specs := [];
    for i := 0 to |ARCHES|
      invariant specs == Blocks(ARCHES[..i])
    {
      assert ARCHES[..i + 1][..i] == ARCHES[..i];
      specs := specs + Block(ARCHES[i]);
    }
    assert ARCHES[..|ARCHES|] == ARCHES;
    specs := specs + [SMOKE_PACK];
  }

  /** A member as the release manifest shows it. */
  function Render(spec: Spec): Member {
    Member(spec.role, spec.arch, spec.mode, if spec.bootable then LINUX_DIRECT else None)
  }

  function Rendered(specs: seq<Spec>): (members: seq<Member>)
    ensures |members| == |specs| && forall i :: 0 <= i < |specs| ==> members[i] == Render(specs[i])
  {
    seq(|specs|, i requires 0 <= i < |specs| => Render(specs[i]))
  }

  /** The rendering loop of `assemble`. */
  method RenderMembers(specs: seq<Spec>) returns (members: seq<Member>)
    ensures members == Rendered(specs)
  {
    members := [];
    for i := 0 to |specs|
      invariant |members| == i && forall k :: 0 <= k < i ==> members[k] == Render(specs[k])
    {
      var member := Member(specs[i].role, specs[i].arch, specs[i].mode, None);
      if specs[i].bootable {
        member := member.(protocol := LINUX_DIRECT);
      }
      members := members + [member];
    }
  }

  // ---------------------------------------------------------------- tables with a bootable kernel per root

  predicate IsKernel(s: Spec, arches: set<string>) {
    s.role.Workload? && s.role.kernel.Some? && s.arch.Some? && s.arch.value in arches
  }

  predicate IsRoot(s: Spec, arches: set<string>) {
    s.role.Workload? && s.role.rootfs.Some? && s.arch.Some? && s.arch.value in arches
  }

  predicate SameKernel(a: Spec, b: Spec)
    requires a.role.Workload? && b.role.Workload?
  {
    a.arch == b.arch && a.role.kernel == b.role.kernel && a.mode == b.mode
  }

  predicate SameRoot(a: Spec, b: Spec)
    requires a.role.Workload? && b.role.Workload?
  {
    a.arch == b.arch && a.role.rootfs == b.role.rootfs && a.mode == b.mode
  }

  /** The kernel a root boots with. */
  predicate Boots(kernel: Spec, root: Spec)
    requires kernel.role.Workload? && root.role.Workload?
  {
    kernel.bootable && kernel.arch == root.arch && kernel.role.kernel == root.role.rootfs && kernel.mode == root.mode
  }

  /** Workloads name their architecture, kernels boot and are all different, roots are all different and have a kernel. */
  ghost predicate Complete(specs: seq<Spec>, arches: set<string>) {
    && (forall i :: 0 <= i < |specs| ==> specs[i].role.Workload? ==> specs[i].arch.Some?)
    && (forall i :: 0 <= i < |specs| && IsKernel(specs[i], arches) ==> specs[i].bootable)
    && (forall i, j :: 0 <= i < j < |specs| && IsKernel(specs[i], arches) && IsKernel(specs[j], arches) ==>
          !SameKernel(specs[i], specs[j]))
    && (forall i, j :: 0 <= i < j < |specs| && IsRoot(specs[i], arches) && IsRoot(specs[j], arches) ==>
          !SameRoot(specs[i], specs[j]))
    && (forall i :: 0 <= i < |specs| && IsRoot(specs[i], arches) ==>
          exists j :: 0 <= j < |specs| && IsKernel(specs[j], arches) && Boots(specs[j], specs[i]))
  }

  /** Where the kernels of a list of members come from. */
  ghost predicate KernelsAt(members: seq<Member>, arches: set<string>, at: seq<nat>) {
    && |at| == |Kernels(members, arches)|
    && (forall k :: 0 <= k < |at| ==>
          at[k] < |members| && KernelOf(members[at[k]], arches) == [Kernels(members, arches)[k]])
    && (forall j, k :: 0 <= j < k < |at| ==> at[j] < at[k])
  }

  ghost predicate RootsAt(members: seq<Member>, arches: set<string>, at: seq<nat>) {
    && |at| == |Roots(members, arches)|
    && (forall k :: 0 <= k < |at| ==>
          at[k] < |members| && RootOf(members[at[k]], arches) == [Roots(members, arches)[k]])
    && (forall j, k :: 0 <= j < k < |at| ==> at[j] < at[k])
  }

  lemma KernelOfAtMostOne(m: Member, arches: set<string>)
    ensures |KernelOf(m, arches)| <= 1 && |RootOf(m, arches)| <= 1
  {
  }

  lemma KernelsAtStep(front: seq<Member>, last: Member, arches: set<string>, at: seq<nat>)
    requires KernelsAt(front, arches, at)
    ensures KernelsAt(front + [last], arches, if KernelOf(last, arches) == [] then at else at + [|front|])
  {
    var all := front + [last];
    assert Kernels(all, arches) == Kernels(front, arches) + KernelOf(last, arches) by { assert all[..|front|] == front; }
    KernelOfAtMostOne(last, arches);
    hide Kernels, KernelOf;
    assert forall i :: 0 <= i < |front| ==> all[i] == front[i];
    assert all[|front|] == last;
  }

  lemma RootsAtStep(front: seq<Member>, last: Member, arches: set<string>, at: seq<nat>)
    requires RootsAt(front, arches, at)
    ensures RootsAt(front + [last], arches, if RootOf(last, arches) == [] then at else at + [|front|])
  {
    var all := front + [last];
    assert Roots(all, arches) == Roots(front, arches) + RootOf(last, arches) by { assert all[..|front|] == front; }
    KernelOfAtMostOne(last, arches);
    hide Roots, RootOf;
    assert forall i :: 0 <= i < |front| ==> all[i] == front[i];
    assert all[|front|] == last;
  }

  lemma FrontAndLast(members: seq<Member>)
    requires members != []
    ensures members == members[..|members| - 1] + [members[|members| - 1]]
  {
  }

  lemma NoPositions(arches: set<string>)
    ensures KernelsAt([], arches, []) && RootsAt([], arches, [])
  {
  }

  lemma {:induction false} KernelPositions(members: seq<Member>, arches: set<string>) returns (at: seq<nat>)
    ensures KernelsAt(members, arches, at)
  {
    hide *;
    if members == [] {
      at := [];
      NoPositions(arches);
    } else {
      var front, last := members[..|members| - 1], members[|members| - 1];
      at := KernelPositions(front, arches);
      KernelsAtStep(front, last, arches, at);
      FrontAndLast(members);
      at := if KernelOf(last, arches) == [] then at else at + [|front|];
    }
  }

  lemma {:induction false} RootPositions(members: seq<Member>, arches: set<string>) returns (at: seq<nat>)
    ensures RootsAt(members, arches, at)
  {
    hide *;
    if members == [] {
      at := [];
      NoPositions(arches);
    } else {
      var front, last := members[..|members| - 1], members[|members| - 1];
      at := RootPositions(front, arches);
      RootsAtStep(front, last, arches, at);
      FrontAndLast(members);
      at := if RootOf(last, arches) == [] then at else at + [|front|];
    }
  }

  /** No kernel is overlooked. */
  lemma {:induction false} KernelsInclude(members: seq<Member>, arches: set<string>, i: nat)
    requires i < |members| && KernelOf(members[i], arches) != []
    ensures KernelOf(members[i], arches)[0].key in Keys(Kernels(members, arches))
    decreases |members|
  {
    var front, last := members[..|members| - 1], members[|members| - 1];
    var found := Kernels(members, arches);
    if i < |front| {
      KernelsInclude(front, arches, i);
      var k :| 0 <= k < |Kernels(front, arches)| && Kernels(front, arches)[k].key == KernelOf(members[i], arches)[0].key;
      assert found[k] == Kernels(front, arches)[k];
    } else {
      assert found[|Kernels(front, arches)|] == KernelOf(last, arches)[0];
    }
    hide KernelOf, Kernels;
  }

  lemma {:induction false} RootsInclude(members: seq<Member>, arches: set<string>, i: nat)
    requires i < |members| && RootOf(members[i], arches) != []
    ensures RootOf(members[i], arches)[0].key in Keys(Roots(members, arches))
    decreases |members|
  {
    var front, last := members[..|members| - 1], members[|members| - 1];
    var found := Roots(members, arches);
    if i < |front| {
      RootsInclude(front, arches, i);
      var k :| 0 <= k < |Roots(front, arches)| && Roots(front, arches)[k].key == RootOf(members[i], arches)[0].key;
      assert found[k] == Roots(front, arches)[k];
    } else {
      assert found[|Roots(front, arches)|] == RootOf(last, arches)[0];
    }
    hide RootOf, Roots;
  }

  lemma RenderedKernel(s: Spec, arches: set<string>)
    ensures IsKernel(s, arches) ==>
              KernelOf(Render(s), arches) == [Keyed(Key(s.arch.value, s.role.kernel.value, s.mode), Render(s))]
    ensures !IsKernel(s, arches) ==> KernelOf(Render(s), arches) == []
    ensures IsRoot(s, arches) ==>
              RootOf(Render(s), arches) == [Keyed(Key(s.arch.value, s.role.rootfs.value, s.mode), Render(s))]
    ensures !IsRoot(s, arches) ==> RootOf(Render(s), arches) == []
  {
  }

  lemma KernelsOfTable(specs: seq<Spec>, arches: set<string>)
    requires Complete(specs, arches)
    ensures Agreeing(Kernels(Rendered(specs), arches))
  {
    var members := Rendered(specs);
    var at := KernelPositions(members, arches);
    var found := Kernels(members, arches);
    hide Kernels, KernelOf, Rendered;
    forall k | 0 <= k < |found|
      ensures IsKernel(specs[at[k]], arches) && found[k].member.protocol == LINUX_DIRECT
      ensures found[k].key == Key(specs[at[k]].arch.value, specs[at[k]].role.kernel.value, specs[at[k]].mode)
    {
      RenderedKernel(specs[at[k]], arches);
      assert members[at[k]] == Render(specs[at[k]]);
    }
    forall j, k | 0 <= j < k < |found|
      ensures found[j].key != found[k].key
    {
      assert at[j] < at[k];
      assert !SameKernel(specs[at[j]], specs[at[k]]);
    }
  }

  lemma RootsOfTable(specs: seq<Spec>, arches: set<string>)
    requires Complete(specs, arches)
    ensures RootsAgree(specs, Rendered(specs), arches) && Matched(Rendered(specs), arches)
  {
    var members := Rendered(specs);
    var at := RootPositions(members, arches);
    var found := Roots(members, arches);
    hide Roots, RootOf, KernelOf, Kernels, Rendered;
    forall k | 0 <= k < |found|
      ensures IsRoot(specs[at[k]], arches)
      ensures found[k].key == Key(specs[at[k]].arch.value, specs[at[k]].role.rootfs.value, specs[at[k]].mode)
    {
      RenderedKernel(specs[at[k]], arches);
      assert members[at[k]] == Render(specs[at[k]]);
    }
    forall j, k | 0 <= j < k < |found|
      ensures found[j].key != found[k].key
    {
      assert at[j] < at[k];
      assert !SameRoot(specs[at[j]], specs[at[k]]);
    }
    ExpectedIsRoots(specs, arches);
    forall key | key in Keys(found)
      ensures key in Keys(Kernels(members, arches))
    {
      var k :| 0 <= k < |found| && found[k].key == key;
      var j :| 0 <= j < |specs| && IsKernel(specs[j], arches) && Boots(specs[j], specs[at[k]]);
      RenderedKernel(specs[j], arches);
      assert members[j] == Render(specs[j]);
      KernelsInclude(members, arches, j);
    }
  }

  lemma ExpectedIsRoots(specs: seq<Spec>, arches: set<string>)
    ensures Keys(Roots(Rendered(specs), arches)) == Expected(specs, arches)
  {
    var members := Rendered(specs);
    var at := RootPositions(members, arches);
    var found := Roots(members, arches);
    hide Roots, RootOf, KernelOf, Rendered;
    forall key | key in Keys(found)
      ensures key in Expected(specs, arches)
    {
      var k :| 0 <= k < |found| && found[k].key == key;
      RenderedKernel(specs[at[k]], arches);
      assert members[at[k]] == Render(specs[at[k]]);
    }
    forall key | key in Expected(specs, arches)
      ensures key in Keys(found)
    {
      var i :| 0 <= i < |specs| && IsRoot(specs[i], arches)
               && key == Key(specs[i].arch.value, specs[i].role.rootfs.value, specs[i].mode);
      RenderedKernel(specs[i], arches);
      assert members[i] == Render(specs[i]);
      RootsInclude(members, arches, i);
    }
  }

  /** Rendering a table with a bootable kernel for every root satisfies everything the selection asks for. */
  lemma RenderedTableSelects(specs: seq<Spec>, arches: set<string>)
    requires Complete(specs, arches)
    ensures var members := Rendered(specs);
            && AllHaveArchitecture(members) && Agreeing(Kernels(members, arches))
            && RootsAgree(specs, members, arches) && Matched(members, arches)
  {
    KernelsOfTable(specs, arches);
    RootsOfTable(specs, arches);
    assert forall i :: 0 <= i < |specs| ==> Rendered(specs)[i] == Render(specs[i]);
    hide Agreeing, RootsAgree, Matched, Kernels;
  }

  // ---------------------------------------------------------------- the table of this release

  lemma {:induction false} BlockOf(arches: seq<string>, i: nat)
    requires i < BLOCK_SIZE * |arches|
    ensures Blocks(arches)[i] == Block(arches[i / BLOCK_SIZE])[i % BLOCK_SIZE]
    decreases |arches|
  {
    var front := arches[..|arches| - 1];
    if i < BLOCK_SIZE * |front| {
      BlockOf(front, i);
    }
    hide Block;
  }

  /** The two members of a block that share an architecture, a profile and a build mode differ in kind. */
  lemma BlockDiffers(a: string, b: string, i: nat, j: nat)
    requires i < BLOCK_SIZE && j < BLOCK_SIZE && (a != b || i != j)
    requires Block(a)[i].role.Workload? && Block(b)[j].role.Workload?
    ensures Block(a)[i].role.kernel.Some? && Block(b)[j].role.kernel.Some? ==> !SameKernel(Block(a)[i], Block(b)[j])
    ensures Block(a)[i].role.rootfs.Some? && Block(b)[j].role.rootfs.Some? ==> !SameRoot(Block(a)[i], Block(b)[j])
  {
    assert |"default_tenant"| != |"rootless_tenant"|;
  }

  lemma BlockBoots(a: string, i: nat)
    requires i < BLOCK_SIZE && Block(a)[i].role.Workload? && Block(a)[i].role.rootfs.Some?
    ensures i > 0 && Block(a)[i - 1].role.Workload? && Block(a)[i - 1].role.kernel.Some?
    ensures Boots(Block(a)[i - 1], Block(a)[i])
  {
  }

  lemma BlockMembers(a: string, i: nat)
    requires i < BLOCK_SIZE
    ensures Block(a)[i].arch == Some(a)
    ensures Block(a)[i].role.Workload? && Block(a)[i].role.kernel.Some? ==> Block(a)[i].bootable
  {
  }

  /** Whatever architectures are published and selected, the release's table has a bootable kernel for every root. */
  lemma TableIsComplete(published: seq<string>, selected: set<string>)
    requires forall i, j :: 0 <= i < j < |published| ==> published[i] != published[j]
    ensures Complete(Table(published), selected)
  {
    var specs := Table(published);
    var n := BLOCK_SIZE * |published|;
    hide Block, Blocks, SameKernel, SameRoot, Boots;
    forall i | 0 <= i < n
      ensures specs[i] == Block(published[i / BLOCK_SIZE])[i % BLOCK_SIZE]
      ensures specs[i].arch.Some?
      ensures IsKernel(specs[i], selected) ==> specs[i].bootable
    {
      BlockOf(published, i);
      BlockMembers(published[i / BLOCK_SIZE], i % BLOCK_SIZE);
    }
    forall i, j | 0 <= i < j < |specs| && specs[i].role.Workload? && specs[j].role.Workload?
      ensures IsKernel(specs[i], selected) && IsKernel(specs[j], selected) ==> !SameKernel(specs[i], specs[j])
      ensures IsRoot(specs[i], selected) && IsRoot(specs[j], selected) ==> !SameRoot(specs[i], specs[j])
    {
      assert i < n && j < n;
      BlockDiffers(published[i / BLOCK_SIZE], published[j / BLOCK_SIZE], i % BLOCK_SIZE, j % BLOCK_SIZE);
    }
    forall i | 0 <= i < |specs| && IsRoot(specs[i], selected)
      ensures exists j :: 0 <= j < |specs| && IsKernel(specs[j], selected) && Boots(specs[j], specs[i])
    {
      assert i < n;
      BlockBoots(published[i / BLOCK_SIZE], i % BLOCK_SIZE);
      assert (i - 1) / BLOCK_SIZE == i / BLOCK_SIZE && (i - 1) % BLOCK_SIZE == i % BLOCK_SIZE - 1;
      assert IsKernel(specs[i - 1], selected) by {
        BlockMembers(published[i / BLOCK_SIZE], i % BLOCK_SIZE - 1);
        BlockMembers(published[i / BLOCK_SIZE], i % BLOCK_SIZE);
      }
    }
  }
}
