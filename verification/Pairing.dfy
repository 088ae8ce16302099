/** Matching the workload roots of a manifest with their kernels, against the inventory of the release. */
module Pairing {
  import opened Wrappers

  /** A JSON role: a plain name, or an object that may name a workload kernel and a workload root. */
  datatype Role = Plain(name: string) | Workload(kernel: Option<string>, rootfs: Option<string>)

  /** A member of a manifest.  The target of an architecture-independent member names no architecture. */
  datatype Member = Member(role: Role, arch: Option<string>, mode: Option<string>, protocol: Option<string>)

  /** A member of the inventory. */
  datatype Spec = Spec(slug: string, role: Role, arch: Option<string>, mode: Option<string>, bootable: bool)

  datatype Key = Key(arch: string, profile: string, mode: Option<string>)

  datatype Keyed = Keyed(key: Key, member: Member)

  datatype Pair = Pair(key: Key, root: Member, kernel: Member)

  datatype Reason = NoArchitecture | AmbiguousKernel | RootsDiffer | MissingKernel

  const LINUX_DIRECT := Some("linux_direct")

  predicate HasArchitecture(m: Member) { m.role.Workload? ==> m.arch.Some? }

  predicate InScope(m: Member, arches: set<string>) { m.role.Workload? && m.arch.Some? && m.arch.value in arches }

  /** The kernels in scope, with their keys. */
  function KernelOf(m: Member, arches: set<string>): (found: seq<Keyed>) {
    if InScope(m, arches) && m.role.kernel.Some? then
      [Keyed(Key(m.arch.value, m.role.kernel.value, m.mode), m)]
    else []
  }

  function RootOf(m: Member, arches: set<string>): (found: seq<Keyed>) {
    if InScope(m, arches) && m.role.rootfs.Some? then
      [Keyed(Key(m.arch.value, m.role.rootfs.value, m.mode), m)]
    else []
  }

  function Kernels(members: seq<Member>, arches: set<string>): (found: seq<Keyed>) {
    if members == [] then []
    else Kernels(members[..|members| - 1], arches) + KernelOf(members[|members| - 1], arches)
  }

  function Roots(members: seq<Member>, arches: set<string>): (found: seq<Keyed>) {
    if members == [] then []
    else Roots(members[..|members| - 1], arches) + RootOf(members[|members| - 1], arches)
  }

  predicate Distinct(found: seq<Keyed>) {
    forall i, j :: 0 <= i < j < |found| ==> found[i].key != found[j].key
  }

  predicate AllDirect(found: seq<Keyed>) {
    forall i :: 0 <= i < |found| ==> found[i].member.protocol == LINUX_DIRECT
  }

  function Keys(found: seq<Keyed>): set<Key> { set i | 0 <= i < |found| :: found[i].key }

  /** The root keys of the inventory. */
  function Expected(specs: seq<Spec>, arches: set<string>): set<Key> {
    set i | 0 <= i < |specs| && specs[i].role.Workload? && specs[i].role.rootfs.Some?
            && specs[i].arch.Some? && specs[i].arch.value in arches
    :: Key(specs[i].arch.value, specs[i].role.rootfs.value, specs[i].mode)
  }

  predicate AllHaveArchitecture(members: seq<Member>) {
    forall i :: 0 <= i < |members| ==> HasArchitecture(members[i])
  }

  /** Every kernel boots directly, and no two share a key. */
  predicate Agreeing(found: seq<Keyed>) { AllDirect(found) && Distinct(found) }

  /** The roots in scope are those of the inventory, each once. */
  predicate RootsAgree(specs: seq<Spec>, members: seq<Member>, arches: set<string>) {
    Distinct(Roots(members, arches)) && Keys(Roots(members, arches)) == Expected(specs, arches)
  }

  /** Every root has a kernel. */
  predicate Matched(members: seq<Member>, arches: set<string>) {
    Keys(Roots(members, arches)) <= Keys(Kernels(members, arches))
  }

  /** The kernels by key. */
  function Dict(found: seq<Keyed>): (dict: map<Key, Member>)
    ensures dict.Keys == Keys(found)
  {
    if found == [] then map[]
    else
      var last := found[|found| - 1];
      KeysAppend(found[..|found| - 1], last);
      assert found == found[..|found| - 1] + [last];
      Dict(found[..|found| - 1])[last.key := last.member]
  }

  lemma KeysAppend(found: seq<Keyed>, last: Keyed)
    ensures Keys(found + [last]) == Keys(found) + {last.key}
  {
    var all := found + [last];
    forall key | key in Keys(found) + {last.key}
      ensures key in Keys(all)
    {
      if key == last.key {
        assert all[|found|].key == key;
      } else {
        var i :| 0 <= i < |found| && found[i].key == key;
        assert all[i].key == key;
      }
    }
  }

  /** Looking a key up gives the member that has it. */
  lemma {:induction false} DictMeaning(found: seq<Keyed>, i: nat)
    requires Distinct(found) && i < |found|
    ensures found[i].key in Dict(found) && Dict(found)[found[i].key] == found[i].member
  {
    if i < |found| - 1 {
      DictMeaning(found[..|found| - 1], i);
    }
  }

  /** The pairs, in the order of the roots. */
  function PairsOf(roots: seq<Keyed>, kernels: map<Key, Member>): (pairs: seq<Pair>)
    requires Keys(roots) <= kernels.Keys
    ensures |pairs| == |roots|
    ensures forall i :: 0 <= i < |roots| ==>
              pairs[i].key == roots[i].key && pairs[i].root == roots[i].member && pairs[i].key in kernels.Keys
              && pairs[i].kernel == kernels[roots[i].key]
  {
    seq(|roots|, i requires 0 <= i < |roots| =>
      assert roots[i].key in Keys(roots);
      Pair(roots[i].key, roots[i].member, kernels[roots[i].key]))
  }

  // ---------------------------------------------------------------- the selection

  lemma {:induction false} CountingKeys(found: seq<Keyed>)
    ensures |Keys(found)| <= |found|
    ensures |Keys(found)| == |found| <==> Distinct(found)
  {
    if found == [] {
      assert Keys(found) == {};
    } else {
      var front, last := found[..|found| - 1], found[|found| - 1];
      assert found == front + [last];
      CountingKeys(front);
      KeysAppend(front, last);
      DistinctAppend(front, last);
      hide Distinct, Keys;
      if last.key in Keys(front) {
        assert Keys(front) + {last.key} == Keys(front);
      }
    }
  }

  lemma DistinctAppend(front: seq<Keyed>, last: Keyed)
    ensures Distinct(front + [last]) <==> Distinct(front) && last.key !in Keys(front)
  {
    var all := front + [last];
    assert forall i :: 0 <= i < |front| ==> all[i] == front[i];
    assert all[|front|] == last;
    if Distinct(all) {
      forall i | 0 <= i < |front|
        ensures front[i].key != last.key
      {
        assert all[i].key != all[|front|].key;
      }
      assert forall i, j :: 0 <= i < j < |front| ==> all[i].key != all[j].key;
    }
  }

  lemma OneMore(members: seq<Member>, arches: set<string>, i: nat)
    requires i < |members|
    ensures Kernels(members[..i + 1], arches) == Kernels(members[..i], arches) + KernelOf(members[i], arches)
    ensures Roots(members[..i + 1], arches) == Roots(members[..i], arches) + RootOf(members[i], arches)
  {
    assert members[..i + 1][..i] == members[..i];
    hide KernelOf, RootOf, HasArchitecture;
  }

  lemma KernelStep(members: seq<Member>, arches: set<string>, i: nat)
    requires i < |members|
    ensures var m, found := members[i], Kernels(members[..i], arches);
            Kernels(members[..i + 1], arches) ==
            if InScope(m, arches) && m.role.kernel.Some? then
              found + [Keyed(Key(m.arch.value, m.role.kernel.value, m.mode), m)]
            else found
  {
    OneMore(members, arches, i);
    hide Kernels;
  }

  lemma RootStep(members: seq<Member>, arches: set<string>, i: nat)
    requires i < |members|
    ensures var m, found := members[i], Roots(members[..i], arches);
            Roots(members[..i + 1], arches) ==
            if InScope(m, arches) && m.role.rootfs.Some? then
              found + [Keyed(Key(m.arch.value, m.role.rootfs.value, m.mode), m)]
            else found
  {
    OneMore(members, arches, i);
    hide Roots;
  }

  lemma ArchitectureStep(members: seq<Member>, i: nat)
    requires i < |members|
    ensures AllHaveArchitecture(members[..i + 1]) <==> AllHaveArchitecture(members[..i]) && HasArchitecture(members[i])
    ensures !HasArchitecture(members[i]) ==> !AllHaveArchitecture(members)
  {
    var some := members[..i + 1];
    assert forall k :: 0 <= k < i ==> some[k] == members[..i][k];
    assert some[i] == members[i];
    hide HasArchitecture;
  }

  lemma Scoped(m: Member, arches: set<string>)
    ensures HasArchitecture(m) <==> (m.role.Workload? ==> m.arch.Some?)
    ensures InScope(m, arches) <==> m.role.Workload? && m.arch.Some? && m.arch.value in arches
  {
  }

  lemma Started(arches: set<string>)
    ensures Dict(Kernels([], arches)) == map[] && Roots([], arches) == []
    ensures Agreeing(Kernels([], arches)) && AllHaveArchitecture([])
  {
  }

  lemma AgreeingAppend(found: seq<Keyed>, last: Keyed)
    ensures Agreeing(found + [last])
            <==> Agreeing(found) && last.member.protocol == LINUX_DIRECT && last.key !in Dict(found)
    ensures Dict(found + [last]) == Dict(found)[last.key := last.member]
  {
    DistinctAppend(found, last);
    assert (found + [last])[..|found|] == found;
    var all := found + [last];
    assert forall i :: 0 <= i < |found| ==> all[i] == found[i];
    assert all[|found|] == last;
    hide Distinct, Keys;
  }

  lemma {:induction false} DisagreementStays(members: seq<Member>, arches: set<string>, i: nat)
    requires i <= |members| && !Agreeing(Kernels(members[..i], arches))
    ensures !Agreeing(Kernels(members, arches))
    decreases |members| - i
  {
    if i == |members| {
      assert members[..i] == members;
    } else {
      OneMore(members, arches, i);
      PrefixAgrees(Kernels(members[..i], arches), KernelOf(members[i], arches));
      DisagreementStays(members, arches, i + 1);
    }
    hide Kernels, KernelOf, AllDirect, Distinct;
  }

  lemma PrefixAgrees(front: seq<Keyed>, rest: seq<Keyed>)
    ensures AllDirect(front + rest) ==> AllDirect(front)
    ensures Distinct(front + rest) ==> Distinct(front)
  {
    assert forall i :: 0 <= i < |front| ==> (front + rest)[i] == front[i];
  }

  /** The loop over the members. */
  method Collect(members: seq<Member>, arches: set<string>)
    returns (r: Result<(map<Key, Member>, seq<Keyed>), Reason>)
    ensures r.Success? <==> AllHaveArchitecture(members) && Agreeing(Kernels(members, arches))
    ensures r.Success? ==> r.value == (Dict(Kernels(members, arches)), Roots(members, arches))
    ensures r.Failure? ==> r.error == NoArchitecture || r.error == AmbiguousKernel
    ensures r == Failure(NoArchitecture) ==> !AllHaveArchitecture(members)
    ensures r == Failure(AmbiguousKernel) ==> !Agreeing(Kernels(members, arches))
  {
    var kernels: map<Key, Member>, roots: seq<Keyed> := map[], [];
    Started(arches);
    assert members[..0] == [];
    hide *;
    for i := 0 to |members|
      invariant kernels == Dict(Kernels(members[..i], arches)) && roots == Roots(members[..i], arches)
      invariant AllHaveArchitecture(members[..i]) && Agreeing(Kernels(members[..i], arches))
    {
      var m := members[i];
      Scoped(m, arches);
      ArchitectureStep(members, i);
      KernelStep(members, arches, i);
      RootStep(members, arches, i);
      if m.role.Workload? {
        if m.arch.None? {
          return Failure(NoArchitecture);
        }
        if m.arch.value in arches {
          if m.role.kernel.Some? {
            var key := Key(m.arch.value, m.role.kernel.value, m.mode);
            AgreeingAppend(Kernels(members[..i], arches), Keyed(key, m));
            if key in kernels || m.protocol != LINUX_DIRECT {
              DisagreementStays(members, arches, i + 1);
              return Failure(AmbiguousKernel);
            }
            kernels := kernels[key := m];
          }
          if m.role.rootfs.Some? {
            roots := roots + [Keyed(Key(m.arch.value, m.role.rootfs.value, m.mode), m)];
          }
        }
      }
    }
    assert members[..|members|] == members;
    return Success((kernels, roots));
  }

  /** `select_pairs`. */
  method SelectPairs(specs: seq<Spec>, members: seq<Member>, arches: set<string>) returns (r: Result<seq<Pair>, Reason>)
    ensures r.Success? <==>
            && AllHaveArchitecture(members) && Agreeing(Kernels(members, arches))
            && RootsAgree(specs, members, arches) && Matched(members, arches)
    ensures r.Success? ==> r.value == PairsOf(Roots(members, arches), Dict(Kernels(members, arches)))
    ensures r == Failure(NoArchitecture) ==> !AllHaveArchitecture(members)
    ensures r == Failure(AmbiguousKernel) ==> !Agreeing(Kernels(members, arches))
    ensures r == Failure(RootsDiffer) ==> !RootsAgree(specs, members, arches)
    ensures r == Failure(MissingKernel) ==> RootsAgree(specs, members, arches) && !Matched(members, arches)
  {
    var collected :- Collect(members, arches);
    var kernels: map<Key, Member>, roots: seq<Keyed> := collected.0, collected.1;
    CountingKeys(roots);
    var keys := Keys(roots);
    if |roots| != |keys| || keys != Expected(specs, arches) {
      return Failure(RootsDiffer);
    }
    var pairs: seq<Pair> := [];
    for i := 0 to |roots|
      invariant |pairs| == i
      invariant forall k :: 0 <= k < i ==>
                  roots[k].key in kernels && pairs[k] == Pair(roots[k].key, roots[k].member, kernels[roots[k].key])
    {
      if roots[i].key !in kernels {
        assert roots[i].key in keys;
        return Failure(MissingKernel);
      }
      pairs := pairs + [Pair(roots[i].key, roots[i].member, kernels[roots[i].key])];
    }
    return Success(pairs);
  }

  /** Each root is paired with the one kernel in scope that has its key. */
  lemma PairsMeaning(members: seq<Member>, arches: set<string>, i: nat)
    requires Agreeing(Kernels(members, arches)) && Matched(members, arches) && i < |Roots(members, arches)|
    ensures var pair := PairsOf(Roots(members, arches), Dict(Kernels(members, arches)))[i];
            && pair.key == Roots(members, arches)[i].key && pair.root == Roots(members, arches)[i].member
            && Keyed(pair.key, pair.kernel) in Kernels(members, arches)
            && pair.kernel.protocol == LINUX_DIRECT
            && forall k :: 0 <= k < |Kernels(members, arches)| && Kernels(members, arches)[k].key == pair.key ==>
                 Kernels(members, arches)[k].member == pair.kernel
  {
    var roots, kernels := Roots(members, arches), Kernels(members, arches);
    hide Roots, Kernels, Dict;
    assert roots[i].key in Keys(roots);
    var k :| 0 <= k < |kernels| && kernels[k].key == roots[i].key;
    DictMeaning(kernels, k);
    assert kernels[k] == Keyed(roots[i].key, kernels[k].member);
  }
}
