/** What hydrating a split index yields, and that it undoes splitting. */
module SplitIndexMeaning {
  import opened Wrappers
  import opened Bytes
  import opened Ordering
  import opened ActiveSets
  import opened SplitIndex
  import opened IndexExtensions
  import EwahMeaning

  // ---------------------------------------------------------------- the patched list

  lemma {:induction false} KeepSize<T>(xs: seq<T>, deleted: set<nat>)
    requires Below(deleted, |xs|)
    ensures |Keep(xs, deleted)| == |xs| - |deleted|
  {
    if xs != [] {
      var n := |xs| - 1;
      if n in deleted {
        KeepSize(xs[..n], deleted - {n});
        KeepSame(xs[..n], deleted, deleted - {n});
      } else {
        KeepSize(xs[..n], deleted);
      }
    } else {
      assert deleted == {} by {
        assert forall i :: i in deleted ==> i < 0;
      }
    }
  }

  lemma {:induction false} KeepSame<T>(xs: seq<T>, a: set<nat>, b: set<nat>)
    requires forall i :: 0 <= i < |xs| ==> (i in a <==> i in b)
    ensures Keep(xs, a) == Keep(xs, b)
  {
    if xs != [] {
      KeepSame(xs[..|xs| - 1], a, b);
    }
  }

  lemma {:induction false} KeepMember<T(!new)>(xs: seq<T>, deleted: set<nat>, x: T)
    ensures x in Keep(xs, deleted) <==> exists i :: 0 <= i < |xs| && i !in deleted && xs[i] == x
  {
    if xs != [] {
      var n := |xs| - 1;
      KeepMember(xs[..n], deleted, x);
      assert xs == xs[..n] + [xs[n]];
      if x in Keep(xs[..n], deleted) {
        var i :| 0 <= i < n && i !in deleted && xs[..n][i] == x;
        assert xs[i] == x;
      }
      if i :| 0 <= i < |xs| && i !in deleted && xs[i] == x {
        assert i < n ==> xs[..n][i] == x;
      }
    }
  }

  lemma {:induction false} KeepDistinct<T(!new)>(xs: seq<T>, deleted: set<nat>, key: T -> Key)
    requires forall i, j :: 0 <= i < j < |xs| && i !in deleted && j !in deleted ==> key(xs[i]) != key(xs[j])
    ensures DistinctKeys(Keep(xs, deleted), key)
  {
    if xs != [] {
      var n := |xs| - 1;
      var front := Keep(xs[..n], deleted);
      KeepDistinct(xs[..n], deleted, key);
      if n !in deleted {
        forall k | 0 <= k < |front|
          ensures key(front[k]) != key(xs[n])
        {
          KeepMember(xs[..n], deleted, front[k]);
          assert front[k] in front;
          var i :| 0 <= i < n && i !in deleted && xs[..n][i] == front[k];
          assert xs[i] == front[k];
        }
      }
    }
  }

  lemma PatchSorts(shared: seq<Record>, records: seq<Record>, deleted: set<nat>, replaced: set<nat>)
    requires Below(deleted, |shared|) && Below(replaced, |shared|)
    requires Patch(shared, records, deleted, replaced).Success?
    ensures Rank(replaced, |shared|) == |replaced| <= |records| && deleted * replaced == {}
    ensures var merged := Patch(shared, records, deleted, replaced).value;
            && Sorted(merged, BY_PATH_AND_STAGE)
            && |merged| == |shared| - |deleted| + |records| - |replaced|
            && forall r :: r in merged <==> r in Unsorted(shared, records, deleted, replaced)
  {
    RankIsSize(replaced, |shared|);
    var all := Unsorted(shared, records, deleted, replaced);
    KeepSize(Replaced(shared, records, replaced), deleted);
    StableSortCorrect(all, BY_PATH_AND_STAGE);
    hide Keep, Replaced, StableSort, Rank;
  }

  lemma KeptMerged(shared: seq<Record>, records: seq<Record>, deleted: set<nat>, replaced: set<nat>, i: nat)
    requires Below(replaced, |shared|) && Rank(replaced, |shared|) == |replaced| <= |records|
    requires i < |shared| && i !in deleted
    ensures Replaced(shared, records, replaced)[i] in Unsorted(shared, records, deleted, replaced)
  {
    var list := Replaced(shared, records, replaced);
    KeepMember(list, deleted, list[i]);
    hide Keep, Replaced, Rank;
  }

  lemma SurvivorMerged(shared: seq<Record>, records: seq<Record>, deleted: set<nat>, replaced: set<nat>, i: nat)
    requires Below(deleted, |shared|) && Below(replaced, |shared|)
    requires Patch(shared, records, deleted, replaced).Success?
    requires i < |shared| && i !in deleted && i !in replaced
    ensures shared[i] in Patch(shared, records, deleted, replaced).value
  {
    PatchSorts(shared, records, deleted, replaced);
    KeptMerged(shared, records, deleted, replaced, i);
    hide Patch, Unsorted, Below, Rank;
  }

  lemma ReplacementMerged(shared: seq<Record>, records: seq<Record>, deleted: set<nat>, replaced: set<nat>, k: nat)
    requires Below(deleted, |shared|) && Below(replaced, |shared|)
    requires Patch(shared, records, deleted, replaced).Success?
    requires k < |replaced|
    ensures |Ascending(replaced, |shared|)| == |replaced| <= |records| && Ascending(replaced, |shared|)[k] < |shared|
    ensures Record(shared[Ascending(replaced, |shared|)[k]].path, records[k].entry)
              in Patch(shared, records, deleted, replaced).value
  {
    RankIsSize(replaced, |shared|);
    PatchSorts(shared, records, deleted, replaced);
    AscendingMember(replaced, |shared|, k);
    var i := Ascending(replaced, |shared|)[k];
    assert i !in deleted * replaced;
    KeptMerged(shared, records, deleted, replaced, i);
    hide Patch, Unsorted, Below, Ascending;
  }

  lemma AppendedMerged(shared: seq<Record>, records: seq<Record>, deleted: set<nat>, replaced: set<nat>, k: nat)
    requires Below(deleted, |shared|) && Below(replaced, |shared|)
    requires Patch(shared, records, deleted, replaced).Success?
    requires |replaced| <= k < |records|
    ensures records[k] in Patch(shared, records, deleted, replaced).value
  {
    PatchSorts(shared, records, deleted, replaced);
    assert records[|replaced|..][k - |replaced|] == records[k];
    hide Patch, Keep, Replaced, Below, Rank;
  }

  /** Size, order and contents of a hydrated index, for any two bitmaps the decoder accepts. */
  lemma PatchMeaning(shared: seq<Record>, records: seq<Record>, deleted: set<nat>, replaced: set<nat>)
    requires Below(deleted, |shared|) && Below(replaced, |shared|)
    requires Patch(shared, records, deleted, replaced).Success?
    ensures var merged := Patch(shared, records, deleted, replaced).value;
            && |merged| == |shared| - |deleted| + |records| - |replaced|
            && Sorted(merged, BY_PATH_AND_STAGE)
    ensures forall i :: 0 <= i < |shared| && i !in deleted && i !in replaced ==>
              shared[i] in Patch(shared, records, deleted, replaced).value
    ensures forall k :: 0 <= k < |replaced| ==>
              |Ascending(replaced, |shared|)| == |replaced| && Ascending(replaced, |shared|)[k] < |shared| &&
              Record(shared[Ascending(replaced, |shared|)[k]].path, records[k].entry)
                in Patch(shared, records, deleted, replaced).value
    ensures forall k :: |replaced| <= k < |records| ==> records[k] in Patch(shared, records, deleted, replaced).value
  {
    var merged := Patch(shared, records, deleted, replaced).value;
    PatchSorts(shared, records, deleted, replaced);
    RankIsSize(replaced, |shared|);
    hide Patch, Below, Replaced, Unsorted, Rank, Ascending;
    forall i | 0 <= i < |shared| && i !in deleted && i !in replaced
      ensures shared[i] in merged
    {
      SurvivorMerged(shared, records, deleted, replaced, i);
    }
    forall k | 0 <= k < |replaced|
      ensures Ascending(replaced, |shared|)[k] < |shared|
      ensures Record(shared[Ascending(replaced, |shared|)[k]].path, records[k].entry) in merged
    {
      ReplacementMerged(shared, records, deleted, replaced, k);
    }
    forall k | |replaced| <= k < |records|
      ensures records[k] in merged
    {
      AppendedMerged(shared, records, deleted, replaced, k);
    }
  }

  /** The replaced indexes below one, in order, each with its own path and the entry of the record of its rank. */
  ghost function Replacements(shared: seq<Record>, records: seq<Record>, replaced: set<nat>, n: nat): (list: seq<Record>)
    requires n <= |shared| && Below(replaced, |shared|) && Rank(replaced, |shared|) <= |records|
    ensures |list| == Rank(replaced, n)
  {
    RankBelow(replaced, n, |shared| + 1);
    seq(Rank(replaced, n), k requires 0 <= k < Rank(replaced, n) =>
      AscendingMember(replaced, n, k);
      RankWithin(replaced, n, |shared|);
      Record(shared[Ascending(replaced, n)[k]].path, records[k].entry))
  }

  lemma {:induction false} RankWithin(s: set<nat>, n: nat, m: nat)
    requires n <= m
    ensures Rank(s, n) <= Rank(s, m)
    decreases m
  {
    if n < m {
      RankWithin(s, n, m - 1);
    }
  }

  lemma AscendingStep(s: set<nat>, n: nat, k: nat)
    ensures Rank(s, n + 1) == Rank(s, n) + (if n in s then 1 else 0)
    ensures k < Rank(s, n) ==> Ascending(s, n + 1)[k] == Ascending(s, n)[k]
    ensures n in s ==> Ascending(s, n + 1)[Rank(s, n)] == n
  {
  }

  lemma ReplacementAt(shared: seq<Record>, records: seq<Record>, replaced: set<nat>, n: nat, k: nat)
    requires n <= |shared| && Below(replaced, |shared|) && Rank(replaced, |shared|) <= |records| && k < Rank(replaced, n)
    ensures k < |records| && Ascending(replaced, n)[k] < |shared|
    ensures Replacements(shared, records, replaced, n)[k] == Record(shared[Ascending(replaced, n)[k]].path, records[k].entry)
  {
    AscendingMember(replaced, n, k);
    RankWithin(replaced, n, |shared|);
    hide Rank, Ascending, Below;
  }

  lemma ReplacedAt(shared: seq<Record>, records: seq<Record>, replaced: set<nat>, n: nat)
    requires n in replaced && n < |shared| && Below(replaced, |shared|) && Rank(replaced, |shared|) <= |records|
    ensures Rank(replaced, n) < |records|
    ensures Replaced(shared, records, replaced)[n] == Record(shared[n].path, records[Rank(replaced, n)].entry)
  {
    RankBelow(replaced, n, |shared|);
    hide Rank, Below;
  }

  lemma LongerByOne<T>(longer: seq<T>, shorter: seq<T>, x: seq<T>)
    requires |longer| == |shorter| + |x| && |x| <= 1
    requires forall k :: 0 <= k < |shorter| ==> longer[k] == shorter[k]
    requires x != [] ==> longer[|shorter|] == x[0]
    ensures longer == shorter + x
  {
  }

  lemma ReplacementsStep(shared: seq<Record>, records: seq<Record>, replaced: set<nat>, n: nat)
    requires n < |shared| && Below(replaced, |shared|) && Rank(replaced, |shared|) <= |records|
    ensures Replacements(shared, records, replaced, n + 1) ==
            Replacements(shared, records, replaced, n) +
            (if n in replaced then [Replaced(shared, records, replaced)[n]] else [])
  {
    hide *;
    var longer, shorter := Replacements(shared, records, replaced, n + 1), Replacements(shared, records, replaced, n);
    AscendingStep(replaced, n, 0);
    forall k | 0 <= k < Rank(replaced, n)
      ensures longer[k] == shorter[k]
    {
      AscendingStep(replaced, n, k);
      ReplacementAt(shared, records, replaced, n, k);
      ReplacementAt(shared, records, replaced, n + 1, k);
    }
    if n in replaced {
      ReplacementAt(shared, records, replaced, n + 1, Rank(replaced, n));
      ReplacedAt(shared, records, replaced, n);
    }
    LongerByOne(longer, shorter, if n in replaced then [Replaced(shared, records, replaced)[n]] else []);
  }

  lemma KeepStep<T>(xs: seq<T>, deleted: set<nat>, n: nat)
    requires n < |xs|
    ensures Keep(xs[..n + 1], deleted) == Keep(xs[..n], deleted) + (if n in deleted then [] else [xs[n]])
  {
    assert xs[..n + 1][..n] == xs[..n];
  }

  lemma AppendedInTwo<T>(all: seq<T>, left: seq<T>, right: seq<T>, x: seq<T>, l: seq<T>, r: seq<T>)
    requires multiset(all) == multiset(left) + multiset(right) && multiset(x) == multiset(l) + multiset(r)
    ensures multiset(all + x) == multiset(left + l) + multiset(right + r)
  {
  }

  /** One entry is deleted, replaced or left alone. */
  lemma OneInTwo(shared: seq<Record>, records: seq<Record>, deleted: set<nat>, replaced: set<nat>, n: nat)
    requires n < |shared| && Below(replaced, |shared|) && Rank(replaced, |shared|) <= |records|
    requires deleted * replaced == {}
    ensures var r := Replaced(shared, records, replaced)[n];
            multiset(if n in deleted then [] else [r]) ==
            multiset(if n in deleted + replaced then [] else [shared[n]]) + multiset(if n in replaced then [r] else [])
  {
    assert !(n in deleted && n in replaced) by { assert n !in deleted * replaced; }
    assert n !in replaced ==> Replaced(shared, records, replaced)[n] == shared[n];
    hide Replaced, Rank, Below;
  }

  /** Of the first shared entries, those that are not deleted are the untouched ones and the replacements. */
  lemma {:induction false} KeptInTwo(
    shared: seq<Record>, records: seq<Record>, deleted: set<nat>, replaced: set<nat>, n: nat)
    requires n <= |shared| && Below(replaced, |shared|) && Rank(replaced, |shared|) <= |records|
    requires deleted * replaced == {}
    ensures multiset(Keep(Replaced(shared, records, replaced)[..n], deleted)) ==
            multiset(Keep(shared[..n], deleted + replaced)) + multiset(Replacements(shared, records, replaced, n))
    decreases n
  {
    hide *;
    var list := Replaced(shared, records, replaced);
    if n > 0 {
      var m := n - 1;
      KeptInTwo(shared, records, deleted, replaced, m);
      KeepStep(list, deleted, m);
      KeepStep(shared, deleted + replaced, m);
      ReplacementsStep(shared, records, replaced, m);
      OneInTwo(shared, records, deleted, replaced, m);
      AppendedInTwo(
        Keep(list[..m], deleted), Keep(shared[..m], deleted + replaced), Replacements(shared, records, replaced, m),
        if m in deleted then [] else [list[m]], if m in deleted + replaced then [] else [shared[m]],
        if m in replaced then [list[m]] else []);
    } else {
      NothingKept(shared, records, deleted, replaced);
    }
  }

  lemma NothingKept(shared: seq<Record>, records: seq<Record>, deleted: set<nat>, replaced: set<nat>)
    requires Below(replaced, |shared|) && Rank(replaced, |shared|) <= |records|
    ensures Keep(Replaced(shared, records, replaced)[..0], deleted) == [] && Keep(shared[..0], deleted + replaced) == []
    ensures Replacements(shared, records, replaced, 0) == []
  {
  }

  lemma Whole<T>(xs: seq<T>)
    ensures xs[..|xs|] == xs
  {
  }

  /**
   * The hydrated index has exactly the shared entries that are neither deleted nor replaced, the replacements and the
   * remaining records, each as often as it occurs there.
   */
  lemma PatchContents(shared: seq<Record>, records: seq<Record>, deleted: set<nat>, replaced: set<nat>)
    requires Below(deleted, |shared|) && Below(replaced, |shared|)
    requires Patch(shared, records, deleted, replaced).Success?
    ensures Rank(replaced, |shared|) == |replaced| <= |records|
    ensures multiset(Patch(shared, records, deleted, replaced).value) ==
            multiset(Keep(shared, deleted + replaced)) + multiset(Replacements(shared, records, replaced, |shared|))
            + multiset(records[|replaced|..])
  {
    PatchSorts(shared, records, deleted, replaced);
    StableSortCorrect(Unsorted(shared, records, deleted, replaced), BY_PATH_AND_STAGE);
    KeptInTwo(shared, records, deleted, replaced, |shared|);
    Whole(shared);
    Whole(Replaced(shared, records, replaced));
    hide Keep, Replaced, Replacements, Rank, Below, StableSort, Sorted;
  }

  lemma MemberOfMerged(shared: seq<Record>, records: seq<Record>, deleted: set<nat>, replaced: set<nat>, r: Record)
    requires Below(replaced, |shared|) && Patch(shared, records, deleted, replaced).Success?
    requires r in Patch(shared, records, deleted, replaced).value
    ensures Rank(replaced, |shared|) == |replaced| <= |records|
    ensures (exists i :: 0 <= i < |shared| && i !in deleted && Replaced(shared, records, replaced)[i] == r)
            || r in records[|replaced|..]
  {
    RankIsSize(replaced, |shared|);
    var list := Replaced(shared, records, replaced);
    StableSortCorrect(Keep(list, deleted) + records[|replaced|..], BY_PATH_AND_STAGE);
    KeepMember(list, deleted, r);
    hide Replaced, Keep, StableSort, Rank, ReplacementPathsValid;
  }

  lemma RankIsCount(s: set<nat>, n: nat)
    ensures Rank(s, n) == |Ascending(s, n)|
  {
  }

  lemma SmallestIndex(shared: seq<Record>, records: seq<Record>, replaced: set<nat>, k: nat)
    requires Below(replaced, |shared|) && Rank(replaced, |shared|) == |replaced| <= |records| && k < |replaced|
    ensures |Ascending(replaced, |shared|)| == |replaced| && Ascending(replaced, |shared|)[k] < |shared|
  {
    AscendingMember(replaced, |shared|, k);
  }

  lemma ReplacedOrigin(shared: seq<Record>, records: seq<Record>, replaced: set<nat>, i: nat)
    requires Below(replaced, |shared|) && Rank(replaced, |shared|) == |replaced| <= |records| && i < |shared|
    ensures i !in replaced ==> Replaced(shared, records, replaced)[i] == shared[i]
    ensures i in replaced ==>
              Rank(replaced, i) < |replaced| == |Ascending(replaced, |shared|)|
              && Ascending(replaced, |shared|)[Rank(replaced, i)] == i
              && Replaced(shared, records, replaced)[i] == Record(shared[i].path, records[Rank(replaced, i)].entry)
  {
    if i in replaced {
      AscendingAt(replaced, |shared|, i);
    }
  }

  /** Nothing else is in a hydrated index: no deleted entry, and no entry of another origin. */
  lemma PatchOrigins(shared: seq<Record>, records: seq<Record>, deleted: set<nat>, replaced: set<nat>, r: Record)
    requires Below(deleted, |shared|) && Below(replaced, |shared|)
    requires Patch(shared, records, deleted, replaced).Success?
    requires r in Patch(shared, records, deleted, replaced).value
    ensures |Ascending(replaced, |shared|)| == |replaced| <= |records|
    ensures forall k :: 0 <= k < |replaced| ==> Ascending(replaced, |shared|)[k] < |shared|
    ensures || (exists i :: 0 <= i < |shared| && i !in deleted && i !in replaced && shared[i] == r)
            || (exists k :: 0 <= k < |replaced|
                            && r == Record(shared[Ascending(replaced, |shared|)[k]].path, records[k].entry))
            || (exists k :: |replaced| <= k < |records| && records[k] == r)
  {
    hide *;
    MemberOfMerged(shared, records, deleted, replaced, r);
    RankIsCount(replaced, |shared|);
    forall k | 0 <= k < |replaced|
      ensures Ascending(replaced, |shared|)[k] < |shared|
    {
      SmallestIndex(shared, records, replaced, k);
    }
    if i :| 0 <= i < |shared| && i !in deleted && Replaced(shared, records, replaced)[i] == r {
      ReplacedOrigin(shared, records, replaced, i);
    } else {
      var k :| 0 <= k < |records[|replaced|..]| && records[|replaced|..][k] == r;
      assert records[|replaced| + k] == r;
    }
  }

  // ---------------------------------------------------------------- splitting

  ghost predicate WellFormed(index: seq<Record>) {
    && StrictlySorted(index, BY_PATH_AND_STAGE)
    && forall i :: 0 <= i < |index| ==> index[i].path != []
  }

  ghost predicate HasKey(index: seq<Record>, k: Key) {
    exists r :: r in index && BY_PATH_AND_STAGE(r) == k
  }

  /** The record of `index` with key `k`. */
  ghost function Lookup(index: seq<Record>, k: Key): (r: Record)
    requires HasKey(index, k)
    ensures r in index && BY_PATH_AND_STAGE(r) == k
  {
    var r :| r in index && BY_PATH_AND_STAGE(r) == k;
    r
  }

  lemma LookupUnique(index: seq<Record>, r: Record)
    requires StrictlySorted(index, BY_PATH_AND_STAGE) && r in index
    ensures HasKey(index, BY_PATH_AND_STAGE(r)) && Lookup(index, BY_PATH_AND_STAGE(r)) == r
  {
    var s := Lookup(index, BY_PATH_AND_STAGE(r));
    var i :| 0 <= i < |index| && index[i] == r;
    var j :| 0 <= j < |index| && index[j] == s;
    StrictKeysDistinct(index, BY_PATH_AND_STAGE);
    assert BY_PATH_AND_STAGE(index[i]) == BY_PATH_AND_STAGE(index[j]);
  }

  /** The entries of the base that the target lacks. */
  ghost function Deleted(base: seq<Record>, target: seq<Record>): set<nat> {
    set i: nat | i < |base| && !HasKey(target, BY_PATH_AND_STAGE(base[i]))
  }

  /** The entries of the base that the target has with other contents. */
  ghost function Changed(base: seq<Record>, target: seq<Record>): set<nat> {
    set i: nat | i < |base| && HasKey(target, BY_PATH_AND_STAGE(base[i])) && Lookup(target, BY_PATH_AND_STAGE(base[i])) != base[i]
  }

  /** The positions of the target's entries that the base also has. */
  ghost function Known(base: seq<Record>, target: seq<Record>): set<nat> {
    set i: nat | i < |target| && HasKey(base, BY_PATH_AND_STAGE(target[i]))
  }

  /** A replacement record: the target's entry, with the path left out. */
  ghost function Replacement(base: seq<Record>, target: seq<Record>, i: nat): Record {
    if i < |base| && HasKey(target, BY_PATH_AND_STAGE(base[i]))
    then Record([], Lookup(target, BY_PATH_AND_STAGE(base[i])).entry)
    else Record([], Entry(0, [], 0, false, false, false))
  }

  /** The records a split index stores: one per replaced entry, then the new entries. */
  ghost function SplitRecords(base: seq<Record>, target: seq<Record>): seq<Record> {
    var order := Ascending(Changed(base, target), |base|);
    seq(|order|, k requires 0 <= k < |order| => Replacement(base, target, order[k])) + Keep(target, Known(base, target))
  }

  /** The `link` extension a split index stores. */
  ghost function SplitLink(digest: Digest, base: seq<Record>, target: seq<Record>): seq<Byte> {
    digest + EwahMeaning.Encode(Deleted(base, target), |base|) + EwahMeaning.Encode(Changed(base, target), |base|)
  }

  lemma SplitIsPatchable(base: seq<Record>, target: seq<Record>)
    requires WellFormed(base) && WellFormed(target)
    ensures var (records, deleted, changed) := (SplitRecords(base, target), Deleted(base, target), Changed(base, target));
            && Below(changed, |base|) && |changed| <= |records| && deleted * changed == {}
            && Rank(changed, |base|) == |changed|
            && ReplacementPathsValid(base, records, changed)
            && records[|changed|..] == Keep(target, Known(base, target))
  {
    RankIsSize(Changed(base, target), |base|);
  }

  /** After replacement, every entry of the base that the target has is the target's. */
  lemma ReplacedFromTarget(base: seq<Record>, target: seq<Record>, i: nat)
    requires WellFormed(base) && WellFormed(target)
    requires i < |base| && HasKey(target, BY_PATH_AND_STAGE(base[i]))
    requires Below(Changed(base, target), |base|) && Rank(Changed(base, target), |base|) <= |SplitRecords(base, target)|
    ensures Replaced(base, SplitRecords(base, target), Changed(base, target))[i] == Lookup(target, BY_PATH_AND_STAGE(base[i]))
  {
    var changed := Changed(base, target);
    if i in changed {
      AscendingAt(changed, |base|, i);
      var found := Lookup(target, BY_PATH_AND_STAGE(base[i]));
      assert SplitRecords(base, target)[Rank(changed, i)] == Replacement(base, target, i);
      assert found.path == base[i].path;
    }
  }

  lemma MergedMembers(base: seq<Record>, target: seq<Record>, list: seq<Record>, x: Record)
    requires WellFormed(base) && WellFormed(target) && |list| == |base|
    requires forall i :: 0 <= i < |base| && HasKey(target, BY_PATH_AND_STAGE(base[i])) ==>
               list[i] == Lookup(target, BY_PATH_AND_STAGE(base[i]))
    ensures x in Keep(list, Deleted(base, target)) + Keep(target, Known(base, target)) <==> x in target
  {
    var deleted, known := Deleted(base, target), Known(base, target);
    KeepMember(list, deleted, x);
    KeepMember(target, known, x);
    if i :| 0 <= i < |list| && i !in deleted && list[i] == x {
      assert HasKey(target, BY_PATH_AND_STAGE(base[i]));
    }
    if x in target {
      var j :| 0 <= j < |target| && target[j] == x;
      if j in known {
        var b := Lookup(base, BY_PATH_AND_STAGE(x));
        var i :| 0 <= i < |base| && base[i] == b;
        LookupUnique(target, x);
        assert HasKey(target, BY_PATH_AND_STAGE(base[i]));
        assert i !in deleted && list[i] == x;
      }
    }
  }

  /** Every surviving base record has been replaced by the target's record of the same key. */
  ghost predicate FromTarget(base: seq<Record>, target: seq<Record>, list: seq<Record>) {
    && |list| == |base|
    && forall i :: 0 <= i < |base| && HasKey(target, BY_PATH_AND_STAGE(base[i])) ==>
         list[i] == Lookup(target, BY_PATH_AND_STAGE(base[i]))
  }

  lemma SurvivorKey(base: seq<Record>, target: seq<Record>, list: seq<Record>, i: nat)
    requires FromTarget(base, target, list) && i < |base| && i !in Deleted(base, target)
    ensures BY_PATH_AND_STAGE(list[i]) == BY_PATH_AND_STAGE(base[i])
  {
    assert HasKey(target, BY_PATH_AND_STAGE(base[i]));
  }

  lemma SurvivorsDistinct(base: seq<Record>, target: seq<Record>, list: seq<Record>)
    requires WellFormed(base) && FromTarget(base, target, list)
    ensures DistinctKeys(Keep(list, Deleted(base, target)), BY_PATH_AND_STAGE)
  {
    var deleted := Deleted(base, target);
    StrictKeysDistinct(base, BY_PATH_AND_STAGE);
    forall i, j | 0 <= i < j < |list| && i !in deleted && j !in deleted
      ensures BY_PATH_AND_STAGE(list[i]) != BY_PATH_AND_STAGE(list[j])
    {
      SurvivorKey(base, target, list, i);
      SurvivorKey(base, target, list, j);
    }
    KeepDistinct(list, deleted, BY_PATH_AND_STAGE);
  }

  lemma SurvivorInBase(base: seq<Record>, target: seq<Record>, list: seq<Record>, r: Record)
    requires FromTarget(base, target, list) && r in Keep(list, Deleted(base, target))
    ensures HasKey(base, BY_PATH_AND_STAGE(r))
  {
    KeepMember(list, Deleted(base, target), r);
    var i :| 0 <= i < |list| && i !in Deleted(base, target) && list[i] == r;
    hide Deleted;
    SurvivorKey(base, target, list, i);
    assert base[i] in base;
  }

  lemma AppendedNotInBase(base: seq<Record>, target: seq<Record>, r: Record)
    requires r in Keep(target, Known(base, target))
    ensures !HasKey(base, BY_PATH_AND_STAGE(r))
  {
    KeepMember(target, Known(base, target), r);
  }

  lemma MergedDistinct(base: seq<Record>, target: seq<Record>, list: seq<Record>)
    requires WellFormed(base) && WellFormed(target) && FromTarget(base, target, list)
    ensures DistinctKeys(Keep(list, Deleted(base, target)) + Keep(target, Known(base, target)), BY_PATH_AND_STAGE)
  {
    var left, right := Keep(list, Deleted(base, target)), Keep(target, Known(base, target));
    SurvivorsDistinct(base, target, list);
    StrictKeysDistinct(target, BY_PATH_AND_STAGE);
    KeepDistinct(target, Known(base, target), BY_PATH_AND_STAGE);
    hide Keep, Known, Deleted, FromTarget, WellFormed, BY_PATH_AND_STAGE;
    forall a, b | 0 <= a < |left| && 0 <= b < |right|
      ensures BY_PATH_AND_STAGE(left[a]) != BY_PATH_AND_STAGE(right[b])
    {
      SurvivorInBase(base, target, list, left[a]);
      AppendedNotInBase(base, target, right[b]);
    }
  }

  /** Patching the base with what the split stores gives the target back. */
  lemma PatchRoundTrip(base: seq<Record>, target: seq<Record>)
    requires WellFormed(base) && WellFormed(target)
    ensures Below(Changed(base, target), |base|)
    ensures Patch(base, SplitRecords(base, target), Deleted(base, target), Changed(base, target)) == Success(target)
  {
    var records, deleted, changed := SplitRecords(base, target), Deleted(base, target), Changed(base, target);
    SplitIsPatchable(base, target);
    var list := Replaced(base, records, changed);
    forall i | 0 <= i < |base| && HasKey(target, BY_PATH_AND_STAGE(base[i]))
      ensures list[i] == Lookup(target, BY_PATH_AND_STAGE(base[i]))
    {
      ReplacedFromTarget(base, target, i);
    }
    var all := Keep(list, deleted) + Keep(target, Known(base, target));
    forall x
      ensures x in all <==> x in target
    {
      MergedMembers(base, target, list, x);
    }
    MergedDistinct(base, target, list);
    SortRestores(all, target, BY_PATH_AND_STAGE);
  }

  lemma SplitIsBelow(base: seq<Record>, target: seq<Record>, i: nat)
    ensures i in Deleted(base, target) ==> i < |base|
    ensures i in Changed(base, target) ==> i < |base|
  {
  }

  lemma FirstBitmap(digest: Digest, base: seq<Record>, target: seq<Record>)
    requires |base| < 0x1_0000_0000
    ensures var deleted := Deleted(base, target);
            Ewah.Bitmap(SplitLink(digest, base, target), |digest|, |base|)
            == Success((deleted, |digest| + |EwahMeaning.Encode(deleted, |base|)|))
  {
    hide Deleted, Changed, EwahMeaning.Encode, Ewah.Bitmap;
    var deleted, changed := Deleted(base, target), Changed(base, target);
    forall i | i in deleted
      ensures i < |base|
    {
      SplitIsBelow(base, target, i);
    }
    EwahMeaning.EncodeRoundTrip(digest, deleted, |base|, |base|, EwahMeaning.Encode(changed, |base|));
  }

  lemma SecondBitmap(digest: Digest, base: seq<Record>, target: seq<Record>)
    requires |base| < 0x1_0000_0000
    ensures var link := SplitLink(digest, base, target);
            Ewah.Bitmap(link, |digest| + |EwahMeaning.Encode(Deleted(base, target), |base|)|, |base|)
            == Success((Changed(base, target), |link|))
  {
    hide Deleted, Changed, EwahMeaning.Encode, Ewah.Bitmap;
    var link, changed := SplitLink(digest, base, target), Changed(base, target);
    var before := digest + EwahMeaning.Encode(Deleted(base, target), |base|);
    forall i | i in changed
      ensures i < |base|
    {
      SplitIsBelow(base, target, i);
    }
    EwahMeaning.EncodeRoundTrip(before, changed, |base|, |base|, []);
    assert link == before + EwahMeaning.Encode(changed, |base|) + [];
  }

  lemma HydratedIs(link: seq<Byte>, shared: seq<Record>, records: seq<Record>, deleted: set<nat>, middle: nat, replaced: set<nat>)
    requires |link| >= 20
    requires Ewah.Bitmap(link, 20, |shared|) == Success((deleted, middle))
    requires Ewah.Bitmap(link, middle, |shared|) == Success((replaced, |link|))
    requires Below(replaced, |shared|)
    ensures Hydrated(link, shared, records) == Patch(shared, records, deleted, replaced)
  {
    hide Ewah.Bitmap, Patch;
  }

  /** Hydrating a split index with its two encoded bitmaps gives the original index back. */
  lemma HydrateRoundTrip(digest: Digest, base: seq<Record>, target: seq<Record>)
    requires |digest| == 20 && |base| < 0x1_0000_0000
    requires WellFormed(base) && WellFormed(target)
    ensures Hydrated(SplitLink(digest, base, target), base, SplitRecords(base, target)) == Success(target)
  {
    PatchRoundTrip(base, target);
    hide *;
    FirstBitmap(digest, base, target);
    SecondBitmap(digest, base, target);
    SplitLinkStart(digest, base, target);
    HydratedIs(
      SplitLink(digest, base, target), base, SplitRecords(base, target), Deleted(base, target),
      |digest| + |EwahMeaning.Encode(Deleted(base, target), |base|)|, Changed(base, target));
  }

  /** An index file that the library can decode, with an accepted checksum. */
  predicate Stored(file: IndexFile, records: seq<Record>, extensions: seq<Byte>, expected: Option<Digest>) {
    file.length >= 32 && ChecksumAccepted(file, expected) && file.records == Some(records) && file.extensions == extensions
  }

  lemma StoredIsParsed(
    file: IndexFile, records: seq<Record>, extensions: seq<Byte>, expected: Option<Digest>, link: Option<seq<Byte>>)
    requires Stored(file, records, extensions, expected) && LinkOf(extensions, None, false) == Success(link)
    ensures Parsed(file, expected) == Success((records, link))
  {
    hide LinkOf, ChecksumAccepted;
  }

  lemma PlainEntries(store: Store, given: string, active: set<string>, expected: Option<Digest>, records: seq<Record>)
    requires var path := store.resolve(given);
             && path !in active && |active| < MAX_DEPTH && path in store.files
             && Parsed(store.files[path], expected) == Success((records, None))
    ensures Entries(store, given, active, expected) == Success(records)
  {
    hide Parsed, Hydrated;
  }

  lemma SplitEntries(store: Store, given: string, records: seq<Record>, link: seq<Byte>, base: seq<Record>)
    requires var path := store.resolve(given);
             && path in store.files && Parsed(store.files[path], None) == Success((records, Some(link)))
             && |link| > 20
             && Entries(store, store.sharedName(path, link[..20]), {path}, Some(link[..20])) == Success(base)
    ensures Entries(store, given, {}, None) == Hydrated(link, base, records)
  {
    assert {} + {store.resolve(given)} == {store.resolve(given)};
    hide Parsed, Hydrated;
  }

  lemma SplitLinkStart(digest: Digest, base: seq<Record>, target: seq<Record>)
    requires |digest| == 20
    ensures |SplitLink(digest, base, target)| > 20 && SplitLink(digest, base, target)[..20] == digest
  {
    EncodedNotEmpty(Deleted(base, target), |base|);
    hide EwahMeaning.Encode, Deleted, Changed;
  }

  /**
   * Reading a split index from the bytes of its extension, with its shared index in place, returns the original index.
   */
  lemma ReadRoundTrip(store: Store, given: string, shared: string, digest: Digest, base: seq<Record>, target: seq<Record>)
    requires |digest| == 20 && |base| < 0x1_0000_0000
    requires WellFormed(base) && WellFormed(target)
    requires |SplitLink(digest, base, target)| < 0x1_0000_0000
    requires var path := store.resolve(given);
             && path in store.files && store.resolve(store.sharedName(path, digest)) == shared && shared != path
             && Stored(store.files[path], SplitRecords(base, target),
                       Extension(LINK, SplitLink(digest, base, target)).Bytes(), None)
    requires shared in store.files && Stored(store.files[shared], base, [], Some(digest))
    ensures Entries(store, given, {}, None) == Success(target)
  {
    assert 1 < MAX_DEPTH;
    hide *;
    var path, link := store.resolve(given), SplitLink(digest, base, target);
    SingleExtension(link);
    StoredIsParsed(store.files[path], SplitRecords(base, target), Extension(LINK, link).Bytes(), None, Some(link));
    StoredIsParsed(store.files[shared], base, [], Some(digest), None);
    SplitLinkStart(digest, base, target);
    assert |{path}| == 1;
    PlainEntries(store, store.sharedName(path, digest), {path}, Some(digest), base);
    SplitEntries(store, given, SplitRecords(base, target), link, base);
    HydrateRoundTrip(digest, base, target);
  }

  lemma EncodedNotEmpty(s: set<nat>, n: nat)
    ensures |EwahMeaning.Encode(s, n)| >= 12
  {
  }

  // ---------------------------------------------------------------- recursion through shared indexes

  /** The file at `path` names the file at `shared` as its shared index. */
  ghost predicate Shares(store: Store, path: string, shared: string) {
    && path in store.files
    && var link := LinkOf(store.files[path].extensions, None, false);
    && link.Success? && link.value.Some? && |link.value.value| >= 20
    && store.resolve(store.sharedName(path, link.value.value[..20])) == shared
  }

  ghost predicate Chain(store: Store, chain: seq<string>) {
    chain != [] && forall i :: 0 <= i < |chain| - 1 ==> Shares(store, chain[i], chain[i + 1])
  }

  lemma RestOfChain(store: Store, chain: seq<string>)
    requires Chain(store, chain) && |chain| > 1
    ensures Chain(store, chain[1..])
  {
    forall i | 0 <= i < |chain| - 2
      ensures Shares(store, chain[1..][i], chain[1..][i + 1])
    {
      assert Shares(store, chain[i + 1], chain[i + 2]);
    }
  }

  lemma SharedIsRead(store: Store, given: string, active: set<string>, expected: Option<Digest>, shared: string)
    returns (name: string, digest: Digest)
    requires Entries(store, given, active, expected).Success? && Shares(store, store.resolve(given), shared)
    ensures var path := store.resolve(given);
            && path !in active && |active| < MAX_DEPTH && store.resolve(name) == shared
            && Entries(store, name, active + {path}, Some(digest)).Success?
  {
    var path := store.resolve(given);
    var link := LinkOf(store.files[path].extensions, None, false).value.value;
    digest := link[..20];
    name := store.sharedName(path, digest);
    assert EntriesOf(store, path, active + {path}, expected).Success?;
    assert Parsed(store.files[path], expected).value.1 == Some(link);
    hide LinkOf, Hydrated;
  }

  /** An index that can be read has no file twice on its chain of shared indexes, and no chain longer than the depth. */
  lemma {:induction false} ChainsAreBounded(
    store: Store, given: string, chain: seq<string>, active: set<string>, expected: Option<Digest>)
    requires Chain(store, chain) && chain[0] == store.resolve(given)
    requires Entries(store, given, active, expected).Success?
    ensures |active| + |chain| <= MAX_DEPTH
    ensures forall i :: 0 <= i < |chain| ==> chain[i] !in active
    ensures forall i, j :: 0 <= i < j < |chain| ==> chain[i] != chain[j]
    decreases |chain|
  {
    if |chain| > 1 {
      assert Shares(store, chain[0], chain[1]);
      var name, digest := SharedIsRead(store, given, active, expected, chain[1]);
      RestOfChain(store, chain);
      hide Entries, Shares;
      ChainsAreBounded(store, name, chain[1..], active + {chain[0]}, Some(digest));
      assert forall k :: 0 < k < |chain| ==> chain[k] == chain[1..][k - 1];
    } else {
      hide EntriesOf;
    }
  }
}
