/**
 * Reading an index file: its checksum, its extensions, and the hydration of a split index,
 * whose `link` extension names a shared index and says which of its entries to delete and replace.
 */
module SplitIndex {
  import opened Wrappers
  import opened Bytes
  import opened Ordering
  import opened ActiveSets
  import Ewah
  import EwahMeaning

  /** The fields of an index entry that the observation reads. */
  datatype Entry = Entry(
    mode: nat, oid: Digest, stage: nat, assumeValid: bool, intentToAdd: bool, skipWorktree: bool)

  datatype Record = Record(path: Path, entry: Entry)

  const BY_PATH_AND_STAGE: Record -> Key := (r: Record) => Key(r.path, r.entry.stage)

  /** An index file: its length, the checksum at its end, the SHA-1 of the bytes before that,
      the records the library decodes, and the bytes of its extensions. */
  datatype IndexFile = IndexFile(
    length: nat, checksum: Digest, actual: Digest, records: Option<seq<Record>>, extensions: seq<Byte>)

  /** The file system as this reader sees it. */
  datatype Store = Store(
    files: map<string, IndexFile>, resolve: string -> string, sharedName: (string, Digest) -> string)

  datatype Reason =
    | RecursiveSplitIndex
    | MissingSharedIndex
    | TruncatedIndex
    | ChecksumMismatch
    | Undecodable
    | TruncatedExtension
    | TruncatedExtensionBody
    | DuplicateLink
    | InvalidSparseDirectory
    | UnsupportedExtension(signature: seq<Byte>)
    | TruncatedLink
    | BadBitmap(reason: Ewah.Reason)
    | InvalidMap
    | InvalidReplacementPath

  // ---------------------------------------------------------------- extensions

  const LINK: seq<Byte> := [108, 105, 110, 107]
  const SDIR: seq<Byte> := [115, 100, 105, 114]

  predicate LowerCase(b: Byte) { 97 <= b <= 122 }

  /** The `link` extension, if the remaining extensions are well formed. */
  function LinkOf(rest: seq<Byte>, link: Option<seq<Byte>>, sparse: bool): Result<Option<seq<Byte>>, Reason> {
    if rest == [] then Success(link)
    else if |rest| < 8 then Failure(TruncatedExtension)
    else
      var signature, size := rest[..4], FromBigEndian(rest[4..8]);
      if |rest| - 8 < size then Failure(TruncatedExtensionBody)
      else
        var body, next := rest[8..8 + size], rest[8 + size..];
        if signature == LINK then
          if link.Some? then Failure(DuplicateLink) else LinkOf(next, Some(body), sparse)
        else if signature == SDIR then
          if sparse || body != [] then Failure(InvalidSparseDirectory) else LinkOf(next, link, true)
        else if LowerCase(signature[0]) then Failure(UnsupportedExtension(signature))
        else LinkOf(next, link, sparse)
  }

  method ReadExtensions(extensions: seq<Byte>) returns (r: Result<Option<seq<Byte>>, Reason>)
    ensures r == LinkOf(extensions, None, false)
  {
    var link: Option<seq<Byte>> := None;
    var sparseDirectory := false;
    var position := 0;
    while position < |extensions|
      invariant position <= |extensions|
      invariant LinkOf(extensions, None, false) == LinkOf(extensions[position..], link, sparseDirectory)
    {
      ghost var rest := extensions[position..];
      if |extensions| - position < 8 {
        return Failure(TruncatedExtension);
      }
      var signature := extensions[position..position + 4];
      var size := FromBigEndian(extensions[position + 4..position + 8]);
      assert rest[..4] == signature && rest[4..8] == extensions[position + 4..position + 8];
      position := position + 8;
      if |extensions| - position < size {
        return Failure(TruncatedExtensionBody);
      }
      var data := extensions[position..position + size];
      position := position + size;
      assert rest[8..8 + size] == data && rest[8 + size..] == extensions[position..];
      if signature == LINK {
        if link.Some? {
          return Failure(DuplicateLink);
        }
        link := Some(data);
      } else if signature == SDIR {
        if sparseDirectory || data != [] {
          return Failure(InvalidSparseDirectory);
        }
        sparseDirectory := true;
      } else if LowerCase(signature[0]) {
        return Failure(UnsupportedExtension(signature));
      }
    }
    return Success(link);
  }

  // ---------------------------------------------------------------- the patch

  /** `sorted(s)` for a set of numbers below `n`. */
  function Ascending(s: set<nat>, n: nat): seq<nat> {
    if n == 0 then [] else Ascending(s, n - 1) + (if n - 1 in s then [n - 1] else [])
  }

  /** How many members of `s` are smaller than `i`. */
  function Rank(s: set<nat>, i: nat): nat { |Ascending(s, i)| }

  /** The elements whose index is not deleted. */
  function Keep<T>(xs: seq<T>, deleted: set<nat>): seq<T> {
    if xs == [] then []
    else Keep(xs[..|xs| - 1], deleted) + (if |xs| - 1 in deleted then [] else [xs[|xs| - 1]])
  }

  predicate Below(s: set<nat>, n: nat) { forall i :: i in s ==> i < n }

  /** The replaced indexes keep their path and take the leading records, in order. */
  ghost function Replaced(shared: seq<Record>, records: seq<Record>, replaced: set<nat>): (list: seq<Record>)
    requires Below(replaced, |shared|) && Rank(replaced, |shared|) <= |records|
    ensures |list| == |shared|
  {
    seq(|shared|, i requires 0 <= i < |shared| =>
      if i in replaced then
        RankBelow(replaced, i, |shared|);
        Record(shared[i].path, records[Rank(replaced, i)].entry)
      else shared[i])
  }

  lemma {:induction false} RankBelow(s: set<nat>, i: nat, n: nat)
    requires i < n
    ensures i in s ==> Rank(s, i) < Rank(s, n)
    ensures Rank(s, i) <= Rank(s, n)
  {
    if i < n - 1 {
      RankBelow(s, i, n - 1);
    }
  }

  lemma {:induction false} RankIsSize(s: set<nat>, n: nat)
    requires Below(s, n)
    ensures Rank(s, n) == |s|
  {
    if n > 0 {
      if n - 1 in s {
        var t := s - {n - 1};
        RankIsSize(t, n - 1);
        AscendingSame(s, t, n - 1);
      } else {
        RankIsSize(s, n - 1);
      }
    }
  }

  lemma {:induction false} AscendingSame(s: set<nat>, t: set<nat>, n: nat)
    requires forall i :: i < n ==> (i in s <==> i in t)
    ensures Ascending(s, n) == Ascending(t, n)
  {
    if n > 0 {
      AscendingSame(s, t, n - 1);
    }
  }

  /** The k-th smallest member is the one with k smaller members. */
  lemma {:induction false} AscendingAt(s: set<nat>, n: nat, i: nat)
    requires i < n && i in s
    ensures Rank(s, i) < |Ascending(s, n)| && Ascending(s, n)[Rank(s, i)] == i
  {
    if i < n - 1 {
      AscendingAt(s, n - 1, i);
    }
  }

  lemma {:induction false} AscendingMember(s: set<nat>, n: nat, k: nat)
    requires k < |Ascending(s, n)|
    ensures Ascending(s, n)[k] < n && Ascending(s, n)[k] in s && Rank(s, Ascending(s, n)[k]) == k
  {
    if k < |Ascending(s, n - 1)| {
      AscendingMember(s, n - 1, k);
    }
  }

  /** A leading record with a path, or a replaced entry without one, makes the split index invalid. */
  ghost predicate ReplacementPathsValid(shared: seq<Record>, records: seq<Record>, replaced: set<nat>)
    requires Below(replaced, |shared|) && |replaced| <= |records|
  {
    && (forall k :: 0 <= k < |replaced| ==> records[k].path == [])
    && (forall i :: i in replaced ==> shared[i].path != [])
  }

  ghost function Unsorted(shared: seq<Record>, records: seq<Record>, deleted: set<nat>, replaced: set<nat>): seq<Record>
    requires Below(replaced, |shared|) && |replaced| <= |records|
  {
    RankIsSize(replaced, |shared|);
    Keep(Replaced(shared, records, replaced), deleted) + records[|replaced|..]
  }

  ghost function Merged(shared: seq<Record>, records: seq<Record>, deleted: set<nat>, replaced: set<nat>): seq<Record>
    requires Below(replaced, |shared|) && |replaced| <= |records|
  {
    StableSort(Unsorted(shared, records, deleted, replaced), BY_PATH_AND_STAGE)
  }

  ghost function Patch(shared: seq<Record>, records: seq<Record>, deleted: set<nat>, replaced: set<nat>)
    : Result<seq<Record>, Reason>
    requires Below(replaced, |shared|)
  {
    if deleted * replaced != {} || |replaced| > |records| then Failure(InvalidMap)
    else if !ReplacementPathsValid(shared, records, replaced) then Failure(InvalidReplacementPath)
    else Success(Merged(shared, records, deleted, replaced))
  }

  /** The loop over `enumerate(sorted(replaced))`. */
  method ReplaceEntries(given: seq<Record>, records: seq<Record>, replaced: set<nat>)
    returns (r: Result<seq<Record>, Reason>)
    requires Below(replaced, |given|) && |replaced| <= |records|
    requires Rank(replaced, |given|) == |replaced|
    ensures r == if ReplacementPathsValid(given, records, replaced) then Success(Replaced(given, records, replaced))
                 else Failure(InvalidReplacementPath)
  {
    var shared := given;
    var order := Ascending(replaced, |given|);
    for cursor := 0 to |order|
      invariant |shared| == |given|
      invariant forall k :: 0 <= k < cursor ==> records[k].path == []
      invariant forall i :: i in replaced && Rank(replaced, i) < cursor ==> given[i].path != []
      invariant forall i :: 0 <= i < |given| ==>
        shared[i] == if i in replaced && Rank(replaced, i) < cursor
                     then Record(given[i].path, records[Rank(replaced, i)].entry) else given[i]
    {
      AscendingMember(replaced, |given|, cursor);
      var index := order[cursor];
      var record := records[cursor];
      if record.path != [] || shared[index].path == [] {
        return Failure(InvalidReplacementPath);
      }
      shared := shared[index := Record(shared[index].path, record.entry)];
      forall i | i in replaced && Rank(replaced, i) == cursor
        ensures i == index
      {
        AscendingAt(replaced, |given|, i);
      }
    }
    forall i | i in replaced
      ensures Rank(replaced, i) < |order|
    {
      AscendingAt(replaced, |given|, i);
    }
    assert shared == Replaced(given, records, replaced);
    return Success(shared);
  }

  method PatchShared(given: seq<Record>, records: seq<Record>, deleted: set<nat>, replaced: set<nat>)
    returns (r: Result<seq<Record>, Reason>)
    requires Below(replaced, |given|)
    ensures r == Patch(given, records, deleted, replaced)
  {
    if deleted * replaced != {} || |replaced| > |records| {
      return Failure(InvalidMap);
    }
    RankIsSize(replaced, |given|);
    var shared :- ReplaceEntries(given, records, replaced);
    var kept: seq<Record> := [];
    for index := 0 to |shared|
      invariant kept == Keep(shared[..index], deleted)
    {
      assert shared[..index + 1][..index] == shared[..index];
      if index !in deleted {
        kept := kept + [shared[index]];
      }
    }
    assert shared[..|shared|] == shared;
    kept := kept + records[|replaced|..];
    return Success(StableSort(kept, BY_PATH_AND_STAGE));
  }

  // ---------------------------------------------------------------- reading an index file

  const ZERO_DIGEST: Digest := [0, 0, 0, 0, 0, 0, 0, 0, 0, 0, 0, 0, 0, 0, 0, 0, 0, 0, 0, 0]

  predicate ChecksumAccepted(file: IndexFile, expected: Option<Digest>) {
    && (file.checksum == ZERO_DIGEST || file.checksum == file.actual)
    && (expected.Some? ==> file.actual == expected.value && file.checksum == expected.value)
  }

  /** The records of one file and its `link` extension. */
  function Parsed(file: IndexFile, expected: Option<Digest>): Result<(seq<Record>, Option<seq<Byte>>), Reason> {
    if file.length < 32 then Failure(TruncatedIndex)
    else if !ChecksumAccepted(file, expected) then Failure(ChecksumMismatch)
    else if file.records.None? then Failure(Undecodable)
    else
      var link :- LinkOf(file.extensions, None, false);
      Success((file.records.value, link))
  }

  /** Patches the shared index with the two bitmaps behind its name in the `link` extension. */
  ghost function Hydrated(link: seq<Byte>, shared: seq<Record>, records: seq<Record>): Result<seq<Record>, Reason>
    requires |link| >= 20
  {
    match Ewah.Bitmap(link, 20, |shared|)
    case Failure(reason) => Failure(BadBitmap(reason))
    case Success((deleted, middle)) =>
      match Ewah.Bitmap(link, middle, |shared|)
      case Failure(reason) => Failure(BadBitmap(reason))
      case Success((replaced, end)) =>
        if end != |link| then Failure(InvalidMap)
        else
          BitmapBelow(link, middle, |shared|);
          Patch(shared, records, deleted, replaced)
  }

  lemma BitmapBelow(data: seq<Byte>, offset: nat, limit: nat)
    ensures var r := Ewah.Bitmap(data, offset, limit); r.Success? ==> Below(r.value.0, limit)
  {
    EwahMeaning.BitmapMeaning(data, offset, limit);
  }

  /** `_index_entries` below the files that are `active` further up. */
  ghost function Entries(store: Store, given: string, active: set<string>, expected: Option<Digest>)
    : Result<seq<Record>, Reason>
    decreases MAX_DEPTH - |active|, 0
  {
    var path := store.resolve(given);
    if path in active || |active| >= MAX_DEPTH then Failure(RecursiveSplitIndex)
    else EntriesOf(store, path, active + {path}, expected)
  }

  ghost function EntriesOf(store: Store, path: string, active: set<string>, expected: Option<Digest>)
    : Result<seq<Record>, Reason>
    requires |active| <= MAX_DEPTH
    decreases MAX_DEPTH - |active|, 1
  {
    if path !in store.files then
      if expected.Some? then Failure(MissingSharedIndex) else Success([])
    else
      var (records, link) :- Parsed(store.files[path], expected);
      if link.None? then Success(records)
      else if |link.value| < 20 then Failure(TruncatedLink)
      else
        var digest := link.value[..20];
        var shared :- Entries(store, store.sharedName(path, digest), active, Some(digest));
        if |link.value| == 20 then Success(records) else Hydrated(link.value, shared, records)
  }

  method HydrateShared(link: seq<Byte>, shared: seq<Record>, records: seq<Record>)
    returns (r: Result<seq<Record>, Reason>)
    requires |link| >= 20
    ensures r == Hydrated(link, shared, records)
  {
    var first := Ewah.DecodeBitmap(link, 20, |shared|);
    if first.Failure? {
      return Failure(BadBitmap(first.error));
    }
    var (deleted, middle) := first.value;
    var second := Ewah.DecodeBitmap(link, middle, |shared|);
    if second.Failure? {
      return Failure(BadBitmap(second.error));
    }
    var (replaced, offset) := second.value;
    if offset != |link| {
      return Failure(InvalidMap);
    }
    BitmapBelow(link, middle, |shared|);
    r := PatchShared(shared, records, deleted, replaced);
  }

  method ReadFile(file: IndexFile, expected: Option<Digest>)
    returns (r: Result<(seq<Record>, Option<seq<Byte>>), Reason>)
    ensures r == Parsed(file, expected)
  {
    if file.length < 32 {
      return Failure(TruncatedIndex);
    }
    if (file.checksum != ZERO_DIGEST && file.checksum != file.actual) ||
       (expected.Some? && (file.actual != expected.value || file.checksum != expected.value)) {
      return Failure(ChecksumMismatch);
    }
    if file.records.None? {
      return Failure(Undecodable);
    }
    var link :- ReadExtensions(file.extensions);
    return Success((file.records.value, link));
  }

  /** Whatever the outcome, the shared `active` set is left as it was found. */
  method IndexEntries(store: Store, given: string, active: ActiveSet, expected: Option<Digest>)
    returns (r: Result<seq<Record>, Reason>)
    requires active.Valid()
    modifies active
    ensures active.Valid() && active.members == old(active.members) && active.stack == old(active.stack)
    ensures r == Entries(store, given, old(active.members), expected)
    decreases MAX_DEPTH - |active.members|, 0
  {
    var path := store.resolve(given);
    var entered := active.Enter(path);
    if !entered {
      return Failure(RecursiveSplitIndex);
    }
    r := ReadEntered(store, path, active, expected);
    active.Leave(path);
  }

  /** The `try` block of the reader. */
  method ReadEntered(store: Store, path: string, active: ActiveSet, expected: Option<Digest>)
    returns (r: Result<seq<Record>, Reason>)
    requires active.Valid() && path in active.members
    modifies active
    ensures active.Valid() && active.members == old(active.members) && active.stack == old(active.stack)
    ensures r == EntriesOf(store, path, old(active.members), expected)
    decreases MAX_DEPTH - |active.members|, 1
  {
    if path !in store.files {
      return if expected.Some? then Failure(MissingSharedIndex) else Success([]);
    }
    var parsed :- ReadFile(store.files[path], expected);
    var (records, link) := parsed;
    if link.None? {
      return Success(records);
    }
    if |link.value| < 20 {
      return Failure(TruncatedLink);
    }
    var digest := link.value[..20];
    var shared :- IndexEntries(store, store.sharedName(path, digest), active, Some(digest));
    if |link.value| == 20 {
      return Success(records);
    }
    r := HydrateShared(link.value, shared, records);
  }
}
