# mvm-images: verified models of the image-set tools

The scripts of this repository decide three things that other tools rely on: whether a Git checkout
is exactly its commit, whether a set of image artifacts may be published as recorded, and whether
released artifacts and guests are what they claim to be. This project models the parts of them that
are algorithms and proves what those algorithms are for.

* **Observing a checkout** (`scripts/emit-local-manifest.py`). `_observe` re-implements what Git
  knows about a working tree. Modelled are the EWAH bitmap decoder (`Bits`, `Ewah`, `EwahMeaning`),
  the split index it drives (`SplitIndex`, `IndexExtensions`, `SplitIndexMeaning`), sparse
  directories (`SparseIndex`), line-end normalization (`EndOfLine`), ignore and attribute rules with
  their lines and their macro worklist (`RuleLines`, `Attributes`), configuration includes
  (`ConfigIncludes`) and booleans (`GitBoolean`), the walk for untracked files (`Paths`,
  `CheckoutTree`, `WalkMeaning`), the verdict itself (`Observing`, `ObservationMeaning`) and the
  bytes of the fingerprint (`Fingerprint`, `ObservedBytes`). The main results are what "clean" means,
  in both directions, and that equal fingerprints mean equal observations or a collision of the hash.
* **Recording an image set** (`emit`). `ImageSets` groups artifacts, `Emitting` is the program on a
  disk that other processes change between any two of its steps, and `EmittingMeaning`,
  `PublishedSets` and `ExampleRuns` say what a refusal leaves behind and what a success publishes.
* **Checking releases and guests.** `SerialScan` is the line scanner over a guest's output, `Newc`
  (with `HexTexts` and `ProbeTurns`) the search for BusyBox in a cpio archive, `Pairing` and
  `Inventory` the matching of kernels and roots, `Checksums` the printer and the parser of sha256sum
  tables.

Code that changes state step by step is a method or a class here, proved against a specification
function; the lemmas then say what that specification means. Python's unbounded integers are `int`,
its bytes are sequences of `Byte`, a raised `Refusal` is the failure of a `Result`; `Bytes`,
`Strings`, `FileModes`, `Ordering`, `ActiveSets` and `Wrappers` hold what the modules share. Calls
into libraries (the object store, pattern matching, hashing, JSON) are parameters.

Some promises of the scripts hold only under a condition. Each comes with a run or an input in which
it fails and, where the condition is exact, with a proof of both directions:

* `emit` promises that a refusal leaves the output path as it was. An output path that is an empty
  directory is removed before the rename, so a failing rename loses it: `EmptyOutputIsLost` is such
  a run and `OutputKeptExactly` says exactly when the promise holds. Any other output path is kept
  (`OutputKept`).
* A refusal removes the staging directory but ignores a failing removal, so the directory can stay:
  `StagingStays`, and exactly when, `StagingGoneExactly`.
* "Do not publish bytes changed after copying or contract inspection": what other processes do to a
  staged file after its recheck is published. `ReplacedIsPublished` and `AddedIsPublished` are such
  runs, `PublishedExactly` the exact condition.
* A source that is rewritten while it is copied chunk by chunk is recorded with bytes that it never
  held: `TornIsPublished` is such a run, and `CopiedExactly` and `CopiedInPieces` say exactly which
  bytes are recorded. In any case the record describes what was read.
* The search for BusyBox ends unless a negative size leads it back to an offset: `StandsStill` is
  such a payload, `EndsExactly` the exact condition. Archives with sizes as a writer prints them are
  decided (`ArchiveVerdict`).
* Plain `text` conversion is not idempotent: CR CR LF becomes CR LF and then LF. `ForcedConversion`
  says that this is the only exception; automatic conversion has none.

## Model

| member | source | states |
|---|---|---|
| `Bits.LowestByBitTrick` | scripts/emit-local-manifest.py:463-463 | `(v & -v).bit_length() - 1`, over two's-complement integers of any size, is the position of the lowest one bit of a positive `v` |
| `Bits.ClearLowest` | scripts/emit-local-manifest.py:468-468 | `v & (v - 1)` has the one bits of `v` except the lowest, and nothing else changes |
| `Ewah.LiteralWord` | scripts/emit-local-manifest.py:461-468 | the loop over the bits of one literal word refuses exactly when a one bit lies at or past the bit count or the limit, and otherwise adds exactly the positions of the one bits |
| `Ewah.DecodeSegment` | scripts/emit-local-manifest.py:449-470 | one turn of the word loop: the run and the literals of one run/literal word are taken or refused as the recursive decoder says |
| `Ewah.DecodeWords` | scripts/emit-local-manifest.py:446-470 | the word loop with its set grown in place computes the recursive decoder, with the same refusals |
| `Ewah.ReadHeader` | scripts/emit-local-manifest.py:431-445 | bit count, words and cursor are read as big-endian fields, with the same three refusals in the same order |
| `Ewah.DecodeBitmap` | scripts/emit-local-manifest.py:429-471 | the whole decoder, step by step, computes the specification `Bitmap` |
| `EwahMeaning.DecodeAccepts` | scripts/emit-local-manifest.py:448-470 | the words are accepted if and only if they are well framed and every segment stays below the bit count and the limit (a run of ones that is only clipped by the bit count is accepted) |
| `EwahMeaning.DecodeMeaning` | scripts/emit-local-manifest.py:448-471 | a position is in the decoded set if and only if it is below the bit count and its bit in the expanded run and literal words is one; every such position is below the limit |
| `EwahMeaning.BitmapMeaning` | scripts/emit-local-manifest.py:429-471 | `_bitmap` as a whole: when it accepts (both directions), which set it returns, that it stays below the limit, and that it stops at offset + 12 + 8 * words, inside the data |
| `EwahMeaning.CompressKeepsWords` | scripts/emit-local-manifest.py:449-470 | an encoder that turns words into runs and literals loses nothing: its segments expand to the words it was given and fit the fields of a run/literal word |
| `EwahMeaning.PackRoundTrip` | scripts/emit-local-manifest.py:449-454 | packed segments are well framed and are read back as the same segments |
| `EwahMeaning.HeaderRoundTrip` | scripts/emit-local-manifest.py:439-445 | a serialized bitmap, anywhere in the data, is read back with its bit count and words, up to its last byte |
| `EwahMeaning.EncodeRoundTrip` | scripts/emit-local-manifest.py:429-471 | decoding the encoding of any set below the bit count and the limit returns that set and the offset right behind it |
| `ActiveSets.ActiveSet.Enter` | scripts/emit-local-manifest.py:475-480 | a member is refused exactly when it is active already or the limit is reached; otherwise it is pushed; no member is on the stack twice and the stack never exceeds 64 |
| `ActiveSets.ActiveSet.Leave` | scripts/emit-local-manifest.py:544-545 | the member entered last is taken off again, and the rest of the stack is as before |
| `Ordering.StableSortCorrect` | scripts/emit-local-manifest.py:542-542 | sorting by (path, stage) gives an ordered permutation that keeps the order of equal keys |
| `Ordering.SortRestores` | scripts/emit-local-manifest.py:542-542 | any list with distinct keys and the elements of a strictly ordered list sorts to that list |
| `SplitIndex.ReadExtensions` | scripts/emit-local-manifest.py:503-522 | the loop over the index extensions finds the one `link` payload, and refuses truncated, repeated and unknown mandatory ones |
| `SplitIndex.ReplaceEntries` | scripts/emit-local-manifest.py:535-539 | the loop over the sorted replaced indexes gives each its path and the entry of the record with the same rank, or refuses when a leading record has a path or a replaced entry has none |
| `SplitIndex.PatchShared` | scripts/emit-local-manifest.py:533-543 | delete, replace, append and stable sort compute the specification `Patch` |
| `SplitIndex.HydrateShared` | scripts/emit-local-manifest.py:531-543 | both bitmaps are decoded behind the shared index's name, must fill the payload, and drive the patch |
| `IndexExtensions.LinkOfMeaning` | scripts/emit-local-manifest.py:503-522 | on any list of serialized extensions, behind a link and a sparse-directory mark or not: it is accepted if and only if there is at most one `link`, at most one empty `sdir`, and every other signature may be skipped; what is returned is the data of the `link` |
| `IndexExtensions.AcceptedAreExtensions` | scripts/emit-local-manifest.py:503-510 | whatever bytes are accepted are the serialization of some list of extensions, so nothing is truncated |
| `IndexExtensions.ParsedExactly` | scripts/emit-local-manifest.py:487-522 | an index file is accepted if and only if it has 32 bytes, its checksum is zero or right, it is the one that was expected, its entries decode, and its extensions are acceptable; its entries and the data of its `link` are returned |
| `SplitIndex.IndexEntries` | scripts/emit-local-manifest.py:474-545 | reading an index with its chain of shared indexes computes the specification `Entries`; `active` is restored on every exit, refusals included |
| `SplitIndexMeaning.PatchMeaning` | scripts/emit-local-manifest.py:533-543 | size |shared| - |deleted| + |records| - |replaced|, order by (path, stage), and everything that must be there: surviving entries unchanged, the k-th smallest replaced index with its own path and the k-th record's entry, and the remaining records |
| `SplitIndexMeaning.PatchContents` | scripts/emit-local-manifest.py:533-543 | as a multiset the result is exactly the shared entries that are neither deleted nor replaced, one entry for each replaced index with its own path and the record of its rank, and the remaining records |
| `SplitIndexMeaning.PatchOrigins` | scripts/emit-local-manifest.py:533-543 | nothing else is in the result: every entry is a surviving one, a replaced one with the record of its rank, or an appended record; deleted entries vanish |
| `SplitIndexMeaning.PatchRoundTrip` | scripts/emit-local-manifest.py:533-543 | for any two well-formed indexes, patching the first with what a split of the second stores gives the second back |
| `SplitIndexMeaning.HydrateRoundTrip` | scripts/emit-local-manifest.py:531-543 | the same through the encoded bitmaps of the `link` payload |
| `SplitIndexMeaning.ReadRoundTrip` | scripts/emit-local-manifest.py:474-543 | reading a file whose extension bytes hold the `link` of a split index, with the shared index in place, returns the original index |
| `SplitIndexMeaning.ChainsAreBounded` | scripts/emit-local-manifest.py:474-481 | when an index can be read, any chain of files that starts with it, each sharing the next by its `link`, has no file twice, none of the active ones, and at most 64 files |
| `Fingerprint.Hasher.UpdateField` | scripts/emit-local-manifest.py:122-124 | a field is fed as its 8-byte length and its bytes, or refused when the length does not fit |
| `Fingerprint.Hasher.UpdateIndexRow` | scripts/emit-local-manifest.py:131-136 | the bytes one index row adds to the stream |
| `Fingerprint.FingerprintV2` | scripts/emit-local-manifest.py:127-144 | the hasher is fed exactly the bytes of `Preimage`; it fails exactly when a number or a length does not fit its field |
| `Fingerprint.PreimageRoundTrip` | scripts/emit-local-manifest.py:127-144 | a decoder recovers head, index, working and untracked rows from the bytes, for heads and object names of one given width |
| `Fingerprint.PreimageInjective` | scripts/emit-local-manifest.py:127-144 | two different observations with equally long object names never share the bytes that are hashed |
| `Fingerprint.LongerHeadCollides` | scripts/emit-local-manifest.py:129-130 | the head is not length-framed: for every head there is a longer one, of a length that `_observe` never sees, with which another observation has the same bytes; so the injectivity above needs heads of equal width |
| `ObservedBytes.FingerprintIsHash` | scripts/emit-local-manifest.py:798-928 | every fingerprint of a repository with SHA-1 names is the hash of the bytes of what was seen, and all its object names have 20 bytes |
| `ObservedBytes.EqualFingerprints` | scripts/emit-local-manifest.py:798-928 | two observations with the same fingerprint saw the same head, index, working and untracked rows, or their bytes are two different strings with one hash |
| `EndOfLine.TextStats` | scripts/emit-local-manifest.py:746-766 | the counting loop computes the position-based statistics: binary if and only if there is a lone CR, a NUL, or printable / 128 < nonprintable; the CR LF count |
| `EndOfLine.KindsPartition` | scripts/emit-local-manifest.py:750-765 | from any position on, every byte has exactly one of six kinds, and pairs are counted once from each end |
| `EndOfLine.LengthByKind` | scripts/emit-local-manifest.py:746-766 | the length is 2 * CR LF pairs + lone CRs + bare LFs + printable + nonprintable |
| `EndOfLine.AutomaticConversion` | scripts/emit-local-manifest.py:785-795 | when automatic conversion fires without `ident`: no CR is left, the body is shorter by exactly the counted pairs, and normalizing again changes nothing |
| `EndOfLine.ForcedConversion` | scripts/emit-local-manifest.py:787-792 | a forced conversion is stable under a second pass if and only if CR CR LF does not occur |
| `EndOfLine.CollapseIdempotent` | scripts/emit-local-manifest.py:792-792 | replacing CR LF twice equals replacing it once if and only if CR CR LF does not occur |
| `EndOfLine.CheckoutRoundTrip` | scripts/emit-local-manifest.py:769-795 | a non-binary text without CR, checked out with CR LF line ends, normalizes back to itself |
| `Paths.SplitPathOf` | scripts/emit-local-manifest.py:575-576 | splitting a path that was joined from file names gives the names back |
| `CheckoutTree.Walk` | scripts/emit-local-manifest.py:903-922 | the nested `walk`, with its list grown in place, computes the recursive listing |
| `WalkMeaning.WalkMeaning` | scripts/emit-local-manifest.py:903-922 | the walk succeeds unless a reportable file is special, and then lists exactly the rows of the reportable files, each path once; reportable: not a directory, and no prefix is named `.git` (in any case), in the index (folded when the case does not count), or ignored without an index path below it |
| `WalkMeaning.ListedOnce` | scripts/emit-local-manifest.py:903-922 | no path is listed twice, below any directory |
| `Observing.ExpandItems` | scripts/emit-local-manifest.py:817-827 | sparse directories are replaced by the leaves of their tree with skip-worktree set; everything else stays |
| `Observing.IndexRows` | scripts/emit-local-manifest.py:829-841 | the `indexed` list: rows with their three flag bits, sorted by (path, stage), or a refusal of an unsafe path |
| `Observing.ChooseRows` | scripts/emit-local-manifest.py:847-850 | the `distinct` dictionary, in insertion order |
| `Observing.ObserveGitlink` | scripts/emit-local-manifest.py:854-883 | one gitlink: missing, no directory, empty, populated or refused, recursing with the same `active` set |
| `Observing.ObserveWorking` | scripts/emit-local-manifest.py:853-900 | the `working` list and the dirty flag that its loop sets |
| `Observing.ObserveUntracked` | scripts/emit-local-manifest.py:901-922 | the sorted `untracked` list |
| `Observing.ObserveCheckout` | scripts/emit-local-manifest.py:798-930 | the whole observation computes the specification `Observe`; `active` is restored on every exit, refusals included |
| `ObservationMeaning.CleanExactly` | scripts/emit-local-manifest.py:844-928 | a checkout is reported clean if and only if no index entry is conflicted or intent-to-add, the index lists what the commit lists, every chosen path agrees with the working tree (present or not skip-worktree: blob after normalization and mode adjustment; gitlink: not populated, or recursively clean at its object name), and nothing reportable is untracked |
| `ObservationMeaning.FlagsNeverHideAnEdit` | scripts/emit-local-manifest.py:884-900 | an edit to a present file makes the checkout dirty whatever its assume-valid and skip-worktree bits |
| `ObservationMeaning.ChosenMeaning` | scripts/emit-local-manifest.py:847-850 | the row kept for a path is its last one of stage 2 if it has one, otherwise its last one |
| `ObservationMeaning.ChosenOnce` | scripts/emit-local-manifest.py:847-850 | every indexed path is kept once |
| `ObservationMeaning.NestingIsBounded` | scripts/emit-local-manifest.py:798-803 | a successful observation has met no cycle of submodules and no nesting deeper than 64 |
| `SparseIndex.DirectoryIsABlock` | scripts/emit-local-manifest.py:542-542 | the entries below one directory are one contiguous block of an index sorted by (path, stage) |
| `SparseIndex.CollapseExpands` | scripts/emit-local-manifest.py:817-827 | an index in which such a block is collapsed into a sparse-directory entry expands to what the full one expands to |
| `SparseIndex.CollapseKeepsObservation` | scripts/emit-local-manifest.py:814-928 | and therefore has the same `indexed` list, the same verdict and the same fingerprint |
| `SparseIndex.DirectoryCollapses` | scripts/emit-local-manifest.py:817-827 | in a strictly sorted index that holds, below one directory, exactly the leaves of a tree, all skip-worktree with the same flags, these entries are such a block |
| `SparseIndex.SparseDirectoryKeepsObservation` | scripts/emit-local-manifest.py:814-928 | joined for a whole directory: an index with that directory collapsed, in its sorted place, is observed as the full one is |
| `Attributes.ApplyValues` | scripts/emit-local-manifest.py:726-733 | the front-inserting worklist ends for every macro table, cyclic ones included, and assigns what the recursive depth-first expansion with a threaded seen-set assigns |
| `Attributes.ExpansionConcat` | scripts/emit-local-manifest.py:726-733 | expanding a list is expanding its parts one after the other, the second with what the first has seen |
| `Attributes.LastAssignmentWins` | scripts/emit-local-manifest.py:730-730 | the value of a name is its last assignment, and other names keep their value |
| `RuleLines.FindClosingQuote` | scripts/emit-local-manifest.py:706-714 | the scan of a quoted pattern stops at the specification's closing quote, or behind the line |
| `RuleLines.QuotedExactly` | scripts/emit-local-manifest.py:704-718 | a line that starts with a quote is taken if and only if a quote that is not escaped closes the pattern; the pattern is what stands between the two, the values what follows |
| `Attributes.ParseLines` | scripts/emit-local-manifest.py:702-724 | the loop over the stripped lines fills the macro table and the list of patterns, or refuses, as the specification says |
| `Attributes.RepositoryRules.Body` | scripts/emit-local-manifest.py:663-674 | the cached body of a rule file: working file, then index blob (not for ignore files), or a refusal |
| `Attributes.RepositoryRules.AttributesOf` | scripts/emit-local-manifest.py:694-743 | the attributes of a path: all rule files in order, with one growing macro table |
| `Attributes.RepositoryRules.Ignored` | scripts/emit-local-manifest.py:676-692 | the last opinion over the global files and then the directories from the root down decides |
| `Attributes.FilesInOrder` | scripts/emit-local-manifest.py:735-742 | the order of the files: system, global, one per directory from the root down, the repository's own |
| `Attributes.DictionaryByFiles` | scripts/emit-local-manifest.py:735-743 | the dictionary that is returned: a name has the last value assigned to it by the last of the files (system, global, root down, repository's own) that assigns it at all; a name that no file assigns is missing |
| `ConfigIncludes.ReadDirective` | scripts/emit-local-manifest.py:345-384 | one include: refusals, conditions, depth and recursion checks, a missing file ignored; `active` restored on every exit |
| `ConfigIncludes.StrictConfig` | scripts/emit-local-manifest.py:340-387 | reading a configuration file computes the settings in order, those of an included file in the place of its directive |
| `ConfigIncludes.IncludesAreBounded` | scripts/emit-local-manifest.py:366-384 | a configuration that can be read has no cycle of includes and none nested deeper than 10 |
| `ConfigIncludes.ConfigurationIsBounded` | scripts/emit-local-manifest.py:340-387 | the same for the outermost file: when `_strict_config` succeeds, every chain of includes from it is without repetition and has at most 11 files |
| `GitBoolean.NumeralMeaning` | scripts/emit-local-manifest.py:170-184 | any spelling of a numeral (white space, sign, octal, decimal or hexadecimal, unit) is a boolean if and only if its value times the unit lies in -(2^31 - 1) .. 2^31 - 1, and then says whether that value is nonzero |
| `GitBoolean.ParsesAreSpellings` | scripts/emit-local-manifest.py:170-173 | nothing else matches the regular expression |
| `GitBoolean.BooleansExactly` | scripts/emit-local-manifest.py:162-185 | the accepted values are exactly the seven words, in any case, and the spellings of numerals that fit |
| `GitBoolean.IntegerRoundTrip` | scripts/emit-local-manifest.py:162-184 | any integer that fits, written in any of the three bases and any unit that divides it, is read as its truth value |
| `ImageSets.NeverTheManifest` | scripts/emit-local-manifest.py:997-1003 | no artifact is given the manifest's name or a name with a slash |
| `ImageSets.AddArtifact` | scripts/emit-local-manifest.py:1082-1094 | `setdefault` and append on the members dictionary: the grouping by role, in the order of first use, grows by one artifact |
| `ImageSets.AddCapability` | scripts/emit-local-manifest.py:1102-1104 | a capability is appended to its member once |
| `ImageSets.RolesOf` | scripts/emit-local-manifest.py:1082-1091 | the members are the roles that were given an artifact, each once |
| `ImageSets.CapabilitiesOf` | scripts/emit-local-manifest.py:1095-1104 | a member has exactly the capabilities asked for its role, each once |
| `Emitting.Emitter.CopyGiven` | scripts/emit-local-manifest.py:1070-1081 | what is checked, in which order, before and after one artifact is copied |
| `Emitting.Emitter.BuildMembers` | scripts/emit-local-manifest.py:1067-1105 | copying, grouping and the capability checks compute the specification `Build` |
| `Emitting.Emitter.CopyAndHash` | scripts/emit-local-manifest.py:1020-1029 | reading and writing chunk by chunk, with other processes between any two reads, computes the specification `Copy` |
| `Emitting.Emitter.WorkloadBaseContract` | scripts/emit-local-manifest.py:1108-1125 | reading the contracts of the staged roots, in order, computes the specification `BaseContract`, whose meaning is `RootsCarryContract` |
| `PublishedSets.RootsCarryContract` | scripts/emit-local-manifest.py:1108-1125 | after a success every workload root member has exactly one ext4 artifact, whose staged bytes carried the recorded contract when they were read |
| `Emitting.Emitter.VerifyStagedArtifacts` | scripts/emit-local-manifest.py:1128-1139 | every record of every member is rechecked: digest first, then size |
| `Emitting.Emitter.MoveIntoPlace` | scripts/emit-local-manifest.py:1204-1206 | an empty output directory is removed, then the staging directory is renamed |
| `Emitting.Emitter.RemoveStagingDirectory` | scripts/emit-local-manifest.py:1208-1208 | removing the staging directory, its files first, each of which may stay; a failure is ignored |
| `Emitting.Emitter.Run` | scripts/emit-local-manifest.py:1162-1210 | the whole program, with steps of other processes between its own, computes the specification `Emit` on the disk |
| `EmittingMeaning.StagingGoneExactly` | scripts/emit-local-manifest.py:1182-1210 | a success leaves no staging directory; after a refusal it is gone if and only if it was never made, its removal succeeded, or another process had removed it |
| `EmittingMeaning.QuietRemoval` | scripts/emit-local-manifest.py:1208-1208 | when no other process writes to it, the removal succeeds if and only if no staged file is stuck and the directory can be removed |
| `EmittingMeaning.RefusalLeavesOutput` | scripts/emit-local-manifest.py:1182-1210 | after a refusal the output path is what the other processes alone would have made of it, unless a removed directory could not be replaced |
| `EmittingMeaning.OutputKeptExactly` | scripts/emit-local-manifest.py:1204-1209 | when no other process writes to the output path, a refusal leaves it unchanged if and only if it was not the case that it was an empty directory, the run got to the rename, the removal succeeded and the rename failed |
| `EmittingMeaning.OutputKept` | scripts/emit-local-manifest.py:1162-1210 | when no other process writes to the output path, a refusal leaves it unchanged whenever it was not an empty directory; a success then started without an output path and leaves a directory there |
| `ExampleRuns.ExampleRun` | scripts/emit-local-manifest.py:1162-1210 | the run of any story of one artifact, with any late faults and any touch of the complete staging directory by another process: what it publishes, or what it leaves behind |
| `ExampleRuns.EmptyOutputIsLost` | scripts/emit-local-manifest.py:1204-1209 | a concrete run in which a refusal removes an empty output directory |
| `ExampleRuns.StagingStays` | scripts/emit-local-manifest.py:1207-1209 | a concrete refusal after which the staging directory is still there |
| `EmittingMeaning.CopyHoldsStream` | scripts/emit-local-manifest.py:1020-1029 | when no other process touches the staged files meanwhile, the copy holds exactly the bytes that were hashed and counted |
| `EmittingMeaning.CopiedExactly` | scripts/emit-local-manifest.py:1020-1029 | whatever a source holds at each tick, a successful copy is recorded with the digest and the size of the bytes its reads returned; these are given bytes if and only if the lengths that the source has lead to as many, and it holds each of them at the read that returns it |
| `EmittingMeaning.CopiedInPieces` | scripts/emit-local-manifest.py:1023-1027 | for a source that keeps its length: if and only if it holds the first 1 MiB of them at the first read, the next 1 MiB at the second one, and so on |
| `EmittingMeaning.SteadySource` | scripts/emit-local-manifest.py:1023-1027 | in particular, a source that does not change until the last read returns nothing is hashed and counted as the bytes it held |
| `ExampleRuns.TornIsPublished` | scripts/emit-local-manifest.py:1020-1206 | a concrete run, whatever the hash, with a source of 1 MiB and a byte that is rewritten between its first two reads: it succeeds, and records and publishes bytes that the source holds at no tick |
| `EmittingMeaning.CopyAllMeaning` | scripts/emit-local-manifest.py:1070-1094 | every `--artifact` argument is recorded once, in order, under its own name, with a known format, a nonzero size, and the digest and size of the bytes that successive reads of its source returned |
| `PublishedSets.MembersHoldTheRecords` | scripts/emit-local-manifest.py:1082-1105 | the members together hold exactly the recorded artifacts, each as often as it was recorded |
| `PublishedSets.RecheckMeaning` | scripts/emit-local-manifest.py:1128-1139 | when the recheck succeeds, each staged file had its recorded digest when it was read again, and its recorded size right after that |
| `PublishedSets.SuccessMeans` | scripts/emit-local-manifest.py:1173-1203 | after a success: the checkout had one identity before the first copy and after the last one, which the manifest records; every argument is recorded; every staged artifact was rechecked |
| `PublishedSets.PublishedFiles` | scripts/emit-local-manifest.py:1187-1206 | the published files are what the other processes alone make of the collected ones until the manifest is written, two steps for each record later, and of all of them from then on |
| `PublishedSets.PublishedExactly` | scripts/emit-local-manifest.py:1128-1206 | after a success the output is what the other processes alone make of the collected files and the manifest; it holds exactly the manifest and the recorded artifacts, each with its recorded digest and size, if and only if they add no file, leave the manifest alone, and keep the digest and size that each artifact had at the ticks of its recheck |
| `PublishedSets.QuietlyPublished` | scripts/emit-local-manifest.py:1187-1206 | in particular when they add no staged file and write to none after the second look at the checkout |
| `ExampleRuns.ReplacedIsPublished` | scripts/emit-local-manifest.py:1128-1206 | a concrete run, in which nothing is added, that publishes an artifact replaced after its recheck under a record that does not match |
| `ExampleRuns.AddedIsPublished` | scripts/emit-local-manifest.py:1128-1206 | a concrete run, in which no artifact is changed, that publishes a file added after the recheck |
| `SerialScan.TakeTurn` | scripts/e2e_boot.py:270-302 | one turn: which lines it processes, what stays pending, what it decides; processed lines and pending bytes are the bytes read |
| `SerialScan.RunUntilReady` | scripts/e2e_boot.py:257-310 | the verdict is that of the whole stream, not of its chunks, and captured lines with the pending bytes are the bytes read |
| `SerialScan.LinesConserve` | scripts/e2e_boot.py:278-280 | the complete lines and the tail of a stream concatenate to the stream |
| `SerialScan.LinesConcat` | scripts/e2e_boot.py:278-280 | cutting a stream anywhere and carrying the tail over gives the same lines and the same tail |
| `SerialScan.ChunkingDoesNotMatter` | scripts/e2e_boot.py:262-302 | two runs that read the same bytes in different chunks before the same continuation have the same verdict |
| `SerialScan.VerdictStands` | scripts/e2e_boot.py:286-302 | later turns never change a verdict |
| `SerialScan.EndOfOutput` | scripts/e2e_boot.py:262-302 | once a read is empty, the verdict is that of all lines of the output in order (an unterminated last one included, refusal before readiness), else the exit status, else a timeout |
| `HexTexts.HexRoundTrip` | scripts/boot-base-contract.py:75-76 | a number printed with eight hexadecimal digits is read back, by a model of `int(text, 16)` with its blanks, signs, prefix and underscores |
| `Newc.ProbeDescription` | scripts/boot-base-contract.py:67-88 | the scan over the payload computes the specification `Probe`, for any number of turns |
| `ProbeTurns.VisitedIncreasing` | scripts/boot-base-contract.py:73-87 | on any payload, the headers that are found are at multiples of four, each a whole header or more behind the one before, if and only if the two sizes of every header but the last advance |
| `ProbeTurns.EndsExactly` | scripts/boot-base-contract.py:72-88 | the scan ends if and only if it never comes back to an offset, and then within 2 * length + 1 turns |
| `ProbeTurns.AdvancingEnds` | scripts/boot-base-contract.py:72-88 | a scan ends when the sizes of every header it passes advance |
| `ProbeTurns.UnsignedEnds` | scripts/boot-base-contract.py:72-88 | in particular when none of them is negative |
| `ProbeTurns.StandsStill` | scripts/boot-base-contract.py:72-88 | a concrete payload, one header with a negative size, on which the scan never ends |
| `Newc.ReadsWritten` | scripts/tests/test_boot_base_contract.py:22-30 | a written entry, anywhere in an archive, is read back with its name, its data and the offset behind it |
| `Newc.VisitsBoundaries` | scripts/boot-base-contract.py:73-87 | over a written archive, a scan of as many turns as it has entries, or more, visits only entry boundaries: those up to the first BusyBox entry, or all of them and then what follows |
| `Newc.BoundariesBetween` | scripts/tests/test_boot_base_contract.py:22-30 | the boundaries are the lengths of the leading parts of the archive |
| `Newc.ScanFrom` | scripts/boot-base-contract.py:73-88 | the verdict over a written archive depends only on the data of its first BusyBox entry; without one the scan goes on behind the archive |
| `Newc.ArchiveVerdict` | scripts/boot-base-contract.py:67-88 | a scan over a written archive is decided in one turn more than the archive has entries, and accepts it if and only if its first BusyBox entry has the ELF ident and the machine of the architecture; the reason of a refusal says whether there is such an entry |
| `Pairing.SelectPairs` | scripts/boot-base-contract.py:91-123 | pairs are returned if and only if kernels in scope boot directly and have different keys, roots are those of the inventory, each once, and every root has a kernel; which refusal means which failure |
| `Pairing.PairsMeaning` | scripts/boot-base-contract.py:118-122 | the pairs follow the roots, each with the one kernel that has its key |
| `Pairing.CountingKeys` | scripts/boot-base-contract.py:115-116 | comparing the number of keys with the size of their set finds exactly the repeated keys |
| `Inventory.MemberSpecs` | scripts/assemble-release.py:67-174 | the loop over the architectures appends eight members for each, and then the one that belongs to none |
| `Inventory.RenderMembers` | scripts/assemble-release.py:420-457 | the rendered members, with a boot protocol exactly on the bootable ones |
| `Inventory.TableIsComplete` | scripts/assemble-release.py:67-174 | whatever architectures are published and selected, the table has different kernels and roots and a bootable kernel of the same architecture, profile and build mode for every root |
| `Inventory.RenderedTableSelects` | scripts/boot-base-contract.py:91-123 | rendering any table with that property satisfies everything the selection asks for |
| `Inventory.ExpectedIsRoots` | scripts/boot-base-contract.py:108-113 | the roots of a rendered table are the expected ones |
| `Checksums.WriteSubjects` | scripts/assemble-release.py:346-359 | the table is written unless a name repeats |
| `Checksums.ChecksumTable` | scripts/verify-released-consumer.py:154-163 | the loop over the lines computes the specification `Table` |
| `Checksums.AcceptedExactly` | scripts/verify-released-consumer.py:154-163 | a table is accepted if and only if it has a line, every line has the form, and no name repeats; what is returned are its lines |
| `Checksums.TableRoundTrip` | scripts/verify-released-consumer.py:154-163 | what the release writes for safe names and digests is read back as exactly the subjects; the consumer refuses precisely repeated names and the empty list |
| `Checksums.DigestsKept` | scripts/assemble-release.py:359-359 | with distinct names, each name is read with the digest it was written with |

## Left out

- `ident` substitution, UTF-8 decoding, SHA-1, SHA-256 and JSON are parameters: only what holds for any such function is proved.
- Parsing by libraries: index entries, tree objects, ignore patterns, the values of an attribute line, escapes in a quoted pattern, configuration syntax and `match_path` are parameters, with their results as data.
- Windows: backslash and colon rules of `_safe_path`, prefix discovery, and the path rewriting of `gitdir:` conditions.
- ConfigIncludes.StrictConfig: lists the settings in the order in which they are read; merging repeated ones into one multi-valued entry, which the configuration library does at line 382, is not modelled.
- Environment variables, HOME and XDG lookups, and the choice of the system configuration: short case splits without state.
- Observing.ObserveCheckout: takes the attributes and the ignore verdict of a path as functions, which `Attributes` computes separately, so a refusal while reading a rule file does not occur inside an observation; joining the two would only pass one more refusal through.
- A working tree is one snapshot while it is observed, and an observation is one step of `emit`; changes during an observation are not modelled.
- Observing.ObserveGitlink: what stands at the gitlink (missing, no directory, empty, with metadata) is a parameter of the repository and is not read from the tree that the walk sees.
- `ConflictedIndexEntry`: `_index_entries` never produces one, so only plain entries with a stage are modelled.
- The committed list is sorted by (path, mode); the object name, which Python compares after them, never decides between leaves of a tree.
- Index fields that the observation does not use (times, sizes, owners) are not part of an entry.
- Details of refusal texts: only their reason is modelled.
- `sha256_file` and the reading of a root's contract see a staged file at one moment, not chunk by chunk; a copy that another process removes is written on unseen, as through the open descriptor, but one that it removes and creates again under the same name is written into, while the descriptor still writes to the old file.
- No source is larger than some bound, which may be any number: copying a source that grows as fast as it is read would not end.
- `issued_at`, the flake locks, the boot ABI, the image contract and the checks on the images checkout are inputs of `emit`.
- Newc.ProbeDescription: runs for a given number of turns and returns nothing when the scan then still goes on, because the loop need not end; the header fields besides the two sizes are uninterpreted.
- In `run_until_ready` the turns are those that begin before the deadline; waiting, terminating the process and printing are not modelled.
- A member whose role is an object but whose target names no architecture is a refusal in the model; Python raises a `TypeError` there.
- Inventory.MemberSpecs: keeps name, role, target and bootability of a member and drops its artifact list and capabilities, which the pairing does not read.
- Inventory.RenderMembers: drops the artifacts, the pack hash and the SBOM of a rendered member for the same reason.
- SBOM and pack manifests, revocation, cosign and GitHub calls, KVM probing, the token checkers and `run-bdd.py`: input, output and field-by-field checks.
- Windows of a browser, firecracker and qemu command lines: plain string building.
