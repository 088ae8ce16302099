/** Looking for BusyBox in a newc archive (the cpio "New ASCII Format"), and the archives a writer makes. */
module Newc {
  import opened Wrappers
  import opened Bytes
  import opened HexTexts

  datatype Arch = X86_64 | Aarch64 {
    /** The ELF machine number. */
    function Machine(): nat { if X86_64? then 62 else 183 }
  }

  datatype Reason = MalformedHeader | ArchitectureMismatch | NoBusyBox

  // "070701", "bin/busybox" and "./bin/busybox"
  const MAGIC: seq<Byte> := [48, 55, 48, 55, 48, 49]
  const BUSY_BOX: seq<Byte> := [98, 105, 110, 47, 98, 117, 115, 121, 98, 111, 120]
  const DOT_BUSY_BOX: seq<Byte> := [46, 47] + BUSY_BOX
  /** A 64-bit little-endian ELF file. */
  const ELF_IDENT: seq<Byte> := [127, 69, 76, 70, 2, 1]

  const HEADER_SIZE: nat := 110

  // ---------------------------------------------------------------- the scan

  /** `(n + 3) & ~3`, which rounds up to a multiple of four, below zero as well. */
  function Align(n: int): (m: int)
    ensures n <= m < n + 4 && m % 4 == 0
  {
    (n + 3) / 4 * 4
  }

  /** The position that an index of a slice stands for: a negative one counts from the end, and none leaves the bytes. */
  function Position(n: int, length: nat): (i: nat)
    ensures i <= length
  {
    if n >= length then length else if n >= 0 then n else if n + length >= 0 then n + length else 0
  }

  /** `s[low:high]`. */
  function Slice(s: seq<Byte>, low: int, high: int): seq<Byte> {
    var a, b := Position(low, |s|), Position(high, |s|);
    if a <= b then s[a..b] else []
  }

  /** `name.rstrip(b"\0")`. */
  function StripNul(name: seq<Byte>): seq<Byte> {
    if name != [] && name[|name| - 1] == 0 then StripNul(name[..|name| - 1]) else name
  }

  predicate IsBusyBox(name: seq<Byte>) { name == BUSY_BOX || name == DOT_BUSY_BOX }

  predicate ElfMatches(data: seq<Byte>, arch: Arch) {
    |data| >= 20 && data[..6] == ELF_IDENT && FromLittleEndian(data[18..20]) == arch.Machine()
  }

  function HeaderAt(payload: seq<Byte>, offset: int): seq<Byte> { Slice(payload, offset, offset + HEADER_SIZE) }

  predicate HasHeader(payload: seq<Byte>, offset: int) {
    offset + HEADER_SIZE <= |payload| && Slice(HeaderAt(payload, offset), 0, 6) == MAGIC
  }

  function FileSize(payload: seq<Byte>, offset: int): Option<int> { IntOf(Slice(HeaderAt(payload, offset), 54, 62)) }

  function NameSize(payload: seq<Byte>, offset: int): Option<int> { IntOf(Slice(HeaderAt(payload, offset), 94, 102)) }

  /** What stands at an offset: no header, a header without sizes, or an entry and where the scan goes on. */
  datatype Found = NoHeader | NoSizes | Named(name: seq<Byte>, data: seq<Byte>, next: int)

  function EntryOf(payload: seq<Byte>, offset: int, size: int, namesize: int): Found {
    var start := Align(offset + HEADER_SIZE + namesize);
    Named(StripNul(Slice(payload, offset + HEADER_SIZE, offset + HEADER_SIZE + namesize)),
          Slice(payload, start, start + size), Align(start + size))
  }

  function EntryAt(payload: seq<Byte>, offset: int): (r: Found)
    ensures r.Named? ==> HasHeader(payload, offset) && r.next % 4 == 0
  {
    if !HasHeader(payload, offset) then NoHeader
    else
      match (FileSize(payload, offset), NameSize(payload, offset))
      case (Some(size), Some(namesize)) => EntryOf(payload, offset, size, namesize)
      case _ => NoSizes
  }

  /** The verdict on an entry that is BusyBox. */
  function Judge(data: seq<Byte>, arch: Arch): Result<(), Reason> {
    if ElfMatches(data, arch) then Success(()) else Failure(ArchitectureMismatch)
  }

  /** What the scan decides from an offset on in a number of turns; nothing when it then still goes on. */
  function Probe(payload: seq<Byte>, offset: int, arch: Arch, turns: nat): Option<Result<(), Reason>>
    decreases turns
  {
    if turns == 0 then None
    else
      match EntryAt(payload, offset)
      case NoHeader => Some(Failure(NoBusyBox))
      case NoSizes => Some(Failure(MalformedHeader))
      case Named(name, data, next) =>
        if IsBusyBox(name) then Some(Judge(data, arch)) else Probe(payload, next, arch, turns - 1)
  }

  /** The offsets at which the scan finds a header, in a number of turns. */
  function Visited(payload: seq<Byte>, offset: int, turns: nat): seq<int>
    decreases turns
  {
    if turns == 0 then []
    else
      match EntryAt(payload, offset)
      case NoHeader => []
      case NoSizes => [offset]
      case Named(name, _, next) => Prepend(offset, if IsBusyBox(name) then [] else Visited(payload, next, turns - 1))
  }

  function Prepend(x: int, s: seq<int>): (t: seq<int>)
    ensures |t| == 1 + |s|
  {
    [x] + s
  }

  /** The first half of the loop body of `probe_description`. */
  method ReadEntry(payload: seq<Byte>, offset: int) returns (found: Found)
    requires offset + HEADER_SIZE <= |payload|
    ensures found == EntryAt(payload, offset)
  {
    var header := Slice(payload, offset, offset + HEADER_SIZE);
    hide IntOf, StripNul, Slice, Align, MAGIC;
    if Slice(header, 0, 6) != MAGIC {
      return NoHeader;
    }
    var size, namesize := IntOf(Slice(header, 54, 62)), IntOf(Slice(header, 94, 102));
    if size.None? || namesize.None? {
      return NoSizes;
    }
    var name := StripNul(Slice(payload, offset + HEADER_SIZE, offset + HEADER_SIZE + namesize.value));
    var start := Align(offset + HEADER_SIZE + namesize.value);
    return Named(name, Slice(payload, start, start + size.value), Align(start + size.value));
  }

  lemma ProbeNone(payload: seq<Byte>, offset: int, arch: Arch)
    ensures Probe(payload, offset, arch, 0) == None
  {
  }

  lemma ProbeTurn(payload: seq<Byte>, offset: int, arch: Arch, turns: nat)
    requires turns > 0
    ensures Probe(payload, offset, arch, turns) ==
            match EntryAt(payload, offset)
            case NoHeader => Some(Failure(NoBusyBox))
            case NoSizes => Some(Failure(MalformedHeader))
            case Named(name, data, next) =>
              if IsBusyBox(name) then Some(Judge(data, arch)) else Probe(payload, next, arch, turns - 1)
    ensures offset + HEADER_SIZE > |payload| ==> EntryAt(payload, offset) == NoHeader
  {
    hide IsBusyBox, Judge, EntryOf, FileSize, NameSize;
  }

  /** The loop of `probe_description` over the decompressed payload, for a number of turns. */
  method ProbeDescription(payload: seq<Byte>, arch: Arch, turns: nat) returns (r: Option<Result<(), Reason>>)
    ensures r == Probe(payload, 0, arch, turns)
  {
    var offset, left := 0, turns;
    hide Probe, EntryAt, FromLittleEndian, ELF_IDENT, BUSY_BOX, DOT_BUSY_BOX;
    while left > 0 && offset + HEADER_SIZE <= |payload|
      invariant Probe(payload, 0, arch, turns) == Probe(payload, offset, arch, left)
      decreases left
    {
      ProbeTurn(payload, offset, arch, left);
      var found := ReadEntry(payload, offset);
      if found == NoHeader {
        break;
      }
      if found == NoSizes {
        return Some(Failure(MalformedHeader));
      }
      var data := found.data;
      if found.name == BUSY_BOX || found.name == DOT_BUSY_BOX {
        if |data| < 20 || data[..6] != ELF_IDENT || FromLittleEndian(data[18..20]) != arch.Machine() {
          return Some(Failure(ArchitectureMismatch));
        }
        return Some(Success(()));
      }
      offset, left := found.next, left - 1;
    }
    if left == 0 {
      ProbeNone(payload, offset, arch);
      return None;
    }
    ProbeTurn(payload, offset, arch, left);
    return Some(Failure(NoBusyBox));
  }

  // ---------------------------------------------------------------- a writer

  /** An entry: the header fields around the two sizes, the name field with its terminator, and the data. */
  datatype Entry = Entry(before: seq<Byte>, between: seq<Byte>, after: seq<Byte>, name: seq<Byte>, data: seq<Byte>) {
    ghost predicate Valid() {
      |before| == 48 && |between| == 32 && |after| == 8 && |name| < 0x1_0000_0000 && |data| < 0x1_0000_0000
    }

    function Header(): seq<Byte> {
      MAGIC + before + Hex(|data|, 8) + between + Hex(|name|, 8) + after
    }
  }

  /** `s` and the zeros up to the next multiple of four. */
  function Padded(s: seq<Byte>): (p: seq<Byte>)
    ensures |p| == Align(|s|) && s <= p
  {
    s + Zeros(Align(|s|) - |s|)
  }

  function Write(e: Entry): (s: seq<Byte>)
    ensures |s| == Align(|e.Header()| + |e.name|) + Align(|e.data|)
  {
    Cat(Padded(Cat(e.Header(), e.name)), Padded(e.data))
  }

  function Archive(entries: seq<Entry>): seq<Byte> {
    if entries == [] then [] else Cat(Write(entries[0]), Archive(entries[1..]))
  }

  lemma SixParts(a: seq<Byte>, b: seq<Byte>, c: seq<Byte>, d: seq<Byte>, e: seq<Byte>, f: seq<Byte>)
    requires |a| == 6 && |b| == 48 && |c| == 8 && |d| == 32 && |e| == 8 && |f| == 8
    ensures var h := a + b + c + d + e + f;
            |h| == 110 && h[..6] == a && h[54..62] == c && h[94..102] == e
  {
    var h := a + b + c + d + e + f;
    assert forall k :: 0 <= k < 8 ==> h[54..62][k] == c[k];
    assert forall k :: 0 <= k < 8 ==> h[94..102][k] == e[k];
  }

  lemma HeaderFields(e: Entry)
    requires e.Valid()
    ensures var h := e.Header();
            && |h| == HEADER_SIZE && h[..6] == MAGIC
            && IntOf(h[54..62]) == Some(|e.data|) && IntOf(h[94..102]) == Some(|e.name|)
  {
    EightHexDigits();
    HexRoundTrip(|e.data|, 8);
    HexRoundTrip(|e.name|, 8);
    SixParts(MAGIC, e.before, Hex(|e.data|, 8), e.between, Hex(|e.name|, 8), e.after);
    hide Hex, IntOf, Pow;
  }

  lemma AlignShift(offset: nat, n: nat)
    requires offset % 4 == 0
    ensures Align(offset + n) == offset + Align(n)
  {
  }

  lemma AtOffset(p: seq<Byte>, pre: seq<Byte>, middle: seq<Byte>, post: seq<Byte>)
    requires p == Cat(pre, Cat(middle, post))
    ensures |pre| + |middle| <= |p| && p[|pre|..|pre| + |middle|] == middle
  {
  }

  lemma PartsAt(p: seq<Byte>, pre: seq<Byte>, a: seq<Byte>, b: seq<Byte>, z: seq<Byte>, c: seq<Byte>, y: seq<Byte>,
                post: seq<Byte>)
    requires p == Cat(Cat(pre, Cat(Cat(Cat(a, b), z), Cat(c, y))), post)
    ensures |pre| + |a| + |b| + |z| + |c| <= |p|
    ensures p[|pre|..|pre| + |a|] == a
    ensures p[|pre| + |a|..|pre| + |a| + |b|] == b
    ensures p[|pre| + |a| + |b| + |z|..|pre| + |a| + |b| + |z| + |c|] == c
  {
    hide *;
    var rest := Cat(c, Cat(y, post));
    CatCat(pre, Cat(Cat(Cat(a, b), z), Cat(c, y)), post);
    CatCat(Cat(Cat(a, b), z), Cat(c, y), post);
    CatCat(c, y, post);
    CatCat(Cat(a, b), z, rest);
    CatCat(a, b, Cat(z, rest));
    AtOffset(p, pre, a, Cat(b, Cat(z, rest)));
    CatCat(pre, a, Cat(b, Cat(z, rest)));
    AtOffset(p, Cat(pre, a), b, Cat(z, rest));
    CatCat(Cat(pre, a), b, Cat(z, rest));
    CatCat(Cat(Cat(pre, a), b), z, rest);
    AtOffset(p, Cat(Cat(Cat(pre, a), b), z), c, Cat(y, post));
  }

  /** The zeros behind a header and its name, or behind data. */
  function Fill(n: nat): (z: seq<Byte>)
    ensures n + |z| == Align(n)
  {
    Zeros(Align(n) - n)
  }

  lemma PaddedIs(s: seq<Byte>)
    ensures Padded(s) == Cat(s, Fill(|s|))
  {
    hide Align, Zeros;
  }

  lemma WriteIs(e: Entry)
    ensures Write(e) == Cat(Cat(Cat(e.Header(), e.name), Fill(|e.Header()| + |e.name|)), Cat(e.data, Fill(|e.data|)))
  {
    PaddedIs(Cat(e.Header(), e.name));
    PaddedIs(e.data);
    hide Padded, Cat, Fill, Entry.Header;
  }

  /** Where the parts of a written entry stand in an archive. */
  lemma WrittenAt(p: seq<Byte>, pre: seq<Byte>, e: Entry, post: seq<Byte>, start: nat)
    requires e.Valid() && |pre| % 4 == 0 && p == Cat(Cat(pre, Write(e)), post)
    requires start == Align(|pre| + HEADER_SIZE + |e.name|)
    ensures |pre| + HEADER_SIZE + |e.name| <= start && start + |e.data| <= |p|
    ensures p[|pre|..|pre| + HEADER_SIZE] == e.Header()
    ensures p[|pre| + HEADER_SIZE..|pre| + HEADER_SIZE + |e.name|] == e.name
    ensures p[start..start + |e.data|] == e.data
  {
    hide *;
    HeaderFields(e);
    AlignShift(|pre|, HEADER_SIZE + |e.name|);
    WriteIs(e);
    PartsAt(p, pre, e.Header(), e.name, Fill(|e.Header()| + |e.name|), e.data, Fill(|e.data|), post);
  }

  lemma MultiplesOfFour(o: nat, a: nat, b: nat)
    requires o % 4 == 0 && a % 4 == 0 && b % 4 == 0
    ensures (o + a) % 4 == 0 && (a + b) % 4 == 0
  {
  }

  lemma WrittenSize(e: Entry)
    requires e.Valid()
    ensures |Write(e)| == Align(HEADER_SIZE + |e.name|) + Align(|e.data|)
  {
    HeaderFields(e);
    hide Write, Align, Entry.Header, IntOf, MAGIC;
  }

  lemma NextWritten(o: nat, e: Entry)
    requires e.Valid() && o % 4 == 0
    ensures o + |Write(e)| == Align(Align(o + HEADER_SIZE + |e.name|) + |e.data|)
    ensures |Write(e)| % 4 == 0
  {
    hide *;
    WrittenSize(e);
    var a, b := Align(HEADER_SIZE + |e.name|), Align(|e.data|);
    MultiplesOfFour(o, a, b);
    AlignShift(o, HEADER_SIZE + |e.name|);
    AlignShift(o + a, |e.data|);
  }

  /** A header with these sizes. */
  predicate Sized(p: seq<Byte>, o: int, size: int, namesize: int) {
    HasHeader(p, o) && FileSize(p, o) == Some(size) && NameSize(p, o) == Some(namesize)
  }

  lemma SizedEntry(p: seq<Byte>, o: int, size: int, namesize: int)
    requires Sized(p, o, size, namesize)
    ensures EntryAt(p, o) == EntryOf(p, o, size, namesize)
  {
    hide FileSize, NameSize, HasHeader, EntryOf;
  }

  lemma EntryIs(p: seq<Byte>, o: int, size: int, namesize: int)
    ensures var start := Align(o + HEADER_SIZE + namesize);
            EntryOf(p, o, size, namesize) ==
            Named(StripNul(Slice(p, o + HEADER_SIZE, o + HEADER_SIZE + namesize)), Slice(p, start, start + size),
                  Align(start + size))
  {
    hide StripNul, Slice, Align;
  }

  lemma SlicesInside(s: seq<Byte>, low: nat, high: nat)
    requires low <= high <= |s|
    ensures Slice(s, low, high) == s[low..high]
  {
  }

  lemma WrittenSizes(p: seq<Byte>, o: nat, e: Entry)
    requires e.Valid() && o + HEADER_SIZE <= |p| && p[o..o + HEADER_SIZE] == e.Header()
    ensures Sized(p, o, |e.data|, |e.name|)
  {
    HeaderFields(e);
    SlicesInside(p, o, o + HEADER_SIZE);
    SlicesInside(e.Header(), 0, 6);
    SlicesInside(e.Header(), 54, 62);
    SlicesInside(e.Header(), 94, 102);
    assert e.Header()[0..6] == e.Header()[..6];
    hide IntOf, MAGIC, Entry.Header, Slice;
  }

  lemma WrittenSlices(p: seq<Byte>, pre: seq<Byte>, e: Entry, post: seq<Byte>)
    requires e.Valid() && |pre| % 4 == 0 && p == Cat(Cat(pre, Write(e)), post)
    ensures var o := |pre|; var start := Align(o + HEADER_SIZE + |e.name|);
            && Sized(p, o, |e.data|, |e.name|)
            && Slice(p, o + HEADER_SIZE, o + HEADER_SIZE + |e.name|) == e.name
            && Slice(p, start, start + |e.data|) == e.data
  {
    hide *;
    var o := |pre|;
    var start := Align(o + HEADER_SIZE + |e.name|);
    WrittenAt(p, pre, e, post, start);
    WrittenSizes(p, o, e);
    SlicesInside(p, o + HEADER_SIZE, o + HEADER_SIZE + |e.name|);
    SlicesInside(p, start, start + |e.data|);
  }

  /** The scan reads a written entry back. */
  lemma ReadsWritten(p: seq<Byte>, pre: seq<Byte>, e: Entry, post: seq<Byte>)
    requires e.Valid() && |pre| % 4 == 0 && p == Cat(Cat(pre, Write(e)), post)
    ensures EntryAt(p, |pre|) == Named(StripNul(e.name), e.data, |pre| + |Write(e)|)
  {
    hide *;
    WrittenSlices(p, pre, e, post);
    NextWritten(|pre|, e);
    SizedEntry(p, |pre|, |e.data|, |e.name|);
    EntryIs(p, |pre|, |e.data|, |e.name|);
  }

  // ---------------------------------------------------------------- scanning a written archive

  /** The position of the first entry that is BusyBox, or the number of entries. */
  function FirstBusyBox(entries: seq<Entry>): (k: nat)
    ensures k <= |entries|
    ensures k < |entries| ==> IsBusyBox(StripNul(entries[k].name))
    ensures forall i :: 0 <= i < k ==> !IsBusyBox(StripNul(entries[i].name))
  {
    if entries == [] || IsBusyBox(StripNul(entries[0].name)) then 0 else 1 + FirstBusyBox(entries[1..])
  }

  /** Where the entries of an archive begin. */
  function Boundaries(offset: nat, entries: seq<Entry>): (offsets: seq<nat>)
    ensures |offsets| == |entries|
    decreases |entries|
  {
    if entries == [] then [] else [offset] + Boundaries(offset + |Write(entries[0])|, entries[1..])
  }

  lemma {:induction false} BoundariesBetween(offset: nat, entries: seq<Entry>, i: nat)
    requires i < |entries|
    ensures Boundaries(offset, entries)[i] == offset + |Archive(entries[..i])|
    decreases i
  {
    if i > 0 {
      BoundariesBetween(offset + |Write(entries[0])|, entries[1..], i - 1);
      assert entries[..i][1..] == entries[1..][..i - 1] && entries[..i][0] == entries[0];
    } else {
      assert entries[..i] == [];
    }
    hide Write;
  }

  lemma CatAssociates(a: seq<Byte>, b: seq<Byte>, c: seq<Byte>, d: seq<Byte>)
    ensures Cat(Cat(a, Cat(b, c)), d) == Cat(Cat(a, b), Cat(c, d))
    ensures Cat(Cat(Cat(a, b), c), d) == Cat(Cat(a, b), Cat(c, d))
  {
  }

  /** A payload: something read before, an archive, and what follows. */
  function Payload(pre: seq<Byte>, entries: seq<Entry>, tail: seq<Byte>): (p: seq<Byte>) {
    Cat(Cat(pre, Archive(entries)), tail)
  }

  lemma ArchiveIs(entries: seq<Entry>)
    requires entries != []
    ensures Archive(entries) == Cat(Write(entries[0]), Archive(entries[1..]))
  {
    hide Write, Cat;
  }

  lemma PayloadIs(pre: seq<Byte>, entries: seq<Entry>, tail: seq<Byte>)
    ensures Payload(pre, entries, tail) == Cat(Cat(pre, Archive(entries)), tail)
  {
    hide Archive, Cat;
  }

  /** What the scan finds at the first entry of an archive. */
  lemma AtFirstEntry(pre: seq<Byte>, entries: seq<Entry>, tail: seq<Byte>)
    requires |pre| % 4 == 0 && entries != [] && entries[0].Valid()
    ensures var p, first := Payload(pre, entries, tail), entries[0];
            && EntryAt(p, |pre|) == Named(StripNul(first.name), first.data, |pre| + |Write(first)|)
            && p == Payload(Cat(pre, Write(first)), entries[1..], tail)
            && |Write(first)| % 4 == 0
            && |Archive(entries)| == |Write(first)| + |Archive(entries[1..])|
  {
    hide *;
    var p, first, rest := Payload(pre, entries, tail), Write(entries[0]), Archive(entries[1..]);
    ArchiveIs(entries);
    PayloadIs(pre, entries, tail);
    PayloadIs(Cat(pre, first), entries[1..], tail);
    CatAssociates(pre, first, rest, tail);
    ReadsWritten(p, pre, entries[0], Cat(rest, tail));
    NextWritten(|pre|, entries[0]);
  }

  lemma ProbeStep(p: seq<Byte>, o: int, arch: Arch, turns: nat, name: seq<Byte>, data: seq<Byte>, next: int)
    requires EntryAt(p, o) == Named(name, data, next)
    ensures Probe(p, o, arch, turns + 1) == if IsBusyBox(name) then Some(Judge(data, arch)) else Probe(p, next, arch, turns)
  {
    hide EntryAt, IsBusyBox, Judge;
  }

  lemma FirstBusyBoxStep(entries: seq<Entry>)
    requires entries != []
    ensures FirstBusyBox(entries) ==
            if IsBusyBox(StripNul(entries[0].name)) then 0 else 1 + FirstBusyBox(entries[1..])
  {
    hide IsBusyBox, StripNul;
  }

  lemma EmptyArchive(pre: seq<Byte>, tail: seq<Byte>)
    ensures Archive([]) == [] && Boundaries(|pre|, []) == [] && FirstBusyBox([]) == 0
  {
  }

  /**
   * The verdict of a scan over a written archive depends only on the data of its first BusyBox entry; without one,
   * the scan goes on behind the archive.
   */
  lemma {:induction false} ScanFrom(pre: seq<Byte>, entries: seq<Entry>, tail: seq<Byte>, arch: Arch, turns: nat)
    requires |pre| % 4 == 0 && forall e :: e in entries ==> e.Valid()
    ensures var p, k := Payload(pre, entries, tail), FirstBusyBox(entries);
            Probe(p, |pre|, arch, |entries| + turns) ==
            if k < |entries| then Some(Judge(entries[k].data, arch))
            else Probe(p, |pre| + |Archive(entries)|, arch, turns)
    decreases |entries|
  {
    hide *;
    if entries == [] {
      EmptyArchive(pre, tail);
    } else {
      var p, first := Payload(pre, entries, tail), entries[0];
      AtFirstEntry(pre, entries, tail);
      FirstBusyBoxStep(entries);
      ProbeStep(p, |pre|, arch, |entries[1..]| + turns, StripNul(first.name), first.data, |pre| + |Write(first)|);
      if !IsBusyBox(StripNul(first.name)) {
        ScanFrom(Cat(pre, Write(first)), entries[1..], tail, arch, turns);
      }
    }
  }

  /** The boundaries up to one of them, or all of them and the rest of the visit. */
  function Cut(boundaries: seq<int>, k: nat, rest: seq<int>): seq<int> {
    if k < |boundaries| then boundaries[..k + 1] else boundaries + rest
  }

  lemma BoundariesStep(offset: nat, entries: seq<Entry>)
    requires entries != []
    ensures Boundaries(offset, entries) == Prepend(offset, Boundaries(offset + |Write(entries[0])|, entries[1..]))
  {
    hide Write;
  }

  lemma VisitPrepends(p: seq<Byte>, offset: int, turns: nat, name: seq<Byte>, data: seq<Byte>, next: int)
    requires EntryAt(p, offset) == Named(name, data, next)
    ensures Visited(p, offset, turns + 1) == Prepend(offset, if IsBusyBox(name) then [] else Visited(p, next, turns))
  {
    hide EntryAt, IsBusyBox, Prepend;
  }

  lemma CutEmpty(rest: seq<int>)
    ensures Cut([], 0, rest) == rest
  {
  }

  lemma CutFirst(x: int, boundaries: seq<int>, rest: seq<int>)
    ensures Cut(Prepend(x, boundaries), 0, rest) == Prepend(x, [])
  {
  }

  lemma CutLater(x: int, boundaries: seq<int>, k: nat, rest: seq<int>)
    ensures Prepend(x, Cut(boundaries, k, rest)) == Cut(Prepend(x, boundaries), k + 1, rest)
  {
    if k < |boundaries| {
      assert [x] + boundaries[..k + 1] == ([x] + boundaries)[..k + 2];
    } else {
      assert [x] + (boundaries + rest) == ([x] + boundaries) + rest;
    }
  }

  /** Only entry boundaries are visited: those up to the first BusyBox entry, or all of them and what follows. */
  lemma {:induction false} VisitsBoundaries(pre: seq<Byte>, entries: seq<Entry>, tail: seq<Byte>, turns: nat)
    requires |pre| % 4 == 0 && forall e :: e in entries ==> e.Valid()
    ensures var p := Payload(pre, entries, tail);
            Visited(p, |pre|, |entries| + turns) ==
            Cut(Boundaries(|pre|, entries), FirstBusyBox(entries), Visited(p, |pre| + |Archive(entries)|, turns))
    decreases |entries|
  {
    hide *;
    var p := Payload(pre, entries, tail);
    var rest := Visited(p, |pre| + |Archive(entries)|, turns);
    if entries == [] {
      EmptyArchive(pre, tail);
      CutEmpty(rest);
    } else {
      var first := entries[0];
      AtFirstEntry(pre, entries, tail);
      FirstBusyBoxStep(entries);
      VisitPrepends(p, |pre|, |entries[1..]| + turns, StripNul(first.name), first.data, |pre| + |Write(first)|);
      BoundariesStep(|pre|, entries);
      var later := Boundaries(|pre| + |Write(first)|, entries[1..]);
      if IsBusyBox(StripNul(first.name)) {
        CutFirst(|pre|, later, rest);
      } else {
        VisitsBoundaries(Cat(pre, Write(first)), entries[1..], tail, turns);
        CutLater(|pre|, later, FirstBusyBox(entries[1..]), rest);
      }
    }
  }

  lemma NoHeaderBehind(a: seq<Byte>, tail: seq<Byte>)
    requires |tail| < HEADER_SIZE || tail[..6] != MAGIC
    ensures !HasHeader(a + tail, |a|)
  {
    if |tail| >= HEADER_SIZE {
      SlicesInside(a + tail, |a|, |a| + HEADER_SIZE);
      var header := (a + tail)[|a|..|a| + HEADER_SIZE];
      SlicesInside(header, 0, 6);
      assert header[0..6] == tail[..6];
      hide Slice;
    }
  }

  lemma ProbeStops(p: seq<Byte>, offset: int, arch: Arch, turns: nat)
    requires !HasHeader(p, offset) && turns > 0
    ensures Probe(p, offset, arch, turns) == Some(Failure(NoBusyBox))
  {
    hide HasHeader;
  }

  lemma PayloadFromStart(entries: seq<Entry>, tail: seq<Byte>)
    ensures Payload([], entries, tail) == Archive(entries) + tail
  {
    assert Cat([], Archive(entries)) == Archive(entries);
    hide Archive;
  }

  /** An archive is decided in one turn more than it has entries, and accepted exactly when its first BusyBox entry has
      the ELF ident and machine of the architecture. */
  lemma ArchiveVerdict(entries: seq<Entry>, tail: seq<Byte>, arch: Arch, turns: nat)
    requires forall e :: e in entries ==> e.Valid()
    requires |tail| < HEADER_SIZE || tail[..6] != MAGIC
    requires turns > |entries|
    ensures var r, k := Probe(Archive(entries) + tail, 0, arch, turns), FirstBusyBox(entries);
            && r.Some?
            && (r.value.Success? <==> k < |entries| && ElfMatches(entries[k].data, arch))
            && (r.value.Failure? ==> r.value.error == if k < |entries| then ArchitectureMismatch else NoBusyBox)
  {
    hide Probe, Archive, FirstBusyBox, ElfMatches, HasHeader, Payload, Cat;
    ScanFrom([], entries, tail, arch, turns - |entries|);
    PayloadFromStart(entries, tail);
    NoHeaderBehind(Archive(entries), tail);
    ProbeStops(Archive(entries) + tail, |Archive(entries)|, arch, turns - |entries|);
  }
}
