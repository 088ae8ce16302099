/** When the scan for BusyBox ends: sizes are texts that may have a sign, so that it can come back to an offset. */
module ProbeTurns {
  import opened Wrappers
  import opened Bytes
  import opened HexTexts
  import opened Newc

  // ---------------------------------------------------------------- where the scan goes

  /** Where the scan goes on from an offset, if it does. */
  function Next(payload: seq<Byte>, offset: int): Option<int> {
    var found := EntryAt(payload, offset);
    if found.Named? && !IsBusyBox(found.name) then Some(found.next) else None
  }

  /** The offset of a turn of the scan, if it takes that many. */
  function OffsetAt(payload: seq<Byte>, turn: nat): Option<int> {
    if turn == 0 then Some(0)
    else
      match OffsetAt(payload, turn - 1)
      case None => None
      case Some(offset) => Next(payload, offset)
  }

  lemma OffsetStep(payload: seq<Byte>, turn: nat)
    ensures OffsetAt(payload, 0) == Some(0)
    ensures OffsetAt(payload, turn + 1) ==
            match OffsetAt(payload, turn) case None => None case Some(offset) => Next(payload, offset)
  {
    hide Next;
  }

  lemma ProbeGoesOn(payload: seq<Byte>, offset: int, arch: Arch, turns: nat)
    ensures Probe(payload, offset, arch, 0).None?
    ensures Probe(payload, offset, arch, turns + 1).None? <==>
            Next(payload, offset).Some? && Probe(payload, Next(payload, offset).value, arch, turns).None?
  {
    hide EntryAt, IsBusyBox, Judge;
  }

  /** The scan goes on for as many turns as it has offsets. */
  lemma {:induction false} GoesOn(payload: seq<Byte>, arch: Arch, turn: nat, turns: nat)
    requires OffsetAt(payload, turn).Some?
    ensures Probe(payload, OffsetAt(payload, turn).value, arch, turns).None? <==> OffsetAt(payload, turn + turns).Some?
    decreases turns
  {
    hide *;
    var offset := OffsetAt(payload, turn).value;
    if turns == 0 {
      ProbeGoesOn(payload, offset, arch, 0);
    } else {
      ProbeGoesOn(payload, offset, arch, turns - 1);
      OffsetStep(payload, turn);
      if Next(payload, offset).Some? {
        GoesOn(payload, arch, turn + 1, turns - 1);
        assert turn + 1 + (turns - 1) == turn + turns;
      } else {
        OffsetsStop(payload, turn + 1, turn + turns);
      }
    }
  }

  lemma {:induction false} OffsetsStop(payload: seq<Byte>, turn: nat, later: nat)
    requires OffsetAt(payload, turn).None? && turn <= later
    ensures OffsetAt(payload, later).None?
    decreases later
  {
    hide *;
    if turn < later {
      OffsetsStop(payload, turn, later - 1);
      OffsetStep(payload, later - 1);
    }
  }

  /** The scan is decided in some number of turns. */
  ghost predicate Ends(payload: seq<Byte>, arch: Arch) { exists turns: nat :: Probe(payload, 0, arch, turns).Some? }

  /** A turn whose offset an earlier turn had. */
  ghost predicate Returns(payload: seq<Byte>, turn: nat) {
    OffsetAt(payload, turn).Some? && exists earlier: nat :: earlier < turn && OffsetAt(payload, earlier) == OffsetAt(payload, turn)
  }

  lemma {:induction false} SameFrom(payload: seq<Byte>, i: nat, j: nat, n: nat)
    requires OffsetAt(payload, i) == OffsetAt(payload, j)
    ensures OffsetAt(payload, i + n) == OffsetAt(payload, j + n)
    decreases n
  {
    hide *;
    if n > 0 {
      SameFrom(payload, i, j, n - 1);
      OffsetStep(payload, i + n - 1);
      OffsetStep(payload, j + n - 1);
    }
  }

  /** A scan that comes back to an offset never ends. */
  lemma {:induction false} NeverStops(payload: seq<Byte>, i: nat, j: nat, n: nat)
    requires i < j && OffsetAt(payload, j).Some? && OffsetAt(payload, i) == OffsetAt(payload, j)
    ensures OffsetAt(payload, n).Some?
    decreases n
  {
    hide *;
    if n <= j {
      if OffsetAt(payload, n).None? {
        OffsetsStop(payload, n, j);
      }
    } else {
      SameFrom(payload, i, j, n - j);
      NeverStops(payload, i, j, i + (n - j));
    }
  }

  /** A header stands neither far before the payload nor behind it. */
  lemma HeaderInside(payload: seq<Byte>, offset: int)
    requires HasHeader(payload, offset)
    ensures -|payload| - HEADER_SIZE < offset <= |payload| - HEADER_SIZE
  {
  }

  // ---------------------------------------------------------------- counting offsets

  ghost predicate DistinctWithin(s: seq<int>, low: int, high: int) {
    && (forall i :: 0 <= i < |s| ==> low <= s[i] < high)
    && (forall i, j :: 0 <= i < j < |s| ==> s[i] != s[j])
  }

  lemma Without(s: seq<int>, low: int, high: int, i: nat)
    requires DistinctWithin(s, low, high) && i < |s| && s[i] == high - 1
    ensures DistinctWithin(s[..i] + s[i + 1..], low, high - 1)
  {
    var t := s[..i] + s[i + 1..];
    assert forall k :: 0 <= k < |t| ==> t[k] == s[if k < i then k else k + 1];
  }

  /** Different numbers of a range are no more than the range has. */
  lemma {:induction false} Pigeonhole(s: seq<int>, low: int, high: int)
    requires low <= high && DistinctWithin(s, low, high)
    ensures |s| <= high - low
    decreases high - low
  {
    if s != [] {
      assert low <= s[0] < high;
      if i :| 0 <= i < |s| && s[i] == high - 1 {
        Without(s, low, high, i);
        Pigeonhole(s[..i] + s[i + 1..], low, high - 1);
      } else {
        Pigeonhole(s, low, high - 1);
      }
    }
  }

  lemma NextHasHeader(payload: seq<Byte>, offset: int)
    requires Next(payload, offset).Some?
    ensures HasHeader(payload, offset) && Next(payload, offset).value % 4 == 0
  {
    hide IsBusyBox, HasHeader;
  }

  lemma BeforeTurn(payload: seq<Byte>, i: nat, turns: nat)
    requires i < turns && OffsetAt(payload, turns).Some?
    ensures OffsetAt(payload, i).Some?
    ensures -|payload| - HEADER_SIZE < OffsetAt(payload, i).value <= |payload| - HEADER_SIZE
  {
    hide *;
    if OffsetAt(payload, i + 1).None? {
      OffsetsStop(payload, i + 1, turns);
    }
    OffsetStep(payload, i);
    NextHasHeader(payload, OffsetAt(payload, i).value);
    HeaderInside(payload, OffsetAt(payload, i).value);
  }

  /** A scan that never comes back to an offset ends soon. */
  lemma EndsSoon(payload: seq<Byte>)
    requires forall turn :: !Returns(payload, turn)
    ensures OffsetAt(payload, 2 * |payload| + 1).None?
  {
    hide OffsetAt;
    var turns := 2 * |payload| + 1;
    if OffsetAt(payload, turns).Some? {
      forall i: nat | i < turns
        ensures OffsetAt(payload, i).Some?
        ensures -|payload| - HEADER_SIZE < OffsetAt(payload, i).value <= |payload| - HEADER_SIZE
      {
        BeforeTurn(payload, i, turns);
      }
      var offsets := seq(turns, i requires 0 <= i < turns => OffsetAt(payload, i).value);
      forall i, j | 0 <= i < j < turns
        ensures offsets[i] != offsets[j]
      {
        assert !Returns(payload, j);
      }
      Pigeonhole(offsets, -|payload| - HEADER_SIZE + 1, |payload| - HEADER_SIZE + 1);
    }
  }

  lemma Decided(payload: seq<Byte>, arch: Arch, turns: nat)
    ensures Probe(payload, 0, arch, turns).Some? <==> OffsetAt(payload, turns).None?
  {
    hide *;
    OffsetStep(payload, 0);
    GoesOn(payload, arch, 0, turns);
  }

  /** The scan ends exactly when it never comes back to an offset, and then soon. */
  lemma EndsExactly(payload: seq<Byte>, arch: Arch)
    ensures Ends(payload, arch) <==> forall turn :: !Returns(payload, turn)
    ensures Ends(payload, arch) ==> Probe(payload, 0, arch, 2 * |payload| + 1).Some?
  {
    hide Probe, OffsetAt;
    if turn :| Returns(payload, turn) {
      var earlier: nat :| earlier < turn && OffsetAt(payload, earlier) == OffsetAt(payload, turn);
      forall turns: nat
        ensures Probe(payload, 0, arch, turns).None?
      {
        NeverStops(payload, earlier, turn, turns);
        Decided(payload, arch, turns);
      }
    } else {
      EndsSoon(payload);
      Decided(payload, arch, 2 * |payload| + 1);
    }
  }

  // ---------------------------------------------------------------- sizes that advance

  /** How far an entry reaches from a multiple of four on. */
  function StepOf(size: int, namesize: int): int { Align(Align(HEADER_SIZE + namesize) + size) }

  predicate SizesAdvance(payload: seq<Byte>, offset: int) {
    match (FileSize(payload, offset), NameSize(payload, offset))
    case (Some(size), Some(namesize)) => StepOf(size, namesize) >= HEADER_SIZE
    case _ => false
  }

  lemma AlignFrom(offset: int, n: int)
    requires offset % 4 == 0
    ensures Align(offset + n) == offset + Align(n)
  {
  }

  lemma NextStep(payload: seq<Byte>, offset: int)
    requires offset % 4 == 0 && Next(payload, offset).Some?
    ensures SizesAdvance(payload, offset) <==> Next(payload, offset).value >= offset + HEADER_SIZE
  {
    hide IsBusyBox, HasHeader, FileSize, NameSize, StripNul, Slice, Align;
    var size, namesize := FileSize(payload, offset).value, NameSize(payload, offset).value;
    AlignFrom(offset, HEADER_SIZE + namesize);
    AlignFrom(offset, Align(HEADER_SIZE + namesize) + size);
  }

  /** Sizes without a sign advance. */
  lemma PlainSizesAdvance(payload: seq<Byte>, offset: int)
    requires Unsigned(payload, offset)
    ensures SizesAdvance(payload, offset)
  {
    hide FileSize, NameSize;
  }

  /** Each offset is a multiple of four, and each a whole header or more behind the one before. */
  ghost predicate Ascends(v: seq<int>, from: int) {
    && (forall i :: 0 <= i < |v| ==> v[i] % 4 == 0 && from <= v[i])
    && (forall i, j :: 0 <= i < j < |v| ==> v[i] + HEADER_SIZE <= v[j])
  }

  ghost predicate AllAdvance(payload: seq<Byte>, v: seq<int>) {
    forall i :: 0 <= i < |v| - 1 ==> SizesAdvance(payload, v[i])
  }

  lemma PrependAt(offset: int, rest: seq<int>, i: nat)
    requires i < |rest|
    ensures Prepend(offset, rest)[0] == offset && Prepend(offset, rest)[i + 1] == rest[i]
  {
  }

  lemma AscendsWithout(offset: int, rest: seq<int>)
    requires rest != [] && Ascends(Prepend(offset, rest), offset)
    ensures offset + HEADER_SIZE <= rest[0] && Ascends(rest, rest[0])
  {
    var v := Prepend(offset, rest);
    hide Prepend;
    PrependAt(offset, rest, 0);
    assert v[0] + HEADER_SIZE <= v[1];
    forall i | 0 <= i < |rest|
      ensures rest[i] % 4 == 0 && rest[0] <= rest[i]
    {
      PrependAt(offset, rest, i);
      assert i > 0 ==> v[1] + HEADER_SIZE <= v[i + 1];
    }
    forall i, j | 0 <= i < j < |rest|
      ensures rest[i] + HEADER_SIZE <= rest[j]
    {
      PrependAt(offset, rest, i);
      PrependAt(offset, rest, j);
      assert v[i + 1] + HEADER_SIZE <= v[j + 1];
    }
  }

  lemma AscendsWith(offset: int, rest: seq<int>)
    requires offset % 4 == 0 && rest != [] && offset + HEADER_SIZE <= rest[0] && Ascends(rest, rest[0])
    ensures Ascends(Prepend(offset, rest), offset)
  {
    var v := Prepend(offset, rest);
    hide Prepend;
    PrependAt(offset, rest, 0);
    forall i | 0 <= i < |v|
      ensures v[i] % 4 == 0 && offset <= v[i]
    {
      if i > 0 {
        PrependAt(offset, rest, i - 1);
      }
    }
    forall i, j | 0 <= i < j < |v|
      ensures v[i] + HEADER_SIZE <= v[j]
    {
      PrependAt(offset, rest, j - 1);
      if i > 0 {
        PrependAt(offset, rest, i - 1);
        assert rest[i - 1] + HEADER_SIZE <= rest[j - 1];
      }
    }
  }

  lemma AscendsCons(offset: int, rest: seq<int>)
    requires offset % 4 == 0 && rest != [] && rest[0] % 4 == 0
    ensures Ascends(Prepend(offset, rest), offset) <==> offset + HEADER_SIZE <= rest[0] && Ascends(rest, rest[0])
  {
    hide *;
    if Ascends(Prepend(offset, rest), offset) {
      AscendsWithout(offset, rest);
    } else if offset + HEADER_SIZE <= rest[0] && Ascends(rest, rest[0]) {
      AscendsWith(offset, rest);
    }
  }

  lemma AdvanceCons(payload: seq<Byte>, offset: int, rest: seq<int>)
    requires rest != []
    ensures AllAdvance(payload, Prepend(offset, rest)) <==> SizesAdvance(payload, offset) && AllAdvance(payload, rest)
  {
    var v := Prepend(offset, rest);
    assert forall i :: 0 <= i < |rest| ==> rest[i] == v[i + 1];
    hide SizesAdvance;
    if AllAdvance(payload, v) {
      assert SizesAdvance(payload, v[0]);
    }
  }

  lemma VisitedStep(payload: seq<Byte>, offset: int, turns: nat)
    ensures var rest := if Next(payload, offset).Some? then Visited(payload, Next(payload, offset).value, turns) else [];
            Visited(payload, offset, turns + 1) == (if EntryAt(payload, offset).NoHeader? then [] else Prepend(offset, rest))
    ensures Visited(payload, offset, turns) != [] ==> Visited(payload, offset, turns)[0] == offset
  {
    hide EntryAt, IsBusyBox;
  }

  lemma OneVisited(payload: seq<Byte>, offset: int)
    requires offset % 4 == 0
    ensures Ascends([], offset) && AllAdvance(payload, []) && Ascends(Prepend(offset, []), offset)
    ensures AllAdvance(payload, Prepend(offset, []))
  {
  }

  /**
   * The headers that the scan finds are at multiples of four, each a whole header or more behind the one before, exactly
   * when the two sizes of every header but the last advance.
   */
  lemma {:induction false} VisitedIncreasing(payload: seq<Byte>, offset: int, turns: nat)
    requires offset % 4 == 0
    ensures var v := Visited(payload, offset, turns); Ascends(v, offset) <==> AllAdvance(payload, v)
    decreases turns
  {
    hide *;
    OneVisited(payload, offset);
    if turns > 0 {
      VisitedStep(payload, offset, turns - 1);
      if Next(payload, offset).Some? {
        var next := Next(payload, offset).value;
        NextHasHeader(payload, offset);
        NextStep(payload, offset);
        VisitedIncreasing(payload, next, turns - 1);
        VisitedStep(payload, next, turns - 1);
        var rest := Visited(payload, next, turns - 1);
        if rest != [] {
          AscendsCons(offset, rest);
          AdvanceCons(payload, offset, rest);
        }
      }
    } else {
      NothingVisited(payload, offset);
    }
  }

  lemma NothingVisited(payload: seq<Byte>, offset: int)
    ensures Visited(payload, offset, 0) == []
  {
  }

  lemma {:induction false} OffsetsAligned(payload: seq<Byte>, turn: nat)
    requires OffsetAt(payload, turn).Some?
    ensures OffsetAt(payload, turn).value % 4 == 0
  {
    hide *;
    OffsetStep(payload, turn);
    if turn > 0 {
      OffsetStep(payload, turn - 1);
      NextHasHeader(payload, OffsetAt(payload, turn - 1).value);
    }
  }

  /** The sizes of every header that the scan passes advance. */
  ghost predicate PassedAdvance(payload: seq<Byte>) {
    forall turn: nat :: OffsetAt(payload, turn).Some? && Next(payload, OffsetAt(payload, turn).value).Some? ==>
      SizesAdvance(payload, OffsetAt(payload, turn).value)
  }

  lemma {:induction false} OffsetsGrow(payload: seq<Byte>, i: nat, j: nat)
    requires PassedAdvance(payload)
    requires i < j && OffsetAt(payload, j).Some?
    ensures OffsetAt(payload, i).Some? && OffsetAt(payload, i).value < OffsetAt(payload, j).value
    decreases j
  {
    hide OffsetAt, Next, SizesAdvance;
    OffsetStep(payload, j - 1);
    var before := OffsetAt(payload, j - 1).value;
    OffsetsAligned(payload, j - 1);
    NextStep(payload, before);
    if i < j - 1 {
      OffsetsGrow(payload, i, j - 1);
    }
  }

  /** In particular, a scan over sizes that advance ends. */
  lemma AdvancingEnds(payload: seq<Byte>, arch: Arch)
    requires PassedAdvance(payload)
    ensures Ends(payload, arch)
  {
    EndsExactly(payload, arch);
    hide Ends, OffsetAt, PassedAdvance;
    forall turn
      ensures !Returns(payload, turn)
    {
      if Returns(payload, turn) {
        var earlier: nat :| earlier < turn && OffsetAt(payload, earlier) == OffsetAt(payload, turn);
        OffsetsGrow(payload, earlier, turn);
      }
    }
  }

  predicate Unsigned(payload: seq<Byte>, offset: int) {
    && FileSize(payload, offset).Some? && FileSize(payload, offset).value >= 0
    && NameSize(payload, offset).Some? && NameSize(payload, offset).value >= 0
  }

  /** A scan that passes no negative size ends. */
  lemma UnsignedEnds(payload: seq<Byte>, arch: Arch)
    requires forall turn: nat :: OffsetAt(payload, turn).Some? && Next(payload, OffsetAt(payload, turn).value).Some? ==>
               Unsigned(payload, OffsetAt(payload, turn).value)
    ensures Ends(payload, arch)
  {
    hide OffsetAt, Next, SizesAdvance, Unsigned, Ends;
    forall turn: nat | OffsetAt(payload, turn).Some? && Next(payload, OffsetAt(payload, turn).value).Some?
      ensures SizesAdvance(payload, OffsetAt(payload, turn).value)
    {
      PlainSizesAdvance(payload, OffsetAt(payload, turn).value);
    }
    AdvancingEnds(payload, arch);
  }

  // ---------------------------------------------------------------- a scan that never ends

  function Digits(n: nat): seq<Byte> { seq(n, _ => 48) }

  /** One header without a name, whose size is the text -0000070. */
  function Still(): seq<Byte> { MAGIC + Digits(48) + ([45] + Hex(0x70, 7)) + Digits(32) + Hex(0, 8) + Digits(8) }

  lemma StillSizes()
    ensures |Still()| == HEADER_SIZE && HasHeader(Still(), 0)
    ensures FileSize(Still(), 0) == Some(-0x70) && NameSize(Still(), 0) == Some(0)
  {
    EightHexDigits();
    NegativeRoundTrip(0x70, 7);
    HexRoundTrip(0, 8);
    SixParts(MAGIC, Digits(48), [45] + Hex(0x70, 7), Digits(32), Hex(0, 8), Digits(8));
    hide Hex, IntOf, Pow, Slice;
    var p := Still();
    SlicesInside(p, 0, HEADER_SIZE);
    assert p[0..HEADER_SIZE] == p;
    SlicesInside(p, 0, 6);
    SlicesInside(p, 54, 62);
    SlicesInside(p, 94, 102);
    assert p[0..6] == p[..6];
  }

  lemma StillNext()
    ensures Next(Still(), 0) == Some(0)
  {
    StillSizes();
    hide Still, HasHeader, FileSize, NameSize;
    SizedEntry(Still(), 0, -0x70, 0);
    assert Slice(Still(), HEADER_SIZE, HEADER_SIZE) == [];
  }

  lemma {:induction false} StillAt(turn: nat)
    ensures OffsetAt(Still(), turn) == Some(0)
  {
    hide *;
    OffsetStep(Still(), turn);
    if turn > 0 {
      StillAt(turn - 1);
      StillNext();
      OffsetStep(Still(), turn - 1);
    }
  }

  /** A payload on which the scan stands still and never ends. */
  lemma StandsStill(arch: Arch)
    ensures !Ends(Still(), arch)
  {
    EndsExactly(Still(), arch);
    StillAt(0);
    StillAt(1);
    hide Ends, OffsetAt, Still;
    assert Returns(Still(), 1);
  }
}
