/** What the EWAH decoder accepts and returns, and that it undoes the encoder. */
module EwahMeaning {
  import opened Wrappers
  import opened Bytes
  import opened Bits
  import opened Ewah

  // ---------------------------------------------------------------- bits of expanded words

  lemma {:induction false} LowOnes(n: nat, b: nat)
    ensures Pow(2, n) > 0
    ensures Bit(Pow(2, n) - 1, b) <==> b < n
  {
    PowPositive(2, n);
    if n == 0 {
      NoBitsInZero(b);
    } else if b > 0 {
      LowOnes(n - 1, b - 1);
      PowPositive(2, n - 1);
      assert (Pow(2, n) - 1) / 2 == Pow(2, n - 1) - 1;
    }
  }

  lemma AllOnesBit(b: nat)
    ensures Bit(ALL_ONES, b) <==> b < 64
  {
    PowTwo64();
    LowOnes(64, b);
  }

  lemma BitOfConcat(a: seq<nat>, b: seq<nat>, i: nat)
    ensures BitOf(a + b, i) <==> if i < 64 * |a| then BitOf(a, i) else BitOf(b, i - 64 * |a|)
  {
    if i >= 64 * |a| {
      assert i / 64 - |a| == (i - 64 * |a|) / 64 && i % 64 == (i - 64 * |a|) % 64;
    }
  }

  lemma SegmentBit(s: Segment, i: nat)
    requires s.start <= i
    ensures |s.Expanded()| == s.repeat + |s.literals|
    ensures BitOf(s.Expanded(), i - s.start) <==>
            (i < s.RunEnd() && s.ones) || (s.RunEnd() <= i && BitOf(s.literals, i - s.RunEnd()))
  {
    var run := seq(s.repeat, _ => if s.ones then ALL_ONES else 0);
    BitOfConcat(run, s.literals, i - s.start);
    if i < s.RunEnd() {
      AllOnesBit((i - s.start) % 64);
      NoBitsInZero((i - s.start) % 64);
      assert run[(i - s.start) / 64] == if s.ones then ALL_ONES else 0;
    }
  }

  lemma {:induction false} LiteralOnesBit(literals: seq<nat>, pos: nat, i: nat)
    ensures i in LiteralOnes(literals, pos) <==> pos <= i && BitOf(literals, i - pos)
  {
    if literals != [] {
      LiteralOnesBit(literals[1..], pos + 64, i);
      assert i in WordOnes(literals[0], pos) <==> pos <= i < pos + 64 && OneAt(literals[0], pos, i);
      if pos <= i {
        BitOfConcat([literals[0]], literals[1..], i - pos);
        assert literals == [literals[0]] + literals[1..];
        if i < pos + 64 {
          assert (i - pos) / 64 == 0 && (i - pos) % 64 == i - pos;
        } else {
          assert i - pos - 64 == i - (pos + 64);
        }
      }
    }
  }

  lemma {:induction false} LiteralFits(literals: seq<nat>, pos: nat, bound: int, k: nat, b: nat)
    requires LiteralsFit(literals, pos, bound) && k < |literals| && Bit(literals[k], b)
    ensures pos + 64 * k + b < bound
  {
    if k > 0 {
      LiteralFits(literals[1..], pos + 64, bound, k - 1, b);
    }
  }

  /** A bit of a literal that the decoder refuses. */
  lemma {:induction false} LiteralOutOfBounds(literals: seq<nat>, pos: nat, bound: int) returns (k: nat, b: nat)
    requires !LiteralsFit(literals, pos, bound)
    ensures k < |literals| && Bit(literals[k], b) && pos + 64 * k + b >= bound
  {
    if !WordFits(literals[0], pos, bound) {
      k := 0;
      b :| Bit(literals[0], b) && pos + b >= bound;
    } else {
      k, b := LiteralOutOfBounds(literals[1..], pos + 64, bound);
      k := k + 1;
    }
  }

  // ---------------------------------------------------------------- meaning of a decoded bitmap

  ghost predicate AllBounded(segments: seq<Segment>, bitCount: nat, limit: nat) {
    forall s :: s in segments ==> s.Bounded(bitCount, limit)
  }

  lemma SegmentAccepted(words: seq<nat>, pos: nat, bitCount: nat, limit: nat)
    requires words != [] && LiteralCount(words[0]) < |words|
    ensures SegmentOnes(words, pos, bitCount, limit).Success? <==> First(words, pos).Bounded(bitCount, limit)
  {
    var s := First(words, pos);
    var bound := Min(bitCount, limit);
    if LiteralsFit(s.literals, s.RunEnd(), bound) {
      forall k: nat, b: nat | k < |s.literals| && Bit(s.literals[k], b)
        ensures s.RunEnd() + 64 * k + b < bound
      {
        LiteralFits(s.literals, s.RunEnd(), bound, k, b);
      }
    } else {
      var k, b := LiteralOutOfBounds(s.literals, s.RunEnd(), bound);
    }
  }

  /** The decoder accepts exactly the well-framed words whose segments are all in bounds. */
  lemma {:induction false} DecodeAccepts(words: seq<nat>, pos: nat, bitCount: nat, limit: nat)
    ensures Decode(words, pos, bitCount, limit).Success? <==>
            Framed(words) && AllBounded(Segments(words, pos), bitCount, limit)
  {
    if words != [] && LiteralCount(words[0]) < |words| {
      var s := First(words, pos);
      SegmentAccepted(words, pos, bitCount, limit);
      DecodeAccepts(words[1 + LiteralCount(words[0])..], s.End(), bitCount, limit);
    }
  }

  lemma SegmentOnesBit(words: seq<nat>, pos: nat, bitCount: nat, limit: nat, i: nat, ones: set<nat>)
    requires words != []
    requires SegmentOnes(words, pos, bitCount, limit) == Success(ones)
    ensures var s := First(words, pos);
            i in ones <==> pos <= i < bitCount && BitOf(s.Expanded(), i - pos)
    ensures i in ones ==> i < limit
  {
    var s := First(words, pos);
    LiteralOnesBit(s.literals, s.RunEnd(), i);
    if pos <= i {
      SegmentBit(s, i);
    }
    if s.RunEnd() <= i && BitOf(s.literals, i - s.RunEnd()) {
      var k, b := (i - s.RunEnd()) / 64, (i - s.RunEnd()) % 64;
      LiteralFits(s.literals, s.RunEnd(), Min(bitCount, limit), k, b);
    }
  }

  lemma HeadBit(head: Segment, rest: seq<nat>, i: nat)
    requires head.start <= i
    ensures BitOf(head.Expanded() + rest, i - head.start) <==>
            if i < head.End() then BitOf(head.Expanded(), i - head.start) else BitOf(rest, i - head.End())
  {
    SegmentBit(head, i);
    BitOfConcat(head.Expanded(), rest, i - head.start);
    assert 64 * |head.Expanded()| == head.End() - head.start;
  }

  lemma MeaningOfStep(
    s: Segment, head: set<nat>, rest: seq<nat>, more: set<nat>, bitCount: nat, i: nat, ones: set<nat>, expanded: seq<nat>)
    requires i in head <==> s.start <= i < bitCount && BitOf(s.Expanded(), i - s.start)
    requires i in more <==> s.End() <= i < bitCount && BitOf(rest, i - s.End())
    requires ones == head + more && expanded == s.Expanded() + rest
    ensures i in ones <==> s.start <= i < bitCount && BitOf(expanded, i - s.start)
  {
    if s.start <= i {
      HeadBit(s, rest, i);
      SegmentBit(s, i);
      assert s.End() <= i ==> (i - s.start) / 64 >= |s.Expanded()|;
    }
  }

  lemma NoBitsOfNothing(i: nat)
    ensures !BitOf([], i)
  {
  }

  lemma NothingDecoded(pos: nat, bitCount: nat, limit: nat)
    ensures Framed([]) && Decode([], pos, bitCount, limit) == Success({}) && Expand(Segments([], pos)) == []
  {
  }

  lemma DecodeUnfolds(words: seq<nat>, pos: nat, bitCount: nat, limit: nat)
    requires words != [] && Framed(words) && Decode(words, pos, bitCount, limit).Success?
    ensures var s, tail := First(words, pos), words[1 + LiteralCount(words[0])..];
            var head, more := SegmentOnes(words, pos, bitCount, limit), Decode(tail, s.End(), bitCount, limit);
            && head.Success? && more.Success? && Framed(tail) && s.start == pos
            && Decode(words, pos, bitCount, limit).value == head.value + more.value
            && Expand(Segments(words, pos)) == s.Expanded() + Expand(Segments(tail, s.End()))
  {
    var s, tail := First(words, pos), words[1 + LiteralCount(words[0])..];
    var segments := Segments(words, pos);
    assert segments[0] == s && segments[1..] == Segments(tail, s.End());
  }

  /** The decoded set is exactly the one bits of the expanded words below the bit count. */
  lemma {:induction false} DecodeMeaning(
    words: seq<nat>, pos: nat, bitCount: nat, limit: nat, i: nat, ones: set<nat>, expanded: seq<nat>)
    requires Framed(words) && expanded == Expand(Segments(words, pos))
    requires Decode(words, pos, bitCount, limit) == Success(ones)
    ensures i in ones <==> pos <= i < bitCount && BitOf(expanded, i - pos)
    ensures i in ones ==> i < limit
  {
    hide *;
    if words == [] {
      NothingDecoded(pos, bitCount, limit);
      if pos <= i {
        NoBitsOfNothing(i - pos);
      }
    } else {
      DecodeUnfolds(words, pos, bitCount, limit);
      var s := First(words, pos);
      var tail := words[1 + LiteralCount(words[0])..];
      var rest := Expand(Segments(tail, s.End()));
      var head, more := SegmentOnes(words, pos, bitCount, limit).value, Decode(tail, s.End(), bitCount, limit).value;
      SegmentOnesBit(words, pos, bitCount, limit, i, head);
      DecodeMeaning(tail, s.End(), bitCount, limit, i, more, rest);
      MeaningOfStep(s, head, rest, more, bitCount, i, ones, expanded);
    }
  }

  /** The one bits of the expanded words below the bit count, all of them below the limit. */
  ghost predicate OnesOf(ones: set<nat>, words: seq<nat>, bitCount: nat, limit: nat)
    requires Framed(words)
  {
    && (forall i: nat :: i in ones <==> i < bitCount && BitOf(Expand(Segments(words, 0)), i))
    && (forall i :: i in ones ==> i < limit)
  }

  lemma DecodedOnes(words: seq<nat>, bitCount: nat, limit: nat)
    requires Decode(words, 0, bitCount, limit).Success?
    ensures Framed(words)
    ensures OnesOf(Decode(words, 0, bitCount, limit).value, words, bitCount, limit)
  {
    DecodeAccepts(words, 0, bitCount, limit);
    hide Decode, Expand, Segments, BitOf, Framed, AllBounded;
    var ones := Decode(words, 0, bitCount, limit).value;
    forall i: nat
      ensures i in ones <==> i < bitCount && BitOf(Expand(Segments(words, 0)), i)
      ensures i in ones ==> i < limit
    {
      DecodeMeaning(words, 0, bitCount, limit, i, ones, Expand(Segments(words, 0)));
    }
  }

  lemma BitmapParts(data: seq<Byte>, offset: nat, limit: nat)
    ensures var header, r := Header(data, offset), Bitmap(data, offset, limit);
            && (r.Success? <==> header.Success? && Decode(header.value.1, 0, header.value.0, limit).Success?)
            && (r.Success? ==>
                && r.value.0 == Decode(header.value.1, 0, header.value.0, limit).value
                && r.value.1 == header.value.2 == offset + 12 + 8 * |header.value.1| <= |data|)
  {
    hide Decode, Header;
  }

  /** `_bitmap` as a whole: when it accepts, which set it returns, and where it stops. */
  lemma BitmapMeaning(data: seq<Byte>, offset: nat, limit: nat)
    ensures var header, r := Header(data, offset), Bitmap(data, offset, limit);
            && (r.Success? <==>
                && header.Success? && Framed(header.value.1)
                && AllBounded(Segments(header.value.1, 0), header.value.0, limit))
            && (r.Success? ==>
                var (bitCount, words, end) := header.value;
                var (ones, stop) := r.value;
                && stop == end == offset + 12 + 8 * |words| <= |data|
                && OnesOf(ones, words, bitCount, limit))
  {
    BitmapParts(data, offset, limit);
    var header := Header(data, offset);
    if header.Success? {
      var (bitCount, words, end) := header.value;
      DecodeAccepts(words, 0, bitCount, limit);
      hide Bitmap, Decode, Header, Expand, Segments, BitOf, Framed, AllBounded;
      if Decode(words, 0, bitCount, limit).Success? {
        DecodedOnes(words, bitCount, limit);
      }
    }
  }

  // ---------------------------------------------------------------- the encoder

  /** The segments lie one behind the other and fit the fields of a run/literal word. */
  predicate Packable(segments: seq<Segment>, start: nat) {
    segments == [] ||
    (&& segments[0].start == start
     && segments[0].repeat < 0x1_0000_0000
     && |segments[0].literals| < 0x8000_0000
     && Packable(segments[1..], segments[0].End()))
  }

  ghost predicate NoEmptyRunOfOnes(segments: seq<Segment>) {
    segments == [] || ((segments[0].ones ==> segments[0].repeat > 0) && NoEmptyRunOfOnes(segments[1..]))
  }

  function RunWord(s: Segment): nat {
    (if s.ones then 1 else 0) + 2 * s.repeat + 0x2_0000_0000 * |s.literals|
  }

  function Pack(segments: seq<Segment>): seq<nat> {
    if segments == [] then [] else [RunWord(segments[0])] + segments[0].literals + Pack(segments[1..])
  }

  lemma RunWordFields(s: Segment)
    requires s.repeat < 0x1_0000_0000
    ensures RunWord(s) % 2 == (if s.ones then 1 else 0)
    ensures Repeat(RunWord(s)) == s.repeat && LiteralCount(RunWord(s)) == |s.literals|
  {
    PackedFields(if s.ones then 1 else 0, s.repeat, |s.literals|);
  }

  lemma {:induction false} PackRoundTrip(segments: seq<Segment>, start: nat)
    requires Packable(segments, start)
    ensures Framed(Pack(segments))
    ensures Segments(Pack(segments), start) == segments
  {
    if segments != [] {
      var s := segments[0];
      var words := Pack(segments);
      RunWordFields(s);
      hide RunWord, Repeat, LiteralCount;
      assert words[1..1 + |s.literals|] == s.literals;
      assert words[1 + |s.literals|..] == Pack(segments[1..]);
      PackRoundTrip(segments[1..], s.End());
      assert First(words, start) == s;
    }
  }

  function Concat8(words: seq<nat>): (bytes: seq<Byte>)
    ensures |bytes| == 8 * |words|
  {
    if words == [] then [] else BigEndian(words[0], 8) + Concat8(words[1..])
  }

  lemma {:induction false} Concat8At(words: seq<nat>, k: nat)
    requires k < |words|
    ensures Concat8(words)[8 * k..8 * k + 8] == BigEndian(words[k], 8)
  {
    if k > 0 {
      Concat8At(words[1..], k - 1);
      SubSlice(Concat8(words), 8, 8 * |words|, 8 * (k - 1), 8 * k);
    }
  }

  /** The serialized form read by `_bitmap`. */
  function Serialize(bitCount: nat, words: seq<nat>, cursor: nat): (bytes: seq<Byte>)
    ensures |bytes| == 12 + 8 * |words|
  {
    BigEndian(bitCount, 4) + BigEndian(|words|, 4) + Concat8(words) + BigEndian(cursor, 4)
  }

  lemma WordRoundTrip(data: seq<Byte>, offset: nat, words: seq<nat>, k: nat)
    requires Words64(words) && k < |words| && offset + 8 * |words| <= |data|
    requires data[offset..offset + 8 * |words|] == Concat8(words)
    ensures Field(data, offset + 8 * k, 8) == words[k]
  {
    WordSlice(data, offset, words, k);
    PowersOf256();
    BigEndianRoundTrip(words[k], 8);
    hide FromBigEndian, BigEndian, Concat8;
  }

  lemma WordSlice(data: seq<Byte>, offset: nat, words: seq<nat>, k: nat)
    requires Words64(words) && k < |words| && offset + 8 * |words| <= |data|
    requires data[offset..offset + 8 * |words|] == Concat8(words)
    ensures data[offset + 8 * k..offset + 8 * k + 8] == BigEndian(words[k], 8)
  {
    hide *;
    Concat8At(words, k);
    SubSlice(data, offset, offset + 8 * |words|, 8 * k, 8 * k + 8);
  }

  lemma {:induction false} WordsRoundTrip(data: seq<Byte>, offset: nat, words: seq<nat>, count: nat)
    requires Words64(words) && count <= |words| && offset + 8 * |words| <= |data|
    requires data[offset..offset + 8 * |words|] == Concat8(words)
    ensures WordsAt(data, offset, count) == words[..count]
  {
    if count > 0 {
      WordsRoundTrip(data, offset, words, count - 1);
      WordRoundTrip(data, offset, words, count - 1);
    }
  }

  lemma HeaderPieces(prefix: seq<Byte>, b: seq<Byte>, c: seq<Byte>, body: seq<Byte>, l: seq<Byte>, suffix: seq<Byte>)
    requires |b| == |c| == |l| == 4
    ensures var data, p := prefix + (b + c + body + l) + suffix, |prefix|;
            && |data| >= p + 12 + |body|
            && data[p..p + 4] == b && data[p + 4..p + 8] == c && data[p + 8 + |body|..p + 12 + |body|] == l
            && data[p + 8..p + 8 + |body|] == body
  {
  }

  lemma HeaderFromFields(data: seq<Byte>, p: nat, bitCount: nat, words: seq<nat>, cursor: nat)
    requires p + 12 + 8 * |words| <= |data|
    requires Field(data, p, 4) == bitCount && Field(data, p + 4, 4) == |words|
    requires WordsAt(data, p + 8, |words|) == words
    requires Field(data, p + 8 + 8 * |words|, 4) == cursor
    requires cursor < |words| || |words| == 0
    ensures Header(data, p) == Success((bitCount, words, p + 12 + 8 * |words|))
  {
  }

  lemma HeaderRoundTrip(
    data: seq<Byte>, prefix: seq<Byte>, bitCount: nat, words: seq<nat>, cursor: nat, suffix: seq<Byte>)
    requires data == prefix + Serialize(bitCount, words, cursor) + suffix
    requires bitCount < 0x1_0000_0000 && |words| < 0x1_0000_0000 && Words64(words)
    requires cursor < |words| || cursor == |words| == 0
    ensures Header(data, |prefix|) == Success((bitCount, words, |prefix| + 12 + 8 * |words|))
  {
    SerializedPieces(data, prefix, bitCount, words, cursor, suffix);
    hide *;
    HeaderFromPieces(data, |prefix|, bitCount, words, cursor);
  }

  /** The four parts of a serialized bitmap stand at `p`. */
  ghost predicate PiecesAt(data: seq<Byte>, p: nat, bitCount: nat, words: seq<nat>, cursor: nat) {
    var q := p + 8 + 8 * |words|;
    && q + 4 <= |data|
    && data[p..p + 4] == BigEndian(bitCount, 4) && data[p + 4..p + 4 + 4] == BigEndian(|words|, 4)
    && data[p + 8..q] == Concat8(words)
    && data[q..q + 4] == BigEndian(cursor, 4)
  }

  lemma HeaderFromPieces(data: seq<Byte>, p: nat, bitCount: nat, words: seq<nat>, cursor: nat)
    requires PiecesAt(data, p, bitCount, words, cursor)
    requires bitCount < 0x1_0000_0000 && |words| < 0x1_0000_0000 && Words64(words)
    requires cursor < |words| || cursor == |words| == 0
    ensures Header(data, p) == Success((bitCount, words, p + 12 + 8 * |words|))
  {
    TakeAllWords(words);
    hide BigEndian, Concat8, Header, Field, WordsAt, Words64;
    FieldOf(data, p, bitCount);
    FieldOf(data, p + 4, |words|);
    FieldOf(data, p + 8 + 8 * |words|, cursor);
    WordsRoundTrip(data, p + 8, words, |words|);
    HeaderFromFields(data, p, bitCount, words, cursor);
  }

  lemma TakeAllWords(words: seq<nat>)
    ensures words[..|words|] == words
  {
  }

  lemma SerializedPieces(
    data: seq<Byte>, prefix: seq<Byte>, bitCount: nat, words: seq<nat>, cursor: nat, suffix: seq<Byte>)
    requires data == prefix + Serialize(bitCount, words, cursor) + suffix
    ensures PiecesAt(data, |prefix|, bitCount, words, cursor)
  {
    HeaderPieces(prefix, BigEndian(bitCount, 4), BigEndian(|words|, 4), Concat8(words), BigEndian(cursor, 4), suffix);
    hide BigEndian, Concat8;
  }

  lemma FieldOf(data: seq<Byte>, offset: nat, value: nat)
    requires offset + 4 <= |data| && data[offset..offset + 4] == BigEndian(value, 4) && value < 0x1_0000_0000
    ensures Field(data, offset, 4) == value
  {
    PowersOf256();
    BigEndianRoundTrip(value, 4);
    hide BigEndian, FromBigEndian, Pow;
  }

  function CleanRun(words: seq<nat>, fill: nat): (n: nat)
    ensures n <= |words|
    ensures forall k :: 0 <= k < n ==> words[k] == fill
  {
    if words != [] && words[0] == fill then 1 + CleanRun(words[1..], fill) else 0
  }

  function DirtyRun(words: seq<nat>): (n: nat)
    ensures n <= |words|
    ensures words != [] && words[0] != 0 && words[0] != ALL_ONES ==> n > 0
  {
    if words != [] && words[0] != 0 && words[0] != ALL_ONES then 1 + DirtyRun(words[1..]) else 0
  }

  /** The longest run of equal clean words, then the dirty words behind it. */
  function NextSegment(words: seq<nat>, start: nat): (s: Segment)
    requires words != []
    ensures s.start == start
    ensures 0 < s.repeat + |s.literals| <= |words|
    ensures s.ones ==> s.repeat > 0
    ensures s.Expanded() == words[..s.repeat + |s.literals|]
  {
    var clean := words[0] == 0 || words[0] == ALL_ONES;
    var run := if clean then CleanRun(words, words[0]) else 0;
    var dirty := DirtyRun(words[run..]);
    Segment(start, words[0] == ALL_ONES, run, words[run..run + dirty])
  }

  function Compress(words: seq<nat>, start: nat): seq<Segment> {
    if words == [] then []
    else
      var s := NextSegment(words, start);
      [s] + Compress(words[s.repeat + |s.literals|..], s.End())
  }

  lemma {:induction false} CompressKeepsWords(words: seq<nat>, start: nat)
    requires |words| < 0x8000_0000
    ensures Expand(Compress(words, start)) == words
    ensures Packable(Compress(words, start), start)
    ensures NoEmptyRunOfOnes(Compress(words, start))
    ensures |Pack(Compress(words, start))| <= 2 * |words|
  {
    if words != [] {
      var s := NextSegment(words, start);
      var n := s.repeat + |s.literals|;
      CompressKeepsWords(words[n..], s.End());
      assert words == words[..n] + words[n..];
      assert Compress(words, start)[1..] == Compress(words[n..], s.End());
    }
  }

  ghost function Window(s: set<nat>, low: nat): set<nat> {
    set i | i in s && i >= low :: i - low
  }

  lemma WindowHas(s: set<nat>, low: nat, b: nat)
    ensures b in Window(s, low) <==> low + b in s
  {
    if low + b in s {
      assert low + b - low == b;
    }
  }

  /** The 64-bit words of a set of positions below `n`. */
  ghost function SetWords(s: set<nat>, n: nat): seq<nat> {
    seq((n + 63) / 64, k requires 0 <= k => FromBits(Window(s, 64 * k), 64))
  }

  lemma SetWordBit(s: set<nat>, k: nat, b: nat)
    requires b < 64
    ensures Bit(FromBits(Window(s, 64 * k), 64), b) <==> 64 * k + b in s
  {
    WindowHas(s, 64 * k, b);
    BitFromBits(Window(s, 64 * k), 64, b);
  }

  lemma SetWordsBit(s: set<nat>, n: nat, i: nat)
    requires forall j :: j in s ==> j < n
    ensures BitOf(SetWords(s, n), i) <==> i in s
  {
    SetWordBit(s, i / 64, i % 64);
    assert i < n ==> i / 64 < (n + 63) / 64;
  }

  lemma SetWordsRange(s: set<nat>, n: nat)
    ensures Words64(SetWords(s, n)) && |SetWords(s, n)| == (n + 63) / 64
  {
    PowTwo64();
  }

  /** The position of the last run/literal word, which Git stores behind the words. */
  function LastRunWord(segments: seq<Segment>): nat {
    if |segments| <= 1 then 0 else 1 + |segments[0].literals| + LastRunWord(segments[1..])
  }

  lemma {:induction false} LastRunWordInRange(segments: seq<Segment>)
    ensures segments != [] ==> LastRunWord(segments) < |Pack(segments)|
    ensures segments == [] ==> LastRunWord(segments) == |Pack(segments)| == 0
  {
    if |segments| > 1 {
      LastRunWordInRange(segments[1..]);
    }
  }

  ghost function Encode(s: set<nat>, n: nat): seq<Byte> {
    var segments := Compress(SetWords(s, n), 0);
    Serialize(n, Pack(segments), LastRunWord(segments))
  }

  lemma {:induction false} PackedRange(segments: seq<Segment>, start: nat)
    requires Packable(segments, start) && Words64(Expand(segments))
    ensures Words64(Pack(segments))
  {
    if segments != [] {
      var s := segments[0];
      assert Expand(segments)[|s.Expanded()|..] == Expand(segments[1..]);
      forall k | 0 <= k < |s.literals|
        ensures s.literals[k] <= ALL_ONES
      {
        assert Expand(segments)[s.repeat + k] == s.literals[k];
      }
      forall k | 0 <= k < |Expand(segments[1..])|
        ensures Expand(segments[1..])[k] <= ALL_ONES
      {
        assert Expand(segments)[|s.Expanded()| + k] == Expand(segments[1..])[k];
      }
      PackedRange(segments[1..], s.End());
    }
  }

  /** Every expanded one bit is in bounds. */
  ghost predicate OnesBelow(words: seq<nat>, start: nat, bound: int) {
    forall j: nat :: BitOf(words, j) ==> start + j < bound
  }

  lemma {:induction false} SegmentsInBounds(segments: seq<Segment>, start: nat, bitCount: nat, limit: nat)
    requires Packable(segments, start) && Words64(Expand(segments))
    requires NoEmptyRunOfOnes(segments)
    requires OnesBelow(Expand(segments), start, Min(bitCount, limit))
    ensures AllBounded(segments, bitCount, limit)
  {
    if segments != [] {
      var head, rest := segments[0], segments[1..];
      TailInBounds(head, Expand(rest), Min(bitCount, limit));
      HeadInBounds(head, Expand(rest), bitCount, limit);
      SegmentsInBounds(rest, head.End(), bitCount, limit);
    }
  }

  lemma TailInBounds(head: Segment, rest: seq<nat>, bound: int)
    requires Words64(head.Expanded() + rest) && OnesBelow(head.Expanded() + rest, head.start, bound)
    ensures Words64(rest) && OnesBelow(rest, head.End(), bound)
  {
    forall k | 0 <= k < |rest|
      ensures rest[k] <= ALL_ONES
    {
      assert (head.Expanded() + rest)[|head.Expanded()| + k] == rest[k];
    }
    forall j: nat | BitOf(rest, j)
      ensures head.End() + j < bound
    {
      HeadBit(head, rest, head.End() + j);
      assert BitOf(head.Expanded() + rest, head.End() + j - head.start);
    }
  }

  lemma HeadInBounds(head: Segment, rest: seq<nat>, bitCount: nat, limit: nat)
    requires head.ones ==> head.repeat > 0
    requires Words64(head.Expanded() + rest)
    requires OnesBelow(head.Expanded() + rest, head.start, Min(bitCount, limit))
    ensures head.Bounded(bitCount, limit)
  {
    if head.ones {
      var last := head.RunEnd() - 1;
      SegmentBit(head, last);
      HeadBit(head, rest, last);
      assert BitOf(head.Expanded() + rest, last - head.start);
    }
    forall k: nat, b: nat | k < |head.literals| && Bit(head.literals[k], b)
      ensures head.RunEnd() + 64 * k + b < Min(bitCount, limit)
    {
      assert (head.Expanded() + rest)[head.repeat + k] == head.literals[k];
      BitsOfWord(head.literals[k], b);
      var i := head.RunEnd() + 64 * k + b;
      assert (i - head.RunEnd()) / 64 == k && (i - head.RunEnd()) % 64 == b;
      SegmentBit(head, i);
      HeadBit(head, rest, i);
      assert BitOf(head.Expanded() + rest, i - head.start);
    }
  }

  lemma SerializedHeader(
    data: seq<Byte>, prefix: seq<Byte>, n: nat, segments: seq<Segment>, bytes: seq<Byte>, suffix: seq<Byte>)
    requires data == prefix + bytes + suffix
    requires n < 0x1_0000_0000 && |Pack(segments)| < 0x1_0000_0000
    requires Packable(segments, 0) && Words64(Expand(segments))
    requires bytes == Serialize(n, Pack(segments), LastRunWord(segments))
    ensures Header(data, |prefix|) == Success((n, Pack(segments), |prefix| + |bytes|))
  {
    hide *;
    PackedRange(segments, 0);
    LastRunWordInRange(segments);
    HeaderRoundTrip(data, prefix, n, Pack(segments), LastRunWord(segments), suffix);
  }

  lemma EncodedSegments(s: set<nat>, n: nat, limit: nat)
    requires n < 0x1_0000_0000
    requires forall i :: i in s ==> i < n && i < limit
    ensures var words := SetWords(s, n);
            var packed := Pack(Compress(words, 0));
            Framed(packed) && AllBounded(Segments(packed, 0), n, limit) && Expand(Segments(packed, 0)) == words
  {
    var words := SetWords(s, n);
    var segments := Compress(words, 0);
    SetWordsRange(s, n);
    CompressKeepsWords(words, 0);
    PackRoundTrip(segments, 0);
    forall i: nat | BitOf(words, i)
      ensures i < Min(n, limit)
    {
      SetWordsBit(s, n, i);
    }
    SegmentsInBounds(segments, 0, n, limit);
  }

  lemma DecodesTo(
    data: seq<Byte>, offset: nat, limit: nat, n: nat, packed: seq<nat>, end: nat, expanded: seq<nat>, s: set<nat>)
    requires Header(data, offset) == Success((n, packed, end))
    requires Framed(packed) && AllBounded(Segments(packed, 0), n, limit) && Expand(Segments(packed, 0)) == expanded
    requires forall i: nat :: BitOf(expanded, i) <==> i in s
    requires forall i :: i in s ==> i < n
    ensures Bitmap(data, offset, limit) == Success((s, end))
  {
    BitmapMeaning(data, offset, limit);
    var ones := Bitmap(data, offset, limit).value.0;
    assert ones == s;
  }

  lemma EncodeIs(s: set<nat>, n: nat, segments: seq<Segment>)
    requires segments == Compress(SetWords(s, n), 0)
    ensures Encode(s, n) == Serialize(n, Pack(segments), LastRunWord(segments))
  {
    hide Compress, SetWords, Pack, LastRunWord, Serialize;
  }

  lemma EncodedHeader(data: seq<Byte>, prefix: seq<Byte>, s: set<nat>, n: nat, suffix: seq<Byte>)
    requires n < 0x1_0000_0000 && data == prefix + Encode(s, n) + suffix
    ensures Header(data, |prefix|) == Success((n, Pack(Compress(SetWords(s, n), 0)), |prefix| + |Encode(s, n)|))
  {
    hide *;
    var words := SetWords(s, n);
    var segments := Compress(words, 0);
    EncodeIs(s, n, segments);
    SetWordsRange(s, n);
    CompressKeepsWords(words, 0);
    SerializedHeader(data, prefix, n, segments, Encode(s, n), suffix);
  }

  /** Decoding an encoded set returns that set and stops right behind it. */
  lemma EncodeRoundTrip(prefix: seq<Byte>, s: set<nat>, n: nat, limit: nat, suffix: seq<Byte>)
    requires n < 0x1_0000_0000
    requires forall i :: i in s ==> i < n && i < limit
    ensures Bitmap(prefix + Encode(s, n) + suffix, |prefix|, limit) == Success((s, |prefix| + |Encode(s, n)|))
  {
    var words, data := SetWords(s, n), prefix + Encode(s, n) + suffix;
    hide *;
    EncodedHeader(data, prefix, s, n, suffix);
    EncodedSegments(s, n, limit);
    forall i: nat
      ensures BitOf(words, i) <==> i in s
    {
      SetWordsBit(s, n, i);
    }
    DecodesTo(data, |prefix|, limit, n, Pack(Compress(words, 0)), |prefix| + |Encode(s, n)|, words, s);
  }
}
