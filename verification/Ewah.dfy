/**
 * The EWAH bitmaps of a split index: a bounded decoder of run and literal words, and an
 * encoder for it.  A run/literal word packs a running bit, a 32-bit repeat count and a
 * 31-bit count of the literal words that follow it.
 */
module Ewah {
  import opened Wrappers
  import opened Bytes
  import opened Bits

  datatype Reason =
    | TruncatedBitmap
    | TruncatedWords
    | InvalidCursor
    | InvalidLiteralCount
    | ExceedsSharedIndex

  const ALL_ONES: nat := 0xffff_ffff_ffff_ffff

  predicate Words64(words: seq<nat>) {
    forall k :: 0 <= k < |words| ==> words[k] <= ALL_ONES
  }

  function Repeat(word: nat): nat { (word / 2) % 0x1_0000_0000 }

  function LiteralCount(word: nat): nat { word / 0x2_0000_0000 }

  function Min(a: int, b: int): int { if a < b then a else b }

  /** One run/literal word with its literals, placed at its first bit position. */
  datatype Segment = Segment(start: nat, ones: bool, repeat: nat, literals: seq<nat>) {
    function RunEnd(): nat { start + 64 * repeat }

    function End(): nat { RunEnd() + 64 * |literals| }

    /** The 64-bit words this segment stands for. */
    function Expanded(): seq<nat> {
      seq(repeat, _ => if ones then ALL_ONES else 0) + literals
    }

    /** What the decoder demands of a segment before it takes its bits. */
    ghost predicate Bounded(bitCount: nat, limit: nat) {
      && (ones ==> Min(RunEnd(), bitCount) <= limit)
      && forall k: nat, b: nat :: k < |literals| && Bit(literals[k], b) ==> RunEnd() + 64 * k + b < Min(bitCount, limit)
    }
  }

  /** Every run/literal word is followed by the literals it announces. */
  predicate Framed(words: seq<nat>) {
    words == [] || (LiteralCount(words[0]) < |words| && Framed(words[1 + LiteralCount(words[0])..]))
  }

  function First(words: seq<nat>, start: nat): Segment
    requires words != [] && LiteralCount(words[0]) < |words|
  {
    Segment(start, words[0] % 2 == 1, Repeat(words[0]), words[1..1 + LiteralCount(words[0])])
  }

  function Segments(words: seq<nat>, start: nat): seq<Segment>
    requires Framed(words)
  {
    if words == [] then []
    else [First(words, start)] + Segments(words[1 + LiteralCount(words[0])..], First(words, start).End())
  }

  function Expand(segments: seq<Segment>): seq<nat> {
    if segments == [] then [] else segments[0].Expanded() + Expand(segments[1..])
  }

  /** Bit `i` of a sequence of 64-bit words, least significant bit first. */
  predicate BitOf(words: seq<nat>, i: nat) {
    i / 64 < |words| && Bit(words[i / 64], i % 64)
  }

  // ---------------------------------------------------------------- the decoder

  /** `set(range(low, high))`. */
  function Range(low: nat, high: int): (s: set<nat>)
    ensures forall i :: i in s <==> low <= i < high
    decreases high - low
  {
    if low >= high then {} else {low} + Range(low + 1, high)
  }

  function RunOnes(s: Segment, bitCount: nat): set<nat> {
    if s.ones then Range(s.start, Min(s.RunEnd(), bitCount)) else {}
  }

  predicate OneAt(value: nat, pos: nat, i: nat) {
    pos <= i && Bit(value, i - pos)
  }

  ghost function WordOnes(value: nat, pos: nat): set<nat> {
    set i | i in Range(pos, pos + 64) && OneAt(value, pos, i)
  }

  ghost function LiteralOnes(literals: seq<nat>, pos: nat): set<nat> {
    if literals == [] then {} else WordOnes(literals[0], pos) + LiteralOnes(literals[1..], pos + 64)
  }

  ghost predicate WordFits(value: nat, pos: nat, bound: int) {
    forall b: nat :: Bit(value, b) ==> pos + b < bound
  }

  ghost predicate LiteralsFit(literals: seq<nat>, pos: nat, bound: int) {
    literals == [] || (WordFits(literals[0], pos, bound) && LiteralsFit(literals[1..], pos + 64, bound))
  }

  /** The ones of the first segment, if the decoder takes them. */
  ghost function SegmentOnes(words: seq<nat>, pos: nat, bitCount: nat, limit: nat): (r: Result<set<nat>, Reason>)
    requires words != []
    ensures r.Success? ==> LiteralCount(words[0]) < |words|
  {
    if LiteralCount(words[0]) >= |words| then Failure(InvalidLiteralCount)
    else
      var s := First(words, pos);
      if s.ones && Min(s.RunEnd(), bitCount) > limit then Failure(ExceedsSharedIndex)
      else if !LiteralsFit(s.literals, s.RunEnd(), Min(bitCount, limit)) then Failure(ExceedsSharedIndex)
      else Success(RunOnes(s, bitCount) + LiteralOnes(s.literals, s.RunEnd()))
  }

  /** Reads the run/literal words from bit position `pos` on. */
  ghost function Decode(words: seq<nat>, pos: nat, bitCount: nat, limit: nat): Result<set<nat>, Reason> {
    if words == [] then Success({})
    else
      var ones :- SegmentOnes(words, pos, bitCount, limit);
      var rest :- Decode(words[1 + LiteralCount(words[0])..], First(words, pos).End(), bitCount, limit);
      Success(ones + rest)
  }

  /** The nested `integer`: a big-endian field, or a refusal when the data ends inside it. */
  function Integer(data: seq<Byte>, offset: nat, size: nat): (r: Result<nat, Reason>)
  {
    if offset + size > |data| then Failure(TruncatedBitmap) else Success(Field(data, offset, size))
  }

  function Field(data: seq<Byte>, offset: nat, size: nat): nat
    requires offset + size <= |data|
  {
    FromBigEndian(data[offset..offset + size])
  }

  function WordsAt(data: seq<Byte>, offset: nat, count: nat): (words: seq<nat>)
    requires offset + 8 * count <= |data|
    ensures |words| == count
  {
    if count == 0 then []
    else WordsAt(data, offset, count - 1) + [Field(data, offset + 8 * (count - 1), 8)]
  }

  /** The fields before the run/literal words are decoded: bit count, words, offset behind them. */
  function Header(data: seq<Byte>, offset: nat): (r: Result<(nat, seq<nat>, nat), Reason>)
    ensures r.Success? ==> r.value.2 == offset + 12 + 8 * |r.value.1| <= |data|
  {
    var bitCount :- Integer(data, offset, 4);
    var wordCount :- Integer(data, offset + 4, 4);
    if wordCount > (|data| - (offset + 8) - 4) / 8 then Failure(TruncatedWords)
    else
      var rlw := Field(data, offset + 8 + 8 * wordCount, 4);
      if wordCount > 0 && rlw >= wordCount then Failure(InvalidCursor)
      else Success((bitCount, WordsAt(data, offset + 8, wordCount), offset + 12 + 8 * wordCount))
  }

  /** The whole `_bitmap`: its set and the offset behind it. */
  ghost function Bitmap(data: seq<Byte>, offset: nat, limit: nat): Result<(set<nat>, nat), Reason> {
    var (bitCount, words, end) :- Header(data, offset);
    var ones :- Decode(words, 0, bitCount, limit);
    Success((ones, end))
  }

  lemma BitsOfWord(value: nat, i: nat)
    requires value <= ALL_ONES
    ensures Bit(value, i) ==> i < 64
  {
    PowTwo64();
    BitsBelow(value, 64, i);
  }

  lemma WordOnesStep(value: int, pos: nat)
    requires 0 < value <= ALL_ONES
    ensures 0 <= And(value, value - 1) < value
    ensures WordOnes(value, pos) == {pos + Lowest(value)} + WordOnes(And(value, value - 1), pos)
  {
    ClearLowestDecreases(value);
    LowestIsSet(value);
    BitsOfWord(value, Lowest(value));
    var rest := And(value, value - 1);
    forall i
      ensures i in WordOnes(value, pos) <==> i == pos + Lowest(value) || i in WordOnes(rest, pos)
    {
      if i >= pos {
        ClearLowest(value, i - pos);
        assert OneAt(value, pos, i) <==> i == pos + Lowest(value) || OneAt(rest, pos, i);
      }
    }
  }

  lemma WordFitsStep(value: int, pos: nat, bound: int)
    requires value > 0
    ensures And(value, value - 1) >= 0
    ensures WordFits(value, pos, bound)
            <==> pos + Lowest(value) < bound && WordFits(And(value, value - 1), pos, bound)
  {
    ClearLowestDecreases(value);
    LowestIsSet(value);
    var rest := And(value, value - 1);
    if WordFits(value, pos, bound) {
      forall b: nat | Bit(rest, b)
        ensures pos + b < bound
      {
        ClearLowest(value, b);
      }
    }
    if pos + Lowest(value) < bound && WordFits(rest, pos, bound) {
      forall b: nat | Bit(value, b)
        ensures pos + b < bound
      {
        ClearLowest(value, b);
      }
    }
  }

  lemma WordOnesOfZero(pos: nat, bound: int)
    ensures WordOnes(0, pos) == {} && WordFits(0, pos, bound)
  {
    forall b: nat
      ensures !Bit(0, b)
    {
      NoBitsInZero(b);
    }
  }

  /** The inner loop over the one bits of a literal word. */
  method LiteralWord(literal: nat, pos: nat, bitCount: nat, limit: nat, found: set<nat>)
    returns (r: Result<set<nat>, Reason>)
    requires literal <= ALL_ONES
    ensures r == if WordFits(literal, pos, Min(bitCount, limit)) then Success(found + WordOnes(literal, pos))
                 else Failure(ExceedsSharedIndex)
  {
    var result := found;
    var value: int := literal;
    while value != 0
      invariant 0 <= value <= ALL_ONES
      invariant result + WordOnes(value, pos) == found + WordOnes(literal, pos)
      invariant WordFits(value, pos, Min(bitCount, limit)) <==> WordFits(literal, pos, Min(bitCount, limit))
      decreases value
    {
      LowestByBitTrick(value);
      WordOnesStep(value, pos);
      WordFitsStep(value, pos, Min(bitCount, limit));
      var bit := BitLength(And(value, -value)) - 1;
      var index := pos + bit;
      if index >= bitCount || index >= limit {
        return Failure(ExceedsSharedIndex);
      }
      result := result + {index};
      value := And(value, value - 1);
    }
    WordOnesOfZero(pos, Min(bitCount, limit));
    FinishNothing(result, pos, bitCount, limit);
    return Success(result);
  }

  lemma {:induction false} WordRange(data: seq<Byte>, offset: nat, count: nat)
    requires offset + 8 * count <= |data|
    ensures Words64(WordsAt(data, offset, count))
  {
    if count > 0 {
      WordRange(data, offset, count - 1);
      PowersOf256();
      assert |data[offset + 8 * (count - 1)..offset + 8 * count]| == 8;
    }
  }

  lemma PowTwo64()
    ensures Pow(2, 64) == 0x1_0000_0000_0000_0000 == ALL_ONES + 1
  {
    assert Pow(2, 4) == 16;
    PowAdd(2, 4, 4);
    PowAdd(2, 8, 8);
    PowAdd(2, 16, 16);
    PowAdd(2, 32, 32);
  }

  method ReadHeader(data: seq<Byte>, start: nat) returns (r: Result<(nat, seq<nat>, nat), Reason>)
    ensures r == Header(data, start)
  {
    var offset := start;
    var bitCount :- Integer(data, offset, 4);
    offset := offset + 4;
    var wordCount :- Integer(data, offset, 4);
    offset := offset + 4;
    if wordCount > (|data| - offset - 4) / 8 {
      return Failure(TruncatedWords);
    }
    var words: seq<nat> := [];
    for n := 0 to wordCount
      invariant offset == start + 8 + 8 * n
      invariant words == WordsAt(data, start + 8, n)
    {
      var word := Field(data, offset, 8);
      offset := offset + 8;
      words := words + [word];
    }
    var rlw := Field(data, offset, 4);
    offset := offset + 4;
    if wordCount > 0 && rlw >= wordCount {
      return Failure(InvalidCursor);
    }
    return Success((bitCount, words, offset));
  }

  method DecodeBitmap(data: seq<Byte>, start: nat, limit: nat) returns (r: Result<(set<nat>, nat), Reason>)
    ensures r == Bitmap(data, start, limit)
  {
    var header :- ReadHeader(data, start);
    var (bitCount, words, offset) := header;
    WordRange(data, start + 8, |words|);
    var result :- DecodeWords(words, bitCount, limit);
    return Success((result, offset));
  }

  /** The loop over the literal words of one segment. */
  method DecodeLiterals(literals: seq<nat>, start: nat, bitCount: nat, limit: nat, found: set<nat>)
    returns (r: Result<set<nat>, Reason>)
    requires Words64(literals)
    ensures r == if LiteralsFit(literals, start, Min(bitCount, limit)) then Success(found + LiteralOnes(literals, start))
                 else Failure(ExceedsSharedIndex)
  {
    var result, pos := found, start;
    assert literals[0..] == literals;
    for n := 0 to |literals|
      invariant pos == start + 64 * n
      invariant LiteralsFit(literals, start, Min(bitCount, limit))
                <==> LiteralsFit(literals[n..], pos, Min(bitCount, limit))
      invariant found + LiteralOnes(literals, start) == result + LiteralOnes(literals[n..], pos)
    {
      assert literals[n..][1..] == literals[n + 1..];
      result :- LiteralWord(literals[n], pos, bitCount, limit, result);
      pos := pos + 64;
    }
    FinishNothing(result, pos, bitCount, limit);
    return Success(result);
  }

  /** The body of the main loop: one run/literal word and its literals. */
  method DecodeSegment(words: seq<nat>, start: nat, pos: nat, bitCount: nat, limit: nat, found: set<nat>)
    returns (r: Result<set<nat>, Reason>)
    requires start < |words| && Words64(words)
    ensures match SegmentOnes(words[start..], pos, bitCount, limit)
            case Success(ones) => r == Success(found + ones)
            case Failure(reason) => r == Failure(reason)
  {
    var result := found;
    var word, cursor := words[start], start + 1;
    var repeat, literals := Repeat(word), LiteralCount(word);
    if literals > |words| - cursor {
      return Failure(InvalidLiteralCount);
    }
    ghost var s := First(words[start..], pos);
    assert words[cursor..cursor + literals] == s.literals;
    var end := pos + repeat * 64;
    if word % 2 == 1 {
      if Min(end, bitCount) > limit {
        return Failure(ExceedsSharedIndex);
      }
      result := result + Range(pos, Min(end, bitCount));
    }
    assert result == found + RunOnes(s, bitCount);
    result :- DecodeLiterals(words[cursor..cursor + literals], end, bitCount, limit, result);
    ghost var literal := LiteralOnes(s.literals, end);
    assert found + RunOnes(s, bitCount) + literal == found + (RunOnes(s, bitCount) + literal);
    return Success(result);
  }

  /** What the loop returns when it has `found` and the rest of the words yield `rest`. */
  ghost function Finish(found: set<nat>, rest: Result<set<nat>, Reason>): Result<set<nat>, Reason> {
    match rest
    case Success(ones) => Success(found + ones)
    case Failure(_) => rest
  }

  lemma FinishNothing(found: set<nat>, pos: nat, bitCount: nat, limit: nat)
    ensures Finish(found, Decode([], pos, bitCount, limit)) == Success(found)
  {
    assert found + {} == found;
  }

  lemma FinishPastSegment(found: set<nat>, words: seq<nat>, pos: nat, bitCount: nat, limit: nat)
    requires words != []
    ensures Finish(found, Decode(words, pos, bitCount, limit)) ==
            match SegmentOnes(words, pos, bitCount, limit)
            case Success(ones) =>
              Finish(found + ones, Decode(words[1 + LiteralCount(words[0])..], First(words, pos).End(), bitCount, limit))
            case Failure(reason) => Failure(reason)
  {
    var segment := SegmentOnes(words, pos, bitCount, limit);
    if segment.Success? {
      var rest := Decode(words[1 + LiteralCount(words[0])..], First(words, pos).End(), bitCount, limit);
      if rest.Success? {
        assert found + (segment.value + rest.value) == found + segment.value + rest.value;
      }
    }
  }

  /** The main loop, over run/literal words. */
  method DecodeWords(words: seq<nat>, bitCount: nat, limit: nat) returns (r: Result<set<nat>, Reason>)
    requires Words64(words)
    ensures r == Decode(words, 0, bitCount, limit)
  {
    var result: set<nat> := {};
    var pos, cursor := 0, 0;
    ghost var whole := Decode(words, 0, bitCount, limit);
    ghost var rest := words;
    assert whole == Finish(result, whole) by {
      assert whole.Success? ==> result + whole.value == whole.value;
    }
    hide Decode, SegmentOnes, Finish;
    while cursor < |words|
      invariant 0 <= cursor <= |words| && pos >= 0
      invariant rest == words[cursor..]
      invariant whole == Finish(result, Decode(rest, pos, bitCount, limit))
    {
      FinishPastSegment(result, rest, pos, bitCount, limit);
      result :- DecodeSegment(words, cursor, pos, bitCount, limit, result);
      ghost var next := First(rest, pos).End();
      pos := pos + 64 * Repeat(words[cursor]) + 64 * LiteralCount(words[cursor]);
      assert pos == next;
      cursor := cursor + 1 + LiteralCount(words[cursor]);
      rest := rest[1 + LiteralCount(rest[0])..];
    }
    FinishNothing(result, pos, bitCount, limit);
    return Success(result);
  }
}
