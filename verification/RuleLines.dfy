/** The lines of an attribute file: blank lines and comments, quoted patterns, macro definitions. */
module RuleLines {
  import opened Wrappers
  import opened Bytes
  import EndOfLine

  datatype Assignment = Assignment(name: EndOfLine.Name, value: EndOfLine.Value)

  type Pattern = seq<Byte>

  datatype Line = MacroLine(name: EndOfLine.Name, values: seq<Assignment>) | PatternLine(pattern: Pattern, values: seq<Assignment>)

  /** What libraries do with a line: parsing an unquoted one, and resolving the escapes of a quoted pattern. */
  datatype Reader = Reader(parse: seq<Byte> -> (Pattern, seq<Assignment>), unescape: seq<Byte> -> Pattern)

  const QUOTE: Byte := 34
  const BACKSLASH: Byte := 92
  const HASH: Byte := 35

  // "[attr]", and a pattern that stands in for a quoted one
  const MACRO_PREFIX: Pattern := [91, 97, 116, 116, 114, 93]
  const STAND_IN: seq<Byte> := [112, 32]

  predicate Breaks(b: Byte) { b == 10 || b == 13 }

  function LineEnd(s: seq<Byte>): (end: nat)
    ensures end <= |s|
    ensures end < |s| ==> Breaks(s[end])
  {
    if s == [] || Breaks(s[0]) then 0 else 1 + LineEnd(s[1..])
  }

  /** `bytes.splitlines`. */
  function SplitLines(s: seq<Byte>): seq<seq<Byte>>
    decreases |s|
  {
    if s == [] then []
    else
      var end := LineEnd(s);
      if end == |s| then [s]
      else [s[..end]] + SplitLines(s[if s[end] == 13 && end + 1 < |s| && s[end + 1] == 10 then end + 2 else end + 1..])
  }

  /** The closing quote at a position or behind it, or a position behind the line. */
  function ClosingQuote(line: seq<Byte>, position: nat): (end: nat)
    ensures position <= end && (end < |line| ==> line[end] == QUOTE)
    decreases |line| - position
  {
    if position >= |line| then position
    else if line[position] == BACKSLASH then ClosingQuote(line, position + 2)
    else if line[position] == QUOTE then position
    else ClosingQuote(line, position + 1)
  }

  /** The inner loop over a quoted pattern. */
  method FindClosingQuote(line: seq<Byte>) returns (end: nat)
    ensures end == ClosingQuote(line, 1)
  {
    end := 1;
    while end < |line|
      invariant ClosingQuote(line, 1) == ClosingQuote(line, end)
      decreases |line| - end
    {
      if line[end] == BACKSLASH {
        end := end + 2;
      } else if line[end] == QUOTE {
        break;
      } else {
        end := end + 1;
      }
    }
  }

  function Classify(pattern: Pattern, values: seq<Assignment>): Line {
    if MACRO_PREFIX <= pattern then MacroLine(pattern[|MACRO_PREFIX|..], values) else PatternLine(pattern, values)
  }

  /** What one line says, if anything; nothing at all when a quoted pattern does not end. */
  function ReadLine(reader: Reader, raw: seq<Byte>): Option<seq<Line>> {
    var line := Strip(raw);
    if line == [] || line[0] == HASH then Some([])
    else if line[0] == QUOTE then
      var end := ClosingQuote(line, 1);
      if end >= |line| then None
      else Some([Classify(reader.unescape(line[1..end]), reader.parse(STAND_IN + line[end + 1..]).1)])
    else Some([Classify(reader.parse(line).0, reader.parse(line).1)])
  }

  function ReadAll(reader: Reader, raws: seq<seq<Byte>>): Option<seq<Line>> {
    if raws == [] then Some([])
    else
      match (ReadAll(reader, raws[..|raws| - 1]), ReadLine(reader, raws[|raws| - 1]))
      case (Some(front), Some(last)) => Some(front + last)
      case _ => None
  }

  /** The lines of a file. */
  function ReadBody(reader: Reader, body: seq<Byte>): Option<seq<Line>> { ReadAll(reader, SplitLines(body)) }

  lemma ReadAllStep(reader: Reader, raws: seq<seq<Byte>>, i: nat)
    requires i < |raws|
    ensures ReadAll(reader, raws[..i + 1]) ==
            match (ReadAll(reader, raws[..i]), ReadLine(reader, raws[i]))
            case (Some(front), Some(last)) => Some(front + last)
            case _ => None
  {
    assert raws[..i + 1][..i] == raws[..i];
    hide ReadLine;
  }

  lemma {:induction false} ReadAllRefuses(reader: Reader, raws: seq<seq<Byte>>, i: nat)
    requires i <= |raws| && ReadAll(reader, raws[..i]).None?
    ensures ReadAll(reader, raws).None?
    decreases |raws| - i
  {
    hide ReadLine, ReadAll;
    if i == |raws| {
      assert raws[..i] == raws;
    } else {
      ReadAllStep(reader, raws, i);
      ReadAllRefuses(reader, raws, i + 1);
    }
  }

  // ---------------------------------------------------------------- quoted patterns

  /** One character between the quotes. */
  datatype Unit = Literal(b: Byte) | Escaped(b: Byte) {
    predicate Valid() { Literal? ==> b != QUOTE && b != BACKSLASH }
    function Bytes(): seq<Byte> { if Literal? then [b] else [BACKSLASH, b] }
  }

  function Spelled(units: seq<Unit>): seq<Byte> {
    if units == [] then [] else units[0].Bytes() + Spelled(units[1..])
  }

  predicate AllValid(units: seq<Unit>) { forall i :: 0 <= i < |units| ==> units[i].Valid() }

  lemma {:induction false} FindsQuote(before: seq<Byte>, units: seq<Unit>, rest: seq<Byte>)
    requires AllValid(units)
    ensures ClosingQuote(before + Spelled(units) + [QUOTE] + rest, |before|) == |before| + |Spelled(units)|
    decreases |units|
  {
    var line := before + Spelled(units) + [QUOTE] + rest;
    if units == [] {
      assert line[|before|] == QUOTE;
    } else {
      var first, more := units[0].Bytes(), Spelled(units[1..]);
      assert Spelled(units) == first + more;
      assert line == (before + first) + more + [QUOTE] + rest;
      FindsQuote(before + first, units[1..], rest);
      assert line[|before|] == first[0];
      hide Spelled;
    }
  }

  lemma SpelledFirst(unit: Unit, more: seq<Unit>)
    requires unit.Valid() && AllValid(more)
    ensures Spelled([unit] + more) == unit.Bytes() + Spelled(more) && AllValid([unit] + more)
  {
    assert ([unit] + more)[1..] == more;
  }

  lemma SliceInTwo(line: seq<Byte>, a: nat, b: nat, c: nat)
    requires a <= b <= c <= |line|
    ensures line[a..c] == line[a..b] + line[b..c]
  {
  }

  lemma UnitAt(line: seq<Byte>, position: nat, end: nat) returns (unit: Unit)
    requires position < |line| && line[position] != QUOTE
    requires ClosingQuote(line, position) == end && end < |line|
    ensures unit.Valid() && position + |unit.Bytes()| <= |line|
    ensures line[position..position + |unit.Bytes()|] == unit.Bytes()
    ensures ClosingQuote(line, position + |unit.Bytes()|) == end
  {
    unit := if line[position] == BACKSLASH then Escaped(line[position + 1]) else Literal(line[position]);
  }

  lemma {:induction false} QuoteFound(line: seq<Byte>, position: nat) returns (units: seq<Unit>)
    requires position <= |line| && ClosingQuote(line, position) < |line|
    ensures AllValid(units) && Spelled(units) == line[position..ClosingQuote(line, position)]
    decreases |line| - position
  {
    var end := ClosingQuote(line, position);
    if line[position] == QUOTE {
      units := [];
    } else {
      var unit := UnitAt(line, position, end);
      var next := position + |unit.Bytes()|;
      var more := QuoteFound(line, next);
      units := [unit] + more;
      hide *;
      SpelledFirst(unit, more);
      SliceInTwo(line, position, next, end);
    }
  }

  ghost predicate Quoted(line: seq<Byte>, units: seq<Unit>, rest: seq<Byte>) {
    AllValid(units) && line == [QUOTE] + Spelled(units) + [QUOTE] + rest
  }

  lemma AroundQuotes(inner: seq<Byte>, rest: seq<Byte>)
    ensures var line := [QUOTE] + inner + [QUOTE] + rest;
            1 + |inner| < |line| && line[1..1 + |inner|] == inner && line[2 + |inner|..] == rest
  {
  }

  lemma AtQuotes(line: seq<Byte>, end: nat)
    requires 1 <= end < |line| && line[0] == QUOTE && line[end] == QUOTE
    ensures line == [QUOTE] + line[1..end] + [QUOTE] + line[end + 1..]
  {
  }

  lemma QuotedIsFound(line: seq<Byte>, units: seq<Unit>, rest: seq<Byte>)
    requires Quoted(line, units, rest)
    ensures ClosingQuote(line, 1) == 1 + |Spelled(units)| < |line|
    ensures line[1..ClosingQuote(line, 1)] == Spelled(units) && line[ClosingQuote(line, 1) + 1..] == rest
  {
    FindsQuote([QUOTE], units, rest);
    AroundQuotes(Spelled(units), rest);
    hide ClosingQuote, Spelled, AllValid;
  }

  lemma FoundIsQuoted(line: seq<Byte>) returns (units: seq<Unit>, rest: seq<Byte>)
    requires line != [] && line[0] == QUOTE && ClosingQuote(line, 1) < |line|
    ensures Quoted(line, units, rest)
  {
    hide ClosingQuote, Spelled, AllValid;
    units := QuoteFound(line, 1);
    rest := line[ClosingQuote(line, 1) + 1..];
    AtQuotes(line, ClosingQuote(line, 1));
  }

  /** A line that starts with a quote is taken exactly when the pattern is closed by a quote that is not escaped, and
      then the pattern is what stands between the quotes. */
  lemma QuotedExactly(line: seq<Byte>)
    requires line != [] && line[0] == QUOTE
    ensures ClosingQuote(line, 1) < |line| <==> exists units, rest :: Quoted(line, units, rest)
    ensures forall units, rest :: Quoted(line, units, rest) ==>
              ClosingQuote(line, 1) == 1 + |Spelled(units)| < |line|
              && line[1..ClosingQuote(line, 1)] == Spelled(units) && line[ClosingQuote(line, 1) + 1..] == rest
  {
    hide *;
    forall units, rest | Quoted(line, units, rest)
      ensures ClosingQuote(line, 1) == 1 + |Spelled(units)| < |line|
      ensures line[1..ClosingQuote(line, 1)] == Spelled(units) && line[ClosingQuote(line, 1) + 1..] == rest
    {
      QuotedIsFound(line, units, rest);
    }
    if ClosingQuote(line, 1) < |line| {
      var units, rest := FoundIsQuoted(line);
    }
  }
}
