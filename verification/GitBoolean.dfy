/** Git's booleans: a few words, or an integer in C notation with a unit, as `git_parse_int` bounds it. */
module GitBoolean {
  import opened Wrappers
  import opened Bytes

  datatype Reason = NotABoolean

  // "true", "yes", "on" and "false", "no", "off"
  const TRUE_WORDS: seq<seq<Byte>> := [[116, 114, 117, 101], [121, 101, 115], [111, 110]]
  const FALSE_WORDS: seq<seq<Byte>> := [[], [102, 97, 108, 115, 101], [110, 111], [111, 102, 102]]

  const MAX_INT: int := 0x7fff_ffff

  // ---------------------------------------------------------------- numerals

  datatype Base = Hexadecimal | Octal | Decimal {
    function Radix(): nat { match this case Hexadecimal => 16 case Octal => 8 case Decimal => 10 }
  }

  datatype Unit = One | Kilo | Mega | Giga {
    function Factor(): nat {
      match this case One => 1 case Kilo => 1024 case Mega => 0x10_0000 case Giga => 0x4000_0000
    }
  }

  /** A numeral: the base, the digits behind its prefix, and the unit. */
  datatype Numeral = Numeral(negative: bool, base: Base, digits: seq<Byte>, unit: Unit) {
    predicate Valid() {
      && (forall i :: 0 <= i < |digits| ==> DigitValue(digits[i]).Some? && DigitValue(digits[i]).value < base.Radix())
      && (base.Hexadecimal? ==> digits != [])
      && (base.Decimal? ==> digits != [] && digits[0] != 48)
    }

    function Value(): int
      requires Valid()
    {
      (if negative then -1 else 1) * ValueIn(base.Radix(), digits) * unit.Factor()
    }
  }

  /** `int(digits, radix)`. */
  function ValueIn(radix: nat, digits: seq<Byte>): nat
    requires forall i :: 0 <= i < |digits| ==> DigitValue(digits[i]).Some?
  {
    if digits == [] then 0
    else radix * ValueIn(radix, digits[..|digits| - 1]) + DigitValue(digits[|digits| - 1]).value
  }

  /** The bytes `\t`, `\n`, `\v`, `\f`, `\r` and the space. */
  predicate IsSpace(b: Byte) { 9 <= b <= 13 || b == 32 }

  function SkipSpace(s: seq<Byte>): (t: seq<Byte>)
    ensures |t| <= |s| && t == s[|s| - |t|..]
    ensures forall i :: 0 <= i < |s| - |t| ==> IsSpace(s[i])
    ensures t != [] ==> !IsSpace(t[0])
  {
    if s != [] && IsSpace(s[0]) then SkipSpace(s[1..]) else s
  }

  function UnitOf(b: Byte): Option<Unit> {
    match LowerByte(b)
    case 107 => Some(Kilo)
    case 109 => Some(Mega)
    case 103 => Some(Giga)
    case _ => None
  }

  /** `0[xX][0-9a-fA-F]+|0[0-7]*|[1-9][0-9]*`. */
  function ParseDigits(negative: bool, unit: Unit, s: seq<Byte>): Option<Numeral> {
    if s == [] then None
    else
      var n := if s[0] != 48 then Numeral(negative, Decimal, s, unit)
               else if |s| > 1 && LowerByte(s[1]) == 120 then Numeral(negative, Hexadecimal, s[2..], unit)
               else Numeral(negative, Octal, s[1..], unit);
      if n.Valid() then Some(n) else None
  }

  function ParseUnit(negative: bool, s: seq<Byte>): Option<Numeral> {
    if s != [] && UnitOf(s[|s| - 1]).Some? then ParseDigits(negative, UnitOf(s[|s| - 1]).value, s[..|s| - 1])
    else ParseDigits(negative, One, s)
  }

  function ParseSign(s: seq<Byte>): Option<Numeral> {
    if s != [] && (s[0] == 43 || s[0] == 45) then ParseUnit(s[0] == 45, s[1..]) else ParseUnit(false, s)
  }

  /** The regular expression of `_git_boolean`, matched against the whole value. */
  function ParseNumeral(value: seq<Byte>): Option<Numeral> { ParseSign(SkipSpace(value)) }

  /** `_git_boolean`.  A variable without a value is true. */
  function GitBoolean(value: Option<seq<Byte>>): Result<bool, Reason> {
    if value.None? then Success(true)
    else if Lower(value.value) in TRUE_WORDS then Success(true)
    else if Lower(value.value) in FALSE_WORDS then Success(false)
    else
      match ParseNumeral(value.value)
      case None => Failure(NotABoolean)
      case Some(n) => if -MAX_INT <= n.Value() <= MAX_INT then Success(n.Value() != 0) else Failure(NotABoolean)
  }

  // ---------------------------------------------------------------- what a numeral looks like

  /** Ways of writing the same numeral. */
  datatype Spelling = Spelling(space: seq<Byte>, plus: bool, upperX: bool, upperUnit: bool) {
    predicate Valid() { forall i :: 0 <= i < |space| ==> IsSpace(space[i]) }
  }

  function SignText(n: Numeral, how: Spelling): seq<Byte> {
    if n.negative then [45] else if how.plus then [43] else []
  }

  function DigitText(n: Numeral, how: Spelling): (s: seq<Byte>)
    ensures n.Valid() ==> s != []
  {
    match n.base
    case Hexadecimal => [48, if how.upperX then 88 else 120] + n.digits
    case Octal => [48] + n.digits
    case Decimal => n.digits
  }

  function UnitText(n: Numeral, how: Spelling): seq<Byte> {
    match n.unit
    case One => []
    case Kilo => [if how.upperUnit then 75 else 107]
    case Mega => [if how.upperUnit then 77 else 109]
    case Giga => [if how.upperUnit then 71 else 103]
  }

  function Body(n: Numeral, how: Spelling): seq<Byte> { DigitText(n, how) + UnitText(n, how) }

  function Signed(n: Numeral, how: Spelling): seq<Byte> { SignText(n, how) + Body(n, how) }

  function Text(n: Numeral, how: Spelling): seq<Byte> { how.space + Signed(n, how) }

  lemma {:induction false} SkipsSpace(space: seq<Byte>, rest: seq<Byte>)
    requires forall i :: 0 <= i < |space| ==> IsSpace(space[i])
    requires rest != [] && !IsSpace(rest[0])
    ensures SkipSpace(space + rest) == rest
  {
    if space == [] {
      assert space + rest == rest;
    } else {
      assert (space + rest)[1..] == space[1..] + rest;
      SkipsSpace(space[1..], rest);
    }
  }

  lemma DigitTextParts(n: Numeral, how: Spelling)
    requires n.Valid()
    ensures var s := DigitText(n, how);
            && ParseDigits(n.negative, n.unit, s) == Some(n)
            && DigitValue(s[0]).Some? && DigitValue(s[0]).value < 10
            && UnitOf(s[|s| - 1]).None?
  {
    var s := DigitText(n, how);
    match n.base {
      case Hexadecimal =>
        assert s[2..] == n.digits && s[|s| - 1] == n.digits[|n.digits| - 1];
      case Octal =>
        assert s[1..] == n.digits;
        if n.digits != [] {
          assert s[1] == n.digits[0] && s[|s| - 1] == n.digits[|n.digits| - 1];
        }
      case Decimal =>
        assert s[|s| - 1] == n.digits[|n.digits| - 1];
    }
  }

  lemma BodyParses(n: Numeral, how: Spelling)
    requires n.Valid()
    ensures ParseUnit(n.negative, Body(n, how)) == Some(n)
    ensures Body(n, how) != [] && 48 <= Body(n, how)[0] < 58
  {
    var digits, unit := DigitText(n, how), UnitText(n, how);
    DigitTextParts(n, how);
    hide ParseDigits, DigitText, Numeral.Valid;
    if n.unit == One {
      assert digits + unit == digits;
    } else {
      assert (digits + unit)[..|digits + unit| - 1] == digits;
    }
  }

  lemma SignParses(sign: Byte, body: seq<Byte>)
    requires sign == 43 || sign == 45
    ensures ParseSign([sign] + body) == ParseUnit(sign == 45, body)
  {
    assert ([sign] + body)[1..] == body;
    hide ParseUnit;
  }

  lemma NoSignParses(body: seq<Byte>)
    requires body != [] && 48 <= body[0]
    ensures ParseSign([] + body) == ParseUnit(false, body) && [] + body == body
  {
    assert [] + body == body;
    hide ParseUnit;
  }

  lemma SignedParses(n: Numeral, how: Spelling)
    requires n.Valid()
    ensures ParseSign(Signed(n, how)) == Some(n)
    ensures Signed(n, how) != [] && 33 <= Signed(n, how)[0] < 58
  {
    BodyParses(n, how);
    hide ParseUnit, ParseSign, Body, Numeral.Valid;
    var body := Body(n, how);
    if n.negative {
      SignParses(45, body);
    } else if how.plus {
      SignParses(43, body);
    } else {
      NoSignParses(body);
    }
  }

  /** Every spelling of a numeral is read as that numeral. */
  lemma SpellingParses(n: Numeral, how: Spelling)
    requires n.Valid() && how.Valid()
    ensures ParseNumeral(Text(n, how)) == Some(n)
    ensures Text(n, how) != [] && Text(n, how)[0] < 58
  {
    SignedParses(n, how);
    hide ParseSign, Signed, Numeral.Valid;
    SkipsSpace(how.space, Signed(n, how));
    hide SkipSpace;
    if how.space != [] {
      assert IsSpace(how.space[0]);
    }
  }

  lemma DigitsSpelled(negative: bool, unit: Unit, s: seq<Byte>, how: Spelling)
    requires ParseDigits(negative, unit, s).Some? && (how.upperX <==> |s| > 1 && s[1] == 88)
    ensures var n := ParseDigits(negative, unit, s).value;
            && n.Valid() && n.negative == negative && n.unit == unit && DigitText(n, how) == s
  {
    var n := ParseDigits(negative, unit, s).value;
    hide Numeral.Valid;
    if n.base == Hexadecimal {
      assert s == [48, s[1]] + s[2..];
    } else if n.base == Octal {
      assert s == [48] + s[1..];
    }
  }

  lemma UnitSpelled(n: Numeral, how: Spelling, b: Byte)
    requires UnitOf(b) == Some(n.unit) && (how.upperUnit <==> b < 91)
    ensures UnitText(n, how) == [b]
  {
  }

  lemma BodySpelled(negative: bool, s: seq<Byte>, space: seq<Byte>, plus: bool) returns (how: Spelling)
    requires ParseUnit(negative, s).Some?
    ensures var n := ParseUnit(negative, s).value;
            && n.Valid() && n.negative == negative && how.space == space && how.plus == plus && Body(n, how) == s
  {
    var n := ParseUnit(negative, s).value;
    var hasUnit := s != [] && UnitOf(s[|s| - 1]).Some?;
    var digits := if hasUnit then s[..|s| - 1] else s;
    var unit := if hasUnit then UnitOf(s[|s| - 1]).value else One;
    how := Spelling(space, plus, |digits| > 1 && digits[1] == 88, hasUnit && s[|s| - 1] < 91);
    DigitsSpelled(negative, unit, digits, how);
    hide ParseDigits, DigitText, Numeral.Valid;
    if hasUnit {
      hide UnitText;
      UnitSpelled(n, how, s[|s| - 1]);
      assert s == s[..|s| - 1] + [s[|s| - 1]];
    } else {
      assert s == s + [];
    }
  }

  lemma SignSpelled(s: seq<Byte>, space: seq<Byte>) returns (how: Spelling)
    requires ParseSign(s).Some?
    ensures var n := ParseSign(s).value; n.Valid() && how.space == space && Signed(n, how) == s
  {
    hide ParseUnit, Body, Numeral.Valid;
    if s != [] && (s[0] == 43 || s[0] == 45) {
      how := BodySpelled(s[0] == 45, s[1..], space, s[0] == 43);
      assert s == [s[0]] + s[1..];
    } else {
      how := BodySpelled(false, s, space, false);
      assert s == [] + s;
    }
  }

  /** Nothing else is read as a numeral. */
  lemma ParsesAreSpellings(value: seq<Byte>) returns (how: Spelling)
    requires ParseNumeral(value).Some?
    ensures how.Valid() && ParseNumeral(value).value.Valid() && value == Text(ParseNumeral(value).value, how)
  {
    var s := SkipSpace(value);
    hide SkipSpace, ParseSign, Signed, Numeral.Valid;
    how := SignSpelled(s, value[..|value| - |s|]);
  }

  // ---------------------------------------------------------------- which values are booleans

  lemma NumeralsAreNoWords(text: seq<Byte>)
    requires text != [] && text[0] < 58
    ensures Lower(text) !in TRUE_WORDS && Lower(text) !in FALSE_WORDS
  {
    assert Lower(text)[0] == text[0];
  }

  predicate InRange(v: int) { -MAX_INT <= v <= MAX_INT }

  /** A numeral is a boolean exactly when its value fits, and then says whether that value is nonzero. */
  lemma NumeralMeaning(n: Numeral, how: Spelling)
    requires n.Valid() && how.Valid()
    ensures GitBoolean(Some(Text(n, how))) ==
            if InRange(n.Value()) then Success(n.Value() != 0) else Failure(NotABoolean)
  {
    SpellingParses(n, how);
    NumeralsAreNoWords(Text(n, how));
    hide ParseNumeral, Text, Numeral.Valid, Numeral.Value, Lower;
  }

  ghost predicate Spells(value: seq<Byte>, n: Numeral, how: Spelling) {
    n.Valid() && how.Valid() && value == Text(n, how)
  }

  /** The booleans are the words, in any case, and the spellings of the numerals that fit. */
  lemma BooleansExactly(value: seq<Byte>)
    ensures GitBoolean(Some(value)).Success? <==>
            || Lower(value) in TRUE_WORDS || Lower(value) in FALSE_WORDS
            || exists n, how :: Spells(value, n, how) && InRange(n.Value())
  {
    hide ParseNumeral, Text, Numeral.Valid, Numeral.Value, Lower, Spelling.Valid;
    if n, how :| Spells(value, n, how) && InRange(n.Value()) {
      NumeralMeaning(n, how);
    }
    if Lower(value) !in TRUE_WORDS && Lower(value) !in FALSE_WORDS && GitBoolean(Some(value)).Success? {
      var how := ParsesAreSpellings(value);
      assert Spells(value, ParseNumeral(value).value, how);
    }
  }

  // ---------------------------------------------------------------- writing an integer

  function Digits(value: nat, radix: nat): (digits: seq<Byte>)
    requires 2 <= radix <= 16
    ensures value > 0 <==> digits != []
  {
    if value == 0 then [] else Digits(value / radix, radix) + [DigitByte(value % radix)]
  }

  lemma Divided(value: nat, radix: nat)
    requires 2 <= radix <= 16
    ensures radix * (value / radix) + value % radix == value && value % radix < radix
    ensures value > 0 ==> value / radix < value
  {
  }

  lemma DigitByteMeaning(d: nat)
    requires d < 16
    ensures DigitValue(DigitByte(d)) == Some(d) && (d > 0 ==> DigitByte(d) != 48)
  {
  }

  predicate AreDigits(radix: nat, digits: seq<Byte>) {
    forall i :: 0 <= i < |digits| ==> DigitValue(digits[i]).Some? && DigitValue(digits[i]).value < radix
  }

  lemma ValueAppend(radix: nat, high: seq<Byte>, low: Byte, d: nat)
    requires AreDigits(radix, high) && DigitValue(low) == Some(d) && d < radix
    ensures AreDigits(radix, high + [low]) && ValueIn(radix, high + [low]) == radix * ValueIn(radix, high) + d
  {
    assert (high + [low])[..|high|] == high;
    hide DigitValue;
  }

  lemma {:induction false} DigitsRoundTrip(value: nat, radix: nat)
    requires 2 <= radix <= 16
    ensures var digits := Digits(value, radix);
            AreDigits(radix, digits) && ValueIn(radix, digits) == value && (digits != [] ==> digits[0] != 48)
  {
    if value != 0 {
      hide DigitValue, DigitByte, ValueIn, AreDigits;
      Divided(value, radix);
      var high, d := Digits(value / radix, radix), value % radix;
      DigitsRoundTrip(value / radix, radix);
      DigitByteMeaning(d);
      ValueAppend(radix, high, DigitByte(d), d);
      assert Digits(value, radix) == high + [DigitByte(d)];
      hide *;
      if value / radix == 0 {
        ZeroQuotient(value, radix);
      }
    }
  }

  lemma ZeroQuotient(value: nat, radix: nat)
    requires 2 <= radix <= 16 && value > 0 && value / radix == 0
    ensures value % radix > 0 && Digits(value / radix, radix) == []
  {
  }

  function Magnitude(v: int, unit: Unit): nat { (if v < 0 then -v else v) / unit.Factor() }

  /** An integer as a numeral; zero has no decimal digits of its own and is written as an octal. */
  function NumeralOf(v: int, base: Base, unit: Unit): Numeral {
    var m := Magnitude(v, unit);
    if m > 0 then Numeral(v < 0, base, Digits(m, base.Radix()), unit)
    else if base == Hexadecimal then Numeral(v < 0, Hexadecimal, [48], unit)
    else Numeral(v < 0, Octal, [], unit)
  }

  lemma MagnitudeTimes(v: int, unit: Unit)
    requires v % unit.Factor() == 0
    ensures Magnitude(v, unit) * unit.Factor() == if v < 0 then -v else v
  {
    match unit {
      case One =>
      case Kilo =>
      case Mega =>
      case Giga =>
    }
  }

  lemma ZeroDigits()
    ensures ValueIn(16, [48]) == 0 && ValueIn(8, []) == 0
  {
    assert [48][..0] == [];
  }

  lemma DigitsAreValid(negative: bool, base: Base, digits: seq<Byte>, unit: Unit)
    requires AreDigits(base.Radix(), digits) && digits != [] && digits[0] != 48
    ensures Numeral(negative, base, digits, unit).Valid()
  {
    hide DigitValue;
  }

  lemma ZeroIsValid(negative: bool, unit: Unit)
    ensures Numeral(negative, Hexadecimal, [48], unit).Valid() && Numeral(negative, Octal, [], unit).Valid()
  {
  }

  lemma NumeralOfDigits(v: int, base: Base, unit: Unit)
    ensures var n := NumeralOf(v, base, unit);
            && n.Valid() && ValueIn(n.base.Radix(), n.digits) == Magnitude(v, unit)
            && n.negative == (v < 0) && n.unit == unit
  {
    hide Digits, ValueIn, Magnitude, Numeral.Valid, DigitValue, AreDigits;
    var m := Magnitude(v, unit);
    DigitsRoundTrip(m, base.Radix());
    ZeroDigits();
    ZeroIsValid(v < 0, unit);
    if m > 0 {
      DigitsAreValid(v < 0, base, Digits(m, base.Radix()), unit);
    }
  }

  lemma SignedProduct(negative: bool, m: int, f: int)
    ensures (if negative then -1 else 1) * m * f == if negative then -(m * f) else m * f
  {
  }

  lemma NumeralOfMeaning(v: int, base: Base, unit: Unit)
    requires v % unit.Factor() == 0
    ensures NumeralOf(v, base, unit).Valid() && NumeralOf(v, base, unit).Value() == v
  {
    NumeralOfDigits(v, base, unit);
    MagnitudeTimes(v, unit);
    SignedProduct(v < 0, Magnitude(v, unit), unit.Factor());
    hide NumeralOf, Numeral.Valid, ValueIn, Magnitude, Unit.Factor, Base.Radix;
  }

  /** Any integer that fits, written in any base and unit and spelled in any way, is read as its truth value. */
  lemma IntegerRoundTrip(v: int, base: Base, unit: Unit, how: Spelling)
    requires InRange(v) && v % unit.Factor() == 0 && how.Valid()
    ensures GitBoolean(Some(Text(NumeralOf(v, base, unit), how))) == Success(v != 0)
  {
    NumeralOfMeaning(v, base, unit);
    NumeralMeaning(NumeralOf(v, base, unit), how);
    hide NumeralOf, Numeral.Value, Numeral.Valid, GitBoolean;
  }
}
