/** The texts that Python's `int(text, 16)` accepts, and the fixed-width ones that a writer prints. */
module HexTexts {
  import opened Wrappers
  import opened Bytes

  const UNDERSCORE: Byte := 95

  /** Hexadecimal digits, with single underscores between them. */
  function DigitsOf(s: seq<Byte>): Option<nat> {
    if s == [] then None
    else
      match DigitValue(s[|s| - 1])
      case None => None
      case Some(low) =>
        if |s| == 1 then Some(low)
        else
          match DigitsOf(if s[|s| - 2] == UNDERSCORE then s[..|s| - 2] else s[..|s| - 1])
          case None => None
          case Some(high) => Some(16 * high + low)
  }

  /** What follows a prefix `0x`, in any case, and one underscore behind it. */
  function Unprefixed(s: seq<Byte>): seq<Byte> {
    if |s| >= 2 && s[0] == 48 && LowerByte(s[1]) == 120 then
      if |s| >= 3 && s[2] == UNDERSCORE then s[3..] else s[2..]
    else s
  }

  function Signed(negative: bool, value: int): int { if negative then -value else value }

  function SignedOf(s: seq<Byte>): Option<int> {
    if s != [] && (s[0] == 43 || s[0] == 45) then
      match DigitsOf(Unprefixed(s[1..]))
      case None => None
      case Some(value) => Some(Signed(s[0] == 45, value))
    else
      match DigitsOf(Unprefixed(s))
      case None => None
      case Some(value) => Some(Signed(false, value))
  }

  /** `int(text, 16)`, or nothing where Python raises a `ValueError`. */
  function IntOf(text: seq<Byte>): Option<int> { SignedOf(Strip(text)) }

  /** `f"{value:0{width}x}"`, for a value that fits. */
  function Hex(value: nat, width: nat): (digits: seq<Byte>)
    ensures |digits| == width
  {
    if width == 0 then [] else Hex(value / 16, width - 1) + [DigitByte(value % 16)]
  }

  lemma {:induction false} HexBytes(value: nat, width: nat, i: nat)
    requires i < width
    ensures 48 <= Hex(value, width)[i] <= 57 || 97 <= Hex(value, width)[i] <= 102
  {
    if i < width - 1 {
      HexBytes(value / 16, width - 1, i);
    }
  }

  lemma {:induction false} HexDigits(value: nat, width: nat)
    requires value < Pow(16, width) && width > 0
    ensures DigitsOf(Hex(value, width)) == Some(value)
  {
    var digits := Hex(value, width);
    if width > 1 {
      HexBytes(value, width, width - 2);
      HexDigits(value / 16, width - 1);
      assert digits[..width - 1] == Hex(value / 16, width - 1);
    }
  }

  /** A text of two bytes or more, none of them a sign, a blank, an underscore or an `x`. */
  lemma PlainText(s: seq<Byte>)
    requires |s| >= 2 && forall i :: 0 <= i < |s| ==> 48 <= s[i] <= 57 || 97 <= s[i] <= 102
    ensures IntOf(s) == match DigitsOf(s) case None => None case Some(value) => Some(Signed(false, value))
  {
    assert Strip(s) == s;
    assert Unprefixed(s) == s;
    hide DigitsOf, Strip, Unprefixed;
  }

  /** What a writer prints is read as what it printed. */
  lemma HexRoundTrip(value: nat, width: nat)
    requires value < Pow(16, width) && width >= 2
    ensures IntOf(Hex(value, width)) == Some(value)
  {
    forall i | 0 <= i < width
      ensures 48 <= Hex(value, width)[i] <= 57 || 97 <= Hex(value, width)[i] <= 102
    {
      HexBytes(value, width, i);
    }
    HexDigits(value, width);
    PlainText(Hex(value, width));
    hide Hex, IntOf, DigitsOf;
  }

  /** A sign in front of what a writer prints is read as well. */
  lemma NegativeRoundTrip(value: nat, width: nat)
    requires value < Pow(16, width) && width >= 2
    ensures IntOf([45] + Hex(value, width)) == Some(Signed(true, value))
  {
    var digits := Hex(value, width);
    HexBytes(value, width, width - 1);
    HexBytes(value, width, 1);
    HexDigits(value, width);
    assert ([45] + digits)[1..] == digits;
    assert Unprefixed(digits) == digits;
    hide DigitsOf, Unprefixed, Hex;
    assert Strip([45] + digits) == [45] + digits;
  }

  lemma EightHexDigits()
    ensures Pow(16, 7) == 0x1000_0000 && Pow(16, 8) == 0x1_0000_0000
  {
    assert Pow(16, 2) == 256;
    PowAdd(16, 2, 2);
    PowAdd(16, 4, 4);
    PowAdd(16, 1, 7);
  }
}
