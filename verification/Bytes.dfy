/** Byte strings and their fixed-width integers (`int.to_bytes`, `int.from_bytes`). */
module Bytes {
  import opened Wrappers

  type Byte = x: int | 0 <= x < 256

  /** A binary hash, or the name of a Git object. */
  type Digest = seq<Byte>

  function LowerByte(b: Byte): Byte { if 65 <= b <= 90 then b + 32 else b }

  /** `bytes.lower()`. */
  function Lower(s: seq<Byte>): (t: seq<Byte>)
    ensures |t| == |s|
  {
    seq(|s|, i requires 0 <= i < |s| => LowerByte(s[i]))
  }

  lemma Associative(a: seq<Byte>, b: seq<Byte>, c: seq<Byte>)
    ensures a + b + c == a + (b + c)
  {
  }

  function Cat(a: seq<Byte>, b: seq<Byte>): (s: seq<Byte>)
    ensures |s| == |a| + |b|
  {
    a + b
  }

  lemma CatCat(a: seq<Byte>, b: seq<Byte>, c: seq<Byte>)
    ensures Cat(Cat(a, b), c) == Cat(a, Cat(b, c))
  {
  }

  function Pow(b: nat, e: nat): nat {
    if e == 0 then 1 else b * Pow(b, e - 1)
  }

  lemma PowPositive(b: nat, e: nat)
    requires b > 0
    ensures Pow(b, e) > 0
  {
  }

  lemma PowAdd(b: nat, d: nat, e: nat)
    ensures Pow(b, d + e) == Pow(b, d) * Pow(b, e)
  {
    if d != 0 {
      PowAdd(b, d - 1, e);
      assert Pow(b, d + e) == b * Pow(b, d - 1 + e);
      MulAssociative(b, Pow(b, d - 1), Pow(b, e));
    }
  }

  lemma MulAssociative(a: int, b: int, c: int)
    ensures a * (b * c) == (a * b) * c
  {
  }

  /** `value.to_bytes(width, "little")`, for a value that fits. */
  function LittleEndian(value: nat, width: nat): (s: seq<Byte>)
    ensures |s| == width
  {
    if width == 0 then [] else [value % 256] + LittleEndian(value / 256, width - 1)
  }

  /** `int.from_bytes(s, "little")`. */
  function FromLittleEndian(s: seq<Byte>): (value: nat) {
    if s == [] then 0 else s[0] + 256 * FromLittleEndian(s[1..])
  }

  lemma {:induction false} LittleEndianRoundTrip(value: nat, width: nat)
    requires value < Pow(256, width)
    ensures FromLittleEndian(LittleEndian(value, width)) == value
  {
    if width != 0 {
      LittleEndianRoundTrip(value / 256, width - 1);
      assert LittleEndian(value, width)[1..] == LittleEndian(value / 256, width - 1);
    }
  }

  /** `value.to_bytes(width, "big")`, for a value that fits. */
  function BigEndian(value: nat, width: nat): (s: seq<Byte>)
    ensures |s| == width
  {
    if width == 0 then [] else BigEndian(value / 256, width - 1) + [value % 256]
  }

  /** `int.from_bytes(s, "big")`. */
  function FromBigEndian(s: seq<Byte>): (value: nat)
    ensures value < Pow(256, |s|)
  {
    if s == [] then 0 else FromBigEndian(s[..|s| - 1]) * 256 + s[|s| - 1]
  }

  lemma {:induction false} BigEndianRoundTrip(value: nat, width: nat)
    requires value < Pow(256, width)
    ensures FromBigEndian(BigEndian(value, width)) == value
  {
    if width != 0 {
      BigEndianRoundTrip(value / 256, width - 1);
      assert BigEndian(value, width)[..width - 1] == BigEndian(value / 256, width - 1);
    }
  }

  lemma {:induction false} BigEndianOfBytes(s: seq<Byte>)
    ensures BigEndian(FromBigEndian(s), |s|) == s
  {
    if s != [] {
      BigEndianOfBytes(s[..|s| - 1]);
    }
  }

  lemma PowersOf256()
    ensures Pow(256, 4) == 0x1_0000_0000
    ensures Pow(256, 8) == 0x1_0000_0000_0000_0000
  {
    assert Pow(256, 2) == 0x1_0000;
    PowAdd(256, 2, 2);
    PowAdd(256, 4, 4);
  }

  function Zeros(n: nat): (s: seq<Byte>)
    ensures |s| == n
  {
    seq(n, _ => 0)
  }

  lemma SubSlice(data: seq<Byte>, low: nat, high: nat, i: nat, j: nat)
    requires low <= high <= |data| && i <= j <= high - low
    ensures data[low..high][i..j] == data[low + i..low + j]
  {
    assert forall k :: 0 <= k < j - i ==> data[low..high][i..j][k] == data[low + i..low + j][k];
  }

  predicate IsBlank(b: Byte) { 9 <= b <= 13 || b == 32 }

  /** `bytes.strip()`. */
  function Strip(line: seq<Byte>): seq<Byte> {
    if line == [] then []
    else if IsBlank(line[0]) then Strip(line[1..])
    else if IsBlank(line[|line| - 1]) then Strip(line[..|line| - 1])
    else line
  }

  /** The value of an ASCII digit of any base up to sixteen. */
  function DigitValue(b: Byte): Option<nat> {
    if 48 <= b <= 57 then Some(b - 48)
    else if 65 <= b <= 70 then Some(b - 55)
    else if 97 <= b <= 102 then Some(b - 87)
    else None
  }

  function DigitByte(d: nat): Byte
    requires d < 16
  {
    if d < 10 then 48 + d else 87 + d
  }
}
