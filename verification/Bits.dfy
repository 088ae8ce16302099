/** Python's bit operators on unbounded integers, read as infinite two's complement. */
module Bits {
  import opened Bytes

  /** `(v >> i) & 1 == 1`. */
  predicate Bit(v: nat, i: nat) {
    if i == 0 then v % 2 == 1 else Bit(v / 2, i - 1)
  }

  /** `a & b`; division by two rounds down, so negative operands keep their sign bits. */
  function And(a: int, b: int): int
    decreases if a < 0 then -a else a, if b < 0 then -b else b
  {
    if a == 0 || b == 0 then 0
    else if a == -1 then b
    else if b == -1 then a
    else 2 * And(a / 2, b / 2) + (a % 2) * (b % 2)
  }

  /** `v.bit_length()`. */
  function BitLength(v: nat): nat {
    if v == 0 then 0 else 1 + BitLength(v / 2)
  }

  /** The position of the lowest one bit. */
  function Lowest(v: nat): nat
    requires v > 0
  {
    if v % 2 == 1 then 0 else 1 + Lowest(v / 2)
  }

  lemma {:induction false} AndComplement(a: int)
    requires a >= 0
    ensures And(a, -a - 1) == 0
  {
    if a != 0 {
      AndComplement(a / 2);
      assert (-a - 1) / 2 == -(a / 2) - 1;
    }
  }

  lemma {:induction false} AndSelf(a: nat)
    ensures And(a, a) == a
  {
    if a != 0 {
      AndSelf(a / 2);
    }
  }

  /** `v & -v` is the lowest one bit alone. */
  lemma {:induction false} AndNegation(v: int)
    requires v > 0
    ensures And(v, -v) == Pow(2, Lowest(v))
  {
    if v % 2 == 1 {
      AndComplement(v / 2);
      assert (-v) / 2 == -(v / 2) - 1;
    } else {
      AndNegation(v / 2);
      assert (-v) / 2 == -(v / 2);
    }
  }

  lemma {:induction false} BitLengthOfPower(e: nat)
    ensures BitLength(Pow(2, e)) == e + 1
  {
    PowPositive(2, e);
    if e != 0 {
      BitLengthOfPower(e - 1);
      assert Pow(2, e) / 2 == Pow(2, e - 1);
    }
  }

  /** `(v & -v).bit_length() - 1` finds the lowest one bit. */
  lemma LowestByBitTrick(v: int)
    requires v > 0
    ensures And(v, -v) >= 0 && BitLength(And(v, -v)) - 1 == Lowest(v)
  {
    AndNegation(v);
    BitLengthOfPower(Lowest(v));
  }

  lemma {:induction false} ClearLowestDecreases(v: nat)
    requires v > 0
    ensures 0 <= And(v, v - 1) < v
    ensures And(v, v - 1) == if v % 2 == 1 then v - 1 else 2 * And(v / 2, v / 2 - 1)
  {
    if v % 2 == 1 {
      AndSelf(v / 2);
      assert (v - 1) / 2 == v / 2;
    } else {
      ClearLowestDecreases(v / 2);
      assert (v - 1) / 2 == v / 2 - 1;
    }
  }

  /** `v & (v - 1)` clears the lowest one bit and keeps every other one. */
  lemma {:induction false} ClearLowest(v: nat, i: nat)
    requires v > 0
    ensures And(v, v - 1) >= 0
    ensures Bit(And(v, v - 1), i) <==> Bit(v, i) && i != Lowest(v)
  {
    ClearLowestDecreases(v);
    var w := And(v, v - 1);
    if i > 0 {
      if v % 2 == 1 {
        assert w / 2 == v / 2;
      } else {
        ClearLowest(v / 2, i - 1);
        assert w / 2 == And(v / 2, v / 2 - 1);
      }
    }
  }

  lemma {:induction false} LowestIsSet(v: nat)
    requires v > 0
    ensures Bit(v, Lowest(v))
  {
    if v % 2 == 0 {
      LowestIsSet(v / 2);
    }
  }

  lemma {:induction false} NoBitsInZero(i: nat)
    ensures !Bit(0, i)
  {
    if i != 0 {
      NoBitsInZero(i - 1);
    }
  }

  /** A value below `2 ** n` has no one bit at `n` or above. */
  lemma {:induction false} BitsBelow(v: nat, n: nat, i: nat)
    requires v < Pow(2, n)
    ensures Bit(v, i) ==> i < n
  {
    if n == 0 {
      NoBitsInZero(i);
    } else if i != 0 {
      BitsBelow(v / 2, n - 1, i - 1);
    }
  }

  /** The value whose one bits below `n` are the members of `s`. */
  ghost function FromBits(s: set<nat>, n: nat): (v: nat)
    ensures v < Pow(2, n)
    decreases n, s
  {
    if n == 0 then 0
    else (if 0 in s then 1 else 0) + 2 * FromBits(Lowered(s), n - 1)
  }

  ghost function Lowered(s: set<nat>): set<nat> {
    set i | i in s && i > 0 :: i - 1
  }

  lemma {:induction false} BitFromBits(s: set<nat>, n: nat, i: nat)
    ensures Bit(FromBits(s, n), i) <==> i < n && i in s
    decreases n, s
  {
    var v := FromBits(s, n);
    if n == 0 {
      NoBitsInZero(i);
    } else {
      assert v / 2 == FromBits(Lowered(s), n - 1);
      if i > 0 {
        BitFromBits(Lowered(s), n - 1, i - 1);
        assert i - 1 in Lowered(s) <==> i in s;
      }
    }
  }

  /** Fields packed above one another are read back by division and remainder. */
  lemma PackedFields(bit: nat, repeat: nat, literals: nat)
    requires bit < 2 && repeat < 0x1_0000_0000
    ensures var w := bit + 2 * repeat + 0x2_0000_0000 * literals;
            w % 2 == bit && (w / 2) % 0x1_0000_0000 == repeat && w / 0x2_0000_0000 == literals
  {
  }
}
