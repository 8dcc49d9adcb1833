/** 32-bit integers as unsigned residues, with the signed reading where an operator needs it. */
module I32 {
  import opened Wrappers
  import Bits

  const WRAP := 0x1_0000_0000

  type u32 = x: int | 0 <= x < 0x1_0000_0000

  function ToU32(v: int): u32 { v % WRAP }

  function Signed(x: u32): (s: int)
    ensures -0x8000_0000 <= s < 0x8000_0000
  {
    if x < 0x8000_0000 then x else x - WRAP
  }

  lemma SignedToU32(x: u32)
    ensures ToU32(Signed(x)) == x
  {
  }

  function Truth(b: bool): u32 { if b then 1 else 0 }

  /** Division truncating toward zero. */
  function TruncDiv(a: int, b: int): int
    requires b != 0
  {
    if a >= 0 then a / b else -((-a) / b)
  }

  /** Signed division; None is a trap: a zero divisor, or the one quotient that does not fit. */
  function DivS(a: u32, b: u32): Option<u32> {
    if b == 0 || (Signed(a) == -0x8000_0000 && Signed(b) == -1) then None
    else Some(ToU32(TruncDiv(Signed(a), Signed(b))))
  }

  /** The remainder of that division, with the sign of the dividend; None where division has none. */
  function RemS(a: u32, b: u32): Option<u32> {
    if b == 0 || (Signed(a) == -0x8000_0000 && Signed(b) == -1) then None
    else Some(ToU32(Signed(a) - Signed(b) * TruncDiv(Signed(a), Signed(b))))
  }

  /** Shifts; None is an amount of 32 or more, for which there is no value. */
  function Shl(a: u32, b: u32): Option<u32> {
    if b >= 32 then None else Some(ToU32(a * Bits.Pow2(b)))
  }

  function ShrU(a: u32, b: u32): Option<u32> {
    if b >= 32 then None else Some(ToU32(a / Bits.Pow2(b)))
  }

  /** Copies of the sign bit come in: division rounding down. */
  function ShrS(a: u32, b: u32): Option<u32> {
    if b >= 32 then None else Some(ToU32(Signed(a) / Bits.Pow2(b)))
  }

  lemma FitsBack(v: int)
    requires -0x8000_0000 <= v < 0x8000_0000
    ensures Signed(ToU32(v)) == v
  {
    if v < 0 { Bits.DivModUnique(v, WRAP, -1, v + WRAP); } else { Bits.DivModUnique(v, WRAP, 0, v); }
  }

  /** The quotient rounds toward zero: what is left is smaller than the divisor and has the dividend's sign. */
  lemma TruncDivIs(a: int, b: int)
    requires b != 0
    ensures var r := a - b * TruncDiv(a, b);
            && (b > 0 ==> -b < r < b) && (b < 0 ==> b < r < -b)
            && (a >= 0 ==> r >= 0) && (a <= 0 ==> r <= 0)
  {
    if a >= 0 {
      assert a == b * (a / b) + a % b;
    } else {
      assert -a == b * ((-a) / b) + (-a) % b;
      assert b * -((-a) / b) == -(b * ((-a) / b));
    }
  }

  /** A quotient by a positive number is between 0 and the dividend ... */
  lemma PositiveDivisor(n: nat, d: int)
    requires d > 0
    ensures 0 <= n / d <= n
  {
    var t := n / d;
    assert n == d * t + n % d;
    Bits.MulBounds(d, t);
    if t > 0 {
      Bits.MulBounds(t, d);
      assert t * d == d * t;
    }
  }

  /** ... by a negative one it is the other way round, and by any but -1 at most half as far. */
  lemma NegativeDivisor(n: nat, d: int)
    requires d < 0
    ensures 0 - n <= n / d <= 0
    ensures d != -1 ==> 0 - n <= 2 * (n / d)
  {
    var t := n / d;
    assert n == d * t + n % d;
    Bits.MulBounds(-d, t);
    assert -d * t == -(d * t);
    if t < 0 {
      Bits.MulBounds(-t, -d);
      Bits.MulBounds(-t, -d - 1);
      assert -t * -d == d * t && -t * (-d - 1) == d * t + t;
    }
  }

  lemma QuotientFits(a: int, b: int)
    requires b != 0 && -0x8000_0000 <= a < 0x8000_0000 && !(a == -0x8000_0000 && b == -1)
    ensures -0x8000_0000 <= TruncDiv(a, b) < 0x8000_0000
  {
    var n := if a >= 0 then a else -a;
    if b > 0 { PositiveDivisor(n, b); } else { NegativeDivisor(n, b); }
  }

  /**
   Signed division and remainder: no value exactly for a zero divisor and for the one
   quotient that does not fit; else dividend = divisor * quotient + remainder, the
   remainder smaller than the divisor and with the dividend's sign.
   */
  lemma DivisionIs(a: u32, b: u32)
    ensures DivS(a, b) == None <==> b == 0 || (a == 0x8000_0000 && b == 0xFFFF_FFFF)
    ensures RemS(a, b) == None <==> DivS(a, b) == None
    ensures DivS(a, b).Some? ==>
              var x, y, q, r := Signed(a), Signed(b), Signed(DivS(a, b).value), Signed(RemS(a, b).value);
              && x == y * q + r
              && (y > 0 ==> -y < r < y) && (y < 0 ==> y < r < -y)
              && (x >= 0 ==> r >= 0) && (x <= 0 ==> r <= 0)
  {
    if DivS(a, b).Some? {
      var x, y := Signed(a), Signed(b);
      QuotientFits(x, y);
      TruncDivIs(x, y);
      FitsBack(TruncDiv(x, y));
      FitsBack(x - y * TruncDiv(x, y));
    }
  }

  lemma {:induction false} AndBelow(a: nat, b: nat, n: nat)
    requires a < Bits.Pow2(n) && b < Bits.Pow2(n)
    ensures Bits.And(a, b) < Bits.Pow2(n)
    ensures Bits.Or(a, b) < Bits.Pow2(n)
    ensures Bits.Xor(a, b) < Bits.Pow2(n)
  {
    if n > 0 {
      AndBelow(a / 2, b / 2, n - 1);
    } 
  }

  lemma Pow32()
    ensures Bits.Pow2(32) == WRAP
  {
    assert Bits.Pow2(8) == 256 by { assert Bits.Pow2(4) == 16; }
    assert Bits.Pow2(16) == 0x1_0000 by { assert Bits.Pow2(12) == 4096; }
    assert Bits.Pow2(24) == 0x100_0000 by { assert Bits.Pow2(20) == 0x10_0000; }
    assert Bits.Pow2(28) == 0x1000_0000;
  }

  function And(a: u32, b: u32): u32 {
    Pow32(); AndBelow(a, b, 32);
    Bits.And(a, b)
  }

  function Or(a: u32, b: u32): u32 {
    Pow32(); AndBelow(a, b, 32);
    Bits.Or(a, b)
  }

  function Xor(a: u32, b: u32): u32 {
    Pow32(); AndBelow(a, b, 32);
    Bits.Xor(a, b)
  }

  /**
   Bitwise and/or agree with the logical connectives on truth values; `or` agrees on
   nothing else, and `and` fails for instance on 2 and 1.
   */
  lemma BitwiseIsLogical(a: u32, b: u32)
    ensures a <= 1 && b <= 1 ==> And(a, b) == Truth(a != 0 && b != 0)
    ensures Or(a, b) == Truth(a != 0 || b != 0) <==> a <= 1 && b <= 1
    ensures And(2, 1) == 0 != Truth(true)
  {
    assert Bits.And(1, 0) == 0;
    if a > 0 && b > 0 && (a > 1 || b > 1) { OrAtLeast(a, b); }
  }

  lemma {:induction false} OrAtLeast(a: nat, b: nat)
    ensures Bits.Or(a, b) >= a && Bits.Or(a, b) >= b
    decreases a
  {
    if a > 0 && b > 0 { OrAtLeast(a / 2, b / 2); }
  }
}
