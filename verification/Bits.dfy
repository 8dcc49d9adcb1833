/** Bitwise operations on unbounded naturals, as the C operators compute them. */
module Bits {

  function Pow2(k: nat): (p: nat)
    ensures p > 0
  {
    if k == 0 then 1 else 2 * Pow2(k - 1)
  }

  function And(a: nat, b: nat): nat {
    if a == 0 || b == 0 then 0
    else 2 * And(a / 2, b / 2) + (if a % 2 == 1 && b % 2 == 1 then 1 else 0)
  }

  function Or(a: nat, b: nat): nat {
    if a == 0 then b else if b == 0 then a
    else 2 * Or(a / 2, b / 2) + (if a % 2 == 1 || b % 2 == 1 then 1 else 0)
  }

  function Xor(a: nat, b: nat): nat {
    if a == 0 then b else if b == 0 then a
    else 2 * Xor(a / 2, b / 2) + (if a % 2 != b % 2 then 1 else 0)
  }

  /** Bit `k` of a number. */
  predicate Bit(a: nat, k: nat) {
    if k == 0 then a % 2 == 1 else Bit(a / 2, k - 1)
  }

  lemma {:induction false} NoBits(k: nat)
    ensures !Bit(0, k)
  {
    if k > 0 { NoBits(k - 1); }
  }

  /** The three operators, bit by bit. */
  lemma {:induction false} BitByBit(a: nat, b: nat, k: nat)
    ensures Bit(And(a, b), k) <==> Bit(a, k) && Bit(b, k)
    ensures Bit(Or(a, b), k) <==> Bit(a, k) || Bit(b, k)
    ensures Bit(Xor(a, b), k) <==> Bit(a, k) != Bit(b, k)
    decreases k
  {
    NoBits(k);
    if k > 0 && a > 0 && b > 0 { BitByBit(a / 2, b / 2, k - 1); }
  }

  lemma ModDouble(a: nat, m: nat)
    requires m > 0
    ensures a % (2 * m) == 2 * ((a / 2) % m) + a % 2
  {
    var q, r := (a / 2) / m, (a / 2) % m;
    assert a == 2 * (a / 2) + a % 2;
    assert a / 2 == m * q + r;
    assert a == (2 * m) * q + (2 * r + a % 2) by { assert 2 * (m * q) == (2 * m) * q; }
    DivModUnique(a, 2 * m, q, 2 * r + a % 2);
  }

  /** Masking with `2^k - 1` is reduction modulo `2^k`. */
  lemma {:induction false} MaskIsMod(a: nat, k: nat)
    ensures And(a, Pow2(k) - 1) == a % Pow2(k)
  {
    if k > 0 {
      ModDouble(a, Pow2(k - 1));
      MaskIsMod(a / 2, k - 1);
      AndOddMask(a, Pow2(k - 1));
    }
  }

  lemma AndOddMask(a: nat, m: nat)
    requires m > 0
    ensures And(a, 2 * m - 1) == 2 * And(a / 2, m - 1) + a % 2
  {
    assert (2 * m - 1) / 2 == m - 1 && (2 * m - 1) % 2 == 1;
  }

  lemma MulBounds(n: int, j: int)
    requires n >= 0
    ensures j <= 0 ==> n * j <= 0
    ensures j <= -1 ==> n * j <= -n
    ensures j >= 1 ==> n * j >= n
  {
  }

  /** The quotient and remainder of a decomposition are the ones `/` and `%` compute. */
  lemma DivModUnique(a: int, n: int, k: int, r: int)
    requires 0 <= r < n && a == n * k + r
    ensures a / n == k && a % n == r
  {
    var j := k - a / n;
    assert n * j == a % n - r by { assert n * j == n * k - n * (a / n); }
    MulBounds(n, j);
  }
}
