/** Unsigned integers of the widths the source uses, and the bitwise operators
    `&`, `|` and `<<` on them, defined bit by bit on naturals. The lemmas say
    when these operators coincide with plain arithmetic. */
module Bits {

  type Byte = n: nat | n < 0x100
  type U64 = n: nat | n < 0x1_0000_0000_0000_0000

  function Pow2(k: nat): (p: nat)
    ensures p >= 1
  {
    if k == 0 then 1 else 2 * Pow2(k - 1)
  }

  lemma Pow2Small()
    ensures Pow2(4) == 0x10 && Pow2(7) == 0x80 && Pow2(8) == 0x100
  {
  }

  /** Bitwise AND of two naturals, from the lowest bit up. */
  function And(a: nat, b: nat): nat
  {
    if a == 0 || b == 0 then 0
    else 2 * And(a / 2, b / 2) + (if a % 2 == 1 && b % 2 == 1 then 1 else 0)
  }

  /** Bitwise OR of two naturals, from the lowest bit up. */
  function Or(a: nat, b: nat): nat
  {
    if a == 0 then b
    else if b == 0 then a
    else 2 * Or(a / 2, b / 2) + (if a % 2 == 1 || b % 2 == 1 then 1 else 0)
  }

  /** Bit `i` of `a` (bit 0 is the lowest). */
  function Bit(a: nat, i: nat): (d: nat)
    ensures d < 2
  {
    if i == 0 then a % 2 else Bit(a / 2, i - 1)
  }

  /** Every bit of zero is 0. */
  lemma {:induction false} BitZero(i: nat)
    ensures Bit(0, i) == 0
  {
    if i > 0 {
      BitZero(i - 1);
    }
  }

  /** The bits of `2 * x + l`, for a bit `l`: `l` at the bottom, then the bits of `x`. */
  lemma BitStep(x: nat, l: nat, i: nat)
    requires l < 2
    ensures Bit(2 * x + l, i) == if i == 0 then l else Bit(x, i - 1)
  {
    ModUnique(2 * x + l, 2, x, l);
  }

  /** AND is bitwise: bit `i` of `a & b` is set exactly when bit `i` is set in both. */
  lemma {:induction false} AndBits(a: nat, b: nat, i: nat)
    ensures Bit(And(a, b), i) == if Bit(a, i) == 1 && Bit(b, i) == 1 then 1 else 0
  {
    if a == 0 || b == 0 {
      BitZero(i);
    } else {
      BitStep(And(a / 2, b / 2), if a % 2 == 1 && b % 2 == 1 then 1 else 0, i);
      if i > 0 {
        AndBits(a / 2, b / 2, i - 1);
      }
    }
  }

  /** OR is bitwise: bit `i` of `a | b` is set exactly when bit `i` is set in either. */
  lemma {:induction false} OrBits(a: nat, b: nat, i: nat)
    ensures Bit(Or(a, b), i) == if Bit(a, i) == 1 || Bit(b, i) == 1 then 1 else 0
  {
    if a == 0 || b == 0 {
      BitZero(i);
    } else {
      BitStep(Or(a / 2, b / 2), if a % 2 == 1 || b % 2 == 1 then 1 else 0, i);
      if i > 0 {
        OrBits(a / 2, b / 2, i - 1);
      }
    }
  }

  /** Left shift by `k` bits on unbounded naturals. No bit above any word width
      is dropped; `Otp.Truncate` shows the source's shifts never reach one. */
  function Shl(a: nat, k: nat): nat
  {
    a * Pow2(k)
  }

  /** A left shift leaves the low `k` bits zero, and shifting back right by `k`
      recovers the operand: `(a << k) >> k == a`. */
  lemma ShlShr(a: nat, k: nat)
    ensures Shl(a, k) % Pow2(k) == 0 && Shl(a, k) / Pow2(k) == a
  {
    ModUnique(Shl(a, k), Pow2(k), a, 0);
  }

  /** Splitting off the lowest base-`b` digit: `n % (b * p) == ((n / b) % p) * b + n % b`. */
  lemma ModSplit(n: nat, b: nat, p: nat)
    requires b >= 1 && p >= 1
    ensures n % (b * p) == ((n / b) % p) * b + n % b
  {
    var m, r := n / b, n % b;
    var q, t := m / p, m % p;
    assert n == b * m + r;
    assert m == p * q + t;
    Distribute(b, p, q, t);
    MulMonotone(b, t + 1, p);
    ModUnique(n, b * p, q, t * b + r);
  }

  lemma Distribute(b: nat, p: nat, q: nat, t: nat)
    ensures b * (p * q + t) == (b * p) * q + t * b
  {
  }

  /** Quotient and remainder are the unique `q`, `r` with `a == m * q + r` and `0 <= r < m`. */
  lemma ModUnique(a: nat, m: nat, q: nat, r: nat)
    requires 0 <= r < m && a == m * q + r
    ensures a / m == q && a % m == r
  {
    var q' := a / m;
    assert m * q' + a % m == a;
    if q < q' {
      MulMonotone(m, q + 1, q');
      assert false;
    } else if q' < q {
      MulMonotone(m, q' + 1, q);
      assert false;
    }
  }

  lemma MulMonotone(m: nat, x: nat, y: nat)
    requires x <= y
    ensures m * x <= m * y
  {
  }

  /** Masking with `2^k - 1` keeps the low `k` bits: `a & (2^k - 1) == a % 2^k`. */
  lemma {:induction false} AndLowMask(a: nat, k: nat)
    ensures And(a, Pow2(k) - 1) == a % Pow2(k)
  {
    if k == 0 {
      assert Pow2(k) == 1 && And(a, 0) == 0;
    } else if a == 0 {
      assert And(0, Pow2(k) - 1) == 0;
      ModUnique(0, Pow2(k), 0, 0);
    } else {
      AndLowMask(a / 2, k - 1);
      AndLowMaskStep(a, k);
    }
  }

  /** The inductive step of `AndLowMask`: from the bits above the lowest to all of them. */
  lemma AndLowMaskStep(a: nat, k: nat)
    requires k > 0 && a != 0
    requires And(a / 2, Pow2(k - 1) - 1) == (a / 2) % Pow2(k - 1)
    ensures And(a, Pow2(k) - 1) == a % Pow2(k)
  {
    var p := Pow2(k - 1);
    assert Pow2(k) == 2 * p;
    AndOddMask(a, p);
    ModSplit(a, 2, p);
  }

  /** One bit of an odd mask `2p - 1`: the low bit of `a` survives and the rest is masked with `p - 1`. */
  lemma AndOddMask(a: nat, p: nat)
    requires p >= 1 && a != 0
    ensures And(a, 2 * p - 1) == 2 * And(a / 2, p - 1) + a % 2
  {
    var m := 2 * p - 1;
    assert m != 0 && m / 2 == p - 1 && m % 2 == 1;
  }

  /** OR of a value shifted left by `k` with a value below `2^k` is their sum. */
  lemma {:induction false} OrDisjoint(x: nat, y: nat, k: nat)
    requires y < Pow2(k)
    ensures Or(x * Pow2(k), y) == x * Pow2(k) + y
  {
    if k > 0 && x != 0 && y != 0 {
      var p := Pow2(k - 1);
      assert x * Pow2(k) == 2 * (x * p);
      assert (x * Pow2(k)) / 2 == x * p && (x * Pow2(k)) % 2 == 0;
      OrDisjoint(x, y / 2, k - 1);
    }
  }

  /** OR commutes with a common left shift: `(a << k) | (b << k) == (a | b) << k`. */
  lemma {:induction false} OrShift(a: nat, b: nat, k: nat)
    ensures Or(a * Pow2(k), b * Pow2(k)) == Or(a, b) * Pow2(k)
  {
    if k > 0 && a != 0 && b != 0 {
      var p := Pow2(k - 1);
      var x, y := a * p, b * p;
      Pow2Step(a, k);
      Pow2Step(b, k);
      Pow2Step(Or(a, b), k);
      OrDouble(x, y);
      OrShift(a, b, k - 1);
    }
  }

  lemma Pow2Step(a: nat, k: nat)
    requires k > 0
    ensures a * Pow2(k) == 2 * (a * Pow2(k - 1))
  {
  }

  lemma OrDouble(x: nat, y: nat)
    ensures Or(2 * x, 2 * y) == 2 * Or(x, y)
  {
    if x != 0 && y != 0 {
      assert (2 * x) / 2 == x && (2 * y) / 2 == y;
    }
  }

  lemma {:induction false} Pow2Add(j: nat, k: nat)
    ensures Pow2(j + k) == Pow2(j) * Pow2(k)
  {
    if j > 0 {
      Pow2Add(j - 1, k);
    }
  }

  /** One step of assembling a value byte by byte: `(x << (k + 8)) | (y << k) == ((x << 8) + y) << k`. */
  lemma OrByte(x: nat, y: nat, k: nat)
    requires y < 0x100
    ensures Or(Shl(x, k + 8), Shl(y, k)) == Shl(x * 0x100 + y, k)
  {
    Pow2Add(8, k);
    assert Pow2(8) == 0x100;
    var p := Pow2(k);
    assert x * Pow2(k + 8) == (x * 0x100) * p;
    OrShift(x * 0x100, y, k);
    OrDisjoint(x, y, 8);
  }
}
