/**
 Machine-word operators on non-negative integers: shifts, exclusive or, masks and
 leading zeros of 64-bit words, together with the facts the tree code relies on.
 Right shifts are defined by repeated halving, so most proofs stay linear.
 */
module Bits {

  function Pow2(n: nat): (p: nat)
    ensures p >= 1
  {
    if n == 0 then 1 else 2 * Pow2(n - 1)
  }

  /** `i >> l` */
  function Shr(i: nat, l: nat): nat {
    if l == 0 then i else Shr(i, l - 1) / 2
  }

  /** The other child of the parent of node `k`. */
  function Sibling(k: nat): (s: nat)
    ensures s != k && s / 2 == k / 2 && s % 2 != k % 2
  {
    if k % 2 == 0 then k + 1 else k - 1
  }

  /** `a ^ b` */
  function Xor(a: nat, b: nat): nat
    decreases a + b
  {
    if a == 0 && b == 0 then 0
    else 2 * Xor(a / 2, b / 2) + (if a % 2 == b % 2 then 0 else 1)
  }

  /** `a & b` */
  function And(a: nat, b: nat): nat {
    if a == 0 || b == 0 then 0
    else 2 * And(a / 2, b / 2) + (if a % 2 == 1 && b % 2 == 1 then 1 else 0)
  }

  /** Number of significant bits. */
  function BitLength(x: nat): nat {
    if x == 0 then 0 else 1 + BitLength(x / 2)
  }

  /** `(x as u64).leading_zeros()` */
  function LeadingZeros64(x: nat): int {
    64 - BitLength(x)
  }

  /** `(x as u64) << n`: the bits shifted out at the top are lost. */
  function Shl64(x: nat, n: nat): nat {
    (x * Pow2(n)) % TWO_TO_THE_64
  }

  const TWO_TO_THE_64: nat := 0x1_0000_0000_0000_0000

  lemma Pow2Double(n: nat, p: nat)
    requires Pow2(n) == p
    ensures Pow2(2 * n) == p * p
  {
    Pow2Add(n, n);
  }

  lemma WordSize()
    ensures Pow2(64) == TWO_TO_THE_64
  {
    Pow2Double(4, 0x10);
    Pow2Double(8, 0x100);
    Pow2Double(16, 0x1_0000);
    Pow2Double(32, 0x1_0000_0000);
  }

  lemma Pow2Monotone(a: nat, b: nat)
    requires a <= b
    ensures Pow2(a) <= Pow2(b)
    decreases b
  {
    if a < b { Pow2Monotone(a, b - 1); }
  }

  lemma {:induction false} Pow2Add(a: nat, b: nat)
    ensures Pow2(a + b) == Pow2(a) * Pow2(b)
  {
    if a != 0 {
      Pow2Add(a - 1, b);
      assert Pow2(a + b) == 2 * Pow2(a - 1 + b);
      MulAssoc(2, Pow2(a - 1), Pow2(b));
    }
  }

  lemma MulAssoc(x: int, y: int, z: int)
    ensures x * (y * z) == (x * y) * z
  {
  }

  lemma {:induction false} ShrShift(i: nat, l: nat)
    ensures Shr(i / 2, l) == Shr(i, l + 1)
  {
    if l != 0 { ShrShift(i, l - 1); }
  }

  lemma ShrZero(l: nat)
    ensures Shr(0, l) == 0
  {
  }

  /** Indices that agree at one level agree at every level above it. */
  lemma ShrAgree(i: nat, j: nat, l: nat, m: nat)
    requires l <= m && Shr(i, l) == Shr(j, l)
    ensures Shr(i, m) == Shr(j, m)
    decreases m
  {
    if l < m { ShrAgree(i, j, l, m - 1); }
  }

  lemma {:induction false} ShrBound(i: nat, l: nat, n: nat)
    requires l <= n && i < Pow2(n)
    ensures Shr(i, l) < Pow2(n - l)
  {
    if l != 0 { ShrBound(i, l - 1, n); }
  }

  lemma {:induction false} ShrAddPow2(i: nat, n: nat, l: nat)
    requires l <= n
    ensures Shr(Pow2(n) + i, l) == Pow2(n - l) + Shr(i, l)
  {
    if l != 0 { ShrAddPow2(i, n, l - 1); }
  }

  lemma {:induction false} ShrIsDivision(i: nat, l: nat)
    ensures Shr(i, l) == i / Pow2(l)
  {
    if l != 0 {
      ShrIsDivision(i, l - 1);
      var p := Pow2(l - 1);
      DivDiv(i, p);
    }
  }

  lemma DivDiv(i: nat, p: nat)
    requires p >= 1
    ensures (i / p) / 2 == i / (2 * p)
  {
    var q, r := i / p, i % p;
    assert i == q * p + r;
    var q2, r2 := q / 2, q % 2;
    assert q == 2 * q2 + r2;
    assert i == q2 * (2 * p) + (r2 * p + r) by {
      assert (2 * q2 + r2) * p == q2 * (2 * p) + r2 * p;
    }
    assert r2 * p <= p;
    DivUnique(i, 2 * p, q2, r2 * p + r);
  }

  lemma MulAtLeast(k: int, d: int)
    requires k >= 1 && d >= 0
    ensures k * d >= d
  {
  }

  lemma DivUnique(x: int, d: int, q: int, r: int)
    requires d > 0 && x == q * d + r && 0 <= r < d
    ensures x / d == q && x % d == r
  {
    var q', r' := x / d, x % d;
    var k := q - q';
    assert k * d == r' - r by {
      assert x == q' * d + r';
      assert k * d == q * d - q' * d;
    }
    if k >= 1 {
      MulAtLeast(k, d);
    } else if k <= -1 {
      MulAtLeast(-k, d);
    }
  }

  lemma {:induction false} XorPositive(a: nat, b: nat)
    requires a != b
    ensures Xor(a, b) > 0
    decreases a + b
  {
    if a / 2 != b / 2 { XorPositive(a / 2, b / 2); }
  }

  lemma {:induction false} XorBound(a: nat, b: nat, n: nat)
    requires a < Pow2(n) && b < Pow2(n)
    ensures Xor(a, b) < Pow2(n)
  {
    if n != 0 { XorBound(a / 2, b / 2, n - 1); }
  }

  lemma {:induction false} XorSelf(a: nat)
    ensures Xor(a, a) == 0
  {
    if a != 0 { XorSelf(a / 2); }
  }

  lemma {:induction false} BitLengthBound(x: nat, n: nat)
    requires x < Pow2(n)
    ensures BitLength(x) <= n
  {
    if x != 0 { BitLengthBound(x / 2, n - 1); }
  }

  lemma {:induction false} BitLengthShl(x: nat, n: nat)
    requires x > 0
    ensures BitLength(x * Pow2(n)) == BitLength(x) + n
  {
    if n != 0 {
      BitLengthShl(x, n - 1);
      assert x * Pow2(n) == 2 * (x * Pow2(n - 1));
      assert x * Pow2(n - 1) > 0;
    }
  }

  /** The highest differing bit of two indices is the level at which their paths meet as siblings. */
  lemma {:induction false} HighestDifferingBit(i: nat, j: nat)
    requires i != j
    ensures Xor(i, j) > 0
    ensures Shr(j, BitLength(Xor(i, j)) - 1) == Sibling(Shr(i, BitLength(Xor(i, j)) - 1))
    decreases i + j
  {
    XorPositive(i, j);
    if i / 2 == j / 2 {
      XorSelf(i / 2);
      assert Xor(i, j) == 1;
    } else {
      HighestDifferingBit(i / 2, j / 2);
      var l := BitLength(Xor(i / 2, j / 2)) - 1;
      assert Xor(i, j) / 2 == Xor(i / 2, j / 2);
      assert BitLength(Xor(i, j)) - 1 == l + 1;
      ShrShift(i, l);
      ShrShift(j, l);
      assert Shr(j, l + 1) == Sibling(Shr(i, l + 1));
    }
  }
}
