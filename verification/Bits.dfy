/** Bitwise operators on unsigned words, and the powers of two they isolate. */
module Bits {
  import opened Words

  function Pow2(k: nat): (p: nat)
    ensures p > 0
  {
    if k == 0 then 1 else 2 * Pow2(k - 1)
  }

  /** The conjunction of the lowest bits. */
  function BothOdd(a: nat, b: nat): nat {
    if a % 2 == 1 && b % 2 == 1 then 1 else 0
  }

  function BitAnd(a: nat, b: nat): nat {
    if a == 0 || b == 0 then 0 else BothOdd(a, b) + 2 * BitAnd(a / 2, b / 2)
  }

  function Not64(a: u64): u64 {
    U64_LIMIT - 1 - a
  }

  lemma Pow2Is64()
    ensures Pow2(64) == U64_LIMIT
  {
    assert Pow2(4) == 16;
    Pow2Add(4, 4);
    assert Pow2(8) == 256;
    Pow2Add(8, 8);
    assert Pow2(16) == 65536;
    Pow2Add(16, 16);
    Pow2Add(32, 32);
  }

  lemma {:induction false} Pow2Add(j: nat, k: nat)
    ensures Pow2(j + k) == Pow2(j) * Pow2(k)
  {
    if j > 0 {
      Pow2Add(j - 1, k);
      assert j + k - 1 == j - 1 + k;
      DoubleProduct(Pow2(j - 1), Pow2(k));
    }
  }

  lemma DoubleProduct(a: int, b: int)
    ensures (2 * a) * b == 2 * (a * b)
  {
  }

  lemma {:induction false} Pow2Monotone(j: nat, k: nat)
    ensures j < k ==> 2 * Pow2(j) <= Pow2(k)
    ensures Pow2(j) <= Pow2(k) <==> j <= k
    decreases j + k
  {
    if j > 0 && k > 0 {
      Pow2Monotone(j - 1, k - 1);
    } else if k > 0 {
      Pow2Monotone(0, k - 1);
    } else if j > 0 {
      Pow2Monotone(j - 1, 0);
    }
  }

  lemma Scaled(m: int, e: int)
    requires m > 0
    ensures e >= 1 ==> m * e >= m
    ensures e <= 0 ==> m * e <= 0
    ensures e <= -1 ==> m * e <= -m
  {
  }

  lemma ModUnique(x: int, m: int, d: int, r: int)
    requires m > 0 && x == m * d + r && 0 <= r < m
    ensures x % m == r && x / m == d
  {
    var e := d - x / m;
    assert m * e == x % m - r;
    Scaled(m, e);
  }

  /** Halving: the low bit splits off a remainder by an even modulus. */
  lemma ModHalf(x: nat, q: nat)
    requires q > 0
    ensures x % (2 * q) == 2 * ((x / 2) % q) + x % 2
  {
    var d, e := (x / 2) / q, (x / 2) % q;
    assert x / 2 == q * d + e;
    assert x == 2 * (q * d + e) + x % 2 == (2 * q) * d + (2 * e + x % 2);
    ModUnique(x, 2 * q, d, 2 * e + x % 2);
  }

  /** A power of two divides whatever a larger power of two divides. */
  lemma {:induction false} DividesDown(x: nat, j: nat, k: nat)
    requires j <= k && x % Pow2(k) == 0
    ensures x % Pow2(j) == 0
  {
    if j > 0 {
      ModHalf(x, Pow2(k - 1));
      ModHalf(x, Pow2(j - 1));
      DividesDown(x / 2, j - 1, k - 1);
    }
  }

  lemma {:induction false} AndOnes(x: nat, w: nat)
    requires x < Pow2(w)
    ensures BitAnd(x, Pow2(w) - 1) == x
  {
    if x > 0 {
      AndOnes(x / 2, w - 1);
    }
  }

  lemma {:induction false} AndComplement(x: nat, w: nat)
    requires x < Pow2(w)
    ensures BitAnd(x, Pow2(w) - 1 - x) == 0
  {
    if x > 0 {
      AndComplement(x / 2, w - 1);
      assert (Pow2(w) - 1 - x) / 2 == Pow2(w - 1) - 1 - x / 2;
    }
  }

  lemma {:induction false} AndSelf(x: nat)
    ensures BitAnd(x, x) == x
  {
    if x > 0 {
      AndSelf(x / 2);
    }
  }

  lemma {:induction false} AndEven(x: nat, c: nat)
    ensures BitAnd(x, 2 * c) == 2 * BitAnd(x / 2, c)
  {
    assert (2 * c) % 2 == 0 && (2 * c) / 2 == c;
    assert BothOdd(x, 2 * c) == 0;
  }

  /** A mask and its complement split a number. */
  lemma {:induction false} AndSplit(x: nat, mask: nat, w: nat)
    requires x < Pow2(w) && mask < Pow2(w)
    ensures BitAnd(x, mask) + BitAnd(x, Pow2(w) - 1 - mask) == x
  {
    if w > 0 {
      AndSplit(x / 2, mask / 2, w - 1);
      var rest := Pow2(w) - 1 - mask;
      assert rest / 2 == Pow2(w - 1) - 1 - mask / 2 && rest % 2 == 1 - mask % 2;
      AndStep(x, mask);
      AndStep(x, rest);
    }
  }

  lemma AndStep(a: nat, b: nat)
    ensures BitAnd(a, b) == BothOdd(a, b) + 2 * BitAnd(a / 2, b / 2)
  {
  }

  lemma HalfRound(x: nat, q: nat)
    requires q > 0
    ensures x - x % (2 * q) == 2 * (x / 2 - (x / 2) % q)
  {
    ModHalf(x, q);
    assert x == 2 * (x / 2) + x % 2;
  }

  /** Masking with all bits from `k` up rounds down to a multiple of the `k`-th power. */
  lemma {:induction false} AndHighBits(x: nat, k: nat, w: nat)
    requires k <= w && x < Pow2(w) && Pow2(k) <= Pow2(w)
    ensures BitAnd(x, Pow2(w) - Pow2(k)) == x - x % Pow2(k)
  {
    if k == 0 {
      AndOnes(x, w);
    } else {
      var p, q := Pow2(w - 1), Pow2(k - 1);
      assert Pow2(w) - Pow2(k) == 2 * (p - q);
      AndHighBits(x / 2, k - 1, w - 1);
      HalfRound(x, q);
      AndEven(x, p - q);
    }
  }
}
