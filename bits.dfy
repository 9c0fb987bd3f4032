/** Bitwise operations on unsigned integers, defined one bit at a time from
    the least significant bit up.  `k` is the number of bits taken into
    account. */
module Bits {

  function Pow2(n: nat): (p: nat)
    ensures p > 0
  {
    if n == 0 then 1 else 2 * Pow2(n - 1)
  }

  lemma {:induction false} Pow2Monotone(a: nat, b: nat)
    requires a <= b
    ensures Pow2(a) <= Pow2(b)
  {
    if a < b {
      Pow2Monotone(a, b - 1);
    }
  }

  lemma {:induction false} Pow2Add(a: nat, b: nat)
    ensures Pow2(a + b) == Pow2(a) * Pow2(b)
  {
    if b > 0 {
      Pow2Add(a, b - 1);
      assert Pow2(a + b) == 2 * Pow2(a + (b - 1));
      assert Pow2(a) * Pow2(b) == Pow2(a) * (2 * Pow2(b - 1)) == 2 * (Pow2(a) * Pow2(b - 1));
    }
  }

  /** Bit `i` of `x`. */
  function Bit(x: nat, i: nat): (b: nat)
    ensures b <= 1
  {
    if i == 0 then x % 2 else Bit(x / 2, i - 1)
  }

  /** Bitwise AND of the low `k` bits of `x` and `y`. */
  function AndBits(x: nat, y: nat, k: nat): nat
  {
    if k == 0 then 0
    else 2 * AndBits(x / 2, y / 2, k - 1) + (if x % 2 == 1 && y % 2 == 1 then 1 else 0)
  }

  /** Bitwise XOR of the low `k` bits of `x` and `y`. */
  function XorBits(x: nat, y: nat, k: nat): nat
  {
    if k == 0 then 0
    else 2 * XorBits(x / 2, y / 2, k - 1) + (if x % 2 != y % 2 then 1 else 0)
  }

  /** Bitwise NOT of the low `k` bits of `x`. */
  function NotBits(x: nat, k: nat): nat
  {
    if k == 0 then 0 else 2 * NotBits(x / 2, k - 1) + (1 - x % 2)
  }

  /** Bitwise OR of the low `k` bits of `x` and `y`. */
  function OrBits(x: nat, y: nat, k: nat): nat
  {
    if k == 0 then 0
    else 2 * OrBits(x / 2, y / 2, k - 1) + (if x % 2 == 1 || y % 2 == 1 then 1 else 0)
  }

  lemma {:induction false} BitsBound(x: nat, y: nat, k: nat)
    ensures AndBits(x, y, k) < Pow2(k) && XorBits(x, y, k) < Pow2(k)
    ensures OrBits(x, y, k) < Pow2(k) && NotBits(x, k) < Pow2(k)
  {
    if k > 0 { BitsBound(x / 2, y / 2, k - 1); }
  }

  /** Halving and the low bit of a result, in terms of the operands. */
  lemma AndBitsSplit(x: nat, y: nat, k: nat)
    requires k > 0
    ensures AndBits(x, y, k) / 2 == AndBits(x / 2, y / 2, k - 1)
    ensures AndBits(x, y, k) % 2 == if x % 2 == 1 && y % 2 == 1 then 1 else 0
  {
  }

  lemma XorBitsSplit(x: nat, y: nat, k: nat)
    requires k > 0
    ensures XorBits(x, y, k) / 2 == XorBits(x / 2, y / 2, k - 1)
    ensures XorBits(x, y, k) % 2 == if x % 2 != y % 2 then 1 else 0
  {
  }

  lemma NotBitsSplit(x: nat, k: nat)
    requires k > 0
    ensures NotBits(x, k) / 2 == NotBits(x / 2, k - 1)
    ensures NotBits(x, k) % 2 == 1 - x % 2
  {
  }

  lemma {:induction false} XorBitsSelf(x: nat, k: nat)
    ensures XorBits(x, x, k) == 0
  {
    if k > 0 {
      XorBitsSelf(x / 2, k - 1);
    }
  }

  lemma {:induction false} AndBitsZero(x: nat, k: nat)
    ensures AndBits(x, 0, k) == 0
  {
    if k > 0 {
      AndBitsZero(x / 2, k - 1);
    }
  }

  lemma {:induction false} OrBitsZero(x: nat, k: nat)
    requires x < Pow2(k)
    ensures OrBits(0, x, k) == x
  {
    if k > 0 {
      OrBitsZero(x / 2, k - 1);
    }
  }

  /** Within `k` bits, NOT is subtraction from all-ones. */
  lemma {:induction false} NotBitsValue(x: nat, k: nat)
    requires x < Pow2(k)
    ensures NotBits(x, k) == Pow2(k) - 1 - x
  {
    if k > 0 {
      NotBitsValue(x / 2, k - 1);
    }
  }

  /** Clearing the bits outside `m` before XOR-ing with `w` changes nothing
      under `m`. */
  lemma {:induction false} AndXorAnd(x: nat, w: nat, m: nat, k: nat)
    ensures AndBits(XorBits(AndBits(x, m, k), w, k), m, k) == AndBits(XorBits(x, w, k), m, k)
  {
    if k > 0 {
      var a := AndBits(x, m, k);
      AndBitsSplit(x, m, k);
      XorBitsSplit(a, w, k);
      XorBitsSplit(x, w, k);
      AndXorAnd(x / 2, w / 2, m / 2, k - 1);
    }
  }

  /** A value kept under `m` has no bit outside it. */
  lemma {:induction false} AndNotAnd(x: nat, m: nat, k: nat)
    ensures AndBits(AndBits(x, m, k), NotBits(m, k), k) == 0
  {
    if k > 0 {
      AndBitsSplit(x, m, k);
      NotBitsSplit(m, k);
      AndNotAnd(x / 2, m / 2, k - 1);
    }
  }

  /** A value cleared under `m` has no bit inside it. */
  lemma {:induction false} AndAndNot(x: nat, m: nat, k: nat)
    ensures AndBits(AndBits(x, NotBits(m, k), k), m, k) == 0
  {
    if k > 0 {
      AndBitsSplit(x, NotBits(m, k), k);
      NotBitsSplit(m, k);
      AndAndNot(x / 2, m / 2, k - 1);
    }
  }

  /** `2^r - 1` has exactly the bits below `r` set. */
  lemma {:induction false} LowOnesBits(r: nat, i: nat)
    ensures Bit(Pow2(r) - 1, i) == if i < r then 1 else 0
  {
    if r > 0 && i > 0 {
      assert (Pow2(r) - 1) / 2 == Pow2(r - 1) - 1;
      LowOnesBits(r - 1, i - 1);
    } else if i > 0 {
      assert Bit(0, i) == 0 by { ZeroBits(i); }
    }
  }

  lemma {:induction false} ZeroBits(i: nat)
    ensures Bit(0, i) == 0
  {
    if i > 0 {
      ZeroBits(i - 1);
    }
  }

  /** AND with `2^r - 1` keeps the low `r` bits: the remainder modulo `2^r`. */
  lemma {:induction false} AndLowOnes(x: nat, r: nat, k: nat)
    requires r <= k
    ensures AndBits(x, Pow2(r) - 1, k) == x % Pow2(r)
  {
    if r == 0 {
      AndBitsZero(x, k);
    } else {
      AndLowOnes(x / 2, r - 1, k - 1);
      assert (Pow2(r) - 1) / 2 == Pow2(r - 1) - 1;
      DivMod2(x, Pow2(r - 1));
    }
  }

  /** `x mod 2p` splits into its low bit and `(x / 2) mod p`. */
  lemma DivMod2(x: nat, p: nat)
    requires p > 0
    ensures x % (2 * p) == 2 * ((x / 2) % p) + x % 2
  {
    var q := (x / 2) / p;
    var y := (x / 2) % p;
    assert x / 2 == q * p + y;
    assert x == 2 * (x / 2) + x % 2;
    assert x == q * (2 * p) + (2 * y + x % 2);
    ModUnique(x, q, 2 * y + x % 2, 2 * p);
  }

  lemma MulAtLeast(k: int, n: int)
    requires k >= 1 && n >= 0
    ensures k * n >= n
  {
    var d := k - 1;
    assert d >= 0;
    assert k * n == d * n + n;
  }

  /** Division with remainder is unique. */
  lemma ModUnique(x: int, q: int, r: int, n: int)
    requires n > 0 && 0 <= r < n && x == q * n + r
    ensures x % n == r
  {
    var q', r' := x / n, x % n;
    assert x == q' * n + r';
    assert (q - q') * n == r' - r;
    if q > q' {
      MulAtLeast(q - q', n);
    } else if q < q' {
      MulAtLeast(q' - q, n);
    }
  }
}
