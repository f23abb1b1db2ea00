/** Machine integers: the mask arithmetic of `align` and the narrowing to `int`.
    Unsigned C values are naturals below their modulus; the wrap-around is written out. */
module Bits {
  const MOD32: nat := 0x1_0000_0000
  const MOD64: nat := 0x1_0000_0000_0000_0000
  const PAGE: nat := 0x1000

  function Pow2(k: nat): (p: nat)
    ensures p >= 1
  {
    if k == 0 then 1 else 2 * Pow2(k - 1)
  }

  /** The bitwise `&` of two unsigned integers, one binary digit at a time. */
  function BitAnd(a: nat, b: nat): nat {
    if a == 0 || b == 0 then 0 else (if a % 2 == 1 && b % 2 == 1 then 1 else 0) + 2 * BitAnd(a / 2, b / 2)
  }

  /** The binary digit of `a` at position `i`. */
  function Bit(a: nat, i: nat): nat {
    if i == 0 then a % 2 else Bit(a / 2, i - 1)
  }

  /** `(v + mask) & ~mask` with `v` an unsigned long and `mask` an unsigned: the complement is
      taken in 32 bits and then zero-extended, so the upper half of the sum is lost. */
  function Align(v: nat, mask: nat): nat
    requires mask < MOD32
  {
    BitAnd((v + mask) % MOD64, MOD32 - 1 - mask)
  }

  /** Conversion of an unsigned value to a 32-bit signed int. */
  function ToInt32(x: nat): (i: int)
    ensures -0x8000_0000 <= i < 0x8000_0000
    ensures (i - x) % MOD32 == 0
  {
    var y := x % MOD32;
    if y < 0x8000_0000 then y else y - MOD32
  }

  /** What an int-returning system call leaves in a 64-bit register. */
  function RetWord(r: int): (w: nat)
    ensures w < MOD32
    ensures -0x8000_0000 <= r < 0x8000_0000 ==> ToInt32(w) == r
  {
    r % MOD32
  }

  /** `r` is the least multiple of `m` that is not below `v`. */
  ghost predicate LeastMultiple(r: nat, v: nat, m: nat)
    requires m > 0
  {
    r % m == 0 && v <= r && forall t: nat | v <= t && t % m == 0 :: r <= t
  }

  lemma {:induction false} BitAndDigits(a: nat, b: nat, i: nat)
    ensures Bit(BitAnd(a, b), i) == if Bit(a, i) == 1 && Bit(b, i) == 1 then 1 else 0
  {
    if a == 0 || b == 0 {
      ZeroDigits(i);
    } else if i > 0 {
      BitAndDigits(a / 2, b / 2, i - 1);
      assert BitAnd(a, b) / 2 == BitAnd(a / 2, b / 2);
    }
  }

  lemma {:induction false} ZeroDigits(i: nat)
    ensures Bit(0, i) == 0
  {
    if i > 0 { ZeroDigits(i - 1); }
  }

  lemma HalfMod(x: nat, n: nat)
    requires n > 0
    ensures x % (2 * n) == 2 * (x / 2 % n) + x % 2
  {
    var q, r := x / 2 / n, x / 2 % n;
    assert x == 2 * (n * q + r) + x % 2;
    assert x == q * (2 * n) + (2 * r + x % 2);
    DivModUnique(x, 2 * n, q, 2 * r + x % 2);
  }

  lemma DivModUnique(x: int, m: nat, q: int, r: int)
    requires m > 0 && 0 <= r < m && x == q * m + r
    ensures x / m == q && x % m == r
  {
    var d := x / m - q;
    assert d * m == r - x % m by {
      assert x == x / m * m + x % m;
    }
    if d != 0 {
      MulMonotone(1, if d > 0 then d else -d, m);
      assert false;
    }
  }

  lemma MulMonotone(a: int, b: int, m: nat)
    requires a <= b
    ensures a * m <= b * m
  {
  }

  lemma {:induction false} Pow2Monotone(k: nat, n: nat)
    requires k <= n
    ensures Pow2(k) <= Pow2(n)
  {
    if k < n { Pow2Monotone(k, n - 1); }
  }

  /** The `k` lowest binary digits of `x`. */
  function LowBits(x: nat, k: nat): (r: nat) {
    if k == 0 then 0 else x % 2 + 2 * LowBits(x / 2, k - 1)
  }

  lemma {:induction false} LowBitsMod(x: nat, k: nat)
    ensures LowBits(x, k) == x % Pow2(k)
  {
    if k > 0 {
      LowBitsMod(x / 2, k - 1);
      HalfMod(x, Pow2(k - 1));
    }
  }

  /** Masking with the bits from `k` up to `n`. */
  lemma {:induction false} MaskHighBits(x: nat, k: nat, n: nat)
    requires k <= n
    ensures Pow2(k) <= Pow2(n)
    ensures BitAnd(x, Pow2(n) - Pow2(k)) == LowBits(x, n) - LowBits(x, k)
  {
    Pow2Monotone(k, n);
    if n > 0 {
      var low := if k > 0 then k - 1 else 0;
      MaskHighBits(x / 2, low, n - 1);
      BitAndDouble(x, Pow2(n - 1) - Pow2(low), if k > 0 then 0 else 1);
    }
  }

  lemma BitAndDouble(x: nat, b: nat, low: nat)
    requires low < 2
    ensures BitAnd(x, 2 * b + low) == (if low == 1 then x % 2 else 0) + 2 * BitAnd(x / 2, b)
  {
    assert (2 * b + low) % 2 == low && (2 * b + low) / 2 == b;
    if x == 0 || 2 * b + low == 0 {
      assert BitAnd(x / 2, b) == 0;
    }
  }

  lemma Pow2Of32()
    ensures Pow2(32) == MOD32 && Pow2(12) == PAGE
  {
    assert Pow2(8) == 256;
    assert Pow2(12) == 4096;
    assert Pow2(16) == 0x1_0000;
    assert Pow2(20) == 0x10_0000;
    assert Pow2(24) == 0x100_0000;
    assert Pow2(28) == 0x1000_0000;
  }

  /** Subtracting the remainder gives the least multiple above. */
  lemma RoundUp(v: nat, m: nat, r: nat)
    requires m > 0 && r == v + m - 1 - (v + m - 1) % m
    ensures LeastMultiple(r, v, m)
  {
    var q := (v + m - 1) / m;
    assert r == q * m;
    DivModUnique(r, m, q, 0);
    forall t: nat | v <= t && t % m == 0
      ensures r <= t
    {
      NextMultiple(t, q, m);
    }
  }

  lemma NextMultiple(t: nat, q: nat, m: nat)
    requires m > 0 && t % m == 0 && q * m < t + m
    ensures q * m <= t
  {
    var j := t / m;
    assert t == j * m;
    if j < q {
      MulMonotone(j + 1, q, m);
      assert false;
    }
    MulMonotone(q, j, m);
  }

  /** `align` with a mask of `k` ones rounds up exactly when the sum stays within 32 bits. */
  lemma AlignRoundsUpIff(v: nat, k: nat)
    requires v < MOD64 && k <= 32
    ensures Pow2(k) <= MOD32
    ensures LeastMultiple(Align(v, Pow2(k) - 1), v, Pow2(k)) <==> v + Pow2(k) - 1 < MOD32
  {
    Pow2Word(k);
    AlignIff(v, k, Pow2(k));
  }

  /** The largest 32-bit value is rounded to 0. */
  lemma AlignTooLarge(v: nat, m: nat)
    requires v == MOD32 - 1 && m == PAGE
    ensures Align(v, m - 1) == 0 && !LeastMultiple(0, v, m)
  {
    Pow2Of32();
    AlignWraps(v, 12, m, v + m - 1);
  }

  lemma AlignWraps(v: nat, k: nat, m: nat, s: nat)
    requires k <= 32 && m == Pow2(k) && s == v + m - 1 < MOD64
    ensures m <= MOD32 && Align(v, m - 1) == s % MOD32 - s % m
  {
    AlignValue(v, k, m, s);
    LowBitsMod(s, k);
  }

  lemma AlignIff(v: nat, k: nat, m: nat)
    requires v < MOD64 && k <= 32 && m == Pow2(k) <= MOD32
    ensures LeastMultiple(Align(v, m - 1), v, m) <==> v + m - 1 < MOD32
  {
    if v + m - 1 < MOD32 {
      AlignInRange(v, k, m);
    } else {
      AlignOutOfRange(v, k, m);
    }
  }

  lemma AlignInRange(v: nat, k: nat, m: nat)
    requires k <= 32 && m == Pow2(k) && v + m - 1 < MOD32
    ensures LeastMultiple(Align(v, m - 1), v, m)
  {
    AlignedSum(v, k, m, v + m - 1);
    RoundUp(v, m, Align(v, m - 1));
  }

  lemma AlignedSum(v: nat, k: nat, m: nat, s: nat)
    requires k <= 32 && m == Pow2(k) && s == v + m - 1 < MOD32
    ensures Align(v, m - 1) == s - s % m
  {
    SmallMod(s);
    AlignValue(v, k, m, s);
    LowBitsMod(s, k);
  }

  lemma SmallMod(s: nat)
    requires s < MOD32
    ensures s % MOD64 == s && s % MOD32 == s
  {
  }

  lemma AlignOutOfRange(v: nat, k: nat, m: nat)
    requires k <= 32 && m == Pow2(k) <= MOD32 && MOD32 <= v + m - 1 && v < MOD64
    ensures Align(v, m - 1) < v
  {
    var s := (v + m - 1) % MOD64;
    AlignValue(v, k, m, s);
    if v < MOD32 {
      SumPastWord(v, k, m, s);
    }
  }

  /** `align` keeps the low 32 bits of the sum and clears the lowest `k` of them. */
  lemma AlignValue(v: nat, k: nat, m: nat, s: nat)
    requires k <= 32 && m == Pow2(k) && s == (v + m - 1) % MOD64
    ensures m <= MOD32
    ensures Align(v, m - 1) == s % MOD32 - LowBits(s, k)
  {
    MaskWord(s, k, m);
  }

  lemma MaskWord(s: nat, k: nat, m: nat)
    requires k <= 32 && m == Pow2(k)
    ensures m <= MOD32
    ensures BitAnd(s, MOD32 - m) == s % MOD32 - LowBits(s, k)
  {
    MaskHighBits(s, k, 32);
    LowBitsMod(s, 32);
    Pow2Of32();
  }

  lemma Pow2Word(k: nat)
    requires k <= 32
    ensures Pow2(k) <= MOD32
  {
    Pow2Of32();
    Pow2Monotone(k, 32);
  }

  /** A sum just past 32 bits leaves nothing above the mask. */
  lemma SumPastWord(v: nat, k: nat, m: nat, s: nat)
    requires k <= 32 && m == Pow2(k) <= MOD32 && s == v + m - 1 && v < MOD32 <= s
    ensures s % MOD32 == LowBits(s, k)
  {
    Pow2Of32();
    Pow2Split(k, 32 - k);
    LowBitsMod(s, k);
    DivModUnique(s, m, Pow2(32 - k), s - MOD32);
  }

  lemma {:induction false} Pow2Split(k: nat, n: nat)
    ensures Pow2(k + n) == Pow2(n) * Pow2(k)
  {
    if n > 0 { Pow2Split(k, n - 1); }
  }
}
