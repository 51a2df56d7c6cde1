/**
 * Unsigned machine words as natural numbers, and the C bit operators that the
 * Hilbert-key codec and its bit primitives use, each given its arithmetic
 * meaning: `x >> k` is `x / 2^k`, `x & y` and `x ^ y` are the bitwise
 * operators on the binary expansions, and `-x` on a 64-bit word is its two's
 * complement `2^64 - x`.  Every other module reasons about words through the
 * lemmas here.
 */
module Bits {

  const TWO_32: nat := 0x1_0000_0000
  const TWO_64: nat := 0x1_0000_0000_0000_0000

  /** A C `uint32_t`. */
  type u32 = x: nat | x < TWO_32
  /** A C `uint64_t`. */
  type u64 = x: nat | x < TWO_64

  // ---------------------------------------------------------------------------
  // Powers of two and plain division facts
  // ---------------------------------------------------------------------------

  function Pow2(k: nat): (r: nat)
    ensures r > 0
  {
    if k == 0 then 1 else Pow2(k - 1) + Pow2(k - 1)
  }

  lemma {:induction false} Pow2Add(a: nat, b: nat)
    ensures Pow2(a + b) == Pow2(a) * Pow2(b)
  {
    if b > 0 {
      Pow2Add(a, b - 1);
      assert Pow2(a + b) == 2 * Pow2(a + b - 1);
    }
  }

  lemma {:induction false} Pow2Le(a: nat, b: nat)
    requires a <= b
    ensures Pow2(a) <= Pow2(b)
  {
    if a < b {
      Pow2Le(a, b - 1);
    }
  }

  lemma Pow2Lt(a: nat, b: nat)
    requires a < b
    ensures 2 * Pow2(a) <= Pow2(b)
  {
    Pow2Le(a + 1, b);
  }

  lemma Pow2Byte()
    ensures Pow2(8) == 0x100
  {
    assert Pow2(4) == 16;
    Pow2Add(4, 4);
  }

  lemma Pow2Half()
    ensures Pow2(16) == 0x1_0000 && Pow2(32) == TWO_32
  {
    Pow2Byte();
    Pow2Add(8, 8);
    Pow2Add(16, 16);
  }

  /** The word sizes, as powers of two. */
  lemma Pow2Words()
    ensures Pow2(8) == 0x100 && Pow2(16) == 0x1_0000
    ensures Pow2(32) == TWO_32 && Pow2(64) == TWO_64
  {
    Pow2Half();
    Pow2Add(32, 32);
  }

  /** `k < 2^k`: a k-bit count always fits in a k-bit field. */
  lemma {:induction false} LtPow2(k: nat)
    ensures k < Pow2(k)
  {
    if k > 1 {
      LtPow2(k - 1);
    }
  }

  lemma MulLe(a: int, b: int, d: nat)
    requires a <= b
    ensures a * d <= b * d
  {
  }

  /** Division with remainder has a unique quotient and remainder. */
  lemma DivUnique(x: int, d: int, q: int, r: int)
    requires d > 0 && 0 <= r < d && x == q * d + r
    ensures x / d == q && x % d == r
  {
    var q', r' := x / d, x % d;
    assert x == q' * d + r';
    if q' > q {
      MulLe(q + 1, q', d);
      assert false;
    }
    if q' < q {
      MulLe(q' + 1, q, d);
      assert false;
    }
  }

  lemma DivDiv(x: nat, a: nat, b: nat)
    requires a > 0 && b > 0
    ensures x / a / b == x / (a * b)
    ensures x % (a * b) == x % a + a * ((x / a) % b)
  {
    var q, r := x / a, x % a;
    var q2, r2 := q / b, q % b;
    assert x == q2 * (a * b) + (r2 * a + r) by {
      assert q * a == (q2 * b + r2) * a;
      assert (q2 * b + r2) * a == q2 * (a * b) + r2 * a;
    }
    MulLe(r2, b - 1, a);
    assert r2 * a + r < a * b by {
      assert (b - 1) * a == a * b - a;
    }
    DivUnique(x, a * b, q2, r2 * a + r);
  }

  /** Splitting a number at a power of two. */
  lemma SplitAt(lo: nat, hi: nat, p: nat)
    requires 0 < p && lo < p
    ensures (lo + p * hi) / p == hi && (lo + p * hi) % p == lo
  {
    DivUnique(lo + p * hi, p, hi, lo);
  }

  /** Halving `a + 2y` halves `a` and keeps its last digit. */
  lemma HalfSum(a: nat, y: nat)
    ensures (a + 2 * y) / 2 == a / 2 + y && (a + 2 * y) % 2 == a % 2
  {
  }

  lemma MulDivExact(x: nat, p: nat)
    requires p > 0
    ensures (x * p) / p == x && (x * p) % p == 0
  {
    DivUnique(x * p, p, x, 0);
  }

  lemma {:induction false} Pow2Div(k: nat)
    requires k > 0
    ensures Pow2(k) / 2 == Pow2(k - 1) && Pow2(k) % 2 == 0
  {
  }

  /** `x / 2^k` and `x % 2^k` peel one binary digit at a time. */
  lemma HalfStep(x: nat, k: nat)
    ensures x / Pow2(k + 1) == (x / 2) / Pow2(k)
    ensures x % Pow2(k + 1) == x % 2 + 2 * ((x / 2) % Pow2(k))
  {
    DivDiv(x, 2, Pow2(k));
  }

  /** Dividing by a positive number never increases a natural number. */
  lemma DivLe(x: nat, p: nat)
    requires p > 0
    ensures x / p <= x
  {
    MulLe(1, p, x / p);
  }

  /** A number below `2^k` divided by `2^k` is zero. */
  lemma SmallDiv(x: nat, p: nat)
    requires x < p
    ensures x / p == 0 && x % p == x
  {
    DivUnique(x, p, 0, x);
  }

  // ---------------------------------------------------------------------------
  // Fields: `x == Low(x, k) + Scale(Shr(x, k), k)`
  // ---------------------------------------------------------------------------

  /** `b * 2^k`, written as `k` doublings so that field arithmetic stays linear. */
  function Scale(b: nat, k: nat): nat
  {
    if k == 0 then b else 2 * Scale(b, k - 1)
  }

  /** `x mod 2^k`: the `k` low bits of `x`, one binary digit at a time. */
  function Low(x: nat, k: nat): nat
  {
    if k == 0 then 0 else x % 2 + 2 * Low(x / 2, k - 1)
  }

  lemma {:induction false} ScaleIsMul(b: nat, k: nat)
    ensures Scale(b, k) == Pow2(k) * b
  {
    if k > 0 {
      ScaleIsMul(b, k - 1);
      assert Pow2(k) * b == Pow2(k - 1) * b + Pow2(k - 1) * b;
    }
  }

  lemma {:induction false} ScaleZero(k: nat)
    ensures Scale(0, k) == 0
  {
    if k > 0 {
      ScaleZero(k - 1);
    }
  }

  lemma {:induction false} ScaleSum(a: nat, b: nat, k: nat)
    ensures Scale(a + b, k) == Scale(a, k) + Scale(b, k)
  {
    if k > 0 {
      ScaleSum(a, b, k - 1);
    }
  }

  lemma {:induction false} ScaleScale(b: nat, j: nat, k: nat)
    ensures Scale(Scale(b, j), k) == Scale(b, j + k)
  {
    if k > 0 {
      ScaleScale(b, j, k - 1);
    }
  }

  lemma {:induction false} ShrShr(x: nat, j: nat, k: nat)
    ensures Shr(Shr(x, j), k) == Shr(x, j + k)
    decreases j
  {
    if j > 0 {
      ShrShr(x / 2, j - 1, k);
    }
  }

  lemma {:induction false} LowBound(x: nat, k: nat)
    ensures Low(x, k) < Pow2(k)
    decreases k
  {
    if k > 0 {
      LowBound(x / 2, k - 1);
    }
  }

  lemma {:induction false} LowIsMod(x: nat, k: nat)
    ensures Low(x, k) == x % Pow2(k)
    decreases k
  {
    if k > 0 {
      LowIsMod(x / 2, k - 1);
      HalfStep(x, k - 1);
    }
  }

  /** Every number is its low field plus its shifted high part. */
  lemma {:induction false} Decompose(x: nat, k: nat)
    ensures x == Low(x, k) + Scale(Shr(x, k), k)
    decreases k
  {
    if k > 0 {
      Decompose(x / 2, k - 1);
    }
  }

  /** A low field below `2^k` and a high part are read back unchanged. */
  lemma {:induction false} Compose(lo: nat, hi: nat, k: nat)
    requires lo < Pow2(k)
    ensures Shr(lo + Scale(hi, k), k) == hi && Low(lo + Scale(hi, k), k) == lo
    decreases k
  {
    if k == 0 {
      assert lo == 0;
    } else {
      HalfSum(lo, Scale(hi, k - 1));
      Compose(lo / 2, hi, k - 1);
    }
  }

  /** Fields below `2^j` and `2^k`, packed, stay below `2^(j+k)`. */
  lemma {:induction false} FieldsBound(lo: nat, hi: nat, j: nat, k: nat)
    requires lo < Pow2(j) && hi < Pow2(k)
    ensures lo + Scale(hi, j) < Pow2(j + k)
    decreases j
  {
    if j == 0 {
      assert lo == 0;
    } else {
      FieldsBound(lo / 2, hi, j - 1, k);
    }
  }

  /** The low `j + k` bits are the low `j` bits, then `k` bits from position `j`. */
  lemma {:induction false} LowSplit(x: nat, j: nat, k: nat)
    ensures Low(x, j + k) == Low(x, j) + Scale(Low(Shr(x, j), k), j)
    decreases j
  {
    if j > 0 {
      LowSplit(x / 2, j - 1, k);
    }
  }

  // ---------------------------------------------------------------------------
  // Bits and the bitwise operators
  // ---------------------------------------------------------------------------

  /** Bit `k` (0 = least significant) of `x`. */
  function Bit(x: nat, k: nat): nat
  {
    if k == 0 then x % 2 else Bit(x / 2, k - 1)
  }

  lemma {:induction false} BitIsBinary(x: nat, k: nat)
    ensures Bit(x, k) == 0 || Bit(x, k) == 1
  {
    if k > 0 {
      BitIsBinary(x / 2, k - 1);
    }
  }

  /** Bit `k` is the last binary digit of `x / 2^k`. */
  lemma {:induction false} BitIsDivMod(x: nat, k: nat)
    ensures Bit(x, k) == (x / Pow2(k)) % 2
  {
    if k > 0 {
      BitIsDivMod(x / 2, k - 1);
      HalfStep(x, k - 1);
    }
  }

  /** A set bit `k` means `x >= 2^k`; no bit at or above `w` is set below `2^w`. */
  lemma {:induction false} BitBound(x: nat, k: nat)
    ensures Bit(x, k) == 1 ==> Pow2(k) <= x
    ensures x < Pow2(k) ==> Bit(x, k) == 0
  {
    if k > 0 {
      BitBound(x / 2, k - 1);
    }
  }

  lemma BitAbove(x: nat, w: nat, k: nat)
    requires x < Pow2(w) && w <= k
    ensures Bit(x, k) == 0
  {
    Pow2Le(w, k);
    BitBound(x, k);
  }

  /** Adding a multiple of `2^n` does not change the bits below `n`; the digit at `n` is read off. */
  lemma {:induction false} BitOfSum(a: nat, b: nat, n: nat, j: nat)
    requires a < Pow2(n) && b < 2
    ensures j < n ==> Bit(a + Pow2(n) * b, j) == Bit(a, j)
    ensures Bit(a + Pow2(n) * b, n) == b
  {
    if n > 0 {
      var s := a + Pow2(n) * b;
      assert s / 2 == a / 2 + Pow2(n - 1) * b && s % 2 == a % 2 by {
        assert Pow2(n) * b == 2 * (Pow2(n - 1) * b);
        SplitAt(a % 2, a / 2 + Pow2(n - 1) * b, 2);
      }
      if j > 0 {
        BitOfSum(a / 2, b, n - 1, j - 1);
      } else {
        BitOfSum(a / 2, b, n - 1, 0);
      }
    } else {
      assert a == 0;
    }
  }

  /** Bitwise AND of the binary expansions (C `&` on unsigned words). */
  function And(x: nat, y: nat): nat
  {
    if x == 0 then 0
    else 2 * And(x / 2, y / 2) + (if x % 2 == 1 && y % 2 == 1 then 1 else 0)
  }

  /** Bitwise exclusive OR of the binary expansions (C `^` on unsigned words). */
  function Xor(x: nat, y: nat): nat
    decreases x + y
  {
    if x == 0 then y
    else if y == 0 then x
    else 2 * Xor(x / 2, y / 2) + (if x % 2 == y % 2 then 0 else 1)
  }

  /** C `-x` on a 64-bit word, read back as unsigned (two's complement). */
  function Neg64(x: u64): u64
  {
    if x == 0 then 0 else TWO_64 - x
  }

  /** C `x >> k` on an unsigned word: `k` halvings. */
  function Shr(x: nat, k: nat): nat
  {
    if k == 0 then x else Shr(x / 2, k - 1)
  }

  /** Shifting right by `k` divides by `2^k`. */
  lemma {:induction false} ShrIsDiv(x: nat, k: nat)
    ensures Shr(x, k) == x / Pow2(k)
  {
    if k > 0 {
      ShrIsDiv(x / 2, k - 1);
      HalfStep(x, k - 1);
    }
  }

  /** C `x << k` on a `uint64_t`: bits shifted past bit 63 are lost. */
  function Shl64(x: nat, k: nat): u64
  {
    (x * Pow2(k)) % TWO_64
  }

  /** C `a + b` on `uint32_t` and `uint64_t`: the sum wraps around. */
  function Add32(a: nat, b: nat): u32
  {
    (a + b) % TWO_32
  }

  function Add64(a: nat, b: nat): u64
  {
    (a + b) % TWO_64
  }

  /** One step of AND, valid for every pair of operands. */
  lemma AndStep(x: nat, y: nat)
    ensures And(x, y) == 2 * And(x / 2, y / 2) + (if x % 2 == 1 && y % 2 == 1 then 1 else 0)
  {
  }

  /** One step of XOR, valid for every pair of operands. */
  lemma XorStep(x: nat, y: nat)
    ensures Xor(x, y) == 2 * Xor(x / 2, y / 2) + (if x % 2 == y % 2 then 0 else 1)
  {
    if x == 0 {
      assert Xor(x / 2, y / 2) == y / 2;
    } else if y == 0 {
      assert Xor(x / 2, y / 2) == x / 2;
    }
  }

  /** Two numbers with the same low `m` bits have the same bit `b` for every `b < m`. */
  lemma {:induction false} LowAgreeBit(x: nat, y: nat, m: nat, b: nat)
    requires Low(x, m) == Low(y, m) && b < m
    ensures Bit(x, b) == Bit(y, b)
    decreases m
  {
    assert x % 2 == y % 2 && Low(x / 2, m - 1) == Low(y / 2, m - 1);
    if b > 0 {
      LowAgreeBit(x / 2, y / 2, m - 1, b - 1);
    }
  }

  /** XOR with a common operand keeps the low `m` bits of two numbers equal. */
  lemma {:induction false} XorLowAgree(x: nat, y: nat, mask: nat, m: nat)
    requires Low(x, m) == Low(y, m)
    ensures Low(Xor(x, mask), m) == Low(Xor(y, mask), m)
    decreases m
  {
    if m > 0 {
      assert x % 2 == y % 2 && Low(x / 2, m - 1) == Low(y / 2, m - 1);
      XorStep(x, mask);
      XorStep(y, mask);
      XorLowAgree(x / 2, y / 2, mask / 2, m - 1);
      assert Xor(x, mask) / 2 == Xor(x / 2, mask / 2) && Xor(y, mask) / 2 == Xor(y / 2, mask / 2);
      assert Xor(x, mask) % 2 == Xor(y, mask) % 2;
    }
  }

  /** AND with zero is zero. */
  lemma {:induction false} AndZero(x: nat)
    ensures And(x, 0) == 0
  {
    if x > 0 {
      AndZero(x / 2);
    }
  }

  /** AND with `2^k - 1` keeps the low `k` bits: it is `x mod 2^k`. */
  lemma {:induction false} AndLowMask(x: nat, k: nat)
    ensures And(x, Pow2(k) - 1) == x % Pow2(k)
  {
    if k == 0 {
      AndZero(x);
    } else {
      AndLowMask(x / 2, k - 1);
      AndStep(x, Pow2(k) - 1);
      HalfStep(x, k - 1);
    }
  }

  lemma AndLow(x: nat, k: nat)
    ensures And(x, Pow2(k) - 1) == Low(x, k)
  {
    AndLowMask(x, k);
    LowIsMod(x, k);
  }

  lemma AndSplitStep(a: nat, b: nat, c: nat, d: nat, k: nat)
    requires k > 0
    requires And(a / 2 + Scale(b, k - 1), c / 2 + Scale(d, k - 1))
             == And(a / 2, c / 2) + Scale(And(b, d), k - 1)
    ensures And(a + Scale(b, k), c + Scale(d, k)) == And(a, c) + Scale(And(b, d), k)
  {
    var sb, sd := Scale(b, k - 1), Scale(d, k - 1);
    HalfSum(a, sb);
    HalfSum(c, sd);
    assert a + Scale(b, k) == a + 2 * sb;
    assert c + Scale(d, k) == c + 2 * sd;
  }

  /** AND acts independently on the fields below and above bit `k`. */
  lemma {:induction false} AndSplit(a: nat, b: nat, c: nat, d: nat, k: nat)
    requires a < Pow2(k) && c < Pow2(k)
    ensures And(a + Scale(b, k), c + Scale(d, k)) == And(a, c) + Scale(And(b, d), k)
    decreases k
  {
    if k == 0 {
      assert a == 0 && c == 0;
    } else {
      AndSplit(a / 2, b, c / 2, d, k - 1);
      AndSplitStep(a, b, c, d, k);
    }
  }

  /** XOR of two `k`-bit values is a `k`-bit value. */
  lemma {:induction false} XorBound(x: nat, y: nat, k: nat)
    requires x < Pow2(k) && y < Pow2(k)
    ensures Xor(x, y) < Pow2(k)
  {
    if k > 0 {
      XorBound(x / 2, y / 2, k - 1);
      XorStep(x, y);
    } else {
      assert x == 0 && y == 0;
    }
  }

  /** XOR with the same word twice gives the word back. */
  lemma {:induction false} XorInvolution(x: nat, y: nat)
    ensures Xor(Xor(x, y), y) == x
    decreases x + y
  {
    var z := Xor(x, y);
    XorStep(x, y);
    assert z / 2 == Xor(x / 2, y / 2) && z % 2 == (if x % 2 == y % 2 then 0 else 1);
    XorStep(z, y);
    if x + y > 0 {
      XorInvolution(x / 2, y / 2);
    }
  }

  /** XOR with `2^k - 1` complements a `k`-bit value. */
  lemma {:induction false} XorLowOnes(x: nat, k: nat)
    requires x < Pow2(k)
    ensures Xor(x, Pow2(k) - 1) == Pow2(k) - 1 - x
  {
    if k > 0 {
      XorLowOnes(x / 2, k - 1);
      XorStep(x, Pow2(k) - 1);
    }
  }

  /** A `k`-bit value and its `k`-bit complement share no set bit. */
  lemma {:induction false} AndComplement(y: nat, k: nat)
    requires y < Pow2(k)
    ensures And(y, Pow2(k) - 1 - y) == 0
  {
    if k > 0 {
      AndComplement(y / 2, k - 1);
      AndStep(y, Pow2(k) - 1 - y);
    }
  }

  // ---------------------------------------------------------------------------
  // Trailing zeros, the lowest set bit, and the population count
  // ---------------------------------------------------------------------------

  /** Index of the lowest set bit of a nonzero number. */
  function TrailingZeros(x: nat): nat
    requires x > 0
  {
    if x % 2 == 1 then 0 else 1 + TrailingZeros(x / 2)
  }

  /** The lowest set bit is set, every bit below it is clear, and `2^tz` divides `x`. */
  lemma {:induction false} TrailingZerosSpec(x: nat)
    requires x > 0
    ensures Bit(x, TrailingZeros(x)) == 1
    ensures x % Pow2(TrailingZeros(x)) == 0
    ensures forall k :: 0 <= k < TrailingZeros(x) ==> Bit(x, k) == 0
  {
    if x % 2 == 0 {
      TrailingZerosSpec(x / 2);
      var t := TrailingZeros(x / 2);
      HalfStep(x, t);
      forall k | 0 <= k < TrailingZeros(x)
        ensures Bit(x, k) == 0
      {
        if k > 0 {
          assert Bit(x, k) == Bit(x / 2, k - 1);
        }
      }
    }
  }

  /** A nonzero number below `2^w` has its lowest set bit below `w`. */
  lemma TrailingZerosBound(x: nat, w: nat)
    requires 0 < x < Pow2(w)
    ensures TrailingZeros(x) < w
  {
    TrailingZerosSpec(x);
    BitBound(x, TrailingZeros(x));
    if TrailingZeros(x) >= w {
      Pow2Le(w, TrailingZeros(x));
    }
  }

  lemma {:induction false} TrailingZerosOfPow2(k: nat)
    ensures TrailingZeros(Pow2(k)) == k
  {
    if k > 0 {
      TrailingZerosOfPow2(k - 1);
      Pow2Div(k);
    }
  }

  /** Dividing out `2^h` when it divides `x` removes `h` trailing zeros. */
  lemma {:induction false} TrailingZerosShift(x: nat, h: nat)
    requires x > 0 && x % Pow2(h) == 0
    ensures x / Pow2(h) > 0
    ensures TrailingZeros(x) == h + TrailingZeros(x / Pow2(h))
  {
    if h > 0 {
      HalfStep(x, h - 1);
      assert x % 2 == 0;
      TrailingZerosShift(x / 2, h - 1);
    } else {
      assert x / Pow2(h) == x;
    }
  }

  /** If `2^h` does not divide `x`, its lowest set bit is below `h`. */
  lemma {:induction false} TrailingZerosBelow(x: nat, h: nat)
    requires x > 0 && x % Pow2(h) != 0
    ensures TrailingZeros(x) < h
  {
    if h > 0 && x % 2 == 0 {
      HalfStep(x, h - 1);
      TrailingZerosBelow(x / 2, h - 1);
    }
  }

  /** `x & (2^w - x)` isolates the lowest set bit of a nonzero `w`-bit `x`. */
  lemma {:induction false} LowestSetBitIsolation(x: nat, w: nat)
    requires 0 < x < Pow2(w)
    ensures And(x, Pow2(w) - x) == Pow2(TrailingZeros(x))
  {
    assert w > 0;
    AndStep(x, Pow2(w) - x);
    if x % 2 == 1 {
      assert (Pow2(w) - x) / 2 == Pow2(w - 1) - 1 - x / 2;
      AndComplement(x / 2, w - 1);
    } else {
      assert (Pow2(w) - x) / 2 == Pow2(w - 1) - x / 2;
      LowestSetBitIsolation(x / 2, w - 1);
    }
  }

  /** The C idiom `x & (-x)` on a 64-bit word: zero, or the lowest set bit. */
  lemma LowestSetBit64(x: u64)
    ensures x == 0 ==> And(x, Neg64(x)) == 0
    ensures x > 0 ==> And(x, Neg64(x)) == Pow2(TrailingZeros(x))
  {
    if x > 0 {
      Pow2Words();
      LowestSetBitIsolation(x, 64);
    }
  }

  /** Clearing a set bit: XOR with it is subtraction, and only that bit changes. */
  lemma {:induction false} ClearBit(t: nat, s: nat, k: nat)
    requires Bit(t, s) == 1
    ensures Pow2(s) <= t
    ensures Xor(t, Pow2(s)) == t - Pow2(s)
    ensures Bit(t - Pow2(s), k) == if k == s then 0 else Bit(t, k)
  {
    BitBound(t, s);
    XorStep(t, Pow2(s));
    if s == 0 {
      assert (t - 1) / 2 == t / 2;
      assert Xor(t / 2, 0) == t / 2;
      if k > 0 {
        assert Bit(t - 1, k) == Bit((t - 1) / 2, k - 1);
      }
    } else {
      Pow2Div(s);
      assert (t - Pow2(s)) / 2 == t / 2 - Pow2(s - 1);
      if k > 0 {
        ClearBit(t / 2, s - 1, k - 1);
      } else {
        ClearBit(t / 2, s - 1, 0);
      }
    }
  }

  /** Number of set bits. */
  function PopCount(x: nat): nat
  {
    if x == 0 then 0 else x % 2 + PopCount(x / 2)
  }

  /** Clearing one set bit lowers the population count by one. */
  lemma {:induction false} PopCountClearBit(t: nat, s: nat)
    requires Bit(t, s) == 1
    ensures Pow2(s) <= t && PopCount(t - Pow2(s)) + 1 == PopCount(t)
  {
    BitBound(t, s);
    if s > 0 {
      Pow2Div(s);
      assert (t - Pow2(s)) / 2 == t / 2 - Pow2(s - 1);
      PopCountClearBit(t / 2, s - 1);
    } else {
      assert (t - 1) / 2 == t / 2;
    }
  }

  /** Only zero has no set bit. */
  lemma {:induction false} PopCountZero(x: nat)
    requires PopCount(x) == 0
    ensures x == 0
  {
    if x > 0 {
      PopCountZero(x / 2);
    }
  }

  /** Zero has no set bit. */
  lemma {:induction false} BitOfZero(k: nat)
    ensures Bit(0, k) == 0
  {
    if k > 0 {
      BitOfZero(k - 1);
    }
  }

  /** A `w`-bit value has at most `w` set bits. */
  lemma {:induction false} PopCountBound(x: nat, w: nat)
    requires x < Pow2(w)
    ensures PopCount(x) <= w
  {
    if w > 0 && x > 0 {
      PopCountBound(x / 2, w - 1);
    } else if x > 0 {
      assert false;
    }
  }

  /** One step of the population count, valid for every number. */
  lemma PopCountStep(x: nat)
    ensures PopCount(x) == x % 2 + PopCount(x / 2)
  {
  }

  /** The set bits of `lo + hi * 2^k` are those of `lo` and those of `hi`. */
  lemma {:induction false} PopCountSplit(lo: nat, hi: nat, k: nat)
    requires lo < Pow2(k)
    ensures PopCount(lo + Scale(hi, k)) == PopCount(lo) + PopCount(hi)
    decreases k
  {
    if k == 0 {
      assert lo == 0;
    } else {
      HalfSum(lo, Scale(hi, k - 1));
      PopCountStep(lo + Scale(hi, k));
      PopCountStep(lo);
      PopCountSplit(lo / 2, hi, k - 1);
    }
  }
}
