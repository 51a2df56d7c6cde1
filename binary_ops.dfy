/**
 * The bit primitives of `binaryOps.c` / `binaryOps.h`: the FORTRAN-style
 * `IBITS` field extractor, trailing-zero counts by binary search (`ntz32`,
 * `ntz64`) and SWAR population counts (`pop32`, `pop64`), after Warren,
 * Hacker's Delight, chapter 5.  Each routine is proved against the
 * specification functions `TrailingZeros` and `PopCount` of module Bits.
 */
module BinaryOps {
  import opened Bits

  // ---------------------------------------------------------------------------
  // IBITS(i, pos, len) = ((i >> pos) & ~(-1 << len))
  // ---------------------------------------------------------------------------

  /**
   * `~(-1 << len)`, the int mask of `len` low ones; the int shift is defined
   * only for `len < 32`.
   */
  function LowOnes(len: nat): nat
    requires len < 32
  {
    Pow2(len) - 1
  }

  /** The `len` bits of the 64-bit word `i` that start at bit `pos`. */
  function Ibits(i: u64, pos: nat, len: nat): (r: nat)
    requires pos < 64 && len < 32
    ensures r < Pow2(len)
    ensures r == (i / Pow2(pos)) % Pow2(len)
  {
    ShrIsDiv(i, pos);
    AndLowMask(Shr(i, pos), len);
    And(Shr(i, pos), LowOnes(len))
  }

  /** A one-bit field is the bit itself. */
  lemma IbitsOneBit(i: u64, pos: nat)
    requires pos < 64
    ensures Ibits(i, pos, 1) == Bit(i, pos)
    ensures Ibits(i, pos, 1) < 2
  {
    BitIsDivMod(i, pos);
  }

  /** The field reads nothing at or above bit `pos + len`. */
  lemma IbitsIgnoresHighBits(i: u64, j: u64, pos: nat, len: nat)
    requires pos < 64 && len < 32
    requires i % Pow2(pos + len) == j % Pow2(pos + len)
    ensures Ibits(i, pos, len) == Ibits(j, pos, len)
  {
    FieldOfLow(i, pos, len);
    FieldOfLow(j, pos, len);
    LowIsMod(i, pos + len);
    LowIsMod(j, pos + len);
  }

  /** The `len`-bit field at `pos` is the part above `pos` of the low `pos + len` bits. */
  lemma FieldOfLow(x: nat, pos: nat, len: nat)
    ensures (x / Pow2(pos)) % Pow2(len) == Shr(Low(x, pos + len), pos)
  {
    ShrIsDiv(x, pos);
    LowIsMod(Shr(x, pos), len);
    LowSplit(x, pos, len);
    LowBound(x, pos);
    Compose(Low(x, pos), Low(Shr(x, pos), len), pos);
  }

  // ---------------------------------------------------------------------------
  // ntz32 / ntz64: number of trailing zeros by binary search
  // ---------------------------------------------------------------------------

  /**
   * One halving step of the binary search: when the low `h` bits of `xc` are
   * all zero, the search shifts them out and counts them.
   */
  lemma NtzStep(xc: nat, h: nat, mask: nat)
    requires 0 < xc && TrailingZeros(xc) < 2 * h && mask == Pow2(h) - 1
    ensures And(xc, mask) == 0 ==>
              0 < Shr(xc, h) <= xc && TrailingZeros(xc) == h + TrailingZeros(Shr(xc, h))
              && TrailingZeros(Shr(xc, h)) < h
    ensures And(xc, mask) != 0 ==> TrailingZeros(xc) < h
  {
    AndLowMask(xc, h);
    ShrIsDiv(xc, h);
    if xc % Pow2(h) == 0 {
      TrailingZerosShift(xc, h);
      DivLe(xc, Pow2(h));
    } else {
      TrailingZerosBelow(xc, h);
    }
  }

  /** The last step: `n - (x & 1)` for a word whose lowest set bit is bit 0 or 1. */
  lemma NtzLast(xc: nat)
    requires 0 < xc && TrailingZeros(xc) < 2
    ensures TrailingZeros(xc) == 1 - And(xc, 1)
  {
    AndLowMask(xc, 1);
  }

  /** The masks of the binary search are the low-ones masks `2^h - 1`. */
  lemma NtzMasks()
    ensures Pow2(32) - 1 == 0xFFFF_FFFF && Pow2(16) - 1 == 0xFFFF
    ensures Pow2(8) - 1 == 0xFF && Pow2(4) - 1 == 0xF && Pow2(2) - 1 == 0x3
  {
    Pow2Words();
    assert Pow2(2) == 4 && Pow2(4) == 16;
  }

  /**
   * One round of the binary search, `if ((xCpy & mask) == 0) { n += h;
   * xCpy >>= h; }`: `n - 1` trailing zeros of `x` are already counted and
   * `xCpy` holds the rest; after the round the rest has fewer than `h`.
   */
  method SkipZeroField(ghost x: nat, xCpy: nat, n: int, h: nat, mask: nat) returns (xCpy': nat, n': int)
    requires 0 < x && 0 < xCpy && TrailingZeros(xCpy) < 2 * h && mask == Pow2(h) - 1
    requires TrailingZeros(x) == n - 1 + TrailingZeros(xCpy)
    ensures 0 < xCpy' <= xCpy && TrailingZeros(xCpy') < h
    ensures TrailingZeros(x) == n' - 1 + TrailingZeros(xCpy')
  {
    NtzStep(xCpy, h, mask);
    xCpy', n' := xCpy, n;
    if And(xCpy, mask) == 0 {
      n' := n + h;
      xCpy' := Shr(xCpy, h);
    }
  }

  /** `ntz64`: 64 for zero, otherwise the index of the lowest set bit. */
  method Ntz64(x: u64) returns (n: int)
    ensures x == 0 ==> n == 64
    ensures x != 0 ==> 0 <= n < 64 && n == TrailingZeros(x)
    ensures x != 0 ==> Bit(x, n) == 1 && x % Pow2(n) == 0
  {
    var xCpy: u64 := x;
    if xCpy == 0 {
      return 64;
    }
    Pow2Words();
    NtzMasks();
    TrailingZerosBound(x, 64);
    n := 1;
    xCpy, n := SkipZeroField(x, xCpy, n, 32, 0x0000_0000_FFFF_FFFF);
    xCpy, n := SkipZeroField(x, xCpy, n, 16, 0x0000_0000_0000_FFFF);
    xCpy, n := SkipZeroField(x, xCpy, n, 8, 0x0000_0000_0000_00FF);
    xCpy, n := SkipZeroField(x, xCpy, n, 4, 0x0000_0000_0000_000F);
    xCpy, n := SkipZeroField(x, xCpy, n, 2, 0x0000_0000_0000_0003);
    NtzLast(xCpy);
    n := n - And(xCpy, 0x0000_0000_0000_0001);
    TrailingZerosSpec(x);
  }

  /** `ntz32`: 32 for zero, otherwise the index of the lowest set bit. */
  method Ntz32(x: u32) returns (n: int)
    ensures x == 0 ==> n == 32
    ensures x != 0 ==> 0 <= n < 32 && n == TrailingZeros(x)
    ensures x != 0 ==> Bit(x, n) == 1 && x % Pow2(n) == 0
  {
    var xCpy: u32 := x;
    if xCpy == 0 {
      return 32;
    }
    Pow2Words();
    NtzMasks();
    TrailingZerosBound(x, 32);
    n := 1;
    xCpy, n := SkipZeroField(x, xCpy, n, 16, 0x0000FFFF);
    xCpy, n := SkipZeroField(x, xCpy, n, 8, 0x000000FF);
    xCpy, n := SkipZeroField(x, xCpy, n, 4, 0x0000000F);
    xCpy, n := SkipZeroField(x, xCpy, n, 2, 0x00000003);
    NtzLast(xCpy);
    n := n - And(xCpy, 0x00000001);
    TrailingZerosSpec(x);
  }

  /** A one-bit mask `2^k` is mapped back to its index `k`. */
  lemma NtzOfPow2(k: nat)
    requires k < 64
    ensures Pow2(k) < TWO_64 && TrailingZeros(Pow2(k)) == k
  {
    Pow2Words();
    Pow2Lt(k, 64);
    TrailingZerosOfPow2(k);
  }

  // ---------------------------------------------------------------------------
  // pop32 / pop64: SWAR population count
  // ---------------------------------------------------------------------------

  /**
   * The SWAR mask for field width `w`: `n` fields of `2w` bits, the low `w`
   * bits of each set (0x55..55 for `w` = 1, 0x33..33 for `w` = 2, ...).
   */
  function FieldMask(w: nat, n: nat): nat
    decreases n
  {
    if n == 0 then 0 else (Pow2(w) - 1) + Scale(FieldMask(w, n - 1), 2 * w)
  }

  /**
   * The word whose `n` fields of `w` bits hold the population counts of the
   * corresponding fields of `x`: the SWAR invariant.
   */
  function PopFields(x: nat, w: nat, n: nat): nat
    decreases n
  {
    if n == 0 then 0 else PopCount(Low(x, w)) + Scale(PopFields(Shr(x, w), w, n - 1), w)
  }

  /** Two adjacent `w`-bit count fields, then the remaining `m` fields. */
  lemma PopFieldsPair(x: nat, w: nat, m: nat)
    ensures PopFields(x, w, m + 2)
            == (PopCount(Low(x, w)) + Scale(PopCount(Low(Shr(x, w), w)), w))
               + Scale(PopFields(Shr(x, 2 * w), w, m), 2 * w)
  {
    var a1, y2 := PopCount(Low(Shr(x, w), w)), PopFields(Shr(Shr(x, w), w), w, m);
    ShrShr(x, w, w);
    ScaleSum(a1, Scale(y2, w), w);
    ScaleScale(y2, w, w);
  }

  /** The count of a `2w`-bit field is the sum of the counts of its two halves. */
  lemma PopCountPair(x: nat, w: nat)
    ensures PopCount(Low(x, 2 * w)) == PopCount(Low(x, w)) + PopCount(Low(Shr(x, w), w))
  {
    LowSplit(x, w, w);
    LowBound(x, w);
    PopCountSplit(Low(x, w), Low(Shr(x, w), w), w);
  }

  /** A word whose two lowest `w`-bit fields are `a0` and `a1`, with `y2` above them. */
  function FieldPair(a0: nat, a1: nat, y2: nat, w: nat): nat
  {
    (a0 + Scale(a1, w)) + Scale(y2, 2 * w)
  }

  /** A mask whose lowest `2w`-bit field is `2^w - 1`, with `m2` above it. */
  function MaskPair(m2: nat, w: nat): nat
  {
    (Pow2(w) - 1) + Scale(m2, 2 * w)
  }

  /** The low half of a SWAR step keeps the even fields. */
  lemma SwarLow(a0: nat, a1: nat, y2: nat, m2: nat, w: nat)
    requires a0 < Pow2(w) && a1 < Pow2(w)
    ensures And(FieldPair(a0, a1, y2, w), MaskPair(m2, w)) == a0 + Scale(And(y2, m2), 2 * w)
  {
    var lo := a0 + Scale(a1, w);
    assert lo < Pow2(2 * w) && Pow2(w) - 1 < Pow2(2 * w) by {
      FieldsBound(a0, a1, w, w);
      Pow2Le(w, 2 * w);
    }
    assert And(lo, Pow2(w) - 1) == a0 by {
      AndLow(lo, w);
      Compose(a0, a1, w);
    }
    AndSplit(lo, y2, Pow2(w) - 1, m2, 2 * w);
    assert FieldPair(a0, a1, y2, w) == lo + Scale(y2, 2 * w);
  }

  /** The high half of a SWAR step: shifted by `w`, the odd fields land on the mask. */
  lemma SwarHigh(a0: nat, a1: nat, y2: nat, m2: nat, w: nat)
    requires a0 < Pow2(w) && a1 < Pow2(w)
    ensures Shr((a0 + Scale(a1, w)) + Scale(y2, 2 * w), w)
            == (a1 + Scale(Low(y2, w), w)) + Scale(Shr(y2, w), 2 * w)
  {
    ScaleScale(y2, w, w);
    ScaleSum(a1, Scale(y2, w), w);
    Compose(a0, a1 + Scale(y2, w), w);
    Decompose(y2, w);
    ScaleSum(Low(y2, w), Scale(Shr(y2, w), w), w);
    ScaleScale(Shr(y2, w), w, w);
  }

  /** The high half of a SWAR step, masked: the odd field `a1` moves down. */
  lemma SwarHighField(a0: nat, a1: nat, y2: nat, m2: nat, w: nat, y: nat, m: nat)
    requires a0 < Pow2(w) && a1 < Pow2(w)
    requires y == (a0 + Scale(a1, w)) + Scale(y2, 2 * w)
    requires m == (Pow2(w) - 1) + Scale(m2, 2 * w)
    ensures And(Shr(y, w), m) == a1 + Scale(And(Shr(y2, w), m2), 2 * w)
  {
    SwarHigh(a0, a1, y2, m2, w);
    LowBound(y2, w);
    assert Shr(y, w) == FieldPair(a1, Low(y2, w), Shr(y2, w), w) && m == MaskPair(m2, w);
    SwarLow(a1, Low(y2, w), Shr(y2, w), m2, w);
  }

  /** `SwarLow` for a word `y` and a mask `m` given by their fields. */

  /**
   * Both halves of a SWAR step on a word whose two lowest `w`-bit fields are
   * `a0` and `a1`: their sum lands in the lowest `2w`-bit field, and the rest
   * of the word `y2` takes the same step under the rest of the mask `m2`.
   */
  lemma SwarFields(a0: nat, a1: nat, y2: nat, m2: nat, w: nat, y: nat, m: nat)
    requires a0 < Pow2(w) && a1 < Pow2(w)
    requires y == (a0 + Scale(a1, w)) + Scale(y2, 2 * w)
    requires m == (Pow2(w) - 1) + Scale(m2, 2 * w)
    ensures And(y, m) + And(Shr(y, w), m)
            == (a0 + a1) + Scale(And(y2, m2) + And(Shr(y2, w), m2), 2 * w)
  {
    assert And(y, m) == a0 + Scale(And(y2, m2), 2 * w) by {
      SwarLow(a0, a1, y2, m2, w);
    }
    SwarHighField(a0, a1, y2, m2, w, y, m);
    ScaleSum(And(y2, m2), And(Shr(y2, w), m2), 2 * w);
  }

  /**
   * One SWAR step: from per-`w`-bit-field counts, `(y & M) + ((y >> w) & M)`
   * gives per-`2w`-bit-field counts.
   */
  lemma {:induction false} SwarStep(x: nat, w: nat, n: nat)
    ensures And(PopFields(x, w, 2 * n), FieldMask(w, n))
            + And(Shr(PopFields(x, w, 2 * n), w), FieldMask(w, n))
            == PopFields(x, 2 * w, n)
    decreases n
  {
    if n > 0 {
      var a0, a1 := PopCount(Low(x, w)), PopCount(Low(Shr(x, w), w));
      var y2 := PopFields(Shr(x, 2 * w), w, 2 * (n - 1));
      var m2 := FieldMask(w, n - 1);
      assert PopFields(x, w, 2 * n) == (a0 + Scale(a1, w)) + Scale(y2, 2 * w) by {
        PopFieldsPair(x, w, 2 * (n - 1));
        assert 2 * (n - 1) + 2 == 2 * n;
      }
      assert a0 < Pow2(w) && a1 < Pow2(w) by {
        LowBound(x, w);
        LowBound(Shr(x, w), w);
        LtPow2(w);
        PopCountBound(Low(x, w), w);
        PopCountBound(Low(Shr(x, w), w), w);
      }
      SwarFields(a0, a1, y2, m2, w, PopFields(x, w, 2 * n), FieldMask(w, n));
      SwarStep(Shr(x, 2 * w), w, n - 1);
      assert PopFields(x, 2 * w, n) == (a0 + a1) + Scale(PopFields(Shr(x, 2 * w), 2 * w, n - 1), 2 * w) by {
        PopCountPair(x, w);
      }
    } else {
      AndZero(Shr(0, w));
    }
  }

  /** The counts fit: `n` fields of `w` bits make a value below `2^(wn)`. */
  lemma {:induction false} PopFieldsBound(x: nat, w: nat, n: nat)
    ensures PopFields(x, w, n) < Pow2(w * n)
    decreases n
  {
    if n > 0 {
      PopFieldsBound(Shr(x, w), w, n - 1);
      LowBound(x, w);
      LtPow2(w);
      PopCountBound(Low(x, w), w);
      FieldsBound(PopCount(Low(x, w)), PopFields(Shr(x, w), w, n - 1), w, w * (n - 1));
      assert w + w * (n - 1) == w * n;
    }
  }

  /** With one-bit fields the counts are the bits themselves. */
  lemma {:induction false} PopFieldsOfBits(x: nat, n: nat)
    requires x < Pow2(n)
    ensures PopFields(x, 1, n) == x
    decreases n
  {
    if n > 0 {
      assert PopCount(x % 2) == x % 2;
      assert Low(x, 1) == x % 2;
      assert Shr(x, 1) == x / 2;
      assert Scale(PopFields(x / 2, 1, n - 1), 1) == 2 * PopFields(x / 2, 1, n - 1);
      PopFieldsOfBits(x / 2, n - 1);
    }
  }

  /** With one field as wide as the word, the count is the word's population count. */
  lemma PopFieldsWhole(x: nat, w: nat)
    requires x < Pow2(w)
    ensures PopFields(x, w, 1) == PopCount(x)
  {
    Compose(x, 0, w);
    ScaleZero(w);
  }

  /** The arithmetic step of `FieldMaskClosed`, with `q = p^2`. */
  lemma ClosedStep(p: int, q: int, f: int, r: int)
    requires q == p * p && f * (p + 1) + 1 == r
    ensures ((p - 1) + q * f) * (p + 1) + 1 == q * r
  {
    assert ((p - 1) + q * f) * (p + 1) == (p - 1) * (p + 1) + q * (f * (p + 1));
    assert (p - 1) * (p + 1) == p * p - 1;
    assert q * (f * (p + 1)) == q * r - q;
  }

  /**
   * The closed form of a SWAR mask: `n` fields of `w` ones, each followed by
   * `w` zeros, times `2^w + 1` is one less than `2^(2wn)`.
   */
  lemma {:induction false} FieldMaskClosed(w: nat, n: nat)
    ensures FieldMask(w, n) * (Pow2(w) + 1) + 1 == Pow2(2 * w * n)
    decreases n
  {
    if n > 0 {
      var p, q, f, r := Pow2(w), Pow2(2 * w), FieldMask(w, n - 1), Pow2(2 * w * (n - 1));
      FieldMaskClosed(w, n - 1);
      ScaleIsMul(f, 2 * w);
      Pow2Add(w, w);
      Pow2Add(2 * w, 2 * w * (n - 1));
      assert 2 * w + 2 * w * (n - 1) == 2 * w * n;
      ClosedStep(p, q, f, r);
    }
  }

  /** A word `mask` with `mask * (2^w + 1) + 1 == 2^(2wn)` is the mask of `n` `w`-bit fields. */
  lemma SwarMaskOf(mask: nat, w: nat, n: nat, p: nat, word: nat)
    requires p == Pow2(w) && word == Pow2(2 * w * n) && mask * (p + 1) + 1 == word
    ensures mask == FieldMask(w, n)
  {
    FieldMaskClosed(w, n);
    DivUnique(word - 1, p + 1, mask, 0);
    DivUnique(word - 1, p + 1, FieldMask(w, n), 0);
  }

  /**
   * One SWAR round on a word of `2wn` bits, `(x & M) + ((x >> w) & M)` with
   * the sum taken modulo the word size: per-`w`-bit counts become
   * per-`2w`-bit counts, and the sum never wraps around. The mask `M` is
   * given by its closed form, with `p` standing for `2^w`.
   */
  method SwarRound(ghost x: nat, xCpy: nat, w: nat, mask: nat, word: nat, ghost n: nat, ghost p: nat)
    returns (xCpy': nat)
    requires p == Pow2(w) && word == Pow2(2 * w * n) && mask * (p + 1) + 1 == word
    requires xCpy == PopFields(x, w, 2 * n)
    ensures xCpy' == PopFields(x, 2 * w, n)
    ensures xCpy' < word
  {
    SwarMaskOf(mask, w, n, p, word);
    SwarStep(x, w, n);
    PopFieldsBound(x, 2 * w, n);
    assert 2 * w * n == (2 * w) * n;
    xCpy' := (And(xCpy, mask) + And(Shr(xCpy, w), mask)) % word;
    SmallDiv(PopFields(x, 2 * w, n), word);
  }

  /** `pop64`: the number of set bits of a 64-bit word. */
  method Pop64(x: u64) returns (n: int)
    ensures n == PopCount(x)
    ensures 0 <= n <= 64
  {
    Pow2Words();
    PopFieldsOfBits(x, 64);
    var xCpy: nat := x;
    xCpy := SwarRound(x, xCpy, 1, 0x5555555555555555, TWO_64, 32, 2);
    xCpy := SwarRound(x, xCpy, 2, 0x3333333333333333, TWO_64, 16, 4);
    xCpy := SwarRound(x, xCpy, 4, 0x0F0F0F0F0F0F0F0F, TWO_64, 8, 16);
    xCpy := SwarRound(x, xCpy, 8, 0x00FF00FF00FF00FF, TWO_64, 4, 0x100);
    xCpy := SwarRound(x, xCpy, 16, 0x0000FFFF0000FFFF, TWO_64, 2, 0x1_0000);
    xCpy := SwarRound(x, xCpy, 32, 0x00000000FFFFFFFF, TWO_64, 1, TWO_32);
    PopFieldsWhole(x, 64);
    PopCountBound(x, 64);
    n := xCpy;
  }

  /** `pop32`: the number of set bits of a 32-bit word. */
  method Pop32(x: u32) returns (n: int)
    ensures n == PopCount(x)
    ensures 0 <= n <= 32
  {
    Pow2Words();
    PopFieldsOfBits(x, 32);
    var xCpy: nat := x;
    xCpy := SwarRound(x, xCpy, 1, 0x55555555, TWO_32, 16, 2);
    xCpy := SwarRound(x, xCpy, 2, 0x33333333, TWO_32, 8, 4);
    xCpy := SwarRound(x, xCpy, 4, 0x0F0F0F0F, TWO_32, 4, 16);
    xCpy := SwarRound(x, xCpy, 8, 0x00FF00FF, TWO_32, 2, 0x100);
    xCpy := SwarRound(x, xCpy, 16, 0x0000FFFF, TWO_32, 1, 0x1_0000);
    PopFieldsWhole(x, 32);
    PopCountBound(x, 32);
    n := xCpy;
  }
}
