/**
 * The integer Hilbert-key codec of `hilbertKey.c`: `getHKeyFromIntCoord`
 * maps a point of `dim` axes with `m` bits per axis to a key of `dim * m`
 * bits, and `getIntCoordFromHKey` maps a key back to a point, following the
 * N-dimensional method of Chenyang, Hong and Nengchao (IEEE 2008).
 *
 * The generated tables of `N10.h` (the Gray-code table `C`, its inverse
 * `revC` and the gene table `H`) are parameters: `tables[dim - 1]` holds the
 * tables for `dim` axes, and `|tables|` plays the part of `HILB_MAX_DIM`.
 * Both routines are methods over arrays, proved against the pass-by-pass
 * specification functions `EncodeState`/`EncodeDigits` and `DecodeState`.
 */
module HilbertKey {
  import opened Bits
  import opened BinaryOps

  /** The error codes of `hilbertKey.h`. */
  const HKEY_ERR_DIM: int := -2
  const HKEY_ERR_NOMEM: int := -1
  const HKEY_ERR_OK: int := 0

  // ---------------------------------------------------------------------------
  // The tables
  // ---------------------------------------------------------------------------

  /**
   * The tables for one number of axes: `c[s]` is the sub-cube visited `s`-th,
   * `revC` is its inverse, and `genes[2d]`, `genes[2d + 1]` are the exchange
   * and reverse genes of digit `d` (the rows `C[dim-1]`, `revC[dim-1]` and
   * `H[dim-1]` of `N10.h`).
   */
  datatype DimTables = DimTables(c: seq<nat>, revC: seq<nat>, genes: seq<nat>)

  /**
   * The shape the codec relies on for `dim` axes: `2^dim` entries in `c` and
   * `revC`, two genes per digit, every entry a sub-cube and every gene a set
   * of axes below `dim` (so the axis indices recovered by `ntz64` are in
   * range). The `IBITS` mask `~(-1 << dim)` is an `int` shift, so `dim < 32`.
   */
  ghost predicate Sized(t: DimTables, dim: nat)
  {
    && 1 <= dim < 32
    && |t.c| == Pow2(dim) && |t.revC| == Pow2(dim) && |t.genes| == 2 * Pow2(dim)
    && (forall s :: 0 <= s < |t.c| ==> t.c[s] < Pow2(dim))
    && (forall s :: 0 <= s < |t.revC| ==> t.revC[s] < Pow2(dim))
    && (forall g :: 0 <= g < |t.genes| ==> t.genes[g] < Pow2(dim))
  }

  /** Tables of the right shape whose `c` is a permutation with inverse `revC`. */
  ghost predicate WellFormed(t: DimTables, dim: nat)
  {
    && Sized(t, dim)
    && (forall s :: 0 <= s < |t.c| ==> t.revC[t.c[s]] == s)
    && (forall s :: 0 <= s < |t.revC| ==> t.c[t.revC[s]] == s)
  }

  /** The table family: entry `d` holds the tables for `d + 1` axes. */
  ghost predicate Family(tables: seq<DimTables>)
  {
    forall d :: 0 <= d < |tables| ==> WellFormed(tables[d], d + 1)
  }

  /** Table entries and genes fit in a machine word. */
  lemma WordSized(dim: nat)
    requires dim < 32
    ensures Pow2(dim) < TWO_32 && 2 * Pow2(dim) <= TWO_32 && TWO_32 < TWO_64
  {
    Pow2Words();
    Pow2Lt(dim, 32);
  }

  // ---------------------------------------------------------------------------
  // The genes: reversing and exchanging axes
  // ---------------------------------------------------------------------------

  /**
   * The reverse step: every axis whose bit is set in `gene` is XORed with
   * `mask` (all 64 ones when encoding, the low-ones `flip` when decoding);
   * the other axes are unchanged.
   */
  function ReverseAxes(p: seq<nat>, gene: nat, mask: nat): (q: seq<nat>)
    ensures |q| == |p|
  {
    seq(|p|, j requires 0 <= j < |p| => if Bit(gene, j) == 1 then Xor(p[j], mask) else p[j])
  }

  /**
   * The exchange step: when `gene` has at least two set bits, the axes at its
   * lowest set bit and at the lowest set bit of the rest are swapped;
   * otherwise nothing changes.
   */
  function ExchangeAxes(p: seq<nat>, gene: nat): (q: seq<nat>)
    requires gene < Pow2(|p|)
    ensures |q| == |p|
  {
    if gene == 0 then p
    else
      var i1 := TrailingZeros(gene);
      TrailingZerosBound(gene, |p|);
      TrailingZerosSpec(gene);
      BitBound(gene, i1);
      var rest := gene - Pow2(i1);
      if rest == 0 then p
      else
        var i2 := TrailingZeros(rest);
        TrailingZerosBound(rest, |p|);
        p[i1 := p[i2]][i2 := p[i1]]
  }

  /**
   * Removing the lowest set bit of a nonzero `w`-bit word, as the loops of
   * both routines do with `x & (-x)` and `x ^ (x & (-x))`: the bit is
   * `2^s` for `s = TrailingZeros(t) < w`, and clearing it leaves every other
   * bit and lowers the population count by one.
   */
  lemma LowestBitStep(t: u64, w: nat)
    requires 0 < t < Pow2(w) && w < 64
    ensures TrailingZeros(t) < w && Pow2(TrailingZeros(t)) < TWO_64
    ensures And(t, Neg64(t)) == Pow2(TrailingZeros(t))
    ensures Bit(t, TrailingZeros(t)) == 1 && Pow2(TrailingZeros(t)) <= t
    ensures Xor(t, Pow2(TrailingZeros(t))) == t - Pow2(TrailingZeros(t))
    ensures PopCount(t - Pow2(TrailingZeros(t))) + 1 == PopCount(t)
  {
    var s := TrailingZeros(t);
    TrailingZerosBound(t, w);
    TrailingZerosSpec(t);
    NtzOfPow2(s);
    LowestSetBit64(t);
    PopCountClearBit(t, s);
    ClearBit(t, s, 0);
  }

  /** Clearing the lowest set bit leaves every other bit as it was. */
  lemma LowestBitClear(t: nat)
    requires 0 < t
    ensures Pow2(TrailingZeros(t)) <= t
    ensures forall k :: Bit(t - Pow2(TrailingZeros(t)), k)
                        == if k == TrailingZeros(t) then 0 else Bit(t, k)
  {
    var s := TrailingZeros(t);
    TrailingZerosSpec(t);
    BitBound(t, s);
    forall k
      ensures Bit(t - Pow2(s), k) == if k == s then 0 else Bit(t, k)
    {
      ClearBit(t, s, k);
    }
  }

  /** The axes of `gene` whose bits are already cleared from `rest` have been reversed. */
  function PartialReverse(p: seq<nat>, gene: nat, rest: nat, mask: nat): (q: seq<nat>)
    ensures |q| == |p|
  {
    seq(|p|, j requires 0 <= j < |p| =>
      if Bit(gene, j) == 1 && Bit(rest, j) == 0 then Xor(p[j], mask) else p[j])
  }

  /** Every bit of `rest` below `w` is a bit of `gene`. */
  ghost predicate BitsWithin(rest: nat, gene: nat, w: nat)
  {
    forall k :: 0 <= k < w && Bit(rest, k) == 1 ==> Bit(gene, k) == 1
  }

  /** One round of the reversal loop reverses one more axis. */
  lemma PartialReverseStep(p: seq<nat>, gene: nat, t: u64, mask: nat)
    requires 0 < t < Pow2(|p|) && |p| < 64 && BitsWithin(t, gene, |p|)
    ensures TrailingZeros(t) < |p| && Pow2(TrailingZeros(t)) <= t
    ensures PartialReverse(p, gene, t, mask)[TrailingZeros(t)] == p[TrailingZeros(t)]
    ensures BitsWithin(t - Pow2(TrailingZeros(t)), gene, |p|)
    ensures PartialReverse(p, gene, t - Pow2(TrailingZeros(t)), mask)
            == PartialReverse(p, gene, t, mask)[TrailingZeros(t) := Xor(p[TrailingZeros(t)], mask)]
  {
    var s := TrailingZeros(t);
    TrailingZerosBound(t, |p|);
    LowestBitClear(t);
    TrailingZerosSpec(t);
    var lhs := PartialReverse(p, gene, t - Pow2(s), mask);
    var rhs := PartialReverse(p, gene, t, mask)[s := Xor(p[s], mask)];
    forall k | 0 <= k < |p|
      ensures lhs[k] == rhs[k]
      ensures Bit(t - Pow2(s), k) == 1 ==> Bit(gene, k) == 1
    {
      assert Bit(t - Pow2(s), k) == if k == s then 0 else Bit(t, k);
    }
  }

  /** With nothing left of the gene, every axis of the gene has been reversed. */
  lemma PartialReverseDone(p: seq<nat>, gene: nat, mask: nat)
    ensures PartialReverse(p, gene, 0, mask) == ReverseAxes(p, gene, mask)
  {
    forall k | 0 <= k < |p|
      ensures PartialReverse(p, gene, 0, mask)[k] == ReverseAxes(p, gene, mask)[k]
    {
      BitOfZero(k);
    }
  }

  /** One round of the reversal loop: clear the lowest bit of `tmpGene` and reverse its axis. */
  method ReverseOneAxis(a: array<u64>, gene: nat, mask: u64, ghost p: seq<nat>, tmpGene: u64)
    returns (tmpGene': u64)
    requires |p| == a.Length < 64 && 0 < tmpGene < Pow2(a.Length)
    requires BitsWithin(tmpGene, gene, a.Length) && a[..] == PartialReverse(p, gene, tmpGene, mask)
    modifies a
    ensures tmpGene' < tmpGene && PopCount(tmpGene') + 1 == PopCount(tmpGene)
    ensures BitsWithin(tmpGene', gene, a.Length) && a[..] == PartialReverse(p, gene, tmpGene', mask)
  {
    ghost var s := TrailingZeros(tmpGene);
    LowestBitStep(tmpGene, a.Length);
    var revDim := And(tmpGene, Neg64(tmpGene));
    assert revDim == Pow2(s);
    tmpGene' := Xor(tmpGene, revDim);
    assert tmpGene' == tmpGene - Pow2(s);
    var dimIdx := Ntz64(revDim);
    TrailingZerosOfPow2(s);
    assert dimIdx == s;
    FlipAxis(a, gene, mask, p, tmpGene, dimIdx);
  }

  /** `p[dimIdx] ^= mask` for the lowest remaining bit `dimIdx` of `t`: the axis joins the reversed ones. */
  method FlipAxis(a: array<u64>, gene: nat, mask: u64, ghost p: seq<nat>, ghost t: u64, dimIdx: nat)
    requires |p| == a.Length < 64 && 0 < t < Pow2(a.Length) && dimIdx == TrailingZeros(t)
    requires BitsWithin(t, gene, a.Length) && a[..] == PartialReverse(p, gene, t, mask)
    modifies a
    ensures Pow2(dimIdx) <= t && BitsWithin(t - Pow2(dimIdx), gene, a.Length)
    ensures a[..] == PartialReverse(p, gene, t - Pow2(dimIdx), mask)
  {
    PartialReverseStep(p, gene, t, mask);
    assert a[dimIdx] == p[dimIdx];
    Pow2Words();
    XorBound(a[dimIdx], mask, 64);
    ghost var before: seq<nat> := a[..];
    a[dimIdx] := Xor(a[dimIdx], mask);
    assert a[..] == before[dimIdx := Xor(p[dimIdx], mask)];
  }

  /**
   * The reversal loop: `pop64(gene)` rounds, each isolating the lowest
   * remaining bit of the gene, recovering its axis with `ntz64` and XORing
   * that axis with `mask`.
   */
  method ApplyReverse(a: array<u64>, gene: u64, mask: u64)
    requires gene < Pow2(a.Length) && a.Length < 64
    modifies a
    ensures a[..] == ReverseAxes(old(a[..]), gene, mask)
  {
    Pow2Words();
    ghost var p := a[..];
    var numReverses := Pop64(gene);
    var tmpGene: u64 := gene;
    assert PartialReverse(p, gene, gene, mask) == p;
    for j := 0 to numReverses
      invariant tmpGene <= gene && BitsWithin(tmpGene, gene, a.Length)
      invariant PopCount(tmpGene) == numReverses - j
      invariant a[..] == PartialReverse(p, gene, tmpGene, mask)
    {
      if tmpGene == 0 {
        assert false;
      }
      tmpGene := ReverseOneAxis(a, gene, mask, p, tmpGene);
    }
    PopCountZero(tmpGene);
    PartialReverseDone(p, gene, mask);
  }

  /**
   * The exchange block: `exDim1 = g & (-g)` and `exDim2 = g ^ exDim1`; when
   * both are nonzero the axes `ntz64(exDim1)` and `ntz64(exDim2)` are swapped.
   */
  method ApplyExchange(a: array<u64>, gene: u64)
    requires gene < Pow2(a.Length) && a.Length < 64
    modifies a
    ensures a[..] == ExchangeAxes(old(a[..]), gene)
  {
    Pow2Words();
    var exDim1 := And(gene, Neg64(gene));
    if gene == 0 {
      LowestSetBit64(gene);
      assert exDim1 == 0;
      return;
    }
    LowestBitStep(gene, a.Length);
    var exDim2 := Xor(gene, exDim1);
    if exDim1 != 0 && exDim2 != 0 {
      var dimIdx1 := Ntz64(exDim1);
      var dimIdx2 := Ntz64(exDim2);
      TrailingZerosOfPow2(TrailingZeros(gene));
      TrailingZerosBound(exDim2, a.Length);
      var tmp := a[dimIdx1];
      a[dimIdx1] := a[dimIdx2];
      a[dimIdx2] := tmp;
    }
  }

  // ---------------------------------------------------------------------------
  // Encoding: getHKeyFromIntCoord
  // ---------------------------------------------------------------------------

  /** The clamp of the encoder: a coordinate strictly above `2^m` becomes `2^m - 1`. */
  function ClampCoord(x: nat, m: nat): nat
  {
    if x > Pow2(m) then Pow2(m) - 1 else x
  }

  /** The clamp loop applied to every axis. */
  function Clamp(point: seq<nat>, m: nat): (q: seq<nat>)
    ensures |q| == |point|
  {
    seq(|point|, j requires 0 <= j < |point| => ClampCoord(point[j], m))
  }

  /**
   * What the clamp guarantees as written: afterwards every coordinate is at
   * most `2^m`, coordinates up to `2^m` are kept, larger ones become `2^m - 1`.
   * `2^m` itself is kept, although it has `m + 1` bits.
   */
  lemma ClampBound(x: nat, m: nat)
    ensures ClampCoord(x, m) <= Pow2(m)
    ensures x <= Pow2(m) ==> ClampCoord(x, m) == x
    ensures Pow2(m) < x ==> ClampCoord(x, m) == Pow2(m) - 1
    ensures ClampCoord(Pow2(m), m) == Pow2(m)
  {
  }

  /**
   * The clamp as intended: the point range `0 < point < 2**m` of the header
   * and the "highest possible space" comment of the clamp loop call for a
   * coordinate that does not fit in `m` bits to saturate to `2^m - 1`.
   */
  function ClampCoordIntended(x: nat, m: nat): (y: nat)
    ensures y < Pow2(m)
    ensures x < Pow2(m) ==> y == x
    ensures Pow2(m) <= x ==> y == Pow2(m) - 1
  {
    if x >= Pow2(m) then Pow2(m) - 1 else x
  }

  /** The intended clamp applied to every axis. */
  function ClampIntended(point: seq<nat>, m: nat): (q: seq<nat>)
    ensures |q| == |point|
    ensures forall j :: 0 <= j < |q| ==> q[j] < Pow2(m)
  {
    seq(|point|, j requires 0 <= j < |point| => ClampCoordIntended(point[j], m))
  }

  /** The two clamps differ only on a coordinate equal to `2^m`. */
  lemma ClampAgrees(point: seq<nat>, m: nat)
    requires forall j :: 0 <= j < |point| ==> point[j] != Pow2(m)
    ensures Clamp(point, m) == ClampIntended(point, m)
  {
  }

  /**
   * The sub-cube a working point lies in at bit `b`: the sum of
   * `IBITS(p[j], b, 1) << j` over the axes.
   */
  function SubCube(p: seq<nat>, b: nat): nat
    decreases |p|
  {
    if |p| == 0 then 0
    else SubCube(p[..|p| - 1], b) + Pow2(|p| - 1) * Bit(p[|p| - 1], b)
  }

  /** The sub-cube index has `dim` bits, and its bit `j` is bit `b` of axis `j`. */
  lemma {:induction false} SubCubeBits(p: seq<nat>, b: nat)
    ensures SubCube(p, b) < Pow2(|p|)
    ensures forall j :: 0 <= j < |p| ==> Bit(SubCube(p, b), j) == Bit(p[j], b)
    decreases |p|
  {
    if |p| > 0 {
      var n := |p| - 1;
      var q := p[..n];
      var lo, hi := SubCube(q, b), Bit(p[n], b);
      SubCubeBits(q, b);
      BitIsBinary(p[n], b);
      assert SubCube(p, b) == lo + Pow2(n) * hi;
      forall j | 0 <= j < |p|
        ensures Bit(SubCube(p, b), j) == Bit(p[j], b)
      {
        BitOfSum(lo, hi, n, j);
        if j < n {
          assert q[j] == p[j];
        }
      }
    }
  }

  /**
   * The genes of digit `d` applied to the working point: the reverse gene
   * complements whole 64-bit words, then the exchange gene swaps two axes.
   */
  function Transform(t: DimTables, p: seq<nat>, d: nat): (q: seq<nat>)
    requires Sized(t, |p|) && d < Pow2(|p|)
    ensures |q| == |p|
  {
    ExchangeAxes(ReverseAxes(p, t.genes[2 * d + 1], TWO_64 - 1), t.genes[2 * d])
  }

  /** `Transform` as its two steps, the reverse and then the exchange. */
  lemma TransformSteps(t: DimTables, p: seq<nat>, d: nat, mid: seq<nat>, q: seq<nat>)
    requires Sized(t, |p|) && d < Pow2(|p|)
    requires mid == ReverseAxes(p, t.genes[2 * d + 1], TWO_64 - 1)
    requires q == ExchangeAxes(mid, t.genes[2 * d])
    ensures q == Transform(t, p, d)
  {
  }

  /** The digit of the pass that reads bit `b`: where `revC` puts the sub-cube on the curve. */
  function Digit(t: DimTables, p: seq<nat>, b: nat): (d: nat)
    requires Sized(t, |p|)
    ensures d < Pow2(|p|)
  {
    SubCubeBits(p, b);
    t.revC[SubCube(p, b)]
  }

  /** The working point after the first `i` of `m` passes; pass `k` reads bit `m - 1 - k`. */
  function EncodeState(t: DimTables, p0: seq<nat>, m: nat, i: nat): (p: seq<nat>)
    requires Sized(t, |p0|) && i <= m
    ensures |p| == |p0|
    decreases i
  {
    if i == 0 then p0
    else
      var p := EncodeState(t, p0, m, i - 1);
      Transform(t, p, Digit(t, p, m - i))
  }

  /** The digits of the first `i` passes, most significant first. */
  function EncodeDigits(t: DimTables, p0: seq<nat>, m: nat, i: nat): (ds: seq<nat>)
    requires Sized(t, |p0|) && i <= m
    ensures |ds| == i
    decreases i
  {
    if i == 0 then []
    else EncodeDigits(t, p0, m, i - 1) + [Digit(t, EncodeState(t, p0, m, i - 1), m - i)]
  }

  /** Digits of `dim` bits, most significant first, read as one number. */
  function KeyOf(ds: seq<nat>, dim: nat): nat
    decreases |ds|
  {
    if |ds| == 0 then 0 else KeyOf(ds[..|ds| - 1], dim) * Pow2(dim) + ds[|ds| - 1]
  }

  /** The key of a point: the digits of all `m` passes over the clamped point, modulo 2^64. */
  function EncodeKey(t: DimTables, point: seq<nat>, m: nat): nat
    requires Sized(t, |point|)
  {
    KeyOf(EncodeDigits(t, Clamp(point, m), m, m), |point|) % TWO_64
  }

  /** The key of a point under the intended clamp. */
  function EncodeKeyIntended(t: DimTables, point: seq<nat>, m: nat): nat
    requires Sized(t, |point|)
  {
    KeyOf(EncodeDigits(t, ClampIntended(point, m), m, m), |point|) % TWO_64
  }

  /** Adding a multiple of the modulus does not change the remainder. */
  lemma ModAddMultiple(x: nat, k: nat, n: nat)
    requires n > 0
    ensures (x + k * n) % n == x % n
  {
    DivUnique(x + k * n, n, x / n + k, x % n);
  }

  /** `((k mod 2^64) << dim) + d` on a 64-bit word is `k * 2^dim + d` modulo 2^64. */
  lemma KeyStep(ds: seq<nat>, d: nat, dim: nat)
    ensures Add64(Shl64(KeyOf(ds, dim) % TWO_64, dim), d) == KeyOf(ds + [d], dim) % TWO_64
  {
    var k, p := KeyOf(ds, dim), Pow2(dim);
    assert (ds + [d])[..|ds|] == ds;
    assert KeyOf(ds + [d], dim) == k * p + d;
    var r := k % TWO_64;
    var v := (r * p) % TWO_64;
    assert k * p + d == (v + d) + ((k / TWO_64) * p + (r * p) / TWO_64) * TWO_64 by {
      assert k == (k / TWO_64) * TWO_64 + r;
      assert r * p == ((r * p) / TWO_64) * TWO_64 + v;
    }
    ModAddMultiple(v + d, (k / TWO_64) * p + (r * p) / TWO_64, TWO_64);
  }

  /**
   * Gathering the sub-cube index: one bit per axis with `IBITS` into `tmp`,
   * then `upperBitsOfPoint += tmp[j] << j`.
   */
  method GatherUpperBits(tmpPoint: array<u64>, b: nat) returns (upper: u64)
    requires b < 64 && tmpPoint.Length < 32
    ensures upper == SubCube(tmpPoint[..], b)
  {
    Pow2Words();
    var dim := tmpPoint.Length;
    var tmp := new u64[dim];
    for j := 0 to dim
      invariant forall k :: 0 <= k < j ==> tmp[k] == Bit(tmpPoint[k], b)
    {
      IbitsOneBit(tmpPoint[j], b);
      tmp[j] := Ibits(tmpPoint[j], b, 1);
    }
    upper := 0;
    for j := 0 to dim
      invariant forall k :: 0 <= k < dim ==> tmp[k] == Bit(tmpPoint[k], b)
      invariant upper == SubCube(tmpPoint[..j], b) && upper < Pow2(j)
    {
      assert tmpPoint[..][..j] == tmpPoint[..j];
      GatherStep(tmpPoint[..], j, b, upper, tmp[j]);
      assert tmpPoint[..][..j + 1] == tmpPoint[..j + 1];
      upper := Add64(upper, Shl64(tmp[j], j));
    }
    assert tmpPoint[..dim] == tmpPoint[..];
  }

  /** The index of one more axis adds that axis's bit at position `j`. */
  lemma SubCubeSnoc(p: seq<nat>, j: nat, b: nat)
    requires j < |p|
    ensures SubCube(p[..j + 1], b) == SubCube(p[..j], b) + Pow2(j) * Bit(p[j], b)
  {
    var q := p[..j + 1];
    assert |q| - 1 == j && q[..|q| - 1] == p[..j] && q[|q| - 1] == p[j];
  }

  /** The key bits a pass reads start below bit 64 when the last pass's do. */
  lemma PassPosition(dim: nat, i: nat, m: int)
    requires i < m && (m == 0 || dim * (m - 1) < 64)
    ensures dim * i < 64
  {
    MulLe(i, m - 1, dim);
  }

  /** Multiplying by a single bit keeps or drops the factor. */
  lemma MulBit(a: nat, bit: nat)
    requires bit < 2
    ensures a * bit == bit * a == (if bit == 0 then 0 else a)
  {
  }

  /** One step of the gathering loop: adding `bit << j` sets bit `j` of the index. */
  lemma GatherStep(p: seq<nat>, j: nat, b: nat, upper: nat, bit: nat)
    requires j < |p| && j < 32 && upper == SubCube(p[..j], b) && upper < Pow2(j)
    requires bit == Bit(p[j], b)
    ensures Add64(upper, Shl64(bit, j)) == SubCube(p[..j + 1], b) < Pow2(j + 1)
  {
    Pow2Words();
    BitIsBinary(p[j], b);
    Pow2Le(j + 1, 32);
    SubCubeSnoc(p, j, b);
    var x := if bit == 0 then 0 else Pow2(j);
    MulBit(Pow2(j), bit);
    assert Pow2(j + 1) == Pow2(j) + Pow2(j);
    SmallDiv(x, TWO_64);
    SmallDiv(upper + x, TWO_64);
  }

  /** The pass that reads bit `b + 1` hands on to the pass that reads bit `b`. */
  lemma EncodeUnfold(t: DimTables, p0: seq<nat>, m: nat, i: nat)
    requires Sized(t, |p0|) && i < m
    ensures var p := EncodeState(t, p0, m, i);
      && EncodeState(t, p0, m, i + 1) == Transform(t, p, Digit(t, p, m - 1 - i))
      && EncodeDigits(t, p0, m, i + 1) == EncodeDigits(t, p0, m, i) + [Digit(t, p, m - 1 - i)]
  {
  }

  /**
   * One pass of the encoder's main loop: the sub-cube index of bit `b`, its
   * digit `hOrder` shifted into the key, then the reverse and exchange genes
   * of that digit applied to the working point.
   */
  method EncodePass(t: DimTables, tmpPoint: array<u64>, b: nat, result: u64) returns (result': u64)
    requires Sized(t, tmpPoint.Length) && b < 64
    modifies tmpPoint
    ensures var d := Digit(t, old(tmpPoint[..]), b);
      && tmpPoint[..] == Transform(t, old(tmpPoint[..]), d)
      && result' == Add64(Shl64(result, tmpPoint.Length), d)
  {
    var dim := tmpPoint.Length;
    WordSized(dim);
    Pow2Words();
    ghost var p0 := tmpPoint[..];
    var upper := GatherUpperBits(tmpPoint, b);
    SubCubeBits(tmpPoint[..], b);
    var hOrder := t.revC[upper];
    assert hOrder == Digit(t, p0, b);
    result' := Add64(Shl64(result, dim), hOrder);
    var exchangeGene := t.genes[2 * hOrder];
    var reverseGene := t.genes[2 * hOrder + 1];
    ApplyReverse(tmpPoint, reverseGene, TWO_64 - 1);
    ghost var mid := tmpPoint[..];
    assert mid == ReverseAxes(p0, t.genes[2 * hOrder + 1], TWO_64 - 1);
    ApplyExchange(tmpPoint, exchangeGene);
    TransformSteps(t, p0, hOrder, mid, tmpPoint[..]);
  }

  /**
   * The working copy of the point (`memcpy` into `tmpPoint`), with every
   * coordinate above `2^m` set to `2^m - 1`.
   */
  method CopyAndClamp(point: seq<u64>, m: nat) returns (tmpPoint: array<u64>)
    requires m < 64
    ensures fresh(tmpPoint) && tmpPoint[..] == Clamp(point, m)
  {
    Pow2Words();
    Pow2Lt(m, 64);
    var twoPowerOfM: u64 := Pow2(m);
    tmpPoint := new u64[|point|](j requires 0 <= j < |point| => point[j]);
    for i := 0 to |point|
      invariant forall k :: 0 <= k < i ==> tmpPoint[k] == ClampCoord(point[k], m)
      invariant forall k :: i <= k < |point| ==> tmpPoint[k] == point[k]
    {
      if tmpPoint[i] > twoPowerOfM {
        tmpPoint[i] := twoPowerOfM - 1;
      }
    }
    assert tmpPoint[..] == Clamp(point, m);
  }

  /**
   * `getHKeyFromIntCoord`: the point is copied and clamped, then each of the
   * `m` passes appends one `dim`-bit digit to the key and applies that
   * digit's reverse and exchange genes to the working copy.
   */
  method GetHKeyFromIntCoord(tables: seq<DimTables>, m: int, dim: int, point: seq<u64>)
    returns (key: u64, err: int)
    requires Family(tables)
    requires 0 <= m <= 30 && 1 <= dim && |point| == dim
    ensures dim > |tables| ==> key == 0 && err == HKEY_ERR_DIM
    ensures dim <= |tables| ==> err == HKEY_ERR_OK && key == EncodeKey(tables[dim - 1], point, m)
    ensures dim <= |tables| && (forall j :: 0 <= j < dim ==> point[j] != Pow2(m))
      ==> key == EncodeKeyIntended(tables[dim - 1], point, m)
  {
    if dim > |tables| {
      return 0, HKEY_ERR_DIM;
    }
    var t := tables[dim - 1];
    assert WellFormed(t, dim);
    assert Sized(t, dim);
    var tmpPoint := CopyAndClamp(point, m);
    ghost var start := tmpPoint[..];
    var result: u64 := 0;
    for i := 0 to m
      invariant tmpPoint[..] == EncodeState(t, start, m, i)
      invariant result == KeyOf(EncodeDigits(t, start, m, i), dim) % TWO_64
    {
      ghost var d := Digit(t, tmpPoint[..], m - 1 - i);
      EncodeUnfold(t, start, m, i);
      KeyStep(EncodeDigits(t, start, m, i), d, dim);
      result := EncodePass(t, tmpPoint, m - 1 - i, result);
    }
    key, err := result, HKEY_ERR_OK;
    if forall j :: 0 <= j < dim ==> point[j] != Pow2(m) {
      ClampAgrees(point, m);
    }
  }

  // ---------------------------------------------------------------------------
  // Decoding: getIntCoordFromHKey
  // ---------------------------------------------------------------------------

  /** Every entry of `p` is below `n`. */
  ghost predicate Below(p: seq<nat>, n: nat)
  {
    forall j :: 0 <= j < |p| ==> p[j] < n
  }

  /** `dim` zero coordinates: the array after the decoder's `memset`. */
  function Zeros(dim: nat): (p: seq<nat>)
    ensures |p| == dim
  {
    seq(dim, j => 0)
  }

  /** Digit `i` of a key: the `dim` bits that start at bit `dim * i`. */
  function KeyDigit(key: nat, dim: nat, i: nat): (d: nat)
    ensures d < Pow2(dim)
  {
    MulLe(0, dim, i);
    LowBound(Shr(key, dim * i), dim);
    Low(Shr(key, dim * i), dim)
  }

  /** The digit is the C `IBITS(key, dim * i, dim)`. */
  lemma KeyDigitIsField(key: nat, dim: nat, i: nat, pos: nat)
    requires pos == dim * i
    ensures KeyDigit(key, dim, i) == (key / Pow2(pos)) % Pow2(dim)
  {
    ShrIsDiv(key, pos);
    LowIsMod(Shr(key, pos), dim);
  }

  /** The digits `0 .. n - 1` of a key, lowest first. */
  function KeyDigits(key: nat, dim: nat, n: nat): (ds: seq<nat>)
    ensures |ds| == n && Below(ds, Pow2(dim))
  {
    seq(n, i requires 0 <= i < n => KeyDigit(key, dim, i))
  }

  /** Sets bit `i` of each axis `j` for which bit `j` of the curve position `pc` is set. */
  function Place(p: seq<nat>, pc: nat, i: nat): (q: seq<nat>)
    ensures |q| == |p|
  {
    seq(|p|, j requires 0 <= j < |p| => if Bit(pc, j) == 1 then p[j] + Pow2(i) else p[j])
  }

  /**
   * Undoing the genes of digit `d` on coordinates of `i` bits: the exchange
   * gene swaps two axes, then the reverse gene complements the low `i` bits.
   */
  function Undo(t: DimTables, p: seq<nat>, d: nat, i: nat): (q: seq<nat>)
    requires Sized(t, |p|) && d < Pow2(|p|)
    ensures |q| == |p|
  {
    ReverseAxes(ExchangeAxes(p, t.genes[2 * d]), t.genes[2 * d + 1], Pow2(i) - 1)
  }

  /**
   * The coordinates after the first `k` passes of the decoder (`k >= 1`) on
   * the digits `ds`, lowest first: pass 0 places the bits of `C[ds[0]]` at
   * bit 0, and pass `i` undoes the genes of `ds[i]` on the `i` bits so far,
   * then places `C[ds[i]]` at bit `i`.
   */
  function DecodeState(t: DimTables, ds: seq<nat>, dim: nat, k: nat): (p: seq<nat>)
    requires Sized(t, dim) && Below(ds, Pow2(dim)) && 1 <= k <= |ds|
    ensures |p| == dim
    decreases k
  {
    if k == 1 then Place(Zeros(dim), t.c[ds[0]], 0)
    else Place(Undo(t, DecodeState(t, ds, dim, k - 1), ds[k - 1], k - 1), t.c[ds[k - 1]], k - 1)
  }


  /** Exchanging two axes keeps every coordinate below the same bound. */
  lemma ExchangeBelow(p: seq<nat>, gene: nat, n: nat)
    requires gene < Pow2(|p|) && Below(p, n)
    ensures Below(ExchangeAxes(p, gene), n)
  {
    if gene != 0 {
      var i1 := TrailingZeros(gene);
      TrailingZerosBound(gene, |p|);
      TrailingZerosSpec(gene);
      BitBound(gene, i1);
      var rest := gene - Pow2(i1);
      if rest != 0 {
        var i2 := TrailingZeros(rest);
        TrailingZerosBound(rest, |p|);
        var q := p[i1 := p[i2]][i2 := p[i1]];
        assert ExchangeAxes(p, gene) == q;
        assert forall j :: 0 <= j < |q| ==> q[j] == p[j] || q[j] == p[i1] || q[j] == p[i2];
      }
    }
  }

  /** Complementing the low `i` bits keeps an `i`-bit coordinate below `2^i`. */
  lemma ReverseBelow(p: seq<nat>, gene: nat, i: nat)
    requires Below(p, Pow2(i))
    ensures Below(ReverseAxes(p, gene, Pow2(i) - 1), Pow2(i))
  {
    LtPow2(i);
    var mask := Pow2(i) - 1;
    forall j | 0 <= j < |p|
      ensures Xor(p[j], mask) < Pow2(i)
    {
      XorBound(p[j], mask, i);
    }
  }

  /** Undoing a digit's genes keeps `i`-bit coordinates below `2^i`. */
  lemma UndoBelow(t: DimTables, p: seq<nat>, d: nat, i: nat)
    requires Sized(t, |p|) && d < Pow2(|p|) && Below(p, Pow2(i))
    ensures Below(Undo(t, p, d, i), Pow2(i))
  {
    ExchangeBelow(p, t.genes[2 * d], Pow2(i));
    ReverseBelow(ExchangeAxes(p, t.genes[2 * d]), t.genes[2 * d + 1], i);
  }

  /** A whole decoder pass turns `i`-bit coordinates into `(i + 1)`-bit ones. */
  lemma PassBelow(t: DimTables, p: seq<nat>, d: nat, i: nat, k: nat)
    requires Sized(t, |p|) && d < Pow2(|p|) && Below(p, Pow2(i)) && k == i + 1
    ensures Below(Place(Undo(t, p, d, i), t.c[d], i), Pow2(k))
  {
    UndoBelow(t, p, d, i);
    PlaceBelow(Undo(t, p, d, i), t.c[d], i);
  }

  /** Placing bit `i` on `i`-bit coordinates gives `(i + 1)`-bit coordinates. */
  lemma PlaceBelow(p: seq<nat>, pc: nat, i: nat)
    requires Below(p, Pow2(i))
    ensures Below(Place(p, pc, i), Pow2(i + 1))
  {
  }

  /** Pass `i >= 1` of the decoder starts from coordinates of `i` bits. */
  lemma DecodeNext(t: DimTables, ds: seq<nat>, dim: nat, i: nat)
    requires Sized(t, dim) && Below(ds, Pow2(dim)) && 1 <= i < |ds|
    ensures Below(DecodeState(t, ds, dim, i), Pow2(i))
    ensures DecodeState(t, ds, dim, i + 1) == Place(Undo(t, DecodeState(t, ds, dim, i), ds[i], i), t.c[ds[i]], i)
  {
    DecodeStateBelow(t, ds, dim, i);
  }

  /** After the first pass every coordinate is a single bit. */
  lemma DecodeFirstBelow(t: DimTables, ds: seq<nat>, dim: nat, k: nat)
    requires Sized(t, dim) && Below(ds, Pow2(dim)) && k == 1 <= |ds|
    ensures Below(DecodeState(t, ds, dim, k), Pow2(k))
  {
    PlaceBelow(Zeros(dim), t.c[ds[0]], 0);
  }

  /** Each later pass adds one bit to every coordinate. */
  lemma DecodeStepBelow(t: DimTables, ds: seq<nat>, dim: nat, k: nat)
    requires Sized(t, dim) && Below(ds, Pow2(dim)) && 2 <= k <= |ds|
    requires Below(DecodeState(t, ds, dim, k - 1), Pow2(k - 1))
    ensures Below(DecodeState(t, ds, dim, k), Pow2(k))
  {
    PassBelow(t, DecodeState(t, ds, dim, k - 1), ds[k - 1], k - 1, k);
  }

  /** After `k` passes every coordinate has at most `k` bits. */
  lemma {:induction false} DecodeStateBelow(t: DimTables, ds: seq<nat>, dim: nat, k: nat)
    requires Sized(t, dim) && Below(ds, Pow2(dim)) && 1 <= k <= |ds|
    ensures Below(DecodeState(t, ds, dim, k), Pow2(k))
    decreases k
  {
    if k == 1 {
      DecodeFirstBelow(t, ds, dim, k);
    } else {
      DecodeStateBelow(t, ds, dim, k - 1);
      DecodeStepBelow(t, ds, dim, k);
    }
  }

  /**
   * Placing bit `i` sets bit `i` of axis `j` to bit `j` of the curve position
   * and keeps the bits below `i`.
   */
  lemma PlaceBit(p: seq<nat>, pc: nat, i: nat, j: nat)
    requires Below(p, Pow2(i)) && j < |p|
    ensures Bit(Place(p, pc, i)[j], i) == Bit(pc, j)
    ensures forall l :: 0 <= l < i ==> Bit(Place(p, pc, i)[j], l) == Bit(p[j], l)
  {
    var b := Bit(pc, j);
    BitIsBinary(pc, j);
    MulBit(Pow2(i), b);
    assert Place(p, pc, i)[j] == p[j] + Pow2(i) * b;
    forall l | 0 <= l <= i
      ensures l < i ==> Bit(Place(p, pc, i)[j], l) == Bit(p[j], l)
      ensures l == i ==> Bit(Place(p, pc, i)[j], l) == b
    {
      BitOfSum(p[j], b, i, l);
    }
  }

  /**
   * Pass `i` of the decoder leaves bit `i` of axis `j` equal to bit `j` of
   * `C[ds[i]]`.
   */
  lemma DecodeStatePlacesBit(t: DimTables, ds: seq<nat>, dim: nat, i: nat, j: nat)
    requires Sized(t, dim) && Below(ds, Pow2(dim)) && i < |ds| && j < dim
    ensures Bit(DecodeState(t, ds, dim, i + 1)[j], i) == Bit(t.c[ds[i]], j)
  {
    if i == 0 {
      PlaceBit(Zeros(dim), t.c[ds[0]], 0, j);
    } else {
      DecodeNext(t, ds, dim, i);
      var q := DecodeState(t, ds, dim, i);
      UndoBelow(t, q, ds[i], i);
      PlaceBit(Undo(t, q, ds[i], i), t.c[ds[i]], i, j);
    }
  }

  /** One step of the placing loop: `x += IBITS(pc, j, 1) << i` on a 64-bit word. */
  lemma PlaceStep(x: nat, pc: u64, i: nat, j: nat)
    requires x < Pow2(i) && i < 64 && j < 64
    ensures Add64(x, Shl64(Ibits(pc, j, 1), i)) == (if Bit(pc, j) == 1 then x + Pow2(i) else x)
    ensures Add64(x, Shl64(Ibits(pc, j, 1), i)) < Pow2(i + 1)
  {
    Pow2Words();
    Pow2Le(i + 1, 64);
    IbitsOneBit(pc, j);
    var bit := Ibits(pc, j, 1);
    MulBit(Pow2(i), bit);
    var y := if bit == 0 then 0 else Pow2(i);
    assert Pow2(i + 1) == Pow2(i) + Pow2(i);
    SmallDiv(y, TWO_64);
    SmallDiv(x + y, TWO_64);
  }

  /** The placing loop of one decoder pass. */
  method PlaceBits(outCoord: array<u64>, pc: u64, i: nat)
    requires i < 64 && outCoord.Length < 64 && Below(outCoord[..], Pow2(i))
    modifies outCoord
    ensures outCoord[..] == Place(old(outCoord[..]), pc, i)
  {
    ghost var p := outCoord[..];
    for j := 0 to outCoord.Length
      invariant forall k :: 0 <= k < j ==> outCoord[k] == Place(p, pc, i)[k]
      invariant forall k :: j <= k < outCoord.Length ==> outCoord[k] == p[k]
    {
      PlaceStep(p[j], pc, i, j);
      outCoord[j] := Add64(outCoord[j], Shl64(Ibits(pc, j, 1), i));
    }
  }

  /**
   * One pass `i >= 1` of the decoder: read digit `i`, extend `flip` to `i`
   * ones, exchange, reverse with `flip`, place the bits of `C[digit]` at bit `i`.
   */
  method DecodePass(t: DimTables, outCoord: array<u64>, key: u64, i: nat, flip: u64)
    returns (flip': u64)
    requires Sized(t, outCoord.Length) && 1 <= i && outCoord.Length * i < 64
    requires flip == Pow2(i - 1) - 1 && Below(outCoord[..], Pow2(i))
    modifies outCoord
    ensures flip' == Pow2(i) - 1
    ensures outCoord[..] == Place(Undo(t, old(outCoord[..]), KeyDigit(key, outCoord.Length, i), i),
                                  t.c[KeyDigit(key, outCoord.Length, i)], i)
  {
    var dim := outCoord.Length;
    WordSized(dim);
    assert 0 <= dim * i && i <= dim * i by {
      MulLe(0, dim, i);
      MulLe(1, dim, i);
    }
    var lowerNBits := Ibits(key, dim * i, dim);
    ghost var d := KeyDigit(key, dim, i);
    KeyDigitIsField(key, dim, i, dim * i);
    var partOnCurve: u64 := t.c[lowerNBits];
    flip' := Shl64(flip, 1);
    flip' := Add64(flip', 1);
    FlipStep(flip, i);
    var exchangeGene := t.genes[lowerNBits * 2];
    var reverseGene := t.genes[lowerNBits * 2 + 1];
    assert exchangeGene == t.genes[2 * d] && reverseGene == t.genes[2 * d + 1];
    ghost var p := outCoord[..];
    ApplyExchange(outCoord, exchangeGene);
    ApplyReverse(outCoord, reverseGene, flip');
    assert outCoord[..] == Undo(t, p, d, i);
    UndoBelow(t, p, d, i);
    PlaceBits(outCoord, partOnCurve, i);
  }

  /** `flip = (flip << 1) + 1` turns `i - 1` low ones into `i` low ones. */
  lemma FlipStep(flip: nat, i: nat)
    requires 1 <= i < 64 && flip == Pow2(i - 1) - 1
    ensures Add64(Shl64(flip, 1), 1) == Pow2(i) - 1
  {
    Pow2Words();
    Pow2Le(i, 64);
    assert Pow2(1) == 2;
    SmallDiv(flip * 2, TWO_64);
    SmallDiv(flip * 2 + 1, TWO_64);
  }

  /**
   * The start of the decoder: `memset` the output to zero, then place the
   * bits of the curve position of the lowest digit at bit 0.
   */
  method DecodeFirstPass(t: DimTables, outCoord: array<u64>, key: u64, ghost ds: seq<nat>, k: nat)
    requires Sized(t, outCoord.Length) && k == 1 <= |ds| && ds == KeyDigits(key, outCoord.Length, |ds|)
    modifies outCoord
    ensures outCoord[..] == DecodeState(t, ds, outCoord.Length, k)
  {
    var dim := outCoord.Length;
    WordSized(dim);
    for j := 0 to dim
      invariant forall k :: 0 <= k < j ==> outCoord[k] == 0
    {
      outCoord[j] := 0;
    }
    assert outCoord[..] == Zeros(dim);
    var lowerNBits := Ibits(key, 0, dim);
    var partOnCurve: u64 := t.c[lowerNBits];
    LtPow2(0);
    KeyDigitIsField(key, dim, 0, 0);
    assert lowerNBits == ds[0];
    PlaceBits(outCoord, partOnCurve, 0);
  }

  /** Pass `i` of the decoder takes the decoded state of level `i` to level `i + 1`. */
  method DecodeStep(t: DimTables, outCoord: array<u64>, key: u64, ghost ds: seq<nat>, i: nat, flip: u64)
    returns (flip': u64)
    requires Sized(t, outCoord.Length) && 1 <= i < |ds| && outCoord.Length * i < 64
    requires ds == KeyDigits(key, outCoord.Length, |ds|)
    requires flip == Pow2(i - 1) - 1 && outCoord[..] == DecodeState(t, ds, outCoord.Length, i)
    modifies outCoord
    ensures flip' == Pow2(i) - 1 && outCoord[..] == DecodeState(t, ds, outCoord.Length, i + 1)
  {
    DecodeNext(t, ds, outCoord.Length, i);
    assert ds[i] == KeyDigit(key, outCoord.Length, i);
    flip' := DecodePass(t, outCoord, key, i, flip);
  }

  /**
   * The decoder's passes on the digits `ds` of `key`: the first places the
   * bits of the lowest digit, each of passes `1 .. |ds| - 1` undoes the
   * transformation of the level above and places the next bit.
   */
  method DecodePasses(t: DimTables, outCoord: array<u64>, key: u64, passes: nat, ghost ds: seq<nat>)
    requires Sized(t, outCoord.Length) && 1 <= passes && outCoord.Length * (passes - 1) < 64
    requires ds == KeyDigits(key, outCoord.Length, passes)
    modifies outCoord
    ensures outCoord[..] == DecodeState(t, ds, outCoord.Length, passes)
  {
    var flip: u64 := 0;
    var i := 1;
    DecodeFirstPass(t, outCoord, key, ds, i);
    assert flip == Pow2(i - 1) - 1;
    while i < passes
      invariant 1 <= i <= passes
      invariant flip == Pow2(i - 1) - 1
      invariant outCoord[..] == DecodeState(t, ds, outCoord.Length, i)
      decreases passes - i
    {
      PassPosition(outCoord.Length, i, passes);
      flip := DecodeStep(t, outCoord, key, ds, i, flip);
      i := i + 1;
    }
    assert i == passes;
  }

  /**
   * `getIntCoordFromHKey`: clear the output, place the bits of the curve
   * position of the lowest digit, then run passes `1 .. m - 1`.
   */
  method GetIntCoordFromHKey(tables: seq<DimTables>, outCoord: array<u64>, m: int, dim: int, key: u64)
    returns (err: int)
    requires Family(tables) && 1 <= dim <= |tables| && outCoord.Length == dim
    requires 0 <= m && (m == 0 || dim * (m - 1) < 64) && key < Pow2(dim * m)
    modifies outCoord
    ensures err == HKEY_ERR_OK
    ensures var passes := if m == 0 then 1 else m;
      outCoord[..] == DecodeState(tables[dim - 1], KeyDigits(key, dim, passes), dim, passes)
    ensures forall j :: 0 <= j < dim ==> outCoord[j] < Pow2(if m == 0 then 1 else m)
  {
    var t := tables[dim - 1];
    assert WellFormed(t, dim);
    assert Sized(t, dim);
    WordSized(dim);
    Pow2Words();
    var passes := if m == 0 then 1 else m;
    DecodePasses(t, outCoord, key, passes, KeyDigits(key, dim, passes));
    DecodeStateBelow(t, KeyDigits(key, dim, passes), dim, passes);
    assert Below(outCoord[..], Pow2(passes));
    err := HKEY_ERR_OK;
  }

  // ---------------------------------------------------------------------------
  // Properties of the genes
  // ---------------------------------------------------------------------------

  /** Applying the same reverse gene twice restores the point. */
  lemma ReverseAxesInvolution(p: seq<nat>, gene: nat, mask: nat)
    ensures ReverseAxes(ReverseAxes(p, gene, mask), gene, mask) == p
  {
    var q := ReverseAxes(p, gene, mask);
    forall j | 0 <= j < |p|
      ensures ReverseAxes(q, gene, mask)[j] == p[j]
    {
      XorInvolution(p[j], mask);
    }
  }

  /** An exchange gene with a single set bit leaves the point as it is. */
  lemma ExchangeAxesOneBit(p: seq<nat>, a: nat)
    requires a < |p|
    ensures Pow2(a) < Pow2(|p|)
    ensures ExchangeAxes(p, Pow2(a)) == p
  {
    Pow2Lt(a, |p|);
    TrailingZerosOfPow2(a);
  }

  /** Applying the same exchange gene twice restores the point. */
  lemma ExchangeAxesInvolution(p: seq<nat>, gene: nat)
    requires gene < Pow2(|p|)
    ensures ExchangeAxes(ExchangeAxes(p, gene), gene) == p
  {
    if gene != 0 {
      var i1 := TrailingZeros(gene);
      TrailingZerosBound(gene, |p|);
      TrailingZerosSpec(gene);
      BitBound(gene, i1);
      var rest := gene - Pow2(i1);
      if rest != 0 {
        var i2 := TrailingZeros(rest);
        TrailingZerosBound(rest, |p|);
        var q := p[i1 := p[i2]][i2 := p[i1]];
        assert ExchangeAxes(p, gene) == q;
        assert ExchangeAxes(q, gene) == q[i1 := q[i2]][i2 := q[i1]];
        assert q[i1 := q[i2]][i2 := q[i1]] == p;
      }
    }
  }

  // ---------------------------------------------------------------------------
  // Properties of the key
  // ---------------------------------------------------------------------------

  /** Every digit is a `dim`-bit position on the curve. */
  lemma {:induction false} EncodeDigitsBound(t: DimTables, p0: seq<nat>, m: nat, i: nat)
    requires Sized(t, |p0|) && i <= m
    ensures forall j :: 0 <= j < i ==> EncodeDigits(t, p0, m, i)[j] < Pow2(|p0|)
    decreases i
  {
    if i > 0 {
      EncodeDigitsBound(t, p0, m, i - 1);
      var ds := EncodeDigits(t, p0, m, i);
      assert ds[..i - 1] == EncodeDigits(t, p0, m, i - 1);
      forall j | 0 <= j < i
        ensures ds[j] < Pow2(|p0|)
      {
        if j < i - 1 {
          assert ds[j] == ds[..i - 1][j];
        }
      }
    }
  }

  /** Appending a digit below `p` to a number below `q` stays below `q * p`. */
  lemma AppendDigitBound(k: nat, q: nat, p: nat, d: nat)
    requires k < q && d < p
    ensures k * p + d < q * p
  {
    MulLe(k, q - 1, p);
    assert (q - 1) * p == q * p - p;
  }

  /** `dim * k` bits, then `dim` more, make `dim * (k + 1)` bits. */
  lemma Pow2Digits(dim: nat, k: nat)
    ensures Pow2(dim * k) * Pow2(dim) == Pow2(dim * (k + 1))
  {
    MulLe(0, dim, k);
    var e: nat := dim * k;
    assert e + dim == dim * (k + 1);
    Pow2Add(e, dim);
  }

  /** `n` digits of `dim` bits make a number of `dim * n` bits. */
  lemma {:induction false} KeyOfBound(ds: seq<nat>, dim: nat)
    requires forall j :: 0 <= j < |ds| ==> ds[j] < Pow2(dim)
    ensures KeyOf(ds, dim) < Pow2(dim * |ds|)
    decreases |ds|
  {
    var n := |ds|;
    if n > 0 {
      var front := ds[..n - 1];
      KeyOfBound(front, dim);
      AppendDigitBound(KeyOf(front, dim), Pow2(dim * (n - 1)), Pow2(dim), ds[n - 1]);
      Pow2Digits(dim, n - 1);
    }
  }

  /**
   * With `dim * m <= 64` the key does not wrap: it is the `m` digits read as
   * one number, and it has `dim * m` bits.
   */
  lemma EncodeKeyBound(t: DimTables, point: seq<nat>, m: nat, bits: nat)
    requires Sized(t, |point|) && bits == |point| * m <= 64
    ensures EncodeKey(t, point, m) == KeyOf(EncodeDigits(t, Clamp(point, m), m, m), |point|)
    ensures EncodeKey(t, point, m) < Pow2(bits)
  {
    var q := Clamp(point, m);
    var ds := EncodeDigits(t, q, m, m);
    EncodeDigitsBound(t, q, m, m);
    KeyOfBound(ds, |point|);
    var key := KeyOf(ds, |point|);
    Pow2Le(bits, 64);
    Pow2Words();
    SmallDiv(key, TWO_64);
    assert EncodeKey(t, point, m) == key % TWO_64;
  }

  /**
   * Digit `k` of a key, counted from the low end, is digit `k` from the end
   * of the digit sequence the key was built from.
   */
  lemma {:induction false} KeyDigitOfKey(ds: seq<nat>, dim: nat, k: nat)
    requires Below(ds, Pow2(dim)) && k < |ds|
    ensures KeyDigit(KeyOf(ds, dim), dim, k) == ds[|ds| - 1 - k]
    decreases |ds|
  {
    var n := |ds|;
    var front := ds[..n - 1];
    KeyOfSplit(ds, dim);
    if k == 0 {
      KeyDigitLowest(KeyOf(ds, dim), ds[n - 1], KeyOf(front, dim), dim);
    } else {
      KeyDigitHigher(KeyOf(ds, dim), ds[n - 1], KeyOf(front, dim), dim, k);
      assert Below(front, Pow2(dim));
      KeyDigitOfKey(front, dim, k - 1);
    }
  }

  /** A key is its last digit below the earlier digits shifted up by `dim` bits. */
  lemma KeyOfSplit(ds: seq<nat>, dim: nat)
    requires |ds| > 0
    ensures KeyOf(ds, dim) == ds[|ds| - 1] + Scale(KeyOf(ds[..|ds| - 1], dim), dim)
  {
    var hi, p := KeyOf(ds[..|ds| - 1], dim), Pow2(dim);
    ScaleIsMul(hi, dim);
    assert KeyOf(ds, dim) == hi * p + ds[|ds| - 1];
    assert Scale(hi, dim) == hi * p;
  }

  /** Digit 0 of `lo + hi * 2^dim` is `lo`. */
  lemma KeyDigitLowest(key: nat, lo: nat, hi: nat, dim: nat)
    requires lo < Pow2(dim) && key == lo + Scale(hi, dim)
    ensures KeyDigit(key, dim, 0) == lo
  {
    Compose(lo, hi, dim);
    assert dim * 0 == 0;
    assert Shr(key, 0) == key;
  }

  /** Digit `k > 0` of `lo + hi * 2^dim` is digit `k - 1` of `hi`. */
  lemma KeyDigitHigher(key: nat, lo: nat, hi: nat, dim: nat, k: nat)
    requires lo < Pow2(dim) && key == lo + Scale(hi, dim) && k > 0
    ensures KeyDigit(key, dim, k) == KeyDigit(hi, dim, k - 1)
  {
    Compose(lo, hi, dim);
    var e := dim * (k - 1);
    assert dim + e == dim * k;
    ShrShr(key, dim, e);
    assert Shr(key, dim * k) == Shr(hi, e);
  }

  /** The last of `i` encoder digits is the digit of pass `i - 1`, which reads bit `b = m - i`. */
  lemma EncodeDigitsLast(t: DimTables, p0: seq<nat>, m: nat, i: nat, b: nat)
    requires Sized(t, |p0|) && 0 < i <= m && b + i == m
    ensures EncodeDigits(t, p0, m, i)[i - 1] == Digit(t, EncodeState(t, p0, m, i - 1), b)
  {
  }

  /** One more pass appends one digit and keeps the earlier ones. */
  lemma EncodeDigitsSnoc(t: DimTables, p0: seq<nat>, m: nat, i: nat)
    requires Sized(t, |p0|) && 0 < i <= m
    ensures EncodeDigits(t, p0, m, i)[..i - 1] == EncodeDigits(t, p0, m, i - 1)
  {
  }

  /** The digit sequences after `0 .. m` passes, each extending the one before. */
  lemma EncodeDigitsChain(t: DimTables, p0: seq<nat>, m: nat) returns (chain: seq<seq<nat>>)
    requires Sized(t, |p0|)
    ensures |chain| == m + 1
    ensures forall n :: 0 <= n < |chain| ==> chain[n] == EncodeDigits(t, p0, m, n)
    ensures forall n :: 0 <= n < |chain| ==> |chain[n]| == n
    ensures forall n, p :: 0 < n < |chain| && p + 1 == n ==> chain[n][..p] == chain[p]
  {
    chain := seq(m + 1, n requires 0 <= n <= m => EncodeDigits(t, p0, m, n));
    forall n, p | 0 < n < |chain| && p + 1 == n
      ensures chain[n][..p] == chain[p]
    {
      EncodeDigitsSnoc(t, p0, m, n);
    }
  }

  /** In a chain where entry `i` has length `i` and extends entry `i - 1`, entry `i` extends every earlier entry. */
  lemma {:induction false} SnocChainPrefix<T>(chain: seq<seq<T>>, i: nat, j: nat)
    requires j <= i < |chain|
    requires forall n :: 0 <= n < |chain| ==> |chain[n]| == n
    requires forall n, p :: 0 < n < |chain| && p + 1 == n ==> chain[n][..p] == chain[p]
    ensures chain[i][..j] == chain[j]
    decreases i
  {
    if j < i {
      SnocChainPrefix(chain, i - 1, j);
      assert chain[i][..i - 1] == chain[i - 1];
      assert chain[i][..j] == chain[i][..i - 1][..j];
    }
  }

  /** The digits of the first `j` passes are a prefix of the digits of the first `i`. */
  lemma EncodeDigitsPrefix(t: DimTables, p0: seq<nat>, m: nat, i: nat, j: nat)
    requires Sized(t, |p0|) && j <= i <= m
    ensures EncodeDigits(t, p0, m, i)[..j] == EncodeDigits(t, p0, m, j)
  {
    var chain := EncodeDigitsChain(t, p0, m);
    SnocChainPrefix(chain, i, j);
    assert chain[i] == EncodeDigits(t, p0, m, i) && chain[j] == EncodeDigits(t, p0, m, j);
  }

  /**
   * The decoder's digit `i` of an encoder key is the digit the encoder
   * computed from bit `i` of the working coordinates: both routines pair the
   * key bits `dim * i .. dim * i + dim - 1` with coordinate bit `i`.
   */
  lemma KeyDigitOfEncodeKey(t: DimTables, point: seq<nat>, m: nat, i: nat)
    requires Sized(t, |point|) && |point| * m <= 64 && i < m
    ensures KeyDigit(EncodeKey(t, point, m), |point|, i)
         == Digit(t, EncodeState(t, Clamp(point, m), m, m - 1 - i), i)
  {
    var q := Clamp(point, m);
    var ds := EncodeDigits(t, q, m, m);
    EncodeKeyBound(t, point, m, |point| * m);
    EncodeDigitsBound(t, q, m, m);
    assert Below(ds, Pow2(|point|));
    KeyDigitOfKey(ds, |point|, i);
    var k := m - 1 - i;
    EncodeDigitsPrefix(t, q, m, m, k + 1);
    assert ds[k] == ds[..k + 1][k];
    EncodeDigitsLast(t, q, m, k + 1, i);
  }

  // ---------------------------------------------------------------------------
  // The encoder reads only the low `m` bits of each coordinate
  // ---------------------------------------------------------------------------

  /** Two working points whose coordinates agree in their low `m` bits. */
  ghost predicate AgreeLow(a: seq<nat>, b: seq<nat>, m: nat)
  {
    |a| == |b| && forall j :: 0 <= j < |a| ==> Low(a[j], m) == Low(b[j], m)
  }

  /** The sub-cube index at a bit below `m` depends only on the low `m` bits. */
  lemma {:induction false} SubCubeAgree(a: seq<nat>, b: seq<nat>, m: nat, bit: nat)
    requires AgreeLow(a, b, m) && bit < m
    ensures SubCube(a, bit) == SubCube(b, bit)
    decreases |a|
  {
    if |a| > 0 {
      var n := |a| - 1;
      assert AgreeLow(a[..n], b[..n], m);
      SubCubeAgree(a[..n], b[..n], m, bit);
      LowAgreeBit(a[n], b[n], m, bit);
    }
  }

  /** An exchange moves whole coordinates, so agreement in the low bits survives it. */
  lemma ExchangeAgree(a: seq<nat>, b: seq<nat>, gene: nat, m: nat)
    requires gene < Pow2(|a|) && AgreeLow(a, b, m)
    ensures AgreeLow(ExchangeAxes(a, gene), ExchangeAxes(b, gene), m)
  {
    if gene != 0 {
      var i1 := TrailingZeros(gene);
      TrailingZerosBound(gene, |a|);
      TrailingZerosSpec(gene);
      BitBound(gene, i1);
      var rest := gene - Pow2(i1);
      if rest != 0 {
        var i2 := TrailingZeros(rest);
        TrailingZerosBound(rest, |a|);
        assert ExchangeAxes(a, gene) == a[i1 := a[i2]][i2 := a[i1]];
        assert ExchangeAxes(b, gene) == b[i1 := b[i2]][i2 := b[i1]];
      }
    }
  }

  /** The transform of a digit keeps two points' low `m` bits in agreement. */
  lemma TransformAgree(t: DimTables, a: seq<nat>, b: seq<nat>, m: nat, d: nat)
    requires Sized(t, |a|) && d < Pow2(|a|) && AgreeLow(a, b, m)
    ensures AgreeLow(Transform(t, a, d), Transform(t, b, d), m)
  {
    var gene := t.genes[2 * d + 1];
    var ra, rb := ReverseAxes(a, gene, TWO_64 - 1), ReverseAxes(b, gene, TWO_64 - 1);
    forall j | 0 <= j < |a|
      ensures Low(ra[j], m) == Low(rb[j], m)
    {
      XorLowAgree(a[j], b[j], TWO_64 - 1, m);
    }
    ExchangeAgree(ra, rb, t.genes[2 * d], m);
  }

  /** Passes over points that agree in their low `m` bits compute the same digits. */
  lemma {:induction false} EncodeAgree(t: DimTables, a: seq<nat>, b: seq<nat>, m: nat, i: nat)
    requires Sized(t, |a|) && AgreeLow(a, b, m) && i <= m
    ensures AgreeLow(EncodeState(t, a, m, i), EncodeState(t, b, m, i), m)
    ensures EncodeDigits(t, a, m, i) == EncodeDigits(t, b, m, i)
    decreases i
  {
    if i > 0 {
      EncodeAgree(t, a, b, m, i - 1);
      var pa, pb := EncodeState(t, a, m, i - 1), EncodeState(t, b, m, i - 1);
      SubCubeAgree(pa, pb, m, m - i);
      TransformAgree(t, pa, pb, m, Digit(t, pa, m - i));
    }
  }

  /**
   * The key reads only the low `m` bits of each clamped coordinate: the
   * passes read bits `m - 1` down to 0, a reverse complements bit by bit and
   * an exchange only moves coordinates.
   */
  lemma EncodeKeyLowBits(t: DimTables, p: seq<nat>, q: seq<nat>, m: nat)
    requires Sized(t, |p|) && |q| == |p|
    requires forall j :: 0 <= j < |p| ==> Clamp(p, m)[j] % Pow2(m) == Clamp(q, m)[j] % Pow2(m)
    ensures EncodeKey(t, p, m) == EncodeKey(t, q, m)
  {
    var a, b := Clamp(p, m), Clamp(q, m);
    forall j | 0 <= j < |a|
      ensures Low(a[j], m) == Low(b[j], m)
    {
      LowIsMod(a[j], m);
      LowIsMod(b[j], m);
    }
    EncodeAgree(t, a, b, m, m);
  }
}
