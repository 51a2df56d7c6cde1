/**
 * The second half of the table generator in `tools/hilbertKey.py`: the
 * entry and exit corners of every sub-cube (`calH1_N`, `calcH`), the genes
 * derived from them (`calcG`), the packing of the genes into the `H` table
 * (`printCcodeArray` on a three-dimensional array) and `main`, which emits
 * the tables `C`, `revC` and `H` for every dimension `1 .. N`.
 *
 * The model proves that what `main` emits is a family of well-formed tables
 * in the sense of `HilbertKey.WellFormed`, the precondition of the codec.
 */
module TableGen {
  import opened Bits
  import opened HilbertKey
  import opened GrayCode

  /** One entry of `H` or `G`: a `(2, N)` numpy array, i.e. two rows of `N` bits. */
  datatype RowPair = RowPair(first: seq<nat>, second: seq<nat>)

  /** Both rows of a pair are bit rows of length `n`. */
  ghost predicate PairRows(p: RowPair, n: nat)
  {
    IsRow(p.first, n) && IsRow(p.second, n)
  }

  /** Two corners of the cube joined by an edge: bit rows that differ in exactly one bit. */
  ghost predicate Adjacent(p: RowPair, n: nat)
  {
    PairRows(p, n) && IsOneHot(XorRow(p.first, p.second), n)
  }

  /** A table of `2^N` rows of `N` entries, the shape of `calC_r(N)`. */
  ghost predicate Shaped(c: seq<seq<nat>>, n: nat)
  {
    1 <= n && |c| == Pow2(n) && forall i :: 0 <= i < |c| ==> |c[i]| == n
  }

  /** The first `k` pairs have rows of length `n`. */
  ghost predicate PairsSized(h: seq<RowPair>, n: nat, k: nat)
    requires k <= |h|
  {
    forall i :: 0 <= i < k ==> |h[i].first| == n && |h[i].second| == n
  }

  /** Past the first index, the first half of the code needs at least two axes. */
  lemma MoreThanOneAxis(n: nat, i: nat)
    requires 1 <= n && 0 < i && i < Pow2(n) / 2
    ensures 2 <= n
  {
    assert Pow2(1) == 2;
  }

  // ---------------------------------------------------------------------------
  // The candidate exit corners of calH1_N
  // ---------------------------------------------------------------------------

  /**
   * The pruned `options` array after `j` rounds of its loop: `r0 ^ onehot(k)`
   * for every axis `k < j` whose one-hot row differs from `diff`.
   */
  function Options(r0: seq<nat>, diff: seq<nat>, n: nat, j: nat): (opts: seq<seq<nat>>)
    requires |r0| == n && j <= n
    ensures |opts| <= j
    ensures forall k :: 0 <= k < |opts| ==> |opts[k]| == n
  {
    if j == 0 then []
    else if OneHot(n, j - 1) == diff then Options(r0, diff, n, j - 1)
    else Options(r0, diff, n, j - 1) + [XorRow(r0, OneHot(n, j - 1))]
  }

  /** At most one axis is skipped, since different axes have different one-hot rows. */
  lemma {:induction false} OptionsCount(r0: seq<nat>, diff: seq<nat>, n: nat, j: nat)
    requires |r0| == n && j <= n
    ensures |Options(r0, diff, n, j)| + 1 >= j
    ensures (forall k :: 0 <= k < j ==> OneHot(n, k) != diff) ==> |Options(r0, diff, n, j)| == j
  {
    if j > 0 {
      OptionsCount(r0, diff, n, j - 1);
      if OneHot(n, j - 1) == diff {
        forall k | 0 <= k < j - 1
          ensures OneHot(n, k) != diff
        {
          OneHotDistinct(n, k, j - 1);
        }
      }
    }
  }

  /** The first option flips axis 0, or axis 1 when `diff` is the one-hot row of axis 0. */
  lemma {:induction false} OptionsFirst(r0: seq<nat>, diff: seq<nat>, n: nat, j: nat)
    requires |r0| == n && 2 <= j <= n
    ensures |Options(r0, diff, n, j)| >= 1
    ensures Options(r0, diff, n, j)[0] == XorRow(r0, OneHot(n, if OneHot(n, 0) == diff then 1 else 0))
  {
    OptionsCount(r0, diff, n, j);
    if j == 2 {
      OneHotDistinct(n, 0, 1);
    } else {
      OptionsFirst(r0, diff, n, j - 1);
    }
  }

  // ---------------------------------------------------------------------------
  // Entry and exit corners (calH1_N, calcH)
  // ---------------------------------------------------------------------------

  /**
   * `calH1_N(i, C, N, H)`: the entry corner (`first`) and exit corner
   * (`second`) of sub-cube `i`, from the Gray code `c` and the corners of
   * the sub-cubes before it. The first half chains each entry to the previous
   * exit across the step of the code; the second half mirrors the first.
   */
  function HStep(c: seq<seq<nat>>, n: nat, i: nat, h: seq<RowPair>): (r: RowPair)
    requires Shaped(c, n) && i < Pow2(n) && i <= |h| && PairsSized(h, n, i)
    ensures |r.first| == n && |r.second| == n
  {
    var half := Pow2(n) / 2;
    if i < half then
      if i == 0 then
        var r0 := c[0];
        RowPair(r0, XorRow(r0, XorRow(c[0], c[1])))
      else
        var r0 := XorRow(h[i - 1].second, XorRow(c[i - 1], c[i]));
        var diff := XorRow(c[i], c[i + 1]);
        if AndRow(r0, diff) == AndRow(c[i], diff) then
          RowPair(r0, XorRow(r0, diff))
        else
          MoreThanOneAxis(n, i);
          OptionsFirst(r0, diff, n, n);
          RowPair(r0, Options(r0, diff, n, n)[0])
    else if i == half then
      var e := h[Pow2(n) - i - 1];
      var r0 := XorRow(e.second, OneHot(n, 0));
      RowPair(r0, XorRow(r0, XorRow(e.first, e.second)))
    else
      var e := h[Pow2(n) - i - 1];
      var r0 := XorRow(h[i - 1].second, XorRow(h[Pow2(n) - i].first, e.second));
      RowPair(r0, XorRow(r0, XorRow(e.first, e.second)))
  }

  /** `calcH` after its first `k` rounds: the corners of sub-cubes `0 .. k-1`. */
  function HTable(c: seq<seq<nat>>, n: nat, k: nat): (h: seq<RowPair>)
    requires Shaped(c, n) && k <= Pow2(n)
    ensures |h| == k && PairsSized(h, n, k)
  {
    if k == 0 then []
    else
      var prev := HTable(c, n, k - 1);
      prev + [HStep(c, n, k - 1, prev)]
  }

  /** One more row of `H` is `calH1_N` on the rows before it. */
  lemma HTableNext(c: seq<seq<nat>>, n: nat, i: nat)
    requires Shaped(c, n) && i < Pow2(n)
    ensures HTable(c, n, i + 1) == HTable(c, n, i) + [HStep(c, n, i, HTable(c, n, i))]
  {
  }

  /** `calH1_N` reads only the rows of `H` before `i`. */
  lemma HStepPrefix(c: seq<seq<nat>>, n: nat, i: nat, h1: seq<RowPair>, h2: seq<RowPair>)
    requires Shaped(c, n) && i < Pow2(n) && i <= |h1| && i <= |h2| && h1[..i] == h2[..i]
    requires PairsSized(h1, n, i)
    ensures PairsSized(h2, n, i)
    ensures HStep(c, n, i, h1) == HStep(c, n, i, h2)
  {
    forall k | 0 <= k < i
      ensures h1[k] == h2[k]
    {
      assert h1[k] == h1[..i][k];
    }
  }

  /** A corner pair whose exit is the entry `^ d`, where `d` is a one-hot bit row. */
  lemma CornerPair(r0: seq<nat>, d: seq<nat>, n: nat)
    requires IsRow(r0, n) && IsRow(d, n) && IsOneHot(d, n)
    ensures Adjacent(RowPair(r0, XorRow(r0, d)), n)
  {
    XorRows(r0, d, n);
    XorRowCancel(r0, d, n);
  }

  /** Every one-hot row is a bit row. */
  lemma OneHotIsRow(n: nat, j: nat)
    ensures IsRow(OneHot(n, j), n)
  {
  }

  /** The corners of the first `i` sub-cubes are bit rows differing in one bit. */
  ghost predicate CornersUpTo(h: seq<RowPair>, n: nat, i: nat)
    requires i <= |h|
  {
    forall k :: 0 <= k < i ==> Adjacent(h[k], n)
  }

  /**
   * A code of `2^N` bit rows whose consecutive rows differ in exactly one
   * bit, as `calC_r` produces; the corner lemmas below need nothing more.
   */
  ghost predicate OneBitSteps(c: seq<seq<nat>>, n: nat)
  {
    && Shaped(c, n)
    && (forall i :: 0 <= i < |c| ==> IsRow(c[i], n))
    && (forall i, j :: 0 <= i && j == i + 1 && j < |c| ==> IsOneHot(XorRow(c[i], c[j]), n))
  }

  /** `calC_r(N)` steps one bit at a time. */
  lemma GrayOneBitSteps(n: nat)
    requires 1 <= n
    ensures OneBitSteps(GrayRows(n), n)
  {
    var c := GrayRows(n);
    forall i | 0 <= i < |c|
      ensures IsRow(c[i], n)
    {
      GrayRowIsRow(n, i);
    }
    forall i, j | 0 <= i && j == i + 1 && j < |c|
      ensures IsOneHot(XorRow(c[i], c[j]), n)
    {
      GrayAdjacent(n, i);
    }
  }

  /**
   * Entry and exit of every sub-cube are adjacent corners: two bit rows that
   * differ in exactly one bit, provided the sub-cubes before it are so.
   */
  lemma CornersStep(c: seq<seq<nat>>, n: nat, i: nat, h: seq<RowPair>)
    requires OneBitSteps(c, n) && i < Pow2(n) && i <= |h|
    requires PairsSized(h, n, i) && CornersUpTo(h, n, i)
    ensures Adjacent(HStep(c, n, i, h), n)
  {
    var half := Pow2(n) / 2;
    if i < half {
      if i == 0 {
        CornerPair(c[0], XorRow(c[0], c[1]), n);
      } else {
        CornersChained(c, n, i, h);
      }
    } else if i == half {
      var e := h[Pow2(n) - i - 1];
      OneHotIsRow(n, 0);
      XorRows(e.second, OneHot(n, 0), n);
      CornerPair(XorRow(e.second, OneHot(n, 0)), XorRow(e.first, e.second), n);
    } else {
      var e := h[Pow2(n) - i - 1];
      var f := h[Pow2(n) - i];
      XorRows(f.first, e.second, n);
      XorRows(h[i - 1].second, XorRow(f.first, e.second), n);
      CornerPair(XorRow(h[i - 1].second, XorRow(f.first, e.second)), XorRow(e.first, e.second), n);
    }
  }

  /** A sub-cube `0 < i < 2^(N-1)`: entered from the previous exit, left along the code. */
  lemma CornersChained(c: seq<seq<nat>>, n: nat, i: nat, h: seq<RowPair>)
    requires OneBitSteps(c, n) && 0 < i && i < Pow2(n) / 2 && i <= |h|
    requires PairsSized(h, n, i) && CornersUpTo(h, n, i)
    ensures Adjacent(HStep(c, n, i, h), n)
  {
    XorRows(c[i - 1], c[i], n);
    var diff := XorRow(c[i], c[i + 1]);
    var r0 := XorRow(h[i - 1].second, XorRow(c[i - 1], c[i]));
    XorRows(h[i - 1].second, XorRow(c[i - 1], c[i]), n);
    if AndRow(r0, diff) == AndRow(c[i], diff) {
      XorRows(c[i], c[i + 1], n);
      CornerPair(r0, diff, n);
    } else {
      MoreThanOneAxis(n, i);
      OptionsFirst(r0, diff, n, n);
      var j := if OneHot(n, 0) == diff then 1 else 0;
      OneHotIsRow(n, j);
      CornerPair(r0, OneHot(n, j), n);
    }
  }

  /** Every row of `calcH(C, N)` holds two adjacent corners, for any code stepping one bit at a time. */
  lemma {:induction false} HTableCorners(c: seq<seq<nat>>, n: nat, k: nat)
    requires OneBitSteps(c, n) && k <= Pow2(n)
    ensures CornersUpTo(HTable(c, n, k), n, k)
  {
    if k > 0 {
      HTableCorners(c, n, k - 1);
      CornersStep(c, n, k - 1, HTable(c, n, k - 1));
      CornersExtend(c, n, k);
    }
  }

  /** Appending a pair of adjacent corners keeps every pair adjacent. */
  lemma CornersExtend(c: seq<seq<nat>>, n: nat, k: nat)
    requires Shaped(c, n) && 0 < k <= Pow2(n)
    requires CornersUpTo(HTable(c, n, k - 1), n, k - 1)
    requires Adjacent(HStep(c, n, k - 1, HTable(c, n, k - 1)), n)
    ensures CornersUpTo(HTable(c, n, k), n, k)
  {
    var h := HTable(c, n, k);
    forall j | 0 <= j < k
      ensures Adjacent(h[j], n)
    {
      if j < k - 1 {
        assert h[j] == HTable(c, n, k - 1)[j];
      }
    }
  }

  // ---------------------------------------------------------------------------
  // Genes (calcG, calcHilbertGenes)
  // ---------------------------------------------------------------------------

  /**
   * `calcG` for one sub-cube: the exchange gene `G[i][0]` maps the corner
   * step of the whole cube (`C[0] ^ C[2^N-1]`) onto the sub-cube's own
   * (`H[i][0] ^ H[i][1]`); the reverse gene `G[i][1]` moves `C[0]` to the
   * sub-cube's entry.
   */
  function GeneOf(c: seq<seq<nat>>, n: nat, hi: RowPair): (g: RowPair)
    requires Shaped(c, n) && |hi.first| == n && |hi.second| == n
    ensures |g.first| == n && |g.second| == n
  {
    RowPair(XorRow(XorRow(c[0], c[Pow2(n) - 1]), XorRow(hi.first, hi.second)), XorRow(c[0], hi.first))
  }

  /** `calcHilbertGenes(N)`: one gene pair per sub-cube. */
  function Genes(n: nat): (g: seq<RowPair>)
    requires 1 <= n
    ensures |g| == Pow2(n)
  {
    var c := GrayRows(n);
    assert Shaped(c, n);
    var h := HTable(c, n, Pow2(n));
    seq(Pow2(n), i requires 0 <= i < Pow2(n) => GeneOf(c, n, h[i]))
  }

  /**
   * The exchange gene swaps axis 0 with one axis `k` (no bit when `k == 0`),
   * and the reverse gene is the sub-cube's entry corner.
   */
  lemma GeneShape(n: nat, i: nat)
    requires 1 <= n && i < Pow2(n)
    ensures Shaped(GrayRows(n), n)
    ensures PairRows(Genes(n)[i], n)
    ensures exists k :: 0 <= k < n && Genes(n)[i].first == XorRow(OneHot(n, 0), OneHot(n, k))
    ensures Genes(n)[i].second == HTable(GrayRows(n), n, Pow2(n))[i].first
  {
    var c := GrayRows(n);
    assert Shaped(c, n);
    var h := HTable(c, n, Pow2(n));
    GrayOneBitSteps(n);
    HTableCorners(c, n, Pow2(n));
    GrayEnds(n);
    GeneOfCorners(c, n, h[i]);
    assert Genes(n)[i] == GeneOf(c, n, h[i]);
  }

  /**
   * `calcG` on a code from `0 ... 0` to `1 0 ... 0` and a pair of adjacent
   * corners: the exchange gene has the bits of axis 0 and of the axis the
   * corners differ in, and the reverse gene is the entry corner.
   */
  lemma GeneOfCorners(c: seq<seq<nat>>, n: nat, hi: RowPair)
    requires Shaped(c, n) && c[0] == Zeros(n) && c[Pow2(n) - 1] == OneHot(n, 0)
    requires Adjacent(hi, n)
    ensures PairRows(GeneOf(c, n, hi), n)
    ensures exists k :: 0 <= k < n && GeneOf(c, n, hi).first == XorRow(OneHot(n, 0), OneHot(n, k))
    ensures GeneOf(c, n, hi).second == hi.first
  {
    OneHotIsRow(n, 0);
    XorRowZeros(OneHot(n, 0), n);
    XorRowZeros(hi.first, n);
    var k :| 0 <= k < n && XorRow(hi.first, hi.second) == OneHot(n, k);
    OneHotIsRow(n, k);
    XorRows(OneHot(n, 0), OneHot(n, k), n);
  }

  /** Swapping axis 0 with axis `k` packs to no bit, or to bits `N-1` and `N-1-k`. */
  lemma ExchangeGeneValue(n: nat, k: nat)
    requires k < n
    ensures Pack(XorRow(OneHot(n, 0), OneHot(n, k))) == if k == 0 then 0 else Pow2(n - 1) + Pow2(n - 1 - k)
  {
    OneHotIsRow(n, 0);
    if k == 0 {
      XorRowZeros(OneHot(n, 0), n);
      PackZeros(n);
    } else {
      OneHotCons(n, 0);
      OneHotCons(n, k - 1);
      XorRowCons(1, Zeros(n - 1), 0, OneHot(n - 1, k - 1));
      OneHotIsRow(n - 1, k - 1);
      XorRowZeros(OneHot(n - 1, k - 1), n - 1);
      BitOps(1, 0);
      PackCons(1, OneHot(n - 1, k - 1));
      PackOneHot(n - 1, k - 1);
    }
  }

  /**
   * `calcG`: `G[i][0]` and `G[i][1]` written for every sub-cube of a zeroed
   * `(2^N, 2, N)` array.
   */
  method CalcG(c: seq<seq<nat>>, h: seq<RowPair>, n: nat) returns (g: seq<RowPair>)
    requires Shaped(c, n) && |h| == Pow2(n) && PairsSized(h, n, Pow2(n))
    ensures |g| == Pow2(n)
    ensures forall i :: 0 <= i < Pow2(n) ==> g[i] == GeneOf(c, n, h[i])
  {
    var gArr := new RowPair[Pow2(n)](_ => RowPair(Zeros(n), Zeros(n)));
    for i := 0 to Pow2(n)
      invariant forall k :: 0 <= k < i ==> gArr[k] == GeneOf(c, n, h[k])
    {
      gArr[i] := gArr[i].(first := XorRow(XorRow(c[0], c[Pow2(n) - 1]), XorRow(h[i].first, h[i].second)));
      gArr[i] := gArr[i].(second := XorRow(c[0], h[i].first));
    }
    g := gArr[..];
  }

  /**
   * `calH1_N`: the same cases as `HStep`, with the candidate exit corners
   * collected in an `(N, N)` array, cut to `count` rows and the first taken.
   */
  method CalH1N(i: nat, c: seq<seq<nat>>, n: nat, h: seq<RowPair>) returns (result: RowPair)
    requires Shaped(c, n) && i < Pow2(n) && i <= |h| && PairsSized(h, n, i)
    ensures result == HStep(c, n, i, h)
  {
    result := RowPair(Zeros(n), Zeros(n));
    if i < Pow2(n) / 2 {
      if i == 0 {
        result := result.(first := c[0]);
        result := result.(second := XorRow(result.first, XorRow(c[0], c[1])));
      } else {
        result := result.(first := XorRow(h[i - 1].second, XorRow(c[i - 1], c[i])));
        var tmp := AndRow(result.first, XorRow(c[i], c[i + 1]));
        var tmp2 := AndRow(c[i], XorRow(c[i], c[i + 1]));
        if tmp == tmp2 {
          result := result.(second := XorRow(result.first, XorRow(c[i], c[i + 1])));
        } else {
          var second := FirstOption(result.first, XorRow(c[i], c[i + 1]), n, i);
          result := result.(second := second);
        }
      }
    } else if i == Pow2(n) / 2 {
      var tmp := Zeros(n)[0 := 1];
      assert tmp == OneHot(n, 0);
      result := result.(first := XorRow(h[Pow2(n) - i - 1].second, tmp));
      result := result.(second := XorRow(result.first, XorRow(h[Pow2(n) - i - 1].first, h[Pow2(n) - i - 1].second)));
    } else {
      result := result.(first := XorRow(h[i - 1].second, XorRow(h[Pow2(n) - i].first, h[Pow2(n) - i - 1].second)));
      result := result.(second := XorRow(result.first, XorRow(h[Pow2(n) - i - 1].first, h[Pow2(n) - i - 1].second)));
    }
  }

  /**
   * The pruning branch of `calH1_N`: every axis whose one-hot row is not the
   * step `diff` of the code gives a candidate `r0 ^ onehot(j)`; the first
   * candidate is the exit corner.
   */
  method FirstOption(r0: seq<nat>, diff: seq<nat>, n: nat, i: nat) returns (second: seq<nat>)
    requires 1 <= n && 0 < i && i < Pow2(n) / 2 && |r0| == n
    ensures |Options(r0, diff, n, n)| >= 1 && second == Options(r0, diff, n, n)[0]
  {
    MoreThanOneAxis(n, i);
    var options := new seq<nat>[n](_ => Zeros(n));
    var count := 0;
    for j := 0 to n
      invariant count <= j && options[..count] == Options(r0, diff, n, j)
    {
      var tmpArray := Zeros(n)[j := 1];
      assert tmpArray == OneHot(n, j);
      if tmpArray == diff {
        continue;
      } else {
        options[count] := XorRow(r0, tmpArray);
        count := count + 1;
      }
    }
    OptionsFirst(r0, diff, n, n);
    var pruned := options[..count];
    second := pruned[0];
  }

  /** `calcH`: a zeroed `(2^N, 2, N)` array whose row `i` becomes `calH1_N(i, C, N, H)`. */
  method CalcH(c: seq<seq<nat>>, n: nat) returns (h: seq<RowPair>)
    requires Shaped(c, n)
    ensures h == HTable(c, n, Pow2(n))
  {
    var hArr := new RowPair[Pow2(n)](_ => RowPair(Zeros(n), Zeros(n)));
    FillRows(c, n, hArr);
    h := hArr[..];
  }

  /** The loop of `calcH`: row `i` is computed from the rows before it. */
  method FillRows(c: seq<seq<nat>>, n: nat, hArr: array<RowPair>)
    requires Shaped(c, n) && hArr.Length == Pow2(n)
    modifies hArr
    ensures hArr[..] == HTable(c, n, Pow2(n))
  {
    ghost var spec := HTable(c, n, Pow2(n));
    for i := 0 to hArr.Length
      invariant hArr[..i] == spec[..i]
    {
      FillRowOf(c, n, hArr, i, spec);
    }
  }

  /** One iteration of the `calcH` loop, stated against the whole table. */
  method FillRowOf(c: seq<seq<nat>>, n: nat, hArr: array<RowPair>, i: nat, ghost spec: seq<RowPair>)
    requires Shaped(c, n) && i < Pow2(n) == hArr.Length && spec == HTable(c, n, Pow2(n))
    requires hArr[..i] == spec[..i]
    modifies hArr
    ensures hArr[..i + 1] == spec[..i + 1]
  {
    HTablePrefix(c, n, Pow2(n), i);
    HTablePrefix(c, n, Pow2(n), i + 1);
    FillRow(c, n, hArr, i);
  }

  /** One iteration of the `calcH` loop: `H[i] = calH1_N(i, C, N, H)`. */
  method FillRow(c: seq<seq<nat>>, n: nat, hArr: array<RowPair>, i: nat)
    requires Shaped(c, n) && i < Pow2(n) == hArr.Length
    requires hArr[..i] == HTable(c, n, i)
    modifies hArr
    ensures hArr[..i + 1] == HTable(c, n, i + 1)
  {
    HStepPrefix(c, n, i, HTable(c, n, i), hArr[..]);
    var row := CalH1N(i, c, n, hArr[..]);
    hArr[i] := row;
    HTableNext(c, n, i);
    assert hArr[..i + 1] == hArr[..i] + [row];
  }

  /** One more round of `calcH` keeps the rows computed so far. */
  lemma HTableSnoc(c: seq<seq<nat>>, n: nat, k: nat)
    requires Shaped(c, n) && 0 < k <= Pow2(n)
    ensures HTable(c, n, k)[..k - 1] == HTable(c, n, k - 1)
  {
  }

  /** The tables of `calcH` after `0 .. 2^N` rounds, each extending the one before. */
  lemma HTableChain(c: seq<seq<nat>>, n: nat) returns (chain: seq<seq<RowPair>>)
    requires Shaped(c, n)
    ensures |chain| == Pow2(n) + 1
    ensures forall i :: 0 <= i < |chain| ==> chain[i] == HTable(c, n, i)
    ensures forall i :: 0 <= i < |chain| ==> |chain[i]| == i
    ensures forall i, p :: 0 < i < |chain| && p + 1 == i ==> chain[i][..p] == chain[p]
  {
    chain := seq(Pow2(n) + 1, i requires 0 <= i <= Pow2(n) => HTable(c, n, i));
    forall i, p | 0 < i < |chain| && p + 1 == i
      ensures chain[i][..p] == chain[p]
    {
      HTableSnoc(c, n, i);
    }
  }

  /** The rows of `H` before `j` do not depend on how many more rows are computed. */
  lemma HTablePrefix(c: seq<seq<nat>>, n: nat, k: nat, j: nat)
    requires Shaped(c, n) && j <= k <= Pow2(n)
    ensures HTable(c, n, k)[..j] == HTable(c, n, j)
  {
    var chain := HTableChain(c, n);
    SnocChainPrefix(chain, k, j);
    assert chain[k] == HTable(c, n, k) && chain[j] == HTable(c, n, j);
  }

  /** `calcHilbertGenes(N)`: the Gray code, its corners, then the genes. */
  method CalcHilbertGenes(n: nat) returns (g: seq<RowPair>)
    requires 1 <= n
    ensures g == Genes(n)
  {
    var c := CalCR(n);
    assert Shaped(c, n);
    var h := CalcH(c, n);
    g := CalcG(c, h, n);
  }

  // ---------------------------------------------------------------------------
  // The emitted tables (printCcodeArray on G, main)
  // ---------------------------------------------------------------------------

  /** `G` flattened as the C array `H<N>[][2]`: pair `i` at indices `2i` and `2i + 1`. */
  function PackPairsSpec(g: seq<RowPair>): (nums: seq<nat>)
    ensures |nums| == 2 * |g|
  {
    seq(2 * |g|, k requires 0 <= k < 2 * |g| => if k % 2 == 0 then Pack(g[k / 2].first) else Pack(g[k / 2].second))
  }

  /** `printCcodeArray` on a three-dimensional array: two packed numbers per pair. */
  method PackPairs(g: seq<RowPair>) returns (nums: seq<nat>)
    ensures |nums| == 2 * |g|
    ensures forall i :: 0 <= i < |g| ==> nums[2 * i] == Pack(g[i].first) && nums[2 * i + 1] == Pack(g[i].second)
  {
    nums := [];
    for i := 0 to |g|
      invariant |nums| == 2 * i
      invariant forall k :: 0 <= k < i ==> nums[2 * k] == Pack(g[k].first) && nums[2 * k + 1] == Pack(g[k].second)
    {
      var first := PackRow(g[i].first);
      var second := PackRow(g[i].second);
      nums := nums + [first, second];
    }
  }

  /** The tables `C<N>`, `revC<N>` and `H<N>` that `main` emits for `N` axes. */
  function Tables(n: nat): (t: DimTables)
    requires 1 <= n
    ensures |t.c| == Pow2(n) && |t.revC| == Pow2(n) && |t.genes| == 2 * Pow2(n)
  {
    DimTables(
      seq(Pow2(n), i requires 0 <= i < Pow2(n) => Pack(GrayRow(n, i))),
      seq(Pow2(n), s requires 0 <= s < Pow2(n) => GrayRank(n, s)),
      PackPairsSpec(Genes(n)))
  }

  /** Every gene of `H<N>` is a number below `2^N`; the exchange genes have zero or two bits. */
  lemma GenesBelow(n: nat, i: nat)
    requires 1 <= n && i < Pow2(n)
    ensures Tables(n).genes[2 * i] < Pow2(n) && Tables(n).genes[2 * i + 1] < Pow2(n)
    ensures Tables(n).genes[2 * i] == 0
         || exists b :: 0 <= b < n - 1 && Tables(n).genes[2 * i] == Pow2(n - 1) + Pow2(b)
  {
    GeneShape(n, i);
    var g := Genes(n)[i];
    PackBound(g.first, n);
    PackBound(g.second, n);
    ExchangeGenePacked(n, g.first);
    PackedPair(Genes(n), i);
    assert Tables(n).genes == PackPairsSpec(Genes(n));
  }

  /** An exchange gene packs to no bit, or to bit `N-1` and one bit below it. */
  lemma ExchangeGenePacked(n: nat, first: seq<nat>)
    requires exists k :: 0 <= k < n && first == XorRow(OneHot(n, 0), OneHot(n, k))
    ensures Pack(first) == 0 || exists b :: 0 <= b < n - 1 && Pack(first) == Pow2(n - 1) + Pow2(b)
  {
    var k :| 0 <= k < n && first == XorRow(OneHot(n, 0), OneHot(n, k));
    ExchangeGeneValue(n, k);
    if k != 0 {
      var b := n - 1 - k;
      assert Pack(first) == Pow2(n - 1) + Pow2(b);
    }
  }

  /** Pair `i` of `G` lands at indices `2i` and `2i + 1` of `H<N>`. */
  lemma PackedPair(g: seq<RowPair>, i: nat)
    requires i < |g|
    ensures PackPairsSpec(g)[2 * i] == Pack(g[i].first)
    ensures PackPairsSpec(g)[2 * i + 1] == Pack(g[i].second)
  {
  }

  /** The packed Gray code and the rank table are inverse permutations of `0 .. 2^N - 1`. */
  lemma CodesInverse(n: nat)
    requires 1 <= n
    ensures forall i :: 0 <= i < Pow2(n) ==> Pack(GrayRow(n, i)) < Pow2(n) && GrayRank(n, Pack(GrayRow(n, i))) == i
    ensures forall s :: 0 <= s < Pow2(n) ==> Pack(GrayRow(n, GrayRank(n, s))) == s
  {
    forall i | 0 <= i < Pow2(n)
      ensures Pack(GrayRow(n, i)) < Pow2(n) && GrayRank(n, Pack(GrayRow(n, i))) == i
    {
      RankOfRow(n, i);
    }
    forall s | 0 <= s < Pow2(n)
      ensures Pack(GrayRow(n, GrayRank(n, s))) == s
    {
      RowOfRank(n, s);
    }
  }

  /** Pairs of `N`-bit rows flatten to numbers below `2^N`. */
  lemma PackedBelow(g: seq<RowPair>, n: nat)
    requires forall i :: 0 <= i < |g| ==> PairRows(g[i], n)
    ensures forall k :: 0 <= k < 2 * |g| ==> PackPairsSpec(g)[k] < Pow2(n)
  {
    forall k | 0 <= k < 2 * |g|
      ensures PackPairsSpec(g)[k] < Pow2(n)
    {
      PackBound(g[k / 2].first, n);
      PackBound(g[k / 2].second, n);
    }
  }

  /** The tables `main` emits for `1 <= N < 32` axes satisfy the codec's precondition. */
  lemma TablesWellFormed(n: nat)
    requires 1 <= n < 32
    ensures WellFormed(Tables(n), n)
  {
    var t := Tables(n);
    CodesInverse(n);
    forall i | 0 <= i < Pow2(n)
      ensures PairRows(Genes(n)[i], n)
    {
      GeneShape(n, i);
    }
    PackedBelow(Genes(n), n);
    assert t.c == seq(Pow2(n), i requires 0 <= i < Pow2(n) => Pack(GrayRow(n, i)));
    assert t.revC == seq(Pow2(n), s requires 0 <= s < Pow2(n) => GrayRank(n, s));
    assert t.genes == PackPairsSpec(Genes(n));
  }

  /** For one axis the tables are `C1 = {0,1}`, `revC1 = {0,1}`, `H1 = {{0,0},{0,0}}`. */
  lemma OneAxisTables()
    ensures Tables(1) == DimTables([0, 1], [0, 1], [0, 0, 0, 0])
  {
    OneAxisCodes();
    OneAxisGenes();
    assert Tables(1).genes == PackPairsSpec(Genes(1));
  }

  /** `C1` and `revC1` are both the identity on `{0, 1}`. */
  lemma OneAxisCodes()
    ensures Tables(1).c == [0, 1] && Tables(1).revC == [0, 1]
  {
    assert Pow2(1) == 2;
    GrayOne();
    assert GrayRow(1, 0) == [0] && GrayRow(1, 1) == [1];
    PackCons(0, []);
    PackCons(1, []);
  }

  /** Both gene pairs of `H1` are `{0, 0}`. */
  lemma OneAxisGenes()
    ensures PackPairsSpec(Genes(1)) == [0, 0, 0, 0]
  {
    assert Pow2(1) == 2;
    OneAxisCorners();
    PackCons(0, []);
    forall i | 0 <= i < 2
      ensures Pack(Genes(1)[i].first) == 0 && Pack(Genes(1)[i].second) == 0
    {
      GeneShape(1, i);
      ExchangeGeneValue(1, 0);
    }
    PackedPair(Genes(1), 0);
    PackedPair(Genes(1), 1);
  }

  /** For one axis both sub-cubes enter at 0 and leave at 1. */
  lemma OneAxisCorners()
    ensures Shaped(GrayRows(1), 1)
    ensures HTable(GrayRows(1), 1, 2) == [RowPair([0], [1]), RowPair([0], [1])]
  {
    var c := GrayRows(1);
    assert Pow2(1) == 2;
    GrayOne();
    assert Shaped(c, 1);
    BitOps(0, 1);
    BitOps(1, 1);
    assert XorRow([0], [1]) == [1];
    assert XorRow([1], [1]) == [0];
    assert OneHot(1, 0) == [1];
    var h1 := HTable(c, 1, 1);
    assert h1 == [HStep(c, 1, 0, [])];
    assert h1 == [RowPair([0], [1])];
    assert HTable(c, 1, 2) == h1 + [HStep(c, 1, 1, h1)];
  }

  /** The contract of `PackPairs` determines the flattened array. */
  lemma PairsFlattened(nums: seq<nat>, g: seq<RowPair>)
    requires |nums| == 2 * |g|
    requires forall i :: 0 <= i < |g| ==> nums[2 * i] == Pack(g[i].first) && nums[2 * i + 1] == Pack(g[i].second)
    ensures nums == PackPairsSpec(g)
  {
    forall k | 0 <= k < 2 * |g|
      ensures nums[k] == PackPairsSpec(g)[k]
    {
      assert k == 2 * (k / 2) || k == 2 * (k / 2) + 1;
    }
  }

  /** One round of `main`: `calC_r`, `calcHilbertGenes` and the three printed tables. */
  method EmitTables(n: nat) returns (t: DimTables)
    requires 1 <= n
    ensures t == Tables(n)
  {
    var c := CalCR(n);
    var g := CalcHilbertGenes(n);
    var cNums := PackRows(c);
    forall i | 0 <= i < Pow2(n)
      ensures Pack(c[i]) < |c|
    {
      RankOfRow(n, i);
    }
    var revC := ReverseTable(c);
    ReverseOfGray(n, revC);
    var genes := PackPairs(g);
    PairsFlattened(genes, g);
    t := DimTables(cNums, revC, genes);
  }

  /**
   * `main(argv)` with `N` already parsed: the tables for every dimension
   * `1 .. N`, in order. For fewer than 32 axes they form a family the codec
   * accepts.
   */
  method Generate(n: nat) returns (family: seq<DimTables>)
    ensures |family| == n
    ensures forall d :: 0 <= d < n ==> family[d] == Tables(d + 1)
    ensures n < 32 ==> Family(family)
  {
    family := [];
    for i := 0 to n
      invariant |family| == i
      invariant forall d :: 0 <= d < i ==> family[d] == Tables(d + 1)
    {
      var t := EmitTables(i + 1);
      family := family + [t];
    }
    if n < 32 {
      forall d | 0 <= d < n
        ensures WellFormed(family[d], d + 1)
      {
        TablesWellFormed(d + 1);
      }
    }
  }
}
