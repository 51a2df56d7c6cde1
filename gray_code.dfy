/**
 * The first half of the table generator in `tools/hilbertKey.py`: rows of
 * bits, the reflected binary Gray code `calC_r`, the packing of a row into
 * an integer (first element most significant) and the inverse table `revC`
 * that `printReverseCcodeArray` derives from it.
 *
 * A numpy `uint8` row of `N` bits is a `seq<nat>` of length `N`; element-wise
 * `^` and `&` on two rows are `Xor` and `And` on each pair of entries.
 */
module GrayCode {
  import opened Bits
  import opened HilbertKey

  // ---------------------------------------------------------------------------
  // Rows of bits
  // ---------------------------------------------------------------------------

  /** A row of `n` entries, each 0 or 1. */
  ghost predicate IsRow(r: seq<nat>, n: nat)
  {
    |r| == n && forall k :: 0 <= k < n ==> r[k] < 2
  }

  /** Element-wise `^` of two rows. */
  function XorRow(a: seq<nat>, b: seq<nat>): (r: seq<nat>)
    requires |a| == |b|
    ensures |r| == |a|
  {
    seq(|a|, k requires 0 <= k < |a| => Xor(a[k], b[k]))
  }

  /** Element-wise `&` of two rows. */
  function AndRow(a: seq<nat>, b: seq<nat>): (r: seq<nat>)
    requires |a| == |b|
    ensures |r| == |a|
  {
    seq(|a|, k requires 0 <= k < |a| => And(a[k], b[k]))
  }

  /** The row of `n` zeros with a single 1 at index `j` (`tmpArray[j] = 1`). */
  function OneHot(n: nat, j: nat): (r: seq<nat>)
    ensures |r| == n
  {
    seq(n, k => if k == j then 1 else 0)
  }

  /** A row with exactly one 1. */
  ghost predicate IsOneHot(r: seq<nat>, n: nat)
  {
    exists j :: 0 <= j < n && r == OneHot(n, j)
  }

  /** `^` and `&` on single bits. */
  lemma BitOps(a: nat, b: nat)
    requires a < 2 && b < 2
    ensures Xor(a, b) == if a == b then 0 else 1
    ensures And(a, b) == if a == 1 && b == 1 then 1 else 0
  {
  }

  /** `^` of two bit rows is a bit row that is 1 exactly where they differ. */
  lemma XorRows(a: seq<nat>, b: seq<nat>, n: nat)
    requires IsRow(a, n) && IsRow(b, n)
    ensures IsRow(XorRow(a, b), n)
    ensures forall k :: 0 <= k < n ==> XorRow(a, b)[k] == if a[k] == b[k] then 0 else 1
  {
    forall k | 0 <= k < n
      ensures XorRow(a, b)[k] == if a[k] == b[k] then 0 else 1
    {
      BitOps(a[k], b[k]);
    }
  }

  /** `^` of bit rows cancels: `a ^ (a ^ d) == d`. */
  lemma XorRowCancel(a: seq<nat>, d: seq<nat>, n: nat)
    requires IsRow(a, n) && IsRow(d, n)
    ensures XorRow(a, XorRow(a, d)) == d
  {
    XorRows(a, d, n);
    XorRows(a, XorRow(a, d), n);
  }

  /** `^` of bit rows commutes. */
  lemma XorRowSymmetric(a: seq<nat>, b: seq<nat>, n: nat)
    requires IsRow(a, n) && IsRow(b, n)
    ensures XorRow(a, b) == XorRow(b, a)
  {
    XorRows(a, b, n);
    XorRows(b, a, n);
  }

  /** A row `^` itself is all zeros, and zeros `^` a row is the row. */
  lemma XorRowZeros(a: seq<nat>, n: nat)
    requires IsRow(a, n)
    ensures XorRow(a, a) == Zeros(n)
    ensures XorRow(Zeros(n), a) == a
  {
    XorRows(a, a, n);
    XorRows(Zeros(n), a, n);
  }

  /** `^` works entry by entry, so it splits at the first entry. */
  lemma XorRowCons(a: nat, x: seq<nat>, b: nat, y: seq<nat>)
    requires |x| == |y|
    ensures XorRow([a] + x, [b] + y) == [Xor(a, b)] + XorRow(x, y)
  {
  }

  /** One-hot rows by their first entry. */
  lemma OneHotCons(n: nat, j: nat)
    requires 1 <= n
    ensures OneHot(n, j + 1) == [0] + OneHot(n - 1, j)
    ensures OneHot(n, 0) == [1] + Zeros(n - 1)
  {
  }

  /** Different axes have different one-hot rows. */
  lemma OneHotDistinct(n: nat, a: nat, b: nat)
    requires a < n && b < n && a != b
    ensures OneHot(n, a) != OneHot(n, b)
  {
    assert OneHot(n, a)[a] != OneHot(n, b)[a];
  }

  // ---------------------------------------------------------------------------
  // Packing a row into an integer (printCcodeArray, printReverseCcodeArray)
  // ---------------------------------------------------------------------------

  /** A row read as a number, first entry most significant: `Σ row[k]·2^(N-1-k)`. */
  function Pack(row: seq<nat>): nat
  {
    if |row| == 0 then 0 else Scale(row[0], |row| - 1) + Pack(row[1..])
  }

  /** The first entry of a row carries the weight `2^(N-1)`. */
  lemma PackCons(b: nat, r: seq<nat>)
    ensures Pack([b] + r) == Scale(b, |r|) + Pack(r)
    ensures b == 0 ==> Pack([b] + r) == Pack(r)
    ensures b == 1 ==> Pack([b] + r) == Pow2(|r|) + Pack(r)
  {
    assert ([b] + r)[1..] == r;
    ScaleZero(|r|);
    ScaleIsMul(1, |r|);
  }

  /** Appending an entry doubles the number and adds the entry. */
  lemma {:induction false} PackSnoc(r: seq<nat>, b: nat)
    ensures Pack(r + [b]) == 2 * Pack(r) + b
    decreases |r|
  {
    if |r| == 0 {
      assert r + [b] == [b] + r;
      PackCons(b, r);
    } else {
      var t := r[1..];
      assert r + [b] == [r[0]] + (t + [b]);
      assert r == [r[0]] + t;
      PackSnoc(t, b);
      PackCons(r[0], t + [b]);
      PackCons(r[0], t);
    }
  }

  /** A row of `n` bits packs below `2^n`. */
  lemma {:induction false} PackBound(r: seq<nat>, n: nat)
    requires IsRow(r, n)
    ensures Pack(r) < Pow2(n)
    decreases n
  {
    if n > 0 {
      assert IsRow(r[1..], n - 1);
      PackBound(r[1..], n - 1);
      assert r == [r[0]] + r[1..];
      PackCons(r[0], r[1..]);
    }
  }

  /** An all-zero row packs to 0. */
  lemma {:induction false} PackZeros(n: nat)
    ensures Pack(Zeros(n)) == 0
    decreases n
  {
    if n > 0 {
      assert Zeros(n) == [0] + Zeros(n - 1);
      PackCons(0, Zeros(n - 1));
      PackZeros(n - 1);
    }
  }

  /** A one-hot row with its 1 at index `j` packs to `2^(n-1-j)`. */
  lemma {:induction false} PackOneHot(n: nat, j: nat)
    requires j < n
    ensures Pack(OneHot(n, j)) == Pow2(n - 1 - j)
    decreases n
  {
    OneHotCons(n, j);
    if j == 0 {
      OneHotCons(n, 0);
      PackCons(1, Zeros(n - 1));
      PackZeros(n - 1);
    } else {
      OneHotCons(n, j - 1);
      PackCons(0, OneHot(n - 1, j - 1));
      PackOneHot(n - 1, j - 1);
    }
  }

  /**
   * The inner loop of both printers: `tmpNum = tmpNum << 1; tmpNum += bit`
   * over the row, on an unbounded Python integer.
   */
  method PackRow(row: seq<nat>) returns (tmpNum: nat)
    ensures tmpNum == Pack(row)
  {
    tmpNum := 0;
    for k := 0 to |row|
      invariant tmpNum == Pack(row[..k])
    {
      assert row[..k + 1] == row[..k] + [row[k]];
      PackSnoc(row[..k], row[k]);
      tmpNum := tmpNum * 2 + row[k];
    }
    assert row[..|row|] == row;
  }

  /** `printCcodeArray` on a two-dimensional array: one packed number per row. */
  method PackRows(rows: seq<seq<nat>>) returns (nums: seq<nat>)
    ensures |nums| == |rows|
    ensures forall i :: 0 <= i < |rows| ==> nums[i] == Pack(rows[i])
  {
    nums := [];
    for i := 0 to |rows|
      invariant |nums| == i
      invariant forall k :: 0 <= k < i ==> nums[k] == Pack(rows[k])
    {
      var tmpNum := PackRow(rows[i]);
      nums := nums + [tmpNum];
    }
  }

  // ---------------------------------------------------------------------------
  // The reflected binary Gray code (calC_r)
  // ---------------------------------------------------------------------------

  /**
   * Row `i` of `calC_r(N)`: for `N = 1` the row `[i]`; otherwise, in the
   * first half, 0 followed by row `i` of `calC_r(N-1)`, and in the second
   * half 1 followed by the row of `calC_r(N-1)` reflected about the middle.
   */
  function GrayRow(n: nat, i: nat): (r: seq<nat>)
    requires 1 <= n && i < Pow2(n)
    ensures |r| == n
    decreases n
  {
    if n == 1 then [i]
    else
      var half := Pow2(n - 1);
      if i < half then [0] + GrayRow(n - 1, i) else [1] + GrayRow(n - 1, 2 * half - 1 - i)
  }

  /** The whole table `calC_r(N)`: `2^N` rows of `N` bits. */
  function GrayRows(n: nat): (rows: seq<seq<nat>>)
    requires 1 <= n
    ensures |rows| == Pow2(n)
  {
    seq(Pow2(n), i requires 0 <= i < Pow2(n) => GrayRow(n, i))
  }

  /** `calC_r(1)` is `[[0], [1]]`. */
  lemma GrayOne()
    ensures GrayRows(1) == [[0], [1]]
  {
    assert GrayRows(1)[0] == [0] && GrayRows(1)[1] == [1];
  }

  /** Every row of `calC_r(N)` has `N` bits. */
  lemma {:induction false} GrayRowIsRow(n: nat, i: nat)
    requires 1 <= n && i < Pow2(n)
    ensures IsRow(GrayRow(n, i), n)
    decreases n
  {
    if n > 1 {
      var half := Pow2(n - 1);
      if i < half {
        GrayRowIsRow(n - 1, i);
      } else {
        GrayRowIsRow(n - 1, 2 * half - 1 - i);
      }
    }
  }

  /** The code starts at the all-zero row and ends at `1 0 ... 0`. */
  lemma {:induction false} GrayEnds(n: nat)
    requires 1 <= n
    ensures GrayRow(n, 0) == Zeros(n)
    ensures GrayRow(n, Pow2(n) - 1) == OneHot(n, 0)
    decreases n
  {
    OneHotCons(n, 0);
    if n > 1 {
      GrayEnds(n - 1);
      assert Zeros(n) == [0] + Zeros(n - 1);
    }
  }

  /** Consecutive rows differ in exactly one bit. */
  lemma {:induction false} GrayAdjacent(n: nat, i: nat)
    requires 1 <= n && i + 1 < Pow2(n)
    ensures IsOneHot(XorRow(GrayRow(n, i), GrayRow(n, i + 1)), n)
    decreases n
  {
    if n == 1 {
      BitOps(0, 1);
      assert XorRow(GrayRow(1, 0), GrayRow(1, 1)) == OneHot(1, 0);
    } else {
      var half := Pow2(n - 1);
      if i + 1 < half {
        GrayAdjacent(n - 1, i);
        AdjacentStep(n, i, i, i + 1, 0);
      } else if i + 1 == half {
        AdjacentMiddle(n, i);
      } else {
        var k := 2 * half - 2 - i;
        GrayAdjacent(n - 1, k);
        GrayRowIsRow(n - 1, k);
        GrayRowIsRow(n - 1, k + 1);
        XorRowSymmetric(GrayRow(n - 1, k), GrayRow(n - 1, k + 1), n - 1);
        AdjacentStep(n, i, k + 1, k, 1);
      }
    }
  }

  /** The last row of the first half and the first of the second differ in the first bit only. */
  lemma AdjacentMiddle(n: nat, i: nat)
    requires 2 <= n && i + 1 == Pow2(n - 1)
    ensures IsOneHot(XorRow(GrayRow(n, i), GrayRow(n, i + 1)), n)
  {
    var r := GrayRow(n - 1, i);
    assert GrayRow(n, i) == [0] + r && GrayRow(n, i + 1) == [1] + r;
    GrayRowIsRow(n - 1, i);
    XorRowCons(0, r, 1, r);
    BitOps(0, 1);
    XorRowZeros(r, n - 1);
    OneHotCons(n, 0);
    assert XorRow(GrayRow(n, i), GrayRow(n, i + 1)) == OneHot(n, 0);
  }

  /**
   * Rows `i` and `i + 1` of `calC_r(N)` share their first bit `b` and are
   * rows `a` and `c` of `calC_r(N-1)` after it; if those differ in one bit,
   * so do they.
   */
  lemma AdjacentStep(n: nat, i: nat, a: nat, c: nat, b: nat)
    requires 2 <= n && i + 1 < Pow2(n) && a < Pow2(n - 1) && c < Pow2(n - 1) && b < 2
    requires GrayRow(n, i) == [b] + GrayRow(n - 1, a) && GrayRow(n, i + 1) == [b] + GrayRow(n - 1, c)
    requires IsOneHot(XorRow(GrayRow(n - 1, a), GrayRow(n - 1, c)), n - 1)
    ensures IsOneHot(XorRow(GrayRow(n, i), GrayRow(n, i + 1)), n)
  {
    var j :| 0 <= j < n - 1 && XorRow(GrayRow(n - 1, a), GrayRow(n - 1, c)) == OneHot(n - 1, j);
    XorRowCons(b, GrayRow(n - 1, a), b, GrayRow(n - 1, c));
    BitOps(b, b);
    OneHotCons(n, j);
    assert XorRow(GrayRow(n, i), GrayRow(n, i + 1)) == OneHot(n, j + 1);
  }

  /**
   * `calC_r`: the array of `2^N` rows is filled by two index loops from the
   * table for `N - 1`; each row is written as `result[i][0] = b` followed by
   * `result[i][1:] = C_n1[...]`.
   */
  method CalCR(n: nat) returns (rows: seq<seq<nat>>)
    requires 1 <= n
    ensures rows == GrayRows(n)
    decreases n
  {
    var result := new seq<nat>[Pow2(n)](_ => Zeros(n));
    if n == 1 {
      result[0] := result[0][0 := 0];
      result[1] := result[1][0 := 1];
      assert result[0] == [0] && result[1] == [1];
      assert result[..] == [[0], [1]];
      GrayOne();
      return result[..];
    }
    var cN1 := CalCR(n - 1);
    var half := Pow2(n) / 2;
    assert half == Pow2(n - 1);
    FillFirstHalf(result, cN1, half);
    FillSecondHalf(result, cN1, half);
    rows := result[..];
    GrayHalves(n, rows);
  }

  /** The first loop of `calC_r`: row `i < 2^(N-1)` becomes 0 followed by `C_n1[i]`. */
  method FillFirstHalf(result: array<seq<nat>>, cN1: seq<seq<nat>>, half: nat)
    requires result.Length == 2 * half && |cN1| == half
    requires forall k :: 0 <= k < half ==> |result[k]| >= 1
    modifies result
    ensures forall k :: 0 <= k < half ==> result[k] == [0] + cN1[k]
    ensures forall k :: half <= k < result.Length ==> result[k] == old(result[k])
  {
    for i := 0 to half
      invariant forall k :: 0 <= k < i ==> result[k] == [0] + cN1[k]
      invariant forall k :: i <= k < result.Length ==> result[k] == old(result[k])
    {
      result[i] := result[i][0 := 0];
      result[i] := result[i][..1] + cN1[i];
    }
  }

  /** The second loop of `calC_r`: row `2^(N-1) + i` becomes 1 followed by `C_n1[2^(N-1) - i - 1]`. */
  method FillSecondHalf(result: array<seq<nat>>, cN1: seq<seq<nat>>, half: nat)
    requires result.Length == 2 * half && |cN1| == half
    requires forall k :: half <= k < result.Length ==> |result[k]| >= 1
    modifies result
    ensures forall k :: 0 <= k < half ==> result[k] == old(result[k])
    ensures forall k :: half <= k < result.Length ==> result[k] == [1] + cN1[2 * half - 1 - k]
  {
    for i := 0 to half
      invariant forall k :: 0 <= k < half ==> result[k] == old(result[k])
      invariant forall k :: half <= k < half + i ==> result[k] == [1] + cN1[2 * half - 1 - k]
      invariant forall k :: half + i <= k < result.Length ==> result[k] == old(result[k])
    {
      result[half + i] := result[half + i][0 := 1];
      result[half + i] := result[half + i][..1] + cN1[half - i - 1];
    }
  }

  /** Rows built from the two halves as `calC_r` builds them make up `calC_r(N)`. */
  lemma GrayHalves(n: nat, rows: seq<seq<nat>>)
    requires 2 <= n && |rows| == Pow2(n)
    requires forall k :: 0 <= k < Pow2(n - 1) ==> rows[k] == [0] + GrayRows(n - 1)[k]
    requires forall k :: Pow2(n - 1) <= k < Pow2(n) ==> rows[k] == [1] + GrayRows(n - 1)[2 * Pow2(n - 1) - 1 - k]
    ensures rows == GrayRows(n)
  {
    var half := Pow2(n - 1);
    assert 2 * half == Pow2(n);
    forall k | 0 <= k < Pow2(n)
      ensures rows[k] == GrayRows(n)[k]
    {
      if k < half {
        assert rows[k] == [0] + GrayRow(n - 1, k);
      } else {
        assert rows[k] == [1] + GrayRows(n - 1)[2 * half - 1 - k];
      }
    }
  }

  // ---------------------------------------------------------------------------
  // The inverse table (printReverseCcodeArray)
  // ---------------------------------------------------------------------------

  /**
   * The position of the packed value `s` in the Gray code: the inverse of the
   * reflection, undone one leading bit at a time.
   */
  function GrayRank(n: nat, s: nat): (i: nat)
    requires 1 <= n && s < Pow2(n)
    ensures i < Pow2(n)
    decreases n
  {
    if n == 1 then s
    else
      var half := Pow2(n - 1);
      if s < half then GrayRank(n - 1, s) else 2 * half - 1 - GrayRank(n - 1, s - half)
  }

  /** Ranking the packed row `i` gives back `i`: the rows are pairwise distinct. */
  lemma {:induction false} RankOfRow(n: nat, i: nat)
    requires 1 <= n && i < Pow2(n)
    ensures Pack(GrayRow(n, i)) < Pow2(n)
    ensures GrayRank(n, Pack(GrayRow(n, i))) == i
    decreases n
  {
    GrayRowIsRow(n, i);
    PackBound(GrayRow(n, i), n);
    if n == 1 {
      PackCons(i, []);
    } else if i < Pow2(n - 1) {
      RankOfRow(n - 1, i);
      RankOfRowStep(n, i, i);
    } else {
      RankOfRow(n - 1, 2 * Pow2(n - 1) - 1 - i);
      RankOfRowStep(n, i, 2 * Pow2(n - 1) - 1 - i);
    }
  }

  /** One step of `RankOfRow`, from the row of `calC_r(N-1)` that row `i` extends. */
  lemma RankOfRowStep(n: nat, i: nat, j: nat)
    requires 2 <= n && i < Pow2(n)
    requires j == if i < Pow2(n - 1) then i else 2 * Pow2(n - 1) - 1 - i
    requires j < Pow2(n - 1) && Pack(GrayRow(n - 1, j)) < Pow2(n - 1)
    requires GrayRank(n - 1, Pack(GrayRow(n - 1, j))) == j && Pack(GrayRow(n, i)) < Pow2(n)
    ensures GrayRank(n, Pack(GrayRow(n, i))) == i
  {
    if i < Pow2(n - 1) {
      PackCons(0, GrayRow(n - 1, j));
    } else {
      PackCons(1, GrayRow(n - 1, j));
    }
  }

  /** The row at the rank of `s` packs to `s`: every value below `2^n` occurs. */
  lemma {:induction false} RowOfRank(n: nat, s: nat)
    requires 1 <= n && s < Pow2(n)
    ensures Pack(GrayRow(n, GrayRank(n, s))) == s
    decreases n
  {
    if n == 1 {
      PackCons(s, []);
    } else {
      var half := Pow2(n - 1);
      if s < half {
        RowOfRank(n - 1, s);
        PackCons(0, GrayRow(n - 1, GrayRank(n - 1, s)));
      } else {
        var j := GrayRank(n - 1, s - half);
        RowOfRank(n - 1, s - half);
        assert GrayRow(n, GrayRank(n, s)) == [1] + GrayRow(n - 1, j);
        PackCons(1, GrayRow(n - 1, j));
      }
    }
  }

  /** Different rows of the code are different. */
  lemma GrayDistinct(n: nat, i: nat, j: nat)
    requires 1 <= n && i < Pow2(n) && j < Pow2(n) && i != j
    ensures GrayRow(n, i) != GrayRow(n, j)
  {
    RankOfRow(n, i);
    RankOfRow(n, j);
  }

  /** No row of `rows[i + 1 .. upto]` packs to the value row `i` packs to. */
  ghost predicate LastWith(rows: seq<seq<nat>>, i: nat, upto: nat)
    requires i < upto <= |rows|
  {
    forall l :: i < l < upto ==> Pack(rows[l]) != Pack(rows[i])
  }

  /** No row of `rows[.. upto]` packs to `s`. */
  ghost predicate NoneWith(rows: seq<seq<nat>>, s: nat, upto: nat)
    requires upto <= |rows|
  {
    forall k :: 0 <= k < upto ==> Pack(rows[k]) != s
  }

  /**
   * The reverse table after the rows before `upto` have been written: the
   * slot of each row no later row overwrote holds its index, and a slot no
   * row packs to still holds 0.
   */
  ghost predicate ReversedUpTo(rows: seq<seq<nat>>, rev: seq<nat>, upto: nat)
    requires upto <= |rows|
  {
    && |rev| == |rows|
    && (forall k :: 0 <= k < upto && LastWith(rows, k, upto) && Pack(rows[k]) < |rev| ==> rev[Pack(rows[k])] == k)
    && (forall s :: 0 <= s < |rev| && NoneWith(rows, s, upto) ==> rev[s] == 0)
  }

  /** Writing `rev[pack(row i)] = i` extends the reverse table by row `i`. */
  lemma ReverseStep(rows: seq<seq<nat>>, rev: seq<nat>, i: nat)
    requires i < |rows| && ReversedUpTo(rows, rev, i) && Pack(rows[i]) < |rev|
    ensures ReversedUpTo(rows, rev[Pack(rows[i]) := i], i + 1)
  {
    var rev' := rev[Pack(rows[i]) := i];
    forall k | 0 <= k < i + 1 && LastWith(rows, k, i + 1) && Pack(rows[k]) < |rev'|
      ensures rev'[Pack(rows[k])] == k
    {
      if k < i {
        assert LastWith(rows, k, i);
      }
    }
    forall s | 0 <= s < |rev'| && NoneWith(rows, s, i + 1)
      ensures rev'[s] == 0
    {
      assert NoneWith(rows, s, i);
    }
  }

  /**
   * `printReverseCcodeArray`: a zeroed array of `len(array)` entries, then
   * `revArray[pack(row i)] = i` for every row in order. A slot takes the
   * index of the last row packing to it; a slot no row packs to stays 0.
   */
  method ReverseTable(rows: seq<seq<nat>>) returns (rev: seq<nat>)
    requires forall i :: 0 <= i < |rows| ==> Pack(rows[i]) < |rows|
    ensures |rev| == |rows|
    ensures forall i :: 0 <= i < |rows| && LastWith(rows, i, |rows|) ==> rev[Pack(rows[i])] == i
    ensures forall s :: 0 <= s < |rows| && NoneWith(rows, s, |rows|) ==> rev[s] == 0
  {
    var revArray := new nat[|rows|](_ => 0);
    assert ReversedUpTo(rows, revArray[..], 0);
    for i := 0 to |rows|
      invariant ReversedUpTo(rows, revArray[..], i)
    {
      WriteRank(rows, revArray, i);
    }
    rev := revArray[..];
  }

  /** One pass of the loop of `printReverseCcodeArray`: `revArray[pack(row i)] = i`. */
  method WriteRank(rows: seq<seq<nat>>, revArray: array<nat>, i: nat)
    requires i < |rows| && Pack(rows[i]) < |rows|
    requires ReversedUpTo(rows, revArray[..], i)
    modifies revArray
    ensures ReversedUpTo(rows, revArray[..], i + 1)
  {
    var tmpNum := PackRow(rows[i]);
    ReverseStep(rows, revArray[..], i);
    revArray[tmpNum] := i;
    assert revArray[..] == old(revArray[..])[tmpNum := i];
  }

  /** On the Gray code the reverse table is the rank of every value. */
  lemma ReverseOfGray(n: nat, rev: seq<nat>)
    requires 1 <= n && |rev| == Pow2(n)
    requires forall i :: 0 <= i < Pow2(n) && Pack(GrayRows(n)[i]) < |rev| && LastWith(GrayRows(n), i, Pow2(n))
                         ==> rev[Pack(GrayRows(n)[i])] == i
    ensures forall s :: 0 <= s < Pow2(n) ==> rev[s] == GrayRank(n, s)
  {
    forall s | 0 <= s < Pow2(n)
      ensures rev[s] == GrayRank(n, s)
    {
      var i := GrayRank(n, s);
      RowOfRank(n, s);
      forall k | i < k < Pow2(n)
        ensures Pack(GrayRows(n)[k]) != Pack(GrayRows(n)[i])
      {
        RankOfRow(n, k);
      }
      assert LastWith(GrayRows(n), i, Pow2(n));
    }
  }
}
