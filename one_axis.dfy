/**
 * The codec on the one-axis tables that the generator emits
 * (`C1 = {0,1}`, `revC1 = {0,1}`, `H1 = {{0,0},{0,0}}`): every gene is 0,
 * so no pass transforms the working point, the key of a point is its
 * clamped coordinate, and decoding a key gives the key back as the
 * coordinate. Both round trips hold, and the clamp of the encoder maps the
 * out-of-range coordinate `2^m` onto the start of the curve.
 */
module OneAxis {
  import opened Bits
  import opened HilbertKey
  import opened TableGen

  /** The tables `main` emits for one axis. */
  const ONE_AXIS: DimTables := DimTables([0, 1], [0, 1], [0, 0, 0, 0])

  /** The one-axis tables are the generated ones, and the codec accepts them. */
  lemma OneAxisGenerated()
    ensures Tables(1) == ONE_AXIS
  {
    OneAxisTables();
  }

  /** The one-axis tables satisfy the codec's precondition. */
  lemma OneAxisWellFormed()
    ensures WellFormed(ONE_AXIS, 1)
  {
    assert Pow2(1) == 2;
  }

  /** The one-axis tables have the codec's table sizes. */
  lemma OneAxisSized()
    ensures Sized(ONE_AXIS, 1)
  {
    assert Pow2(1) == 2;
  }

  /** A gene of 0 neither reverses nor exchanges any axis. */
  lemma ZeroGenes(p: seq<nat>, mask: nat)
    requires |p| == 1
    ensures ReverseAxes(p, 0, mask) == p
    ensures ExchangeAxes(p, 0) == p
  {
    BitOfZero(0);
    Pow2Le(0, 1);
  }

  /** With all genes 0 the encoder's transform is the identity. */
  lemma TransformIdentity(p: seq<nat>, d: nat)
    requires |p| == 1 && d < 2
    ensures Sized(ONE_AXIS, |p|)
    ensures Transform(ONE_AXIS, p, d) == p
  {
    OneAxisWellFormed();
    ZeroGenes(p, TWO_64 - 1);
  }

  /** With all genes 0 the decoder's undo step is the identity. */
  lemma UndoIdentity(p: seq<nat>, d: nat, i: nat)
    requires |p| == 1 && d < 2
    ensures Sized(ONE_AXIS, |p|)
    ensures Undo(ONE_AXIS, p, d, i) == p
  {
    OneAxisWellFormed();
    ZeroGenes(p, Pow2(i) - 1);
  }

  /** The digit of a pass is the bit the pass reads. */
  lemma DigitIsBit(x: nat, b: nat)
    ensures Sized(ONE_AXIS, 1)
    ensures Digit(ONE_AXIS, [x], b) == Bit(x, b)
  {
    OneAxisWellFormed();
    BitIsBinary(x, b);
    assert [x][..0] == [];
    assert SubCube([x], b) == Bit(x, b);
  }

  /** Bit `k` is the lowest bit of the word shifted right by `k`. */
  lemma BitOfShr(x: nat, k: nat)
    ensures Bit(x, k) == Shr(x, k) % 2
    ensures Shr(x, k) / 2 == Shr(x, k + 1)
  {
    BitIsDivMod(x, k);
    ShrIsDiv(x, k);
    ShrShr(x, k, 1);
  }

  /** No pass moves the one-axis working point. */
  lemma {:induction false} EncodeStateFixed(x: nat, m: nat, i: nat)
    requires i <= m
    ensures Sized(ONE_AXIS, 1)
    ensures EncodeState(ONE_AXIS, [x], m, i) == [x]
    decreases i
  {
    OneAxisSized();
    if i > 0 {
      EncodeStateFixed(x, m, i - 1);
      DigitIsBit(x, m - i);
      BitIsBinary(x, m - i);
      TransformIdentity([x], Bit(x, m - i));
    }
  }

  /** The digit of pass `i` is bit `m - i` of the coordinate. */
  lemma PassDigit(x: nat, m: nat, i: nat)
    requires 0 < i <= m
    ensures Sized(ONE_AXIS, 1)
    ensures Digit(ONE_AXIS, EncodeState(ONE_AXIS, [x], m, i - 1), m - i) == Bit(x, m - i)
  {
    EncodeStateFixed(x, m, i - 1);
    DigitIsBit(x, m - i);
    var p := EncodeState(ONE_AXIS, [x], m, i - 1);
    assert p == [x];
    assert Digit(ONE_AXIS, p, m - i) == Digit(ONE_AXIS, [x], m - i);
  }

  /** Each pass appends the bit it reads to the digits. */
  lemma EncodeDigitsSnoc(x: nat, m: nat, i: nat)
    requires 0 < i <= m
    ensures Sized(ONE_AXIS, 1)
    ensures EncodeDigits(ONE_AXIS, [x], m, i) == EncodeDigits(ONE_AXIS, [x], m, i - 1) + [Bit(x, m - i)]
  {
    PassDigit(x, m, i);
    assert EncodeDigits(ONE_AXIS, [x], m, i)
      == EncodeDigits(ONE_AXIS, [x], m, i - 1) + [Digit(ONE_AXIS, EncodeState(ONE_AXIS, [x], m, i - 1), m - i)];
  }

  /** Appending a one-bit digit doubles the key and adds the digit. */
  lemma KeyOfSnoc(ds: seq<nat>, d: nat)
    ensures KeyOf(ds + [d], 1) == KeyOf(ds, 1) * 2 + d
  {
    assert (ds + [d])[..|ds|] == ds;
    assert Pow2(1) == 2;
  }

  /**
   * The low `i` bits above bit `m - i` are the low `i - 1` bits above bit
   * `m - i + 1`, then bit `m - i`.
   */
  lemma LowShrStep(x: nat, m: nat, i: nat)
    requires 0 < i <= m
    ensures Low(Shr(x, m - i), i) == Low(Shr(x, m - (i - 1)), i - 1) * 2 + Bit(x, m - i)
  {
    BitOfShr(x, m - i);
    assert m - i + 1 == m - (i - 1);
  }

  /** One pass of the induction in `EncodeDigitsLow`. */
  lemma EncodeDigitsStep(x: nat, m: nat, i: nat)
    requires 0 < i <= m
    requires Sized(ONE_AXIS, 1)
    requires KeyOf(EncodeDigits(ONE_AXIS, [x], m, i - 1), 1) == Low(Shr(x, m - (i - 1)), i - 1)
    ensures KeyOf(EncodeDigits(ONE_AXIS, [x], m, i), 1) == Low(Shr(x, m - i), i)
  {
    EncodeDigitsSnoc(x, m, i);
    KeyOfSnoc(EncodeDigits(ONE_AXIS, [x], m, i - 1), Bit(x, m - i));
    LowShrStep(x, m, i);
  }

  /**
   * After `i` passes the key holds bits `m - 1 .. m - i` of the coordinate,
   * most significant first: the low `i` bits of the coordinate shifted
   * right by `m - i`.
   */
  lemma {:induction false} EncodeDigitsLow(x: nat, m: nat, i: nat)
    requires i <= m
    ensures Sized(ONE_AXIS, 1)
    ensures KeyOf(EncodeDigits(ONE_AXIS, [x], m, i), 1) == Low(Shr(x, m - i), i)
    decreases i
  {
    OneAxisSized();
    if i > 0 {
      EncodeDigitsLow(x, m, i - 1);
      EncodeDigitsStep(x, m, i);
    }
  }

  /**
   * Encoding a one-axis point gives its clamped coordinate, reduced to its
   * low `m` bits.
   */
  lemma OneAxisEncode(x: nat, m: nat)
    requires m <= 64
    ensures Sized(ONE_AXIS, 1)
    ensures EncodeKey(ONE_AXIS, [x], m) == ClampCoord(x, m) % Pow2(m)
  {
    var cx := ClampCoord(x, m);
    assert Clamp([x], m) == [cx];
    EncodeDigitsLow(cx, m, m);
    LowIsMod(cx, m);
    Pow2Words();
    Pow2Le(m, 64);
    SmallDiv(cx % Pow2(m), TWO_64);
  }

  /**
   * Under the intended clamp the key of a one-axis point is its
   * coordinate saturated at `2^m - 1`: coordinates in range are their own
   * key, and every larger one lands on the last cell of the curve.
   */
  lemma OneAxisEncodeIntended(x: nat, m: nat)
    requires m <= 64
    ensures Sized(ONE_AXIS, 1)
    ensures EncodeKeyIntended(ONE_AXIS, [x], m) == ClampCoordIntended(x, m)
    ensures x < Pow2(m) ==> EncodeKeyIntended(ONE_AXIS, [x], m) == x
    ensures Pow2(m) <= x ==> EncodeKeyIntended(ONE_AXIS, [x], m) == Pow2(m) - 1
  {
    var cx := ClampCoordIntended(x, m);
    assert ClampIntended([x], m) == [cx];
    EncodeDigitsLow(cx, m, m);
    LowIsMod(cx, m);
    SmallDiv(cx, Pow2(m));
    Pow2Words();
    Pow2Le(m, 64);
    SmallDiv(cx, TWO_64);
  }

  /**
   * The finding on the clamp: the coordinate `2^m` is not clamped, its bit
   * `m` is never read, and it gets key 0, the key of the origin, where the
   * intended clamp gives it the last key `2^m - 1`.
   */
  lemma ClampCollision(m: nat)
    requires 1 <= m <= 64
    ensures Sized(ONE_AXIS, 1)
    ensures EncodeKey(ONE_AXIS, [Pow2(m)], m) == 0
    ensures EncodeKey(ONE_AXIS, [0], m) == 0
    ensures EncodeKeyIntended(ONE_AXIS, [Pow2(m)], m) == Pow2(m) - 1 > 0
  {
    var top := Pow2(m);
    OneAxisEncode(top, m);
    ClampBound(top, m);
    MulDivExact(1, top);
    assert top % top == 0;
    OneAxisEncode(0, m);
    assert ClampCoord(0, m) == 0;
    assert 0 % top == 0;
    OneAxisEncodeIntended(top, m);
    Pow2Le(1, m);
    assert Pow2(1) == 2;
  }

  /** Digit `i` of a one-axis key is bit `i` of the key. */
  lemma KeyDigitIsBit(key: nat, i: nat)
    ensures KeyDigit(key, 1, i) == Bit(key, i)
    ensures Bit(key, i) < 2
  {
    assert 1 * i == i;
    BitOfShr(key, i);
    BitIsBinary(key, i);
    assert Low(Shr(key, i), 1) == Shr(key, i) % 2;
  }

  /** Placing bit `i` of the key above its low `i` bits gives its low `i + 1` bits. */
  lemma PlaceKeyBit(key: nat, i: nat)
    ensures Sized(ONE_AXIS, 1)
    ensures Bit(key, i) < 2
    ensures Place([Low(key, i)], ONE_AXIS.c[Bit(key, i)], i) == [Low(key, i + 1)]
  {
    OneAxisSized();
    var d := Bit(key, i);
    BitIsBinary(key, i);
    assert ONE_AXIS.c[d] == d;
    assert Bit(d, 0) == d;
    LowSplit(key, i, 1);
    ScaleIsMul(Low(Shr(key, i), 1), i);
    assert Low(Shr(key, i), 1) == d by {
      KeyDigitIsBit(key, i);
      assert 1 * i == i;
    }
  }

  /** One pass of the induction in `DecodeLow`. */
  lemma DecodeLowStep(key: nat, ds: seq<nat>, k: nat)
    requires ds == KeyDigits(key, 1, |ds|) && 1 < k <= |ds|
    requires Sized(ONE_AXIS, 1)
    requires DecodeState(ONE_AXIS, ds, 1, k - 1) == [Low(key, k - 1)]
    ensures DecodeState(ONE_AXIS, ds, 1, k) == [Low(key, k)]
  {
    KeyDigitIsBit(key, k - 1);
    assert ds[k - 1] == Bit(key, k - 1);
    UndoIdentity([Low(key, k - 1)], ds[k - 1], k - 1);
    PlaceKeyBit(key, k - 1);
  }

  /**
   * The decoder's coordinate after `k` passes over the digits of a key is
   * the low `k` bits of the key: pass `i` places digit `i`, which is bit `i`.
   */
  lemma {:induction false} DecodeLow(key: nat, ds: seq<nat>, k: nat)
    requires ds == KeyDigits(key, 1, |ds|) && 1 <= k <= |ds|
    ensures Sized(ONE_AXIS, 1)
    ensures DecodeState(ONE_AXIS, ds, 1, k) == [Low(key, k)]
    decreases k
  {
    OneAxisSized();
    if k == 1 {
      KeyDigitIsBit(key, 0);
      assert ds[0] == Bit(key, 0);
      PlaceKeyBit(key, 0);
      assert Zeros(1) == [Low(key, 0)];
    } else {
      DecodeLow(key, ds, k - 1);
      DecodeLowStep(key, ds, k);
    }
  }

  /** Decoding a one-axis key gives the key, reduced to its low `m` bits. */
  lemma OneAxisDecode(key: nat, m: nat)
    requires 1 <= m
    ensures Sized(ONE_AXIS, 1)
    ensures DecodeState(ONE_AXIS, KeyDigits(key, 1, m), 1, m) == [key % Pow2(m)]
  {
    DecodeLow(key, KeyDigits(key, 1, m), m);
    LowIsMod(key, m);
  }

  /** Decoding the key of a one-axis point of `m` bits gives the point back. */
  lemma OneAxisPointRoundTrip(x: nat, m: nat)
    requires 1 <= m <= 64 && x < Pow2(m)
    ensures Sized(ONE_AXIS, 1)
    ensures DecodeState(ONE_AXIS, KeyDigits(EncodeKey(ONE_AXIS, [x], m), 1, m), 1, m) == [x]
  {
    OneAxisEncode(x, m);
    ClampBound(x, m);
    SmallDiv(x, Pow2(m));
    OneAxisDecode(x, m);
  }

  /** Encoding the decoded point of a one-axis key of `m` bits gives the key back. */
  lemma OneAxisKeyRoundTrip(key: nat, m: nat)
    requires 1 <= m <= 64 && key < Pow2(m)
    ensures Sized(ONE_AXIS, 1)
    ensures EncodeKey(ONE_AXIS, DecodeState(ONE_AXIS, KeyDigits(key, 1, m), 1, m), m) == key
  {
    OneAxisDecode(key, m);
    SmallDiv(key, Pow2(m));
    OneAxisEncode(key, m);
    ClampBound(key, m);
  }

  /** What the two entry points need and give on the one-axis family, for a coordinate of `m` bits. */
  lemma OneAxisCodecFacts(x: nat, m: nat)
    requires 1 <= m <= 64 && x < Pow2(m)
    ensures Family([ONE_AXIS]) && Sized(ONE_AXIS, 1)
    ensures x < Pow2(1 * m) && (m == 0 || 1 * (m - 1) < 64)
    ensures EncodeKey(ONE_AXIS, [x], m) == x
    ensures DecodeState(ONE_AXIS, KeyDigits(x, 1, m), 1, m) == [x]
  {
    OneAxisWellFormed();
    assert 1 * m == m;
    OneAxisEncode(x, m);
    ClampBound(x, m);
    SmallDiv(x, Pow2(m));
    OneAxisDecode(x, m);
  }

  /**
   * The two C entry points on the one-axis table family: encoding a
   * coordinate of `m` bits and decoding the key into a fresh buffer gives
   * the coordinate back, and the key is the coordinate itself.
   */
  method OneAxisCodec(x: u64, m: int) returns (key: u64, y: u64)
    requires 1 <= m <= 30 && x < Pow2(m)
    ensures key == x && y == x
  {
    var tables := [ONE_AXIS];
    OneAxisCodecFacts(x, m);
    var err;
    key, err := GetHKeyFromIntCoord(tables, m, 1, [x]);
    var outCoord := new u64[1];
    err := GetIntCoordFromHKey(tables, outCoord, m, 1, key);
    y := outCoord[0];
  }
}
