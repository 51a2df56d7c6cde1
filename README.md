# libhilbert: the integer Hilbert-key codec in Dafny

libhilbert maps a point of a `dim`-dimensional grid with `2^m` cells per axis
to a 64-bit key, its position along an N-dimensional Hilbert curve, and back.
It uses the method of Chenyang, Hong and Nengchao (IEEE 2008). This project
models the integer core of the library and proves properties of that model:

- `getHKeyFromIntCoord`, the encoder (module `HilbertKey`, file `hilbert_key.dfy`).
  It clamps the point, then runs `m` passes, most significant bit first. Each
  pass gathers one bit per axis into a sub-cube index and looks that index up in
  `revC`. The resulting digit is appended to the key. The digit's gene pair then
  complements the flagged axes of the working point and swaps two of its axes.
- `getIntCoordFromHKey`, the decoder (same module). It reads the digits of the
  key least significant first and looks each one up in `C`. It undoes the gene
  pair on the output buffer, exchange first and then a reverse against the
  growing `flip` mask. Then it places one new bit per axis.
- The bit primitives `ntz32`, `ntz64`, `pop32`, `pop64` and the `IBITS` macro
  (module `BinaryOps`, on the arithmetic model of C words in module `Bits`).
- The Python generator of the tables the codec reads:
  - `calC_r`, the reflected binary Gray code, with the packing of its rows and
    the inverse table `revC` (module `GrayCode`);
  - `calH1_N`, `calcH`, `calcG`, `calcHilbertGenes` and the table emission of
    `main` (module `TableGen`).
- The codec on the generated one-axis tables (module `OneAxis`). There, both
  round trips hold.

C words are natural numbers below `2^64` (or `2^32`). The C operators are
functions on them that state their wrap-around: `Add64`, `Shl64`, `Neg64`, and
`And`/`Xor` on binary expansions. The tables `C`, `revC` and `H` live in a
generated header. The codec therefore takes them as a parameter: one
`DimTables` value per number of axes. `HILB_MAX_DIM` is the length of that
family. `WellFormed` states what the codec needs of the tables:
- `C` is a permutation of `[0, 2^dim)` and `revC` is its inverse;
- every gene is below `2^dim`.

`TableGen.TablesWellFormed` proves that the generator's tables meet this for
every `dim < 32`. Encoder and decoder are imperative methods over arrays, as
in C. Each is proved equal to a functional specification: `EncodeKey` for the
encoder, and `DecodeState` over the digits `KeyDigits` of the key for the
decoder. The generator's loops likewise become methods proved against the
functions `GrayRows`, `HTable`, `Genes` and `Tables`.

## Model

| member | source | states |
|---|---|---|
| BinaryOps.Ibits | src/binaryOps.h:38 | `IBITS(i,pos,len)` is `(i / 2^pos) mod 2^len`, a value below `2^len` |
| BinaryOps.IbitsOneBit | src/binaryOps.h:38 | `IBITS(i,pos,1)` is bit `pos` of `i`, so 0 or 1 |
| BinaryOps.IbitsIgnoresHighBits | src/binaryOps.h:38 | two words that agree below bit `pos+len` have the same field |
| BinaryOps.SkipZeroField | src/binaryOps.c:63-82 | one binary-search step keeps `ntz(x) == n - 1 + ntz(xCpy)` and halves the range the trailing zeros can lie in |
| BinaryOps.Ntz64 | src/binaryOps.c:54-85 | `ntz64(0) == 64`; otherwise the result `k < 64` is the index of the lowest set bit, and `2^k` divides `x` |
| BinaryOps.Ntz32 | src/binaryOps.c:25-52 | `ntz32(0) == 32`; otherwise the result `k < 32` is the index of the lowest set bit, and `2^k` divides `x` |
| BinaryOps.NtzOfPow2 | src/binaryOps.c:54-85 | the trailing-zero count of the one-bit word `2^k` is `k`, which is how the codec recovers axis indices |
| BinaryOps.SwarStep | src/binaryOps.c:101-106 | adding the masked halves of the `w`-bit field counts gives the `2w`-bit field counts |
| BinaryOps.SwarRound | src/binaryOps.c:101-106 | one SWAR line turns per-`w`-bit counts into per-`2w`-bit counts and never wraps around the word |
| BinaryOps.Pop64 | src/binaryOps.c:98-108 | `pop64(x)` is the number of set bits of `x`, between 0 and 64 |
| BinaryOps.Pop32 | src/binaryOps.c:87-96 | `pop32(x)` is the number of set bits of `x`, between 0 and 32 |
| Bits.TrailingZerosSpec | src/binaryOps.h:47-52 | the trailing-zero count names a set bit, every bit below it is clear, and `2^ntz` divides the word |
| Bits.LowestSetBit64 | src/hilbertKey.c:114 | `x & (-x)` on a 64-bit word isolates the lowest set bit, and is 0 for 0 |
| Bits.PopCountClearBit | src/hilbertKey.c:121-123 | clearing a set bit lowers the population count by one |
| Bits.PopCountBound | src/binaryOps.h:62-67 | a word of `w` bits has at most `w` set bits |
| HilbertKey.GetHKeyFromIntCoord | src/hilbertKey.c:44-178 | with more axes than tables: key 0 and `HKEY_ERR_DIM`; otherwise `HKEY_ERR_OK` and the key is `EncodeKey` of the point; when no coordinate equals `2^m`, the key is also `EncodeKeyIntended` of the point |
| HilbertKey.CopyAndClamp | src/hilbertKey.c:61-69 | the working copy is a fresh array holding the clamped point |
| HilbertKey.ClampBound | src/hilbertKey.c:65-69 | the clamp as written: a coordinate above `2^m` becomes `2^m - 1`, one at most `2^m` is kept, `2^m` itself is kept, and every result is at most `2^m` |
| HilbertKey.ClampCoordIntended | src/hilbertKey.h:53 | the clamp the documented point range `0 < point < 2**m` and the comment at src/hilbertKey.c:64 ("highest possible space") call for: the result is below `2^m`, a coordinate in range is kept, and a larger one saturates to `2^m - 1` |
| HilbertKey.ClampAgrees | src/hilbertKey.c:65-69 | the two clamps agree on every point with no coordinate equal to `2^m` |
| HilbertKey.GatherUpperBits | src/hilbertKey.c:74-85 | the accumulated sum of `IBITS(p[j], b, 1) << j` is the sub-cube index `SubCube(p, b)` |
| HilbertKey.SubCubeBits | src/hilbertKey.c:74-85 | the sub-cube index is below `2^dim`, and its bit `j` is bit `b` of axis `j` |
| HilbertKey.KeyStep | src/hilbertKey.c:99-101 | `(result << dim) + digit` in 64-bit arithmetic appends the digit to the key, modulo `2^64` |
| HilbertKey.EncodePass | src/hilbertKey.c:72-170 | one pass appends the `revC` digit of the sub-cube to the key and applies that digit's reverse-then-exchange transform to the working point |
| HilbertKey.ReverseOneAxis | src/hilbertKey.c:121-140 | one round clears the lowest bit of the remaining gene, lowers its population count by one, and complements that one axis |
| HilbertKey.FlipAxis | src/hilbertKey.c:130-139 | complementing the axis `ntz64` of the lowest remaining gene bit reverses exactly that axis, so the coordinates match the reversal with that bit cleared |
| HilbertKey.PartialReverseStep | src/hilbertKey.c:122-139 | clearing the lowest set bit of the remaining gene complements exactly the axis at its trailing-zero index |
| HilbertKey.LowestBitStep | src/hilbertKey.c:122-130 | `g & -g` is `2^ntz(g)`, the axis index is below `dim`, and `g ^ (g & -g)` has one fewer set bit |
| HilbertKey.ApplyReverse | src/hilbertKey.c:117-140 | the `pop64(gene)` rounds XOR exactly the axes flagged in the gene with the mask, and leave every other axis unchanged |
| HilbertKey.ApplyExchange | src/hilbertKey.c:142-159 | the array becomes `ExchangeAxes` of the old one: the axes at the two set bits are swapped when both exist, otherwise nothing changes |
| HilbertKey.ExchangeAxesOneBit | src/hilbertKey.c:114-115 | a gene with a single set bit (`exDim2 == 0`) exchanges nothing |
| HilbertKey.ExchangeAxesInvolution | src/hilbertKey.c:142-159 | applying the same exchange twice restores the point |
| HilbertKey.ReverseAxesInvolution | src/hilbertKey.c:139 | applying the same reverse twice restores the point |
| HilbertKey.EncodeDigitsBound | src/hilbertKey.c:93 | every digit of the encoder is below `2^dim` |
| HilbertKey.KeyOfBound | src/hilbertKey.c:99-101 | `k` digits below `2^dim` make a key below `2^(dim*k)` |
| HilbertKey.EncodeKeyBound | src/hilbertKey.c:99-101 | with `dim * m <= 64` nothing is lost modulo `2^64`, and the key is below `2^(dim*m)` |
| HilbertKey.EncodeDigitsLast | src/hilbertKey.c:71-101 | the last of `i` encoder digits is the `revC` digit of pass `i - 1`, which reads bit `m - i` of the working coordinates |
| HilbertKey.EncodeDigitsPrefix | src/hilbertKey.c:99-101 | later passes only append digits: the digits of the first `j` passes are a prefix of those of the first `i` |
| HilbertKey.KeyDigitOfKey | src/hilbertKey.c:99-101 | the field at bit `dim * k` of a key built from `dim`-bit digits is digit `k` counted from the last one appended |
| HilbertKey.KeyDigitOfEncodeKey | src/hilbertKey.c:234 | when `dim * m <= 64`, the decoder's digit `i` of an encoder key is the digit the encoder computed from coordinate bit `i`: both routines pair key bits `dim*i .. dim*i + dim - 1` with coordinate bit `i` |
| Bits.LowAgreeBit | src/hilbertKey.c:74 | numbers with the same low `m` bits have the same bit `b` for every `b < m`, so `IBITS(x, b, 1)` reads nothing above bit `m - 1` |
| Bits.XorLowAgree | src/hilbertKey.c:139 | XOR with a common mask keeps two numbers' low `m` bits equal |
| HilbertKey.SubCubeAgree | src/hilbertKey.c:74-85 | the sub-cube index at a bit below `m` is the same for two points whose coordinates agree in their low `m` bits |
| HilbertKey.ExchangeAgree | src/hilbertKey.c:142-159 | the exchange keeps two points' agreement in the low `m` bits |
| HilbertKey.TransformAgree | src/hilbertKey.c:117-159 | the reverse-then-exchange of a digit keeps two points' agreement in the low `m` bits |
| HilbertKey.EncodeAgree | src/hilbertKey.c:71-170 | passes over two points that agree in their low `m` bits compute the same digits and keep the agreement |
| HilbertKey.EncodeKeyLowBits | src/hilbertKey.c:71-170 | two points whose clamped coordinates agree modulo `2^m` get the same key: only bits below `m` of each working coordinate are ever read |
| HilbertKey.GetIntCoordFromHKey | src/hilbertKey.c:207-312 | the output is `DecodeState` of the key's digits after `max(m,1)` passes, every coordinate is below `2^max(m,1)`, and the result is `HKEY_ERR_OK` |
| HilbertKey.DecodeFirstPass | src/hilbertKey.c:211-231 | the zeroed output receives bit `j` of `C[lowest digit]` as bit 0 of axis `j` |
| HilbertKey.DecodePass | src/hilbertKey.c:234-307 | one pass exchanges, then reverses against `flip = 2^i - 1`, then places bit `i` of the `C` entry of digit `i`; `flip` grows to `2^i - 1` |
| HilbertKey.FlipStep | src/hilbertKey.c:241-243 | `(flip << 1) + 1` turns `2^(i-1) - 1` into `2^i - 1` |
| HilbertKey.DecodeStep | src/hilbertKey.c:233-308 | one iteration of the pass loop moves the output from `DecodeState` after `i` passes to `DecodeState` after `i + 1` |
| HilbertKey.DecodePasses | src/hilbertKey.c:217-308 | the first pass and the loop over passes `1 .. m-1` leave `DecodeState` of all digits in the output |
| HilbertKey.PlaceBits | src/hilbertKey.c:302-307 | adding `IBITS(pc, j, 1) << i` to each axis sets bit `i` of axis `j` to bit `j` of `pc` |
| HilbertKey.PlaceStep | src/hilbertKey.c:303 | on a coordinate below `2^i` the 64-bit add of the shifted bit adds `2^i` exactly when the bit is set |
| HilbertKey.PlaceBit | src/hilbertKey.c:302-303 | placing keeps bits `0 .. i-1` of each axis and sets bit `i` of axis `j` to bit `j` of the curve position |
| HilbertKey.ReverseBelow | src/hilbertKey.c:277-292 | XOR with `flip = 2^i - 1` keeps every coordinate below `2^i`, touching only placed bits |
| HilbertKey.ExchangeBelow | src/hilbertKey.c:258-275 | exchanging axes keeps every coordinate below the same bound |
| HilbertKey.DecodeStateBelow | src/hilbertKey.c:233-307 | after `k` passes every output coordinate is below `2^k` |
| HilbertKey.DecodeStatePlacesBit | src/hilbertKey.c:302-303 | after pass `i`, bit `i` of output axis `j` is bit `j` of `C[digit i]` |
| HilbertKey.KeyDigitIsField | src/hilbertKey.c:234 | digit `i` of the key is `IBITS(key, dim*i, dim)` |
| GrayCode.CalCR | tools/hilbertKey.py:32-50 | `calC_r(N)` builds the reflected binary Gray code table `GrayRows(N)` |
| GrayCode.FillFirstHalf | tools/hilbertKey.py:42-44 | the first half of the rows is `0` followed by the rows of `calC_r(N-1)`, and the second half is untouched |
| GrayCode.FillSecondHalf | tools/hilbertKey.py:46-48 | the second half is `1` followed by the rows of `calC_r(N-1)` in reverse order, and the first half is untouched |
| GrayCode.GrayHalves | tools/hilbertKey.py:42-48 | a table with these two halves is the Gray code of `N` bits |
| GrayCode.GrayOne | tools/hilbertKey.py:35-38 | `calC_r(1)` is `[[0],[1]]` |
| GrayCode.GrayRowIsRow | tools/hilbertKey.py:33 | every row has `N` entries, each 0 or 1 |
| GrayCode.GrayEnds | tools/hilbertKey.py:42-48 | the first row is all zeros and the last row is `1 0 .. 0` |
| GrayCode.GrayAdjacent | tools/hilbertKey.py:42-48 | consecutive rows differ in exactly one position |
| GrayCode.GrayDistinct | tools/hilbertKey.py:42-48 | the rows are pairwise distinct |
| GrayCode.PackRow | tools/hilbertKey.py:141-144 | the shift-accumulate loop packs a row most significant element first |
| GrayCode.PackRows | tools/hilbertKey.py:140-146 | every row of a table is packed the same way |
| GrayCode.PackBound | tools/hilbertKey.py:141-144 | a packed row of `N` bits is below `2^N` |
| GrayCode.PackSnoc | tools/hilbertKey.py:143-144 | one step of the loop doubles the number and adds the next bit |
| GrayCode.PackOneHot | tools/hilbertKey.py:141-144 | the row with only position `j` set packs to `2^(N-1-j)` |
| GrayCode.ReverseTable | tools/hilbertKey.py:175-188 | `revArray[pack(row i)] = i` for the last row with that packing, and 0 for values no row packs to |
| GrayCode.WriteRank | tools/hilbertKey.py:181-188 | writing row `i` keeps the reverse-table invariant: every slot holds the index of the last row so far that packs to it, or 0 |
| GrayCode.ReverseStep | tools/hilbertKey.py:187 | one assignment extends the reversed prefix by one row |
| GrayCode.RankOfRow | tools/hilbertKey.py:181-188 | the rank of the packing of Gray row `i` is `i` |
| GrayCode.RowOfRank | tools/hilbertKey.py:181-188 | the Gray row of rank `s` packs to `s` |
| GrayCode.ReverseOfGray | tools/hilbertKey.py:181-188 | on the Gray table the reversed array is exactly the rank function, the inverse permutation of `C` |
| TableGen.CalH1N | tools/hilbertKey.py:53-108 | `calH1_N(i, C, N, H)` is `HStep`, with the four cases of the source: the first row, the first half with one choice, the first half with several options, and the mirrored second half |
| TableGen.FirstOption | tools/hilbertKey.py:79-94 | the options loop skips the axis equal to `C[i] ^ C[i+1]` and keeps the first remaining option, which exists |
| TableGen.OptionsFirst | tools/hilbertKey.py:80-94 | with at least two axes the first option flips axis 0, or axis 1 when axis 0 is the skipped one |
| TableGen.OptionsCount | tools/hilbertKey.py:83-92 | at most one axis is skipped, so `count` is `N` or `N - 1` |
| TableGen.HStepPrefix | tools/hilbertKey.py:110-115 | row `i` reads only the rows filled before it |
| TableGen.CalcH | tools/hilbertKey.py:110-115 | `calcH` fills row `i` with `calH1_N` of the rows before it: the result is `HTable` |
| TableGen.FillRows | tools/hilbertKey.py:112-113 | the loop leaves the array holding `HTable` of all `2^N` rows |
| TableGen.FillRow | tools/hilbertKey.py:113 | one assignment `H[i] = calH1_N(i, C, N, H)` extends the first `i` rows of `HTable` by row `i` and changes nothing before it |
| TableGen.CornerPair | tools/hilbertKey.py:60-66 | a pair whose second row is the first XOR a one-hot row has rows differing in one position |
| TableGen.CornersStep | tools/hilbertKey.py:53-108 | on a code whose consecutive rows differ in one bit, every row pair `calH1_N` builds differs in exactly one position |
| TableGen.HTableCorners | tools/hilbertKey.py:110-115 | every pair of the filled `H` table differs in exactly one position |
| TableGen.GrayOneBitSteps | tools/hilbertKey.py:42-48 | the Gray code is a code with `2^N` rows of `N` bits whose consecutive rows differ in one bit |
| TableGen.CalcG | tools/hilbertKey.py:117-125 | `G[i]` is `((C[0] ^ C[2^N-1]) ^ (H[i][0] ^ H[i][1]), C[0] ^ H[i][0])` for every row |
| TableGen.GeneOfCorners | tools/hilbertKey.py:120-121 | the exchange gene flags axis 0 and one other axis (or neither), and the reverse gene is `H[i][0]` |
| TableGen.GeneShape | tools/hilbertKey.py:117-125 | the same for every gene the generator emits |
| TableGen.ExchangeGeneValue | tools/hilbertKey.py:120 | the packed exchange gene is 0 or `2^(N-1) + 2^(N-1-k)`, two set bits |
| TableGen.ExchangeGenePacked | tools/hilbertKey.py:120 | a packed exchange gene is 0 or has bit `N-1` and one lower bit set |
| TableGen.CalcHilbertGenes | tools/hilbertKey.py:127-132 | `calcHilbertGenes(N)` is `Genes(N)`, the genes of the Gray code's `H` table |
| TableGen.PackPairs | tools/hilbertKey.py:155-168 | the gene table is packed pair by pair, exchange gene first |
| TableGen.GenesBelow | tools/hilbertKey.py:117-125 | every emitted gene is below `2^N`, and the exchange gene is 0 or has bit `N-1` and one lower bit set |
| TableGen.PackedBelow | tools/hilbertKey.py:155-168 | packed gene rows of `N` bits are below `2^N` |
| TableGen.CodesInverse | tools/hilbertKey.py:175-188 | the emitted `C` and `revC` are inverse permutations of `[0, 2^N)` |
| TableGen.TablesWellFormed | tools/hilbertKey.py:215-222 | for every `N < 32` the emitted tables satisfy what the codec requires |
| TableGen.EmitTables | tools/hilbertKey.py:215-222 | the loop body of `main` emits `Tables(N)`: packed `C`, its inverse `revC` and the packed genes |
| TableGen.Generate | tools/hilbertKey.py:203-234 | `main` emits one table set per `N = 1 .. argv`, and the result is a well-formed table family for the codec |
| TableGen.OneAxisTables | tools/hilbertKey.py:215-222 | the one-axis tables are `C1 = {0,1}`, `revC1 = {0,1}` and `H1 = {{0,0},{0,0}}` |
| TableGen.OneAxisCodes | tools/hilbertKey.py:175-188 | for one axis, `C` and `revC` are both `[0, 1]` |
| TableGen.OneAxisGenes | tools/hilbertKey.py:117-125 | for one axis every gene is 0 |
| TableGen.OneAxisCorners | tools/hilbertKey.py:53-104 | for one axis both pairs of `H` are `([0],[1])` |
| OneAxis.OneAxisGenerated | tools/hilbertKey.py:215-222 | the tables the generator emits for one axis are `ONE_AXIS` |
| OneAxis.TransformIdentity | src/hilbertKey.c:108-159 | with all genes 0, the reverse and exchange of an encoder pass leave the point unchanged |
| OneAxis.UndoIdentity | src/hilbertKey.c:245-292 | with all genes 0, the decoder's exchange and reverse leave the output unchanged |
| OneAxis.DigitIsBit | src/hilbertKey.c:74-93 | on one axis the digit of a pass is the bit the pass reads |
| OneAxis.EncodeStateFixed | src/hilbertKey.c:72-170 | no pass moves the one-axis working point |
| OneAxis.EncodeDigitsLow | src/hilbertKey.c:72-170 | after `i` passes the key holds the top `i` of the `m` low bits of the coordinate |
| OneAxis.OneAxisEncode | src/hilbertKey.c:44-178 | the key of a one-axis point is its clamped coordinate modulo `2^m` |
| OneAxis.OneAxisEncodeIntended | src/hilbertKey.c:65-69 | under the intended clamp the key is the coordinate, saturated at `2^m - 1` |
| OneAxis.ClampCollision | src/hilbertKey.c:65-69 | the coordinate `2^m` gets key 0, the key of the origin; the intended clamp gives it `2^m - 1` |
| OneAxis.KeyDigitIsBit | src/hilbertKey.c:234 | on one axis, digit `i` of the key is bit `i` of the key |
| OneAxis.DecodeLow | src/hilbertKey.c:225-307 | after `k` passes the one-axis output is the low `k` bits of the key |
| OneAxis.OneAxisDecode | src/hilbertKey.c:207-312 | decoding a one-axis key gives the key modulo `2^m` |
| OneAxis.OneAxisPointRoundTrip | src/hilbertKey.c:44-312 | decoding the key of a one-axis point below `2^m` gives the point back |
| OneAxis.OneAxisKeyRoundTrip | src/hilbertKey.c:44-312 | encoding the decoded point of a one-axis key below `2^m` gives the key back |
| OneAxis.OneAxisCodec | src/hilbertKey.c:44-312 | through both C entry points on the generated one-axis table family, the key of `x < 2^m` is `x` and decoding it returns `x` |

## Left out

- `getHKeyFromCoord` and `getCoordFromHKey`: `powf` and the double scaling are floating point. The decode wrapper also allocates with `malloc`, and `HKEY_ERR_NOMEM` only comes from that allocation.
- `src/main.c`, the `printf` blocks under `VERBOSE`/`VERBOSE2`, and the Python `print` output: I/O. The Python string building is modelled as the sequences it prints (`Tables`, `PackPairsSpec`). `main`'s argument parsing is the parameter `n` of `TableGen.Generate`.
- The generated header `N10.h` is not part of this model. The codec takes its tables as a parameter, with `WellFormed` as the requirement. The generator model gives the tables `main` would emit.
- The C `assert` calls become preconditions: `key < 2^(dim*m)` for the decoder, and the table requirements that keep axis indices below `dim`.
- HilbertKey.GetHKeyFromIntCoord: requires `m <= 30`, because `1 << m` is an `int` shift that is undefined from `m = 31` on.
- HilbertKey.GetIntCoordFromHKey: requires `1 <= dim <= |tables|`. The C decoder has no `HKEY_ERR_DIM` check and reads past the table family for a larger `dim`.
- HilbertKey.GetIntCoordFromHKey: requires `dim * (m - 1) < 64`. `IBITS(tmpKey, dim*i, dim)` shifts a 64-bit word by `dim*i`, which is undefined at 64 and above. Every `dim` and `m` with `dim*m <= 64` meets it.
- `IBITS` is modelled for `len < 32`. `-1 << len` is an `int` shift, and the codec uses `len = 1` or `len = dim < 32`.
- `memset(tmp, 0, dim)` clears `dim` bytes, not `dim` words. The model leaves this byte-count `memset` out: `HilbertKey.GatherUpperBits` writes every `tmp` entry before reading it, so the cleared value is never observed.
- The encoder's inner loops over the axes, the reversal loop and the exchange are modelled as separate methods (`GatherUpperBits`, `ApplyReverse`, `ApplyExchange`). The decoder's loops are modelled as `PlaceBits`, `ApplyExchange` and `ApplyReverse`.
- Python `numpy.uint8` rows are sequences of 0/1 naturals. Python 2 `/` on the table size is natural-number division.
- GrayCode.ReverseTable: the Python `revArray[tmpNum] = i` raises an `IndexError` when a packed row is out of range. The model requires every packed row to be below the table length instead of modelling the exception.
- A round trip for general `dim` is not proved: it depends on the correctness of the published gene construction. Both round trips are proved for one axis on the generated tables. Two axes are not covered.

## Findings

| source | as written | input that shows it | evidently intended | confidence | as-written member | corrected member |
|---|---|---|---|---|---|---|
| src/hilbertKey.c:65-69 | the clamp tests `tmpPoint[i] > TwoPowerOfM`, so the coordinate `2^m` is kept. Its bit `m` is never read, and it gets the same key as 0 | `m = 1`, point `[2]`: key 0, the key of the origin `[0]` | coordinates of at least `2^m` saturate to `2^m - 1`, the highest cell, as the documented point range `0 < point < 2**m` at src/hilbertKey.h:53 and the comment "highest possible space" at line 64 call for | not executed | OneAxis.ClampCollision | OneAxis.OneAxisEncodeIntended |
