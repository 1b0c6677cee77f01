/** Ordered (Bayer) dithering of one frame (`ordered_dither`), the two preset
    threshold matrices, and the batch driver's choice and renaming of frames. */
module Dither {
  import opened Raster
  import opened Names
  import opened Arithmetic

  // ---------------------------------------------------------------------
  // Threshold matrices

  /** A threshold matrix, `bayer[row][column]`. */
  type Matrix = seq<seq<int>>

  /** A non-empty rectangular grid: `bayer.shape == (t_h, t_w)` with both at least 1. */
  predicate IsMatrix(m: Matrix) {
    |m| >= 1 && |m[0]| >= 1 && forall i :: 0 <= i < |m| ==> |m[i]| == |m[0]|
  }

  /** `matrix_size = t_h * t_w` */
  function Size(m: Matrix): (n: nat)
    requires IsMatrix(m)
    ensures n >= |m| && n >= |m[0]|
  {
    |m| * |m[0]|
  }

  /** The entries in row-major order. */
  function Flatten(m: Matrix): seq<int> {
    if m == [] then [] else m[0] + Flatten(m[1..])
  }

  function Range(n: nat): (r: seq<int>)
    ensures |r| == n && forall i :: 0 <= i < n ==> r[i] == i
  {
    seq(n, i => i)
  }

  /** Every cell holds its own rank: the entries are a permutation of `0 .. t_h*t_w - 1`. */
  predicate IsRankMatrix(m: Matrix) {
    IsMatrix(m) && multiset(Flatten(m)) == multiset(Range(Size(m)))
  }

  lemma {:induction false} RangeCount(n: nat, v: int)
    ensures multiset(Range(n))[v] == if 0 <= v < n then 1 else 0
    decreases n
  {
    if n > 0 {
      assert Range(n) == Range(n - 1) + [n - 1];
      RangeCount(n - 1, v);
    }
  }

  /** `n` entries among which every rank `0 .. n-1` occurs are those ranks, each once. */
  lemma AllRanksPresent(s: seq<int>, n: nat)
    requires |s| == n && forall v :: 0 <= v < n ==> v in s
    ensures multiset(s) == multiset(Range(n))
  {
    var R, S := multiset(Range(n)), multiset(s);
    forall v ensures R[v] <= S[v] {
      RangeCount(n, v);
      if 0 <= v < n { assert v in s; assert v in S; }
    }
    assert S == R + (S - R);
    assert |S - R| == 0;
  }

  /** `BAYER_2x2` */
  const Bayer2x2: Matrix := [
    [0, 2],
    [3, 1]
  ]

  /** `BAYER_4x4` */
  const Bayer4x4: Matrix := [
    [ 0,  8,  2, 10],
    [12,  4, 14,  6],
    [ 3, 11,  1,  9],
    [15,  7, 13,  5]
  ]

  lemma PresetsAreRankMatrices()
    ensures IsRankMatrix(Bayer2x2) && Size(Bayer2x2) == 4
    ensures IsRankMatrix(Bayer4x4) && Size(Bayer4x4) == 16
  {
    Bayer2x2IsRankMatrix();
    Bayer4x4IsRankMatrix();
  }

  lemma Bayer2x2IsRankMatrix()
    ensures IsRankMatrix(Bayer2x2) && Size(Bayer2x2) == 4
  {
    assert IsMatrix(Bayer2x2) && Size(Bayer2x2) == 4;
    Bayer2x2Multiset();
  }

  lemma Bayer2x2Multiset()
    ensures multiset(Flatten(Bayer2x2)) == multiset(Range(4))
  {
    var f := Flatten(Bayer2x2);
    assert Flatten(Bayer2x2[1..]) == [3, 1];
    assert f == [0, 2, 3, 1];
    assert f[0] == 0 && f[3] == 1 && f[1] == 2 && f[2] == 3;
    AllRanksPresent(f, 4);
  }

  lemma Bayer4x4IsRankMatrix()
    ensures IsRankMatrix(Bayer4x4) && Size(Bayer4x4) == 16
  {
    Bayer4x4Shape();
    Bayer4x4Multiset();
  }

  lemma Bayer4x4Shape()
    ensures IsMatrix(Bayer4x4) && Size(Bayer4x4) == 16
  {
  }

  lemma Bayer4x4Multiset()
    ensures multiset(Flatten(Bayer4x4)) == multiset(Range(16))
  {
    FlattenBayer4x4();
    Bayer4x4RanksPresent();
    AllRanksPresent(Bayer4x4Flat, 16);
  }

  const Bayer4x4Flat: seq<int> := [0, 8, 2, 10, 12, 4, 14, 6, 3, 11, 1, 9, 15, 7, 13, 5]

  lemma FlattenBayer4x4()
    ensures Flatten(Bayer4x4) == Bayer4x4Flat
  {
    assert Flatten(Bayer4x4[3..]) == [15, 7, 13, 5];
    assert Flatten(Bayer4x4[2..]) == [3, 11, 1, 9, 15, 7, 13, 5];
    assert Flatten(Bayer4x4[1..]) == [12, 4, 14, 6, 3, 11, 1, 9, 15, 7, 13, 5];
  }

  lemma Bayer4x4RanksPresent()
    ensures forall v :: 0 <= v < 16 ==> v in Bayer4x4Flat
  {
    var f := Bayer4x4Flat;
    forall v | 0 <= v < 16 ensures v in f {
      if v == 0 { assert f[0] == v; } else if v == 1 { assert f[10] == v; } else if v == 2 { assert f[2] == v; }
      else if v == 3 { assert f[8] == v; } else if v == 4 { assert f[5] == v; } else if v == 5 { assert f[15] == v; }
      else if v == 6 { assert f[7] == v; } else if v == 7 { assert f[13] == v; } else if v == 8 { assert f[1] == v; }
      else if v == 9 { assert f[11] == v; } else if v == 10 { assert f[3] == v; } else if v == 11 { assert f[9] == v; }
      else if v == 12 { assert f[4] == v; } else if v == 13 { assert f[14] == v; } else if v == 14 { assert f[6] == v; }
      else { assert f[12] == v; }
    }
  }

  // ---------------------------------------------------------------------
  // Classification of one pixel

  /** `bayer[y % t_h, x % t_w]`: the matrix tiled from the origin. In a
      rank matrix every threshold is a rank `0 .. t_h*t_w - 1`. */
  function ThresholdCell(m: Matrix, x: nat, y: nat): (t: int)
    requires IsMatrix(m)
    ensures IsRankMatrix(m) ==> 0 <= t < Size(m)
  {
    var r, c := y % |m|, x % |m[0]|;
    FlattenHas(m, r, c);
    EntryIsRank(m, m[r][c]);
    m[r][c]
  }

  /** Every entry of a matrix occurs in its row-major flattening. */
  lemma {:induction false} FlattenHas(m: Matrix, r: nat, c: nat)
    requires r < |m| && c < |m[r]|
    ensures m[r][c] in Flatten(m)
    decreases r
  {
    if r == 0 {
      assert m[0][c] in m[0];
    } else {
      assert m[1..][r - 1] == m[r];
      FlattenHas(m[1..], r - 1, c);
    }
  }

  /** An entry of a rank matrix is one of its ranks. */
  lemma EntryIsRank(m: Matrix, t: int)
    requires IsMatrix(m) && t in Flatten(m)
    ensures IsRankMatrix(m) ==> 0 <= t < Size(m)
  {
    if IsRankMatrix(m) {
      assert t in multiset(Flatten(m));
      RangeCount(Size(m), t);
    }
  }

  /** `pixel > (threshold + 0.5) / matrix_size * 255`, in exact arithmetic.
      The comparison needs no fractions: it is `2nL > (2t+1)*255`, where the
      left side is even and the right side odd, so no luminance ever ties. */
  predicate AboveThreshold(l: byte, t: int, n: nat): (r: bool)
    requires n >= 1
    ensures r <==> 2 * n * l as int > (2 * t + 1) * 255
  {
    ScaledComparison(l as int, t, n);
    l as real > (t as real + 0.5) / n as real * 255.0
  }

  /** Multiplying the threshold comparison through by `2n`. */
  lemma ScaledComparison(l: int, t: int, n: nat)
    requires n >= 1
    ensures l as real > (t as real + 0.5) / n as real * 255.0 <==> 2 * n * l > (2 * t + 1) * 255
  {
    var q := (t as real + 0.5) / n as real;
    assert q * n as real == t as real + 0.5;
    var lhs := l as real * n as real;
    assert l as real > q * 255.0 <==> lhs > q * 255.0 * n as real by {
      RealScale(l as real, q * 255.0, n as real);
    }
    assert q * 255.0 * n as real == (t as real + 0.5) * 255.0;
    assert (l * n) as real == lhs;
  }

  lemma RealScale(a: real, b: real, k: real)
    requires k > 0.0
    ensures a > b <==> a * k > b * k
  {
  }

  /** The value `ordered_dither` writes into `output[y, x]` for a pixel of
      luminance `l` and alpha `a`: the priority chain alpha, black cutoff,
      white cutoff, tiled matrix. */
  function DitherPixel(m: Matrix, blackCutoff: int, whiteCutoff: int, l: byte, a: byte, x: nat, y: nat): (v: byte)
    requires IsMatrix(m)
    ensures v == 0 || v == 255
    ensures a < 5 ==> v == 0
    ensures a >= 5 && l as int <= blackCutoff ==> v == 0
    ensures a >= 5 && blackCutoff < l as int && whiteCutoff <= l as int ==> v == 255
  {
    if a < 5 then 0
    else if l as int <= blackCutoff then 0
    else if l as int >= whiteCutoff then 255
    else if AboveThreshold(l, ThresholdCell(m, x, y), Size(m)) then 255
    else 0
  }

  /** A visible mid-tone pixel is white exactly when the scaled luminance
      `2nL` passes the scaled threshold `(2t + 1) * 255` of its cell. */
  lemma DitherPixelMidTone(m: Matrix, blackCutoff: int, whiteCutoff: int, l: byte, a: byte, x: nat, y: nat)
    requires IsMatrix(m) && a >= 5 && blackCutoff < l as int < whiteCutoff
    ensures DitherPixel(m, blackCutoff, whiteCutoff, l, a, x, y) == 255 <==>
      2 * Size(m) * l as int > (2 * ThresholdCell(m, x, y) + 1) * 255
  {
  }

  /** The output pixel built from the 1-bit value: `merge("RGBA", (v, v, v, alpha))`. */
  function Shade(v: byte, a: byte): (p: Pixel)
    ensures p.r == p.g == p.b == v && p.a == a
  {
    Pixel(v, v, v, a)
  }

  /** The matrix repeats with no seams: shifting by whole tiles never changes the output. */
  lemma DitherPixelPeriodic(m: Matrix, blackCutoff: int, whiteCutoff: int, l: byte, a: byte, x: nat, y: nat, i: nat, j: nat)
    requires IsMatrix(m)
    ensures DitherPixel(m, blackCutoff, whiteCutoff, l, a, x + i * |m[0]|, y + j * |m|)
         == DitherPixel(m, blackCutoff, whiteCutoff, l, a, x, y)
  {
    ModShift(x, |m[0]|, i);
    ModShift(y, |m|, j);
    assert ThresholdCell(m, x + i * |m[0]|, y + j * |m|) == ThresholdCell(m, x, y);
  }

  /** A brighter pixel never becomes darker output, at a fixed position and alpha. */
  lemma DitherPixelMonotone(m: Matrix, blackCutoff: int, whiteCutoff: int, l1: byte, l2: byte, a: byte, x: nat, y: nat)
    requires IsMatrix(m) && l1 <= l2
    ensures DitherPixel(m, blackCutoff, whiteCutoff, l1, a, x, y) <= DitherPixel(m, blackCutoff, whiteCutoff, l2, a, x, y)
  {
    if a >= 5 && blackCutoff < l1 as int && l2 as int < whiteCutoff {
      DitherPixelMidTone(m, blackCutoff, whiteCutoff, l1, a, x, y);
      DitherPixelMidTone(m, blackCutoff, whiteCutoff, l2, a, x, y);
      MulLe(l1 as int, l2 as int, 2 * Size(m));
    }
  }

  /** Raising the white cutoff can only turn white pixels over to the matrix
      test, so it never adds white. */
  lemma WhiteCutoffAntitone(m: Matrix, blackCutoff: int, w1: int, w2: int, l: byte, a: byte, x: nat, y: nat)
    requires IsMatrix(m) && w1 <= w2
    ensures DitherPixel(m, blackCutoff, w2, l, a, x, y) <= DitherPixel(m, blackCutoff, w1, l, a, x, y)
  {
  }

  // ---------------------------------------------------------------------
  // One tile of constant luminance

  /** Outputs over row `y` of the tile at the origin, columns `0 .. t_w-1`. */
  function RowOutputs(m: Matrix, blackCutoff: int, whiteCutoff: int, l: byte, a: byte, y: nat): (r: seq<byte>)
    requires IsMatrix(m)
    ensures |r| == |m[0]|
  {
    seq(|m[0]|, x requires 0 <= x < |m[0]| => DitherPixel(m, blackCutoff, whiteCutoff, l, a, x, y))
  }

  /** Outputs over rows `y .. t_h-1` of the tile at the origin, row after row. */
  function TileOutputsFrom(m: Matrix, blackCutoff: int, whiteCutoff: int, l: byte, a: byte, y: nat): seq<byte>
    requires IsMatrix(m)
    decreases |m| - y
  {
    if y >= |m| then []
    else RowOutputs(m, blackCutoff, whiteCutoff, l, a, y) + TileOutputsFrom(m, blackCutoff, whiteCutoff, l, a, y + 1)
  }

  /** Outputs over the whole tile at the origin, in row-major order. */
  function TileOutputs(m: Matrix, blackCutoff: int, whiteCutoff: int, l: byte, a: byte): seq<byte>
    requires IsMatrix(m)
  {
    TileOutputsFrom(m, blackCutoff, whiteCutoff, l, a, 0)
  }

  /** The number of white (255) values. */
  function Count255(s: seq<byte>): nat {
    if s == [] then 0 else (if s[0] == 255 then 1 else 0) + Count255(s[1..])
  }

  lemma {:induction false} Count255Append(p: seq<byte>, q: seq<byte>)
    ensures Count255(p + q) == Count255(p) + Count255(q)
    decreases |p|
  {
    if p != [] {
      assert (p + q)[1..] == p[1..] + q;
      Count255Append(p[1..], q);
    } else {
      assert p + q == q;
    }
  }

  /** `#{t in cells : (2t+1) * 255 < k}`; with `k = 2nL` this counts the
      thresholds `t` with `L > (t + 0.5) * 255 / n`. */
  function WhiteCount(cells: seq<int>, k: int): nat {
    if cells == [] then 0
    else (if k > (2 * cells[0] + 1) * 255 then 1 else 0) + WhiteCount(cells[1..], k)
  }

  lemma {:induction false} WhiteCountAppend(p: seq<int>, q: seq<int>, k: int)
    ensures WhiteCount(p + q, k) == WhiteCount(p, k) + WhiteCount(q, k)
    decreases |p|
  {
    if p != [] {
      assert (p + q)[1..] == p[1..] + q;
      WhiteCountAppend(p[1..], q, k);
    } else {
      assert p + q == q;
    }
  }

  /** The count depends only on which thresholds occur, not on where. */
  lemma {:induction false} WhiteCountPermutation(p: seq<int>, q: seq<int>, k: int)
    requires multiset(p) == multiset(q)
    ensures WhiteCount(p, k) == WhiteCount(q, k)
    decreases |p|
  {
    if p != [] {
      var i := IndexOf(q, p[0]);
      var rest := q[..i] + q[i + 1..];
      PermutationTail(p, q, i);
      WhiteCountPermutation(p[1..], rest, k);
      WhiteCountRemove(q, i, k);
      assert WhiteCount([q[i]], k) == (if k > (2 * p[0] + 1) * 255 then 1 else 0);
    }
  }

  /** Removing the first element of `p` and a matching element of its
      permutation `q` leaves two permutations of each other. */
  lemma PermutationTail(p: seq<int>, q: seq<int>, i: nat)
    requires multiset(p) == multiset(q) && p != [] && i < |q| && q[i] == p[0]
    ensures multiset(p[1..]) == multiset(q[..i] + q[i + 1..])
  {
    RemoveAtMultiset(q, i);
    assert p == [p[0]] + p[1..];
    assert multiset(p[1..]) == multiset(p) - multiset{p[0]};
  }

  /** A position at which an element of the multiset occurs. */
  lemma IndexOf(q: seq<int>, v: int) returns (i: nat)
    requires v in multiset(q)
    ensures i < |q| && q[i] == v
  {
    assert v in q;
    i :| i < |q| && q[i] == v;
  }

  /** Dropping entry `i` drops one copy of it from the multiset. */
  lemma RemoveAtMultiset(q: seq<int>, i: nat)
    requires i < |q|
    ensures multiset(q[..i] + q[i + 1..]) == multiset(q) - multiset{q[i]}
  {
    assert q == q[..i] + [q[i]] + q[i + 1..];
  }

  lemma WhiteCountRemove(q: seq<int>, i: nat, k: int)
    requires i < |q|
    ensures WhiteCount(q, k) == WhiteCount([q[i]], k) + WhiteCount(q[..i] + q[i + 1..], k)
  {
    assert q == q[..i] + ([q[i]] + q[i + 1..]);
    WhiteCountAppend(q[..i], [q[i]] + q[i + 1..], k);
    WhiteCountAppend([q[i]], q[i + 1..], k);
    WhiteCountAppend(q[..i], q[i + 1..], k);
  }

  /** Closed form: the thresholds counted in `0 .. count-1` are an initial run. */
  lemma {:induction false} WhiteCountRange(count: nat, k: int)
    requires k >= 0
    ensures WhiteCount(Range(count), k) == Min(count, (k + 254) / 510)
    decreases count
  {
    if count > 0 {
      assert Range(count) == Range(count - 1) + [count - 1];
      WhiteCountAppend(Range(count - 1), [count - 1], k);
      WhiteCountRange(count - 1, k);
    }
  }

  function Min(p: int, q: int): int {
    if p <= q then p else q
  }

  lemma {:induction false} CountMatch(s: seq<byte>, cells: seq<int>, k: int)
    requires |s| == |cells|
    requires forall i :: 0 <= i < |s| ==> (s[i] == 255 <==> k > (2 * cells[i] + 1) * 255)
    ensures Count255(s) == WhiteCount(cells, k)
    decreases |s|
  {
    if s != [] {
      CountMatch(s[1..], cells[1..], k);
    }
  }

  /** Over one tile of a rank matrix at constant mid-tone luminance `L`, the
      number of white pixels is `#{t in 0..n-1 : L > (t + 0.5) * 255 / n}`. */
  lemma TileWhiteCount(m: Matrix, blackCutoff: int, whiteCutoff: int, l: byte, a: byte)
    requires IsRankMatrix(m) && a >= 5 && blackCutoff < l as int < whiteCutoff
    ensures Count255(TileOutputs(m, blackCutoff, whiteCutoff, l, a)) == WhiteCount(Range(Size(m)), 2 * Size(m) * l as int)
  {
    TileRowsCount(m, blackCutoff, whiteCutoff, l, a, 0);
    assert m[0..] == m;
    WhiteCountPermutation(Flatten(m), Range(Size(m)), 2 * Size(m) * l as int);
  }

  /** The same count in closed form: `min(n, (2nL + 254) / 510)` white pixels
      per tile, so the white share of a tile follows the grey level. */
  lemma TileWhiteShare(m: Matrix, blackCutoff: int, whiteCutoff: int, l: byte, a: byte)
    requires IsRankMatrix(m) && a >= 5 && blackCutoff < l as int < whiteCutoff
    ensures Count255(TileOutputs(m, blackCutoff, whiteCutoff, l, a)) == Min(Size(m), (2 * Size(m) * l as int + 254) / 510)
  {
    TileWhiteCount(m, blackCutoff, whiteCutoff, l, a);
    MulLe(0, l as int, 2 * Size(m));
    WhiteCountRange(Size(m), 2 * Size(m) * l as int);
  }

  /** Rows `y ..` of a mid-tone tile hold as many white pixels as their thresholds pass the test. */
  lemma {:induction false} TileRowsCount(m: Matrix, blackCutoff: int, whiteCutoff: int, l: byte, a: byte, y: nat)
    requires IsMatrix(m) && a >= 5 && blackCutoff < l as int < whiteCutoff && y <= |m|
    ensures Count255(TileOutputsFrom(m, blackCutoff, whiteCutoff, l, a, y)) == WhiteCount(Flatten(m[y..]), 2 * Size(m) * l as int)
    decreases |m| - y
  {
    var k := 2 * Size(m) * l as int;
    if y < |m| {
      var row := RowOutputs(m, blackCutoff, whiteCutoff, l, a, y);
      TileRowsCount(m, blackCutoff, whiteCutoff, l, a, y + 1);
      Count255Append(row, TileOutputsFrom(m, blackCutoff, whiteCutoff, l, a, y + 1));
      assert m[y..][1..] == m[y + 1..];
      assert Flatten(m[y..]) == m[y] + Flatten(m[y + 1..]);
      WhiteCountAppend(m[y], Flatten(m[y + 1..]), k);
      forall x | 0 <= x < |row|
        ensures row[x] == 255 <==> k > (2 * m[y][x] + 1) * 255
      {
        CellInTile(m, x, y);
        DitherPixelMidTone(m, blackCutoff, whiteCutoff, l, a, x, y);
      }
      CountMatch(row, m[y], k);
    } else {
      assert m[y..] == [];
    }
  }

  /** Inside the tile at the origin the matrix is read without wrapping. */
  lemma CellInTile(m: Matrix, x: nat, y: nat)
    requires IsMatrix(m) && x < |m[0]| && y < |m|
    ensures ThresholdCell(m, x, y) == m[y][x]
  {
    DivModUnique(x, |m[0]|, 0, x);
    DivModUnique(y, |m|, 0, y);
  }

  /** A mid-grey (L = 128) opaque 4x4 tile with the default cutoffs 10 and 170:
      exactly the cells ranked below 8 are white... */
  lemma MidGrayCells(x: nat, y: nat)
    requires x < 4 && y < 4
    ensures DitherPixel(Bayer4x4, 10, 170, 128, 255, x, y) == 255 <==> Bayer4x4[y][x] < 8
  {
    Bayer4x4Shape();
    CellInTile(Bayer4x4, x, y);
    DitherPixelMidTone(Bayer4x4, 10, 170, 128, 255, x, y);
  }

  /** ...and they are eight of the sixteen. */
  lemma MidGrayCount()
    ensures Count255(TileOutputs(Bayer4x4, 10, 170, 128, 255)) == 8
  {
    Bayer4x4IsRankMatrix();
    TileWhiteShare(Bayer4x4, 10, 170, 128, 255);
  }

  // ---------------------------------------------------------------------
  // ordered_dither

  /** `ordered_dither` on a frame given as its luminance plane (`gray`, the
      image library's "L" conversion) and its alpha plane: a fresh RGBA
      frame of the same size, every pixel the 1-bit value of `DitherPixel`
      in R, G and B and the input alpha unchanged. */
  method OrderedDither(gray: array2<byte>, alpha: array2<byte>, bayer: Matrix, blackCutoff: int, whiteCutoff: int)
    returns (result: array2<Pixel>)
    requires IsMatrix(bayer)
    requires alpha.Length0 == gray.Length0 && alpha.Length1 == gray.Length1
    ensures fresh(result)
    ensures result.Length0 == gray.Length0 && result.Length1 == gray.Length1
    ensures forall y, x :: 0 <= y < result.Length0 && 0 <= x < result.Length1 ==>
      result[y, x] == Shade(DitherPixel(bayer, blackCutoff, whiteCutoff, gray[y, x], alpha[y, x], x, y), alpha[y, x])
    ensures forall y, x :: 0 <= y < result.Length0 && 0 <= x < result.Length1 ==>
      result[y, x].a == alpha[y, x] && result[y, x].r == result[y, x].g == result[y, x].b &&
      (result[y, x].r == 0 || result[y, x].r == 255)
  {
    var h, w := gray.Length0, gray.Length1;
    var th, tw := |bayer|, |bayer[0]|;
    var matrixSize := th * tw;
    var output := new byte[h, w]((y, x) => 0);
    for y := 0 to h
      invariant forall i, j :: 0 <= i < h && 0 <= j < w ==>
        output[i, j] == if i < y then DitherPixel(bayer, blackCutoff, whiteCutoff, gray[i, j], alpha[i, j], j, i) else 0
    {
      for x := 0 to w
        invariant forall i, j :: 0 <= i < h && 0 <= j < w ==>
          output[i, j] == if i < y || (i == y && j < x)
            then DitherPixel(bayer, blackCutoff, whiteCutoff, gray[i, j], alpha[i, j], j, i) else 0
      {
        if alpha[y, x] < 5 {
          continue;
        }
        var pixel := gray[y, x];
        if pixel as int <= blackCutoff {
          continue;
        }
        if pixel as int >= whiteCutoff {
          output[y, x] := 255;
          continue;
        }
        var threshold := bayer[y % th][x % tw];
        var thresholdValue := (threshold as real + 0.5) / matrixSize as real * 255.0;
        output[y, x] := if pixel as real > thresholdValue then 255 else 0;
      }
    }
    result := new Pixel[h, w]((y, x) reads output, alpha requires 0 <= y < h && 0 <= x < w =>
      Shade(output[y, x], alpha[y, x]));
  }

  // ---------------------------------------------------------------------
  // Batch driver: which files are dithered, and under which names

  /** `filename.lower().endswith(".png")`: the last four characters,
      lower-cased, are `.png`. */
  predicate IsPngName(name: string): (b: bool)
    ensures b <==> |name| >= 4 && Lower(name[|name| - 4..]) == ".png"
  {
    LowerSuffix(name, if |name| >= 4 then |name| - 4 else 0);
    EndsWith(Lower(name), ".png")
  }

  /** `filename.replace(".png", "_dithered.png")`: the input itself when it
      holds no lower-case `.png`, and otherwise at least nine characters
      longer. */
  function DitheredName(name: string): (r: string)
    ensures !HasPng(name) ==> r == name
    ensures HasPng(name) ==> |r| >= |name| + 9
  {
    ReplacePng(name, "_dithered.png")
  }

  /** One frame to dither: read `input`, write `output`. */
  datatype Job = Job(input: string, output: string)

  /** The names of the listing that are dithered, in the order they are. */
  function PngNames(listing: seq<string>): (r: seq<string>)
    ensures |r| <= |listing|
  {
    Filter(Sort(listing), IsPngName)
  }

  /** The frames the driver processes are sorted, are exactly the listed
      names with a `.png` extension in any case, and each is kept exactly as often
      as it is listed. */
  lemma PngNamesSpec(listing: seq<string>)
    ensures Sorted(PngNames(listing))
    ensures forall f :: f in PngNames(listing) <==> f in listing && IsPngName(f)
    ensures multiset(PngNames(listing)) == multiset(Filter(listing, IsPngName))
    ensures multiset(PngNames(listing)) <= multiset(listing)
  {
    FilterSorted(Sort(listing), IsPngName);
    FilterMembers(Sort(listing), IsPngName);
    assert forall f :: f in Sort(listing) <==> f in multiset(listing);
    FilterPermutation(Sort(listing), listing, IsPngName);
    FilterMultiset(listing, IsPngName);
  }

  /** The batch driver on `sorted(os.listdir(input))`, with the reading,
      dithering and writing of each frame recorded as a `Job`. */
  method PlanBatch(listing: seq<string>) returns (jobs: seq<Job>)
    ensures |jobs| == |PngNames(listing)|
    ensures forall i :: 0 <= i < |jobs| ==>
      jobs[i] == Job(PngNames(listing)[i], DitheredName(PngNames(listing)[i]))
  {
    jobs := PlanJobs(Sort(listing));
  }

  /** The driver's loop over the names in the order given: names without a
      `.png` extension are skipped, every other name gets its job. */
  method PlanJobs(names: seq<string>) returns (jobs: seq<Job>)
    ensures |jobs| == |Filter(names, IsPngName)|
    ensures forall i :: 0 <= i < |jobs| ==>
      jobs[i] == Job(Filter(names, IsPngName)[i], DitheredName(Filter(names, IsPngName)[i]))
  {
    jobs := [];
    ghost var done: seq<string> := [];
    for k := 0 to |names|
      invariant done == Filter(names[..k], IsPngName)
      invariant |jobs| == |done|
      invariant forall i :: 0 <= i < |jobs| ==> jobs[i] == Job(done[i], DitheredName(done[i]))
    {
      FilterSnoc(names[..k], names[k], IsPngName);
      assert names[..k + 1] == names[..k] + [names[k]];
      var filename := names[k];
      if !IsPngName(filename) {
        continue;
      }
      jobs := jobs + [Job(filename, DitheredName(filename))];
      done := done + [filename];
    }
    assert names[..|names|] == names;
  }

  /** `frame.png` is written as `frame_dithered.png`. */
  lemma DitheredNameOfPng(stem: string)
    requires !HasPng(stem)
    ensures IsPngName(stem + ".png")
    ensures DitheredName(stem + ".png") == stem + "_dithered.png"
  {
    ReplacePngExtension(stem, "_dithered.png");
    LowerEndsWithPng(stem);
  }

  /** An upper-case extension is dithered but keeps its name: the replacement is case-sensitive. */
  lemma UpperCaseExtensionKeepsName()
    ensures IsPngName("X.PNG")
    ensures DitheredName("X.PNG") == "X.PNG"
  {
    assert Lower("X.PNG") == "x.png";
    NoPngWithoutG("X.PNG");
  }
}
