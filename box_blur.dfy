/** `boxblur` (get-gif-mask.js, lines 1-143) as the in-place algorithm it is: a
    horizontal pass filling the scratch sums, then a vertical pass writing the pixels,
    each keeping one running sum per line and reading the offsets it caches in
    `vmin` and `vmax` on its first line. */
module BoxBlur {
  import opened Pixels
  import opened BoxBlurSpec
  import opened Sweep

  /*** The horizontal pass (lines 42-86). ***/

  /** The offsets `vmin[x]`, `vmax[x]` the horizontal pass caches for columns below n. */
  ghost predicate RowBounds(vmin: array<int>, vmax: array<int>, w: nat, r: int, n: int)
    reads vmin, vmax
  {
    w > 0 &&
    forall x | 0 <= x < n && x < vmin.Length && x < vmax.Length ::
      vmin[x] == Clamp(x + r + 1, 0, w - 1) * 4 && vmax[x] == Clamp(x - r, 0, w - 1) * 4
  }

  /** Pixel j of a row starting at byte yw is `getPx(yw + j*4)`. Named, so that the
      fact is used only where a proof asks for it. */
  ghost predicate PixelIs(line: seq<Quad>, ps: seq<Byte>, yw: int, j: int)
  {
    0 <= j < |line| && 0 <= yw + j * 4 && yw + j * 4 + 3 < |ps| && line[j] == GetPx(ps, yw + j * 4)
  }

  /** Entry start + k of `hs` is the window of `line` around k. */
  ghost predicate WindowIs(hs: seq<Quad>, start: int, line: seq<Quad>, r: int, k: int)
  {
    0 <= start + k < |hs| && |line| > 0 && hs[start + k] == Window(line, k - r, k + r)
  }

  lemma LineAt(ps: seq<Byte>, line: seq<Quad>, w: nat, yw: int, j: int, i: int)
    requires |line| == w && forall j | 0 <= j < w :: PixelIs(line, ps, yw, j)
    requires 0 <= j < w && i == yw + j * 4
    ensures 0 <= i && i + 3 < |ps| && line[j] == GetPx(ps, i)
  {
    assert PixelIs(line, ps, yw, j);
  }

  /** Lines 45-57: the sums at the start of a row, whose first pixel counts r + 1
      times for the positions left of the image. */
  method RowStart(pixels: array<Byte>, w: nat, r: int, yw: int, ghost ps: seq<Byte>, ghost line: seq<Quad>)
    returns (sum: Quad)
    requires r >= 1 && w > 0 && |line| == w
    requires ps == pixels[..] && forall j | 0 <= j < w :: PixelIs(line, ps, yw, j)
    ensures sum == Window(line, -r, r)
  {
    var wm, rad1 := w - 1, r + 1;
    LineAt(ps, line, w, yw, 0, yw);
    var px := GetPx(pixels[..], yw);
    sum := px.Times(rad1 as real);
    WindowBeforeStart(line, -r, 0);
    for i := 1 to r + 1
      invariant sum == Window(line, -r, i - 1)
    {
      var k := if i > wm then wm else i;
      LineAt(ps, line, w, yw, k, yw + k * 4);
      px := GetPx(pixels[..], yw + k * 4);
      sum := sum.Plus(px);
    }
  }

  /** Lines 72-81: slide the running sums of a row from the window lo..hi to
      lo+1..hi+1, reading the pixels at the cached offsets. */
  method RowSlide(pixels: array<Byte>, vmin: array<int>, vmax: array<int>, w: nat, r: int,
                  yw: int, x: int, sum: Quad, ghost ps: seq<Byte>, ghost line: seq<Quad>,
                  ghost lo: int, ghost hi: int)
    returns (sum': Quad)
    requires 0 <= x < w && x < vmin.Length && x < vmax.Length && r >= 1
    requires vmin[x] == Clamp(x + r + 1, 0, w - 1) * 4 && vmax[x] == Clamp(x - r, 0, w - 1) * 4
    requires |line| == w && ps == pixels[..] && forall j | 0 <= j < w :: PixelIs(line, ps, yw, j)
    requires lo == x - r && hi == x + r && sum == Window(line, lo, hi)
    ensures sum' == Window(line, lo + 1, hi + 1)
  {
    var p1 := yw + vmin[x];
    var p2 := yw + vmax[x];
    ghost var c1, c2 := Clamp(hi + 1, 0, |line| - 1), Clamp(lo, 0, |line| - 1);
    assert c1 == Clamp(x + r + 1, 0, w - 1) && c2 == Clamp(x - r, 0, w - 1);
    LineAt(ps, line, w, yw, c1, p1);
    LineAt(ps, line, w, yw, c2, p2);
    var px1 := GetPx(pixels[..], p1);
    var px2 := GetPx(pixels[..], p2);
    WindowSlide(line, lo, hi);
    sum' := sum.Plus(px1).Minus(px2);
  }

  /** Lines 60-83, once: store the sums of column x in scratch entry yi, cache the
      offsets of column x on the first row, and slide the sums to column x + 1. */
  method RowStep(pixels: array<Byte>, sums: array<Quad>, vmin: array<int>, vmax: array<int>,
                 w: nat, r: int, y: int, yw: int, x: int, yi: int, sum: Quad,
                 ghost ps: seq<Byte>, ghost line: seq<Quad>, ghost hs: seq<Quad>, ghost yi0: int) returns (sum': Quad)
    requires vmin.Length >= w && vmax.Length >= w && vmin != vmax
    requires r >= 1 && 0 <= x < w && 0 <= y && 0 <= yi < sums.Length
    requires |line| == w && ps == pixels[..] && forall j | 0 <= j < w :: PixelIs(line, ps, yw, j)
    requires forall k | 0 <= k < w :: WindowIs(hs, yi0, line, r, k)
    requires y == 0 ==> RowBounds(vmin, vmax, w, r, x)
    requires y > 0 ==> RowBounds(vmin, vmax, w, r, w)
    requires yi == yi0 + x && 0 <= yi0 && yi0 + w <= |hs| && sum == hs[yi]
    modifies sums, vmin, vmax
    ensures sums[yi] == sum
    ensures forall i | 0 <= i < sums.Length && i != yi :: sums[i] == old(sums[i])
    ensures y == 0 ==> RowBounds(vmin, vmax, w, r, x + 1)
    ensures y > 0 ==> RowBounds(vmin, vmax, w, r, w)
    ensures x + 1 < w ==> sum' == hs[yi + 1]
  {
    sums[yi] := sum;
    if y == 0 {
      var p := x + r + 1;
      vmin[x] := (if p < w - 1 then p else w - 1) * 4;
      p := x - r;
      vmax[x] := if p > 0 then p * 4 else 0;
    }
    assert WindowIs(hs, yi0, line, r, x);
    sum' := RowSlide(pixels, vmin, vmax, w, r, yw, x, sum, ps, line, x - r, x + r);
    if x + 1 < w {
      assert WindowIs(hs, yi0, line, r, x + 1);
    }
  }

  /** Lines 45-85: the horizontal pass over one row. Scratch entry yi0 + x gets the
      window of the row around column x. */
  method RowPass(pixels: array<Byte>, sums: array<Quad>, vmin: array<int>, vmax: array<int>,
                 w: nat, r: int, y: int, yw: int, yi0: int, ghost ps: seq<Byte>, ghost line: seq<Quad>,
                 ghost hs: seq<Quad>) returns (yi: int)
    requires vmin.Length >= w && vmax.Length >= w && vmin != vmax
    requires r >= 1 && w > 0 && 0 <= y && 0 <= yi0 && yi0 + w <= sums.Length
    requires |line| == w && ps == pixels[..] && forall j | 0 <= j < w :: PixelIs(line, ps, yw, j)
    requires yi0 + w <= |hs| && forall k | 0 <= k < w :: WindowIs(hs, yi0, line, r, k)
    requires y > 0 ==> RowBounds(vmin, vmax, w, r, w)
    modifies sums, vmin, vmax
    ensures yi == yi0 + w
    ensures RowBounds(vmin, vmax, w, r, w)
    ensures forall i | yi0 <= i < yi :: sums[i] == hs[i]
    ensures forall i | 0 <= i < yi0 :: sums[i] == old(sums[i])
    ensures forall i | yi0 + w <= i < sums.Length :: sums[i] == old(sums[i])
  {
    var sum := RowStart(pixels, w, r, yw, ps, line);
    assert WindowIs(hs, yi0, line, r, 0);
    yi := yi0;
    for x := 0 to w
      invariant yi == yi0 + x && pixels[..] == ps
      invariant x < w ==> sum == hs[yi]
      invariant forall i | yi0 <= i < yi :: sums[i] == hs[i]
      invariant forall i | 0 <= i < yi0 :: sums[i] == old(sums[i])
      invariant forall i | yi0 + w <= i < sums.Length :: sums[i] == old(sums[i])
      invariant y == 0 ==> RowBounds(vmin, vmax, w, r, x)
      invariant y > 0 ==> RowBounds(vmin, vmax, w, r, w)
    {
      sum := RowStep(pixels, sums, vmin, vmax, w, r, y, yw, x, yi, sum, ps, line, hs, yi0);
      yi := yi + 1;
    }
  }

  /** What RowPass needs to know of row y: its pixels, read from `ps`, and the
      windows over them, to be stored from scratch entry y*w on. */
  ghost predicate RowReady(ps: seq<Byte>, hs: seq<Quad>, w: nat, h: nat, r: int, y: int)
  {
    |ps| == w * h * 4 && 0 <= y < h && 0 <= y * w && y * w + w <= |hs|
    && (forall j | 0 <= j < w :: PixelIs(RowLine(ps, w, h, y), ps, y * w * 4, j))
    && (forall k | 0 <= k < w :: WindowIs(hs, y * w, RowLine(ps, w, h, y), r, k))
  }

  /** Every row of a w*h image is ready for RowPass against HScratch. */
  lemma ScratchReady(ps: seq<Byte>, w: nat, h: nat, r: int, y: int)
    requires |ps| == w * h * 4 && w > 0 && 0 <= y < h
    ensures RowReady(ps, HScratch(ps, w, h, r), w, h, r, y)
  {
    MulMono(y + 1, h, w);
    MulMono(0, y, w);
    var line := RowLine(ps, w, h, y);
    forall j | 0 <= j < w
      ensures PixelIs(line, ps, y * w * 4, j)
    {
      CellInBounds(j, y, w, h);
    }
    forall k | 0 <= k < w
      ensures WindowIs(HScratch(ps, w, h, r), y * w, line, r, k)
    {
      HEntryAt(ps, w, h, r, k, y);
    }
  }

  /** Scratch entry y*w + x is the window of row y around column x. */
  lemma HEntryAt(px: seq<Byte>, w: nat, h: nat, r: int, x: int, y: int)
    requires |px| == w * h * 4 && 0 <= x < w && 0 <= y < h
    ensures 0 <= y * w + x < w * h
    ensures HEntry(px, w, h, r, y * w + x) == Window(RowLine(px, w, h, y), x - r, x + r)
  {
    CellInBounds(x, y, w, h);
    CellDivMod(x, y, w);
  }

  /** Lines 42-86: the horizontal pass over every row fills the scratch sums with
      `hs`, whose rows are ready. */
  method HorizontalPass(pixels: array<Byte>, sums: array<Quad>, vmin: array<int>, vmax: array<int>,
                        w: nat, h: nat, r: int, ghost hs: seq<Quad>)
    requires pixels.Length == w * h * 4 && sums.Length == w * h && |hs| == w * h
    requires vmin.Length >= w && vmax.Length >= w && vmin != vmax
    requires r >= 1 && w > 0
    requires forall y | 0 <= y < h :: RowReady(pixels[..], hs, w, h, r, y)
    modifies sums, vmin, vmax
    ensures sums[..] == hs
  {
    ghost var ps := pixels[..];
    var yw, yi := 0, 0;
    for y := 0 to h
      invariant yi == y * w && yw == yi * 4 && 0 <= yi <= w * h
      invariant forall i | 0 <= i < yi :: sums[i] == hs[i]
      invariant y > 0 ==> RowBounds(vmin, vmax, w, r, w)
    {
      assert RowReady(ps, hs, w, h, r, y);
      yi := RowPass(pixels, sums, vmin, vmax, w, r, y, yw, yi, ps, RowLine(ps, w, h, y), hs);
      yw := yw + w * 4;
    }
    assert sums[..] == hs;
  }

  /*** The vertical pass (lines 88-139). ***/

  /** The offsets `vmin[y]`, `vmax[y]` the vertical pass caches for rows below n. */
  ghost predicate ColumnBounds(vmin: array<int>, vmax: array<int>, w: nat, h: nat, r: int, n: int)
    reads vmin, vmax
  {
    h > 0 &&
    forall y | 0 <= y < n && y < vmin.Length && y < vmax.Length ::
      vmin[y] == Clamp(y + r + 1, 0, h - 1) * w && vmax[y] == Clamp(y - r, 0, h - 1) * w
  }

  /** Entry j of column x is scratch entry j*w + x. */
  ghost predicate EntryIs(col: seq<Quad>, hs: seq<Quad>, w: nat, x: int, j: int)
  {
    0 <= j < |col| && 0 <= j * w + x < |hs| && col[j] == hs[j * w + x]
  }

  lemma ColumnAt(hs: seq<Quad>, col: seq<Quad>, w: nat, h: nat, x: int, j: int, i: int)
    requires |col| == h && forall j | 0 <= j < h :: EntryIs(col, hs, w, x, j)
    requires 0 <= j < h && i == j * w + x
    ensures 0 <= i < |hs| && col[j] == hs[i]
  {
    assert EntryIs(col, hs, w, x, j);
  }

  /** Lines 89-101: the sums at the top of column x, whose first entry counts r + 1
      times for the positions above the image. */
  method ColumnStart(sums: array<Quad>, w: nat, h: nat, r: int, x: int, ghost hs: seq<Quad>, ghost col: seq<Quad>)
    returns (sum: Quad)
    requires r >= 1 && h > 0 && |col| == h
    requires hs == sums[..] && forall j | 0 <= j < h :: EntryIs(col, hs, w, x, j)
    ensures sum == Window(col, -r, r)
  {
    var hm, rad1 := h - 1, r + 1;
    var yp := x;
    ColumnAt(hs, col, w, h, x, 0, yp);
    sum := sums[yp].Times(rad1 as real);
    WindowBeforeStart(col, -r, 0);
    ghost var k := 0;
    for i := 1 to r + 1
      invariant sum == Window(col, -r, i - 1)
      invariant k == Clamp(i - 1, 0, hm) && yp == k * w + x
    {
      yp := yp + (if i > hm then 0 else w);
      if i <= hm {
        k := k + 1;
      }
      ColumnAt(hs, col, w, h, x, k, yp);
      sum := sum.Plus(sums[yp]);
    }
  }

  /** Lines 128-134: slide the running sums of a column from the window lo..hi to
      lo+1..hi+1, reading the scratch entries at the cached offsets. */
  method ColumnSlide(sums: array<Quad>, vmin: array<int>, vmax: array<int>, w: nat, h: nat, r: int,
                     x: int, y: int, sum: Quad, ghost hs: seq<Quad>, ghost col: seq<Quad>,
                     ghost lo: int, ghost hi: int)
    returns (sum': Quad)
    requires 0 <= y < h && y < vmin.Length && y < vmax.Length && r >= 1
    requires vmin[y] == Clamp(y + r + 1, 0, h - 1) * w && vmax[y] == Clamp(y - r, 0, h - 1) * w
    requires |col| == h && hs == sums[..] && forall j | 0 <= j < h :: EntryIs(col, hs, w, x, j)
    requires lo == y - r && hi == y + r && sum == Window(col, lo, hi)
    ensures sum' == Window(col, lo + 1, hi + 1)
  {
    var p1 := x + vmin[y];
    var p2 := x + vmax[y];
    ghost var c1, c2 := Clamp(hi + 1, 0, |col| - 1), Clamp(lo, 0, |col| - 1);
    assert c1 == Clamp(y + r + 1, 0, h - 1) && c2 == Clamp(y - r, 0, h - 1);
    ColumnAt(hs, col, w, h, x, c1, p1);
    ColumnAt(hs, col, w, h, x, c2, p2);
    WindowSlide(col, lo, hi);
    sum' := sum.Plus(sums[p1]).Minus(sums[p2]);
  }

  /** Lines 105-120: write the four bytes of the pixel at byte offset yi from the
      sums, reading its alpha first. */
  method WritePixel(pixels: array<Byte>, yi: int, r: int, opts: BlurOptions, sum: Quad)
    requires 0 <= yi && yi + 3 < pixels.Length && r >= 1
    modifies pixels
    ensures pixels[..] == Written(old(pixels[..]), yi, 4, Output(sum, r, opts, old(pixels[yi + 3])))
  {
    ghost var before := pixels[..];
    ghost var out := Output(sum, r, opts, pixels[yi + 3]);
    if !opts.mask || pixels[yi + 3] > 0 {
      var pa := RawAlpha(sum, r, opts.easeAlpha);
      pixels[yi + 3] := ClampByte(pa);
      if pa > 0 {
        pixels[yi] := Unpremultiply(sum.r, r, pa);
        pixels[yi + 1] := Unpremultiply(sum.g, r, pa);
        pixels[yi + 2] := Unpremultiply(sum.b, r, pa);
      } else {
        pixels[yi], pixels[yi + 1], pixels[yi + 2] := 0, 0, 0;
      }
    } else {
      pixels[yi], pixels[yi + 1], pixels[yi + 2] := 0, 0, 0;
    }
    assert pixels[yi] == out[0] && pixels[yi + 1] == out[1] && pixels[yi + 2] == out[2] && pixels[yi + 3] == out[3];
    forall k | 0 <= k < pixels.Length
      ensures pixels[k] == Written(before, yi, 4, out)[k]
    {
    }
  }

  /** The running sums of column x of the scratch entries, row by row. */
  ghost function ColumnSums(hs: seq<Quad>, w: nat, h: nat, r: int, x: int): (vs: seq<Quad>)
    requires |hs| == w * h && 0 <= x < w && h > 0
    ensures |vs| == h
  {
    seq(h, y requires 0 <= y < h => Window(Column(hs, w, h, x), y - r, y + r))
  }

  /** The bytes `out` holds for cell y*w + x are what the vertical pass writes there
      from the sums vs[y] and the cell's alpha in `cur`. */
  ghost predicate CellOut(out: seq<Byte>, cur: seq<Byte>, vs: seq<Quad>, r: int, opts: BlurOptions, w: nat, x: int, y: int)
  {
    0 <= y < |vs| && 0 <= y * w + x && 4 * (y * w + x) + 4 <= |out| && |out| == |cur| && r >= 1
    && out[4 * (y * w + x)..4 * (y * w + x) + 4] == Output(vs[y], r, opts, cur[4 * (y * w + x) + 3])
  }

  /** What ColumnPass needs to know of column x: where its scratch entries are, the
      windows over them, and the bytes each of its cells must end with. */
  ghost predicate ColumnReady(cur: seq<Byte>, hs: seq<Quad>, out: seq<Byte>, w: nat, h: nat, r: int,
                              opts: BlurOptions, x: int)
  {
    |cur| == w * h * 4 && |hs| == w * h && |out| == |cur| && 0 <= x < w && h > 0 && r >= 1
    && (forall j | 0 <= j < h :: EntryIs(Column(hs, w, h, x), hs, w, x, j))
    && (forall k | 0 <= k < h :: WindowIs(ColumnSums(hs, w, h, r, x), 0, Column(hs, w, h, x), r, k))
    && (forall y | 0 <= y < h :: CellOut(out, cur, ColumnSums(hs, w, h, r, x), r, opts, w, x, y))
  }

  /** Every column is ready against the scratch entries of `cur` and one blur pass
      of `cur`. */
  lemma BlurReady(cur: seq<Byte>, w: nat, h: nat, r: int, opts: BlurOptions, x: int)
    requires |cur| == w * h * 4 && 0 <= x < w && h > 0 && r >= 1
    ensures ColumnReady(cur, HScratch(cur, w, h, r), BlurPass(cur, w, h, r, opts), w, h, r, opts, x)
  {
    var hs := HScratch(cur, w, h, r);
    forall j | 0 <= j < h
      ensures EntryIs(Column(hs, w, h, x), hs, w, x, j)
    {
      CellInBounds(x, j, w, h);
    }
    forall y | 0 <= y < h
      ensures CellOut(BlurPass(cur, w, h, r, opts), cur, ColumnSums(hs, w, h, r, x), r, opts, w, x, y)
    {
      BlurCell(cur, w, h, r, opts, x, y);
    }
  }

  /** One blur pass gives cell y*w + x the bytes the vertical pass writes there. */
  lemma BlurCell(cur: seq<Byte>, w: nat, h: nat, r: int, opts: BlurOptions, x: int, y: int)
    requires |cur| == w * h * 4 && 0 <= x < w && 0 <= y < h && r >= 1
    ensures CellOut(BlurPass(cur, w, h, r, opts), cur, ColumnSums(HScratch(cur, w, h, r), w, h, r, x), r, opts, w, x, y)
  {
    var out, vs := BlurPass(cur, w, h, r, opts), ColumnSums(HScratch(cur, w, h, r), w, h, r, x);
    var c := y * w + x;
    CellInBounds(x, y, w, h);
    CellDivMod(x, y, w);
    assert vs[y] == VSum(cur, w, h, r, x, y);
    forall k | 4 * c <= k < 4 * c + 4
      ensures out[k] == Output(vs[y], r, opts, cur[4 * c + 3])[k - 4 * c]
    {
      CellBytes(k, c);
    }
  }

  /** Lines 105-136, once: write cell c = y*w + x, cache the offsets of row y in the
      first column, and slide the sums to row y + 1. */
  method ColumnStep(pixels: array<Byte>, sums: array<Quad>, vmin: array<int>, vmax: array<int>,
                    w: nat, h: nat, r: int, opts: BlurOptions, x: int, y: int, yi: int, sum: Quad,
                    ghost cur: seq<Byte>, ghost hs: seq<Quad>, ghost out: seq<Byte>,
                    ghost col: seq<Quad>, ghost vs: seq<Quad>, ghost c: int)
    returns (sum': Quad)
    requires vmin.Length >= h && vmax.Length >= h && vmin != vmax
    requires r >= 1 && 0 <= x < w && 0 <= y < h && c == y * w + x && yi == 4 * c
    requires |cur| == w * h * 4 && AtCell(pixels[..], cur, out, w, x, y)
    requires hs == sums[..] && |col| == h && forall j | 0 <= j < h :: EntryIs(col, hs, w, x, j)
    requires |vs| == h && forall k | 0 <= k < h :: WindowIs(vs, 0, col, r, k)
    requires CellOut(out, cur, vs, r, opts, w, x, y)
    requires x == 0 ==> ColumnBounds(vmin, vmax, w, h, r, y)
    requires x > 0 ==> ColumnBounds(vmin, vmax, w, h, r, h)
    requires sum == vs[y]
    modifies pixels, vmin, vmax
    ensures AtCell(pixels[..], cur, out, w, x, y + 1)
    ensures x == 0 ==> ColumnBounds(vmin, vmax, w, h, r, y + 1)
    ensures x > 0 ==> ColumnBounds(vmin, vmax, w, h, r, h)
    ensures y + 1 < h ==> sum' == vs[y + 1]
  {
    PartialStep(cur, out, w, h, x, y, c);
    WritePixel(pixels, yi, r, opts, sum);
    if x == 0 {
      var p := y + r + 1;
      vmin[y] := (if p < h - 1 then p else h - 1) * w;
      p := y - r;
      vmax[y] := if p > 0 then p * w else 0;
    }
    assert WindowIs(vs, 0, col, r, y);
    sum' := ColumnSlide(sums, vmin, vmax, w, h, r, x, y, sum, hs, col, y - r, y + r);
    if y + 1 < h {
      assert WindowIs(vs, 0, col, r, y + 1);
    }
  }

  /** Lines 89-138: the vertical pass over column x, whose scratch entries are
      `col` and whose running sums are `vs`, writes every cell of the column. */
  method ColumnPass(pixels: array<Byte>, sums: array<Quad>, vmin: array<int>, vmax: array<int>,
                    w: nat, h: nat, r: int, opts: BlurOptions, x: int,
                    ghost cur: seq<Byte>, ghost hs: seq<Quad>, ghost out: seq<Byte>,
                    ghost col: seq<Quad>, ghost vs: seq<Quad>)
    requires vmin.Length >= h && vmax.Length >= h && vmin != vmax
    requires r >= 1 && 0 <= x < w && h > 0 && |cur| == w * h * 4 && |out| == |cur|
    requires hs == sums[..] && |col| == h && forall j | 0 <= j < h :: EntryIs(col, hs, w, x, j)
    requires |vs| == h && forall k | 0 <= k < h :: WindowIs(vs, 0, col, r, k)
    requires forall y | 0 <= y < h :: CellOut(out, cur, vs, r, opts, w, x, y)
    requires AtCell(pixels[..], cur, out, w, x, 0)
    requires x > 0 ==> ColumnBounds(vmin, vmax, w, h, r, h)
    modifies pixels, vmin, vmax
    ensures AtCell(pixels[..], cur, out, w, x, h)
    ensures ColumnBounds(vmin, vmax, w, h, r, h)
  {
    var sum := ColumnStart(sums, w, h, r, x, hs, col);
    assert WindowIs(vs, 0, col, r, 0);
    var yi := x * 4;
    ghost var c := x;
    for y := 0 to h
      invariant c == y * w + x && yi == 4 * c
      invariant AtCell(pixels[..], cur, out, w, x, y)
      invariant y < h ==> sum == vs[y]
      invariant x == 0 ==> ColumnBounds(vmin, vmax, w, h, r, y)
      invariant x > 0 ==> ColumnBounds(vmin, vmax, w, h, r, h)
    {
      assert CellOut(out, cur, vs, r, opts, w, x, y);
      sum := ColumnStep(pixels, sums, vmin, vmax, w, h, r, opts, x, y, yi, sum, cur, hs, out, col, vs, c);
      NextRow(x, y, w);
      yi := yi + w * 4;
      c := c + w;
    }
  }

  /** Lines 88-139: the vertical pass turns `cur` into `out`, column by column. */
  method VerticalPass(pixels: array<Byte>, sums: array<Quad>, vmin: array<int>, vmax: array<int>,
                      w: nat, h: nat, r: int, opts: BlurOptions,
                      ghost cur: seq<Byte>, ghost hs: seq<Quad>, ghost out: seq<Byte>)
    requires vmin.Length >= h && vmax.Length >= h && vmin != vmax && w > 0
    requires |out| == |cur| && forall x | 0 <= x < w :: ColumnReady(cur, hs, out, w, h, r, opts, x)
    requires hs == sums[..] && pixels[..] == cur
    modifies pixels, vmin, vmax
    ensures pixels[..] == out
  {
    PartialStart(cur, out, w);
    for x := 0 to w
      invariant AtCell(pixels[..], cur, out, w, x, 0)
      invariant x > 0 ==> ColumnBounds(vmin, vmax, w, h, r, h)
    {
      assert ColumnReady(cur, hs, out, w, h, r, opts, x);
      ColumnPass(pixels, sums, vmin, vmax, w, h, r, opts, x, cur, hs, out,
                 Column(hs, w, h, x), ColumnSums(hs, w, h, r, x));
      PartialColumn(cur, out, w, h, x);
    }
    PartialEnd(cur, out, w);
  }

  /*** The whole blur. ***/

  /** `boxblur(canvas, radius, opts)` over the whole canvas: nothing for a radius
      below 1; otherwise the scratch sums and offset caches are allocated once and
      each of the `iterations` passes runs the horizontal, then the vertical pass. */
  method BoxBlur(pixels: array<Byte>, w: nat, h: nat, radius: int, opts: BlurOptions)
    requires pixels.Length == w * h * 4
    modifies pixels
    ensures pixels[..] == BoxBlurResult(old(pixels[..]), w, h, radius, opts)
  {
    if radius < 1 {
      return;
    }
    if w == 0 || h == 0 {
      EmptyImage(pixels[..], w, h, radius, opts);
      return;
    }
    var sums := new Quad[w * h](_ => Zero);
    var vmin := new int[Max(w, h)];
    var vmax := new int[Max(w, h)];
    Iterate(pixels, sums, vmin, vmax, w, h, radius, opts);
  }

  /** Lines 40-140: the `while (iterations > 0)` loop, one pass per iteration. */
  method Iterate(pixels: array<Byte>, sums: array<Quad>, vmin: array<int>, vmax: array<int>,
                 w: nat, h: nat, r: int, opts: BlurOptions)
    requires pixels.Length == w * h * 4 && sums.Length == w * h && w > 0 && h > 0 && r >= 1
    requires vmin.Length >= w && vmax.Length >= w && vmin.Length >= h && vmax.Length >= h && vmin != vmax
    modifies pixels, sums, vmin, vmax
    ensures pixels[..] == BlurIter(old(pixels[..]), w, h, r, opts, Max(opts.iterations, 0))
  {
    ghost var px := pixels[..];
    var iterations := opts.iterations;
    ghost var done: nat := 0;
    while iterations > 0
      invariant Iterated(pixels[..], px, w, h, r, opts, done)
      invariant done + Max(iterations, 0) == Max(opts.iterations, 0)
    {
      iterations := iterations - 1;
      NextIteration(pixels, sums, vmin, vmax, w, h, r, opts, px, done);
      done := done + 1;
    }
    assert done == Max(opts.iterations, 0);
  }

  /** One more pass of the loop body takes `n` passes to `n + 1`. */
  method NextIteration(pixels: array<Byte>, sums: array<Quad>, vmin: array<int>, vmax: array<int>,
                       w: nat, h: nat, r: int, opts: BlurOptions, ghost px: seq<Byte>, ghost n: nat)
    requires pixels.Length == w * h * 4 && sums.Length == w * h && w > 0 && h > 0
    requires vmin.Length >= w && vmax.Length >= w && vmin.Length >= h && vmax.Length >= h && vmin != vmax
    requires Iterated(pixels[..], px, w, h, r, opts, n)
    modifies pixels, sums, vmin, vmax
    ensures Iterated(pixels[..], px, w, h, r, opts, n + 1)
  {
    ghost var before := pixels[..];
    BlurOnce(pixels, sums, vmin, vmax, w, h, r, opts);
    BlurIterNext(px, w, h, r, opts, n, before, pixels[..]);
  }

  /** `p` is what `n` passes make of `px`. */
  ghost predicate Iterated(p: seq<Byte>, px: seq<Byte>, w: nat, h: nat, r: int, opts: BlurOptions, n: nat)
  {
    |px| == w * h * 4 && r >= 1 && p == BlurIter(px, w, h, r, opts, n)
  }

  /** An image without pixels has nothing to blur. */
  lemma EmptyImage(px: seq<Byte>, w: nat, h: nat, radius: int, opts: BlurOptions)
    requires |px| == w * h * 4 && (w == 0 || h == 0)
    ensures BoxBlurResult(px, w, h, radius, opts) == px
  {
    assert |px| == 0;
  }

  lemma BlurIterNext(px: seq<Byte>, w: nat, h: nat, r: int, opts: BlurOptions, n: nat, before: seq<Byte>, after: seq<Byte>)
    requires Iterated(before, px, w, h, r, opts, n) && after == BlurPass(before, w, h, r, opts)
    ensures Iterated(after, px, w, h, r, opts, n + 1)
  {
  }

  /** Lines 41-139: one iteration of the `while (iterations > 0)` loop. */
  method BlurOnce(pixels: array<Byte>, sums: array<Quad>, vmin: array<int>, vmax: array<int>,
                  w: nat, h: nat, r: int, opts: BlurOptions)
    requires pixels.Length == w * h * 4 && sums.Length == w * h && w > 0 && h > 0 && r >= 1
    requires vmin.Length >= w && vmax.Length >= w && vmin.Length >= h && vmax.Length >= h && vmin != vmax
    modifies pixels, sums, vmin, vmax
    ensures pixels[..] == BlurPass(old(pixels[..]), w, h, r, opts)
  {
    ghost var cur := pixels[..];
    ghost var hs := HScratch(cur, w, h, r);
    forall y | 0 <= y < h
      ensures RowReady(cur, hs, w, h, r, y)
    {
      ScratchReady(cur, w, h, r, y);
    }
    HorizontalPass(pixels, sums, vmin, vmax, w, h, r, hs);
    ghost var out := BlurPass(cur, w, h, r, opts);
    forall x | 0 <= x < w
      ensures ColumnReady(cur, hs, out, w, h, r, opts, x)
    {
      BlurReady(cur, w, h, r, opts, x);
    }
    VerticalPass(pixels, sums, vmin, vmax, w, h, r, opts, cur, hs, out);
  }
}
