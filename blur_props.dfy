/** What one blur pass promises about its output, proved from the pixel-by-pixel
    statement in BoxBlurSpec. */
module BoxBlurProps {
  import opened Pixels
  import opened Wrappers
  import opened BoxBlurSpec

  /** A pixel written with alpha 0 has its colour cleared too: both the branch for
      `pa > 0` and the masked branch store 0 in the colour channels otherwise. */
  lemma TransparentIsBlack(sum: Quad, r: int, opts: BlurOptions, alpha: Byte)
    requires r >= 1
    ensures var out := Output(sum, r, opts, alpha);
      out[3] == 0 ==> out[0] == 0 && out[1] == 0 && out[2] == 0
  {
  }

  /** Pixel c is fully transparent in `px`. */
  ghost predicate Transparent(px: seq<Byte>, c: int)
  {
    0 <= 4 * c && 4 * c + 3 < |px| && px[4 * c + 3] == 0
  }

  /** With `mask` set, a pixel that was fully transparent is left fully transparent
      with its colour cleared, whatever its neighbours hold. */
  lemma MaskKeepsTransparent(px: seq<Byte>, w: nat, h: nat, r: int, opts: BlurOptions, c: int)
    requires |px| == w * h * 4 && r >= 1 && 0 <= c < w * h && opts.mask
    requires Transparent(px, c)
    ensures BlurPass(px, w, h, r, opts)[4 * c..4 * c + 4] == [0, 0, 0, 0]
  {
    var out := BlurPass(px, w, h, r, opts);
    forall k | 4 * c <= k < 4 * c + 4
      ensures out[k] == 0
    {
      assert k / 4 == c;
    }
  }

  /** A property of images that one pass preserves holds after any number of
      passes. */
  lemma {:induction false} IterPreserves(P: seq<Byte> -> bool, px: seq<Byte>, w: nat, h: nat, r: int, opts: BlurOptions, n: nat)
    requires |px| == w * h * 4 && r >= 1 && P(px)
    requires forall s | |s| == w * h * 4 && P(s) :: P(BlurPass(s, w, h, r, opts))
    ensures P(BlurIter(px, w, h, r, opts, n))
  {
    if n > 0 {
      IterPreserves(P, px, w, h, r, opts, n - 1);
    }
  }

  /** With `mask` set, every iteration keeps the transparent pixels of the input
      transparent. */
  lemma MaskKeepsTransparentIter(px: seq<Byte>, w: nat, h: nat, r: int, opts: BlurOptions, n: nat, c: int)
    requires |px| == w * h * 4 && r >= 1 && 0 <= c < w * h && opts.mask
    requires Transparent(px, c)
    ensures Transparent(BlurIter(px, w, h, r, opts, n), c)
  {
    forall s | |s| == w * h * 4 && Transparent(s, c)
      ensures Transparent(BlurPass(s, w, h, r, opts), c)
    {
      MaskStep(s, w, h, r, opts, c);
    }
    IterPreserves(s => Transparent(s, c), px, w, h, r, opts, n);
  }

  lemma MaskStep(px: seq<Byte>, w: nat, h: nat, r: int, opts: BlurOptions, c: int)
    requires |px| == w * h * 4 && r >= 1 && 0 <= c < w * h && opts.mask
    requires Transparent(px, c)
    ensures Transparent(BlurPass(px, w, h, r, opts), c)
  {
    MaskKeepsTransparent(px, w, h, r, opts, c);
    assert BlurPass(px, w, h, r, opts)[4 * c + 3] == BlurPass(px, w, h, r, opts)[4 * c..4 * c + 4][3];
  }

  /** Easing the alpha with the identity gives the same pixels as not easing it:
      scaling by 1/255 and back by 255 is exact on the reals. */
  lemma EaseIdentity(sum: Quad, r: int, mask: bool, iterations: int, alpha: Byte)
    requires r >= 1
    ensures Output(sum, r, BlurOptions(iterations, mask, Some(v => v)), alpha)
         == Output(sum, r, BlurOptions(iterations, mask, None), alpha)
  {
    var s := sum.a / Space(r);
    assert s / 255.0 * 255.0 == s;
  }

  /** Pixel c of `px` reads, premultiplied, as q. */
  ghost predicate PixelReads(px: seq<Byte>, q: Quad, c: int)
  {
    0 <= 4 * c && 4 * c + 3 < |px| && GetPx(px, 4 * c) == q
  }

  /** Every pixel of `px` reads, premultiplied, as q. */
  ghost predicate Uniform(px: seq<Byte>, q: Quad)
  {
    forall c | 0 <= c < |px| / 4 :: PixelReads(px, q, c)
  }

  /** Every row of a uniform image is a line of q. */
  lemma UniformRow(px: seq<Byte>, w: nat, h: nat, q: Quad, y: int)
    requires |px| == w * h * 4 && 0 <= y < h && Uniform(px, q)
    ensures forall j | 0 <= j < w :: RowLine(px, w, h, y)[j] == q
  {
    forall j | 0 <= j < w
      ensures RowLine(px, w, h, y)[j] == q
    {
      CellInBounds(j, y, w, h);
      assert PixelReads(px, q, y * w + j);
    }
  }

  /** In a uniform image every scratch entry is the row window of 2r + 1 copies of q. */
  lemma UniformScratch(px: seq<Byte>, w: nat, h: nat, r: int, q: Quad)
    requires |px| == w * h * 4 && w > 0 && r >= 1 && Uniform(px, q)
    ensures forall i | 0 <= i < w * h :: HScratch(px, w, h, r)[i] == q.Times((2 * r + 1) as real)
  {
    forall i | 0 <= i < w * h
      ensures HScratch(px, w, h, r)[i] == q.Times((2 * r + 1) as real)
    {
      IndexInGrid(i, w, h);
      var y := i / w;
      UniformRow(px, w, h, q, y);
      WindowOfConstant(RowLine(px, w, h, y), q, i % w - r, i % w + r);
    }
  }

  /** Cell c of a pass holds what OutPixel says of it. */
  lemma PassCell(px: seq<Byte>, w: nat, h: nat, r: int, opts: BlurOptions, c: int)
    requires |px| == w * h * 4 && r >= 1 && 0 <= c < w * h
    ensures BlurPass(px, w, h, r, opts)[4 * c..4 * c + 4] == OutPixel(px, w, h, r, opts, c)
  {
    var out, o := BlurPass(px, w, h, r, opts), OutPixel(px, w, h, r, opts, c);
    forall k | 4 * c <= k < 4 * c + 4
      ensures out[k] == o[k - 4 * c]
    {
      assert k / 4 == c;
    }
  }

  /** In a uniform image every column of scratch entries is a line of 2r + 1
      copies of q. */
  lemma UniformColumn(px: seq<Byte>, w: nat, h: nat, r: int, q: Quad, x: int)
    requires |px| == w * h * 4 && r >= 1 && 0 <= x < w && h > 0 && Uniform(px, q)
    ensures forall k | 0 <= k < h :: Column(HScratch(px, w, h, r), w, h, x)[k] == q.Times((2 * r + 1) as real)
  {
    var hs := HScratch(px, w, h, r);
    UniformScratch(px, w, h, r, q);
    forall k | 0 <= k < h
      ensures Column(hs, w, h, x)[k] == q.Times((2 * r + 1) as real)
    {
      CellInBounds(x, k, w, h);
    }
  }

  /** In a uniform image the vertical sums are (2r + 1)^2 copies of q everywhere. */
  lemma UniformSum(px: seq<Byte>, w: nat, h: nat, r: int, q: Quad, x: int, y: int)
    requires |px| == w * h * 4 && r >= 1 && 0 <= x < w && 0 <= y < h && Uniform(px, q)
    ensures var n := (2 * r + 1) as real; VSum(px, w, h, r, x, y) == q.Times(n).Times(n)
  {
    var n := (2 * r + 1) as real;
    var col := Column(HScratch(px, w, h, r), w, h, x);
    UniformColumn(px, w, h, r, q, x);
    WindowOfConstant(col, q.Times(n), y - r, y + r);
    assert (y + r - (y - r) + 1) as real == n;
  }

  /** A pass over an image whose pixels all read as q writes every pixel from the
      sum of (2r + 1)^2 copies of q: the window repeats the edge pixels, so the
      border sees the same sums as the interior. */
  lemma UniformPass(px: seq<Byte>, w: nat, h: nat, r: int, opts: BlurOptions, q: Quad, c: int)
    requires |px| == w * h * 4 && r >= 1 && 0 <= c < w * h && Uniform(px, q)
    ensures var n := (2 * r + 1) as real;
      BlurPass(px, w, h, r, opts)[4 * c..4 * c + 4] == Output(q.Times(n).Times(n), r, opts, px[4 * c + 3])
  {
    IndexInGrid(c, w, h);
    UniformSum(px, w, h, r, q, c % w, c / w);
    PassCell(px, w, h, r, opts, c);
  }

  /** (2r + 1)^2 opaque pixels carry at least the alpha the divisor (2r)^2 takes
      away. */
  lemma OpaqueSum(q: Quad, r: int)
    requires r >= 1 && q.a == 255.0
    ensures var n := (2 * r + 1) as real; q.Times(n).Times(n).a >= 255.0 * Space(r)
  {
    var m := (2 * r) as real;
    assert Space(r) == m * m;
    var n := m + 1.0;
    assert n * n == m * m + 2.0 * m + 1.0;
    assert q.Times(n).Times(n).a == 255.0 * (n * n);
  }

  /** Without easing or masking, sums whose alpha reaches 255 times the divisor
      store an opaque pixel. */
  lemma OpaqueOutput(sum: Quad, r: int, opts: BlurOptions, alpha: Byte)
    requires r >= 1 && opts.easeAlpha == None && !opts.mask && sum.a >= 255.0 * Space(r)
    ensures Output(sum, r, opts, alpha)[3] == 255
  {
    assert sum.a / Space(r) >= 255.0;
  }

  /** Without easing or masking, the stored alpha is the rounded average alpha. */
  lemma OutputAlpha(sum: Quad, r: int, opts: BlurOptions, alpha: Byte)
    requires r >= 1 && opts.easeAlpha == None && !opts.mask
    ensures Output(sum, r, opts, alpha)[3] == ClampByte(Round(sum.a / Space(r)))
  {
  }

  /** Without masking, sums without colour are stored as a black pixel whose alpha
      is the raw alpha, clamped to a byte. */
  lemma BlackOutput(sum: Quad, r: int, opts: BlurOptions, alpha: Byte, pa: int)
    requires r >= 1 && !opts.mask && NoColour(sum) && RawAlpha(sum, r, opts.easeAlpha) == pa
    ensures Output(sum, r, opts, alpha) == [0, 0, 0, ClampByte(pa)]
  {
    OutputNoColour(sum, r, opts, alpha);
  }

  /** With `iterations` 1 the blur is a single pass. */
  lemma SinglePass(px: seq<Byte>, w: nat, h: nat, r: int, opts: BlurOptions)
    requires |px| == w * h * 4 && r >= 1 && opts.iterations == 1
    ensures BoxBlurResult(px, w, h, r, opts) == BlurPass(px, w, h, r, opts)
  {
    assert BlurIter(px, w, h, r, opts, 0) == px;
  }

  /** At the radius `fill` uses, 2, and without easing, a uniform image gets back
      its own alpha times 25/16, rounded and clamped: the window holds 25 pixels but
      the divisor is 16, so a semi-transparent image becomes more opaque (alpha 128
      becomes 200). */
  lemma UniformAlpha(px: seq<Byte>, w: nat, h: nat, opts: BlurOptions, q: Quad, c: int)
    requires |px| == w * h * 4 && 0 <= c < w * h && Uniform(px, q)
    requires opts.easeAlpha == None && !opts.mask
    ensures BlurPass(px, w, h, 2, opts)[4 * c + 3] == ClampByte(Round(q.a * 25.0 / 16.0))
    ensures q.a == 128.0 ==> BlurPass(px, w, h, 2, opts)[4 * c + 3] == 200
  {
    UniformPassAlpha(px, w, h, 2, opts, q, c);
    GainAtRadius2(q, opts, px[4 * c + 3]);
  }

  /** The alpha written from 25 copies of q at radius 2, without easing. */
  lemma GainAtRadius2(q: Quad, opts: BlurOptions, alpha: Byte)
    requires opts.easeAlpha == None && !opts.mask
    ensures Output(q.Times(5.0).Times(5.0), 2, opts, alpha)[3] == ClampByte(Round(q.a * 25.0 / 16.0))
    ensures q.a == 128.0 ==> ClampByte(Round(q.a * 25.0 / 16.0)) == 200
  {
    OutputAlpha(q.Times(5.0).Times(5.0), 2, opts, alpha);
    assert Space(2) == 16.0;
  }

  lemma UniformPassAlpha(px: seq<Byte>, w: nat, h: nat, r: int, opts: BlurOptions, q: Quad, c: int)
    requires |px| == w * h * 4 && r >= 1 && 0 <= c < w * h && Uniform(px, q)
    ensures var n := (2 * r + 1) as real;
      BlurPass(px, w, h, r, opts)[4 * c + 3] == Output(q.Times(n).Times(n), r, opts, px[4 * c + 3])[3]
  {
    UniformPass(px, w, h, r, opts, q, c);
    var s := BlurPass(px, w, h, r, opts)[4 * c..4 * c + 4];
    assert BlurPass(px, w, h, r, opts)[4 * c + 3] == s[3];
  }

  /** Without easing, a uniform opaque image stays opaque. */
  lemma UniformOpaque(px: seq<Byte>, w: nat, h: nat, r: int, opts: BlurOptions, q: Quad, c: int)
    requires |px| == w * h * 4 && r >= 1 && 0 <= c < w * h && Uniform(px, q)
    requires opts.easeAlpha == None && !opts.mask && q.a == 255.0
    ensures BlurPass(px, w, h, r, opts)[4 * c + 3] == 255
  {
    var n := (2 * r + 1) as real;
    var sum := q.Times(n).Times(n);
    UniformPass(px, w, h, r, opts, q, c);
    var s := BlurPass(px, w, h, r, opts)[4 * c..4 * c + 4];
    assert BlurPass(px, w, h, r, opts)[4 * c + 3] == s[3];
    OpaqueSum(q, r);
    OpaqueOutput(sum, r, opts, px[4 * c + 3]);
  }

  /** Pixel c of `px` has no colour: its red, green and blue bytes are 0. */
  ghost predicate Black(px: seq<Byte>, c: int)
  {
    0 <= 4 * c && 4 * c + 3 < |px| && px[4 * c] == 0 && px[4 * c + 1] == 0 && px[4 * c + 2] == 0
  }

  /** Every pixel of `px` is black, whatever its alpha. */
  ghost predicate Colourless(px: seq<Byte>)
  {
    forall c | 0 <= c < |px| / 4 :: Black(px, c)
  }

  /** The colour sums of q are all 0. */
  predicate NoColour(q: Quad)
  {
    q.r == 0.0 && q.g == 0.0 && q.b == 0.0
  }

  /** Sums over entries without colour have no colour. */
  lemma {:induction false} WindowNoColour(line: seq<Quad>, lo: int, hi: int)
    requires |line| > 0 && forall j | 0 <= j < |line| :: NoColour(line[j])
    ensures NoColour(Window(line, lo, hi))
    decreases hi - lo
  {
    if lo <= hi {
      WindowNoColour(line, lo, hi - 1);
    }
  }

  /** The rows of a colourless image premultiply to entries without colour. */
  lemma RowNoColour(px: seq<Byte>, w: nat, h: nat, y: int)
    requires |px| == w * h * 4 && 0 <= y < h && Colourless(px)
    ensures forall j | 0 <= j < w :: NoColour(RowLine(px, w, h, y)[j])
  {
    forall j | 0 <= j < w
      ensures NoColour(RowLine(px, w, h, y)[j])
    {
      CellInBounds(j, y, w, h);
      assert Black(px, y * w + j);
    }
  }

  /** The scratch entries of a colourless image have no colour. */
  lemma ScratchNoColour(px: seq<Byte>, w: nat, h: nat, r: int)
    requires |px| == w * h * 4 && w > 0 && Colourless(px)
    ensures forall i | 0 <= i < w * h :: NoColour(HScratch(px, w, h, r)[i])
  {
    forall i | 0 <= i < w * h
      ensures NoColour(HScratch(px, w, h, r)[i])
    {
      IndexInGrid(i, w, h);
      RowNoColour(px, w, h, i / w);
      WindowNoColour(RowLine(px, w, h, i / w), i % w - r, i % w + r);
    }
  }

  /** The vertical sums of a colourless image have no colour. */
  lemma SumNoColour(px: seq<Byte>, w: nat, h: nat, r: int, x: int, y: int)
    requires |px| == w * h * 4 && 0 <= x < w && 0 <= y < h && Colourless(px)
    ensures NoColour(VSum(px, w, h, r, x, y))
  {
    var hs := HScratch(px, w, h, r);
    ScratchNoColour(px, w, h, r);
    var col := Column(hs, w, h, x);
    forall k | 0 <= k < h
      ensures NoColour(col[k])
    {
      CellInBounds(x, k, w, h);
    }
    WindowNoColour(col, y - r, y + r);
  }

  /** Sums without colour are written as a black pixel. */
  lemma OutputNoColour(sum: Quad, r: int, opts: BlurOptions, alpha: Byte)
    requires r >= 1 && NoColour(sum)
    ensures var out := Output(sum, r, opts, alpha); out[0] == 0 && out[1] == 0 && out[2] == 0
  {
  }

  /** A pass over a colourless image leaves it colourless: only alpha is blurred. */
  lemma PassColourless(px: seq<Byte>, w: nat, h: nat, r: int, opts: BlurOptions)
    requires |px| == w * h * 4 && r >= 1 && Colourless(px)
    ensures Colourless(BlurPass(px, w, h, r, opts))
  {
    var out := BlurPass(px, w, h, r, opts);
    forall c | 0 <= c < |out| / 4
      ensures Black(out, c)
    {
      assert c < w * h;
      IndexInGrid(c, w, h);
      SumNoColour(px, w, h, r, c % w, c / w);
      OutputNoColour(VSum(px, w, h, r, c % w, c / w), r, opts, px[4 * c + 3]);
      PassCell(px, w, h, r, opts, c);
      var s := out[4 * c..4 * c + 4];
      assert out[4 * c] == s[0] && out[4 * c + 1] == s[1] && out[4 * c + 2] == s[2];
    }
  }

  /** Any number of passes keeps a colourless image colourless. */
  lemma IterColourless(px: seq<Byte>, w: nat, h: nat, r: int, opts: BlurOptions, n: nat)
    requires |px| == w * h * 4 && r >= 1 && Colourless(px)
    ensures Colourless(BlurIter(px, w, h, r, opts, n))
  {
    forall s | |s| == w * h * 4 && Colourless(s)
      ensures Colourless(BlurPass(s, w, h, r, opts))
    {
      PassColourless(s, w, h, r, opts);
    }
    IterPreserves(s => Colourless(s), px, w, h, r, opts, n);
  }
}
