/** `fill` (get-gif-mask.js, lines 196-254): flood fill the background from the
    corners, draw the flags as a black mask, transparent over the background, and
    soften its edge with a radius-2 box blur whose alpha is eased by x^4. */
module GifMask {
  import opened Pixels
  import opened Wrappers
  import opened BoxBlurSpec
  import opened BoxBlur
  import opened BoxBlurProps
  import opened FloodFill
  import opened Rasterise

  /** The fourth power, the easing line 253 passes. */
  function Pow4(v: real): real { v * v * v * v }

  /** The blur options of line 253: no mask, alpha eased by x^4, and the default
      single iteration. */
  function MaskBlurOptions(): BlurOptions { BlurOptions(1, false, Some(Pow4)) }

  /** The fuzz `getMasks` passes to `fill` (line 277). */
  const MaskFuzz := 50.0

  /** What `fill` leaves on the canvas once the flood fill has produced the flags
      `proc`: the rasterised mask, blurred. */
  function MaskOf(proc: seq<Byte>, w: nat, h: nat): (img: seq<Byte>)
    requires |proc| == w * h
    ensures |img| == w * h * 4
  {
    BoxBlurResult(MaskImage(proc, w, h), w, h, 2, MaskBlurOptions())
  }

  /** Lines 196-254: `fill(canvas, fuzz)` on a w*h canvas. The flags it computes
      satisfy the flood fill's contract against the canvas as it was, and the
      canvas ends up holding the blurred mask of those flags. The colour metric
      `deltaE` is a parameter. */
  method Fill(canvas: array<Byte>, w: nat, h: nat, deltaE: (seq<Byte>, seq<Byte>) -> real, fuzz: real)
    returns (proc: seq<Byte>)
    requires w > 0 && h > 0 && canvas.Length == w * h * 4
    modifies canvas
    ensures FillArgs(old(canvas[..]), w, h, deltaE, fuzz).FillSpec(proc)
    ensures canvas[..] == MaskOf(proc, w, h)
  {
    var args := FillArgs(canvas[..], w, h, deltaE, fuzz);
    ghost var pops;
    proc, pops := Flood(args);
    Rasterise.Rasterise(canvas, proc, w, h);
    BoxBlur.BoxBlur(canvas, w, h, 2, MaskBlurOptions());
  }

  /** Line 277: the mask `getMasks` computes for each loaded image. */
  method GetMask(canvas: array<Byte>, w: nat, h: nat, deltaE: (seq<Byte>, seq<Byte>) -> real)
    returns (proc: seq<Byte>)
    requires w > 0 && h > 0 && canvas.Length == w * h * 4
    modifies canvas
    ensures FillArgs(old(canvas[..]), w, h, deltaE, MaskFuzz).FillSpec(proc)
    ensures canvas[..] == MaskOf(proc, w, h)
  {
    proc := Fill(canvas, w, h, deltaE, MaskFuzz);
  }

  /** The blurred mask is one pass of the blur over the rasterised mask. */
  lemma MaskIsOnePass(proc: seq<Byte>, w: nat, h: nat)
    requires |proc| == w * h
    ensures MaskOf(proc, w, h) == BlurPass(MaskImage(proc, w, h), w, h, 2, MaskBlurOptions())
  {
    SinglePass(MaskImage(proc, w, h), w, h, 2, MaskBlurOptions());
  }

  /** The rasterised mask has no colour. */
  lemma MaskImageColourless(proc: seq<Byte>, w: nat, h: nat)
    requires |proc| == w * h
    ensures Colourless(MaskImage(proc, w, h))
  {
    var img := MaskImage(proc, w, h);
    forall c | 0 <= c < |img| / 4
      ensures Black(img, c)
    {
      MaskCell(proc, w, h, c);
      var s := img[4 * c..4 * c + 4];
      assert img[4 * c] == s[0] && img[4 * c + 1] == s[1] && img[4 * c + 2] == s[2];
    }
  }

  /** Every pixel of the final mask is black: only its alpha carries information. */
  lemma MaskColourless(proc: seq<Byte>, w: nat, h: nat)
    requires |proc| == w * h
    ensures Colourless(MaskOf(proc, w, h))
  {
    MaskImageColourless(proc, w, h);
    IterColourless(MaskImage(proc, w, h), w, h, 2, MaskBlurOptions(), 1);
  }

  /** Pixel (0, 0) of the rasterised mask is transparent whenever a colour is at
      distance 0 from itself and `fuzz` is positive. */
  lemma OriginTransparent(args: FillArgs, proc: seq<Byte>)
    requires args.Valid() && args.FillSpec(proc)
    requires args.deltaE(args.RefColor(), args.RefColor()) == 0.0 && args.fuzz > 0.0
    ensures MaskImage(proc, args.w, args.h)[3] == 0
  {
    OriginMarked(args, proc);
    MaskCell(proc, args.w, args.h, 0);
    assert MaskImage(proc, args.w, args.h)[3] == MaskImage(proc, args.w, args.h)[0..4][3];
  }

  /** The four bytes of pixel c of `img` are `rgba`. */
  ghost predicate CellHolds(img: seq<Byte>, c: int, rgba: seq<Byte>)
  {
    0 <= 4 * c && 4 * c + 4 <= |img| && img[4 * c..4 * c + 4] == rgba
  }

  /** With every flag equal to `marked`, the rasterised mask reads everywhere as
      alpha 0 (flags set) or 255 (flags clear), with no colour. */
  lemma MaskUniform(proc: seq<Byte>, w: nat, h: nat, marked: bool)
    requires |proc| == w * h && forall c | 0 <= c < w * h :: (proc[c] != 0) == marked
    ensures Uniform(MaskImage(proc, w, h), Quad(0.0, 0.0, 0.0, if marked then 0.0 else 255.0))
  {
    var img := MaskImage(proc, w, h);
    var q := Quad(0.0, 0.0, 0.0, if marked then 0.0 else 255.0);
    forall c | 0 <= c < |img| / 4
      ensures PixelReads(img, q, c)
    {
      MaskCell(proc, w, h, c);
      var s := img[4 * c..4 * c + 4];
      assert img[4 * c] == s[0] && img[4 * c + 1] == s[1] && img[4 * c + 2] == s[2] && img[4 * c + 3] == s[3];
    }
  }

  /** The eased alpha at radius 2 of sums whose average alpha over the divisor 16
      is 255 * v. */
  lemma EasedAlpha(sum: Quad, v: real)
    requires sum.a / 16.0 / 255.0 == v
    ensures RawAlpha(sum, 2, MaskBlurOptions().easeAlpha) == Round(Pow4(v) * 255.0)
  {
    assert Space(2) == 16.0;
  }

  /** Sums with no alpha give eased alpha 0. */
  lemma ClearAlpha(sum: Quad)
    requires sum.a == 0.0
    ensures RawAlpha(sum, 2, MaskBlurOptions().easeAlpha) == 0
  {
    EasedAlpha(sum, 0.0);
    assert Pow4(0.0) == 0.0;
  }

  /** The sums of 25 opaque pixels give an eased alpha of (25/16)^4 * 255, well
      above 255. */
  lemma OpaqueAlpha(sum: Quad)
    requires sum.a == 6375.0
    ensures RawAlpha(sum, 2, MaskBlurOptions().easeAlpha) >= 255
  {
    EasedAlpha(sum, 1.5625);
    assert Pow4(1.5625) * 255.0 >= 1500.0;
  }

  /** Sums without colour or alpha are blurred into a transparent black pixel. */
  lemma ClearSumOutput(sum: Quad, alpha: Byte)
    requires sum.a == 0.0 && NoColour(sum)
    ensures Output(sum, 2, MaskBlurOptions(), alpha) == [0, 0, 0, 0]
  {
    ClearAlpha(sum);
    BlackOutput(sum, 2, MaskBlurOptions(), alpha, 0);
  }

  /** Sums without colour whose alpha is that of 25 opaque pixels are blurred into
      an opaque black pixel. */
  lemma OpaqueSumOutput(sum: Quad, alpha: Byte)
    requires sum.a == 6375.0 && NoColour(sum)
    ensures Output(sum, 2, MaskBlurOptions(), alpha) == [0, 0, 0, 255]
  {
    OpaqueAlpha(sum);
    BlackOutput(sum, 2, MaskBlurOptions(), alpha, RawAlpha(sum, 2, MaskBlurOptions().easeAlpha));
  }

  /** The sums of 25 pixels of the rasterised mask where every flag equals
      `marked`. */
  function UniformMaskSum(marked: bool): Quad
  {
    Quad(0.0, 0.0, 0.0, if marked then 0.0 else 255.0).Times(5.0).Times(5.0)
  }

  /** Those sums are blurred into a transparent pixel (flags set) or an opaque one
      (flags clear), black either way. */
  lemma UniformSumOutput(marked: bool, alpha: Byte)
    ensures Output(UniformMaskSum(marked), 2, MaskBlurOptions(), alpha) == [0, 0, 0, if marked then 0 else 255]
  {
    var sum := UniformMaskSum(marked);
    assert sum.a == if marked then 0.0 else 6375.0;
    if marked {
      ClearSumOutput(sum, alpha);
    } else {
      OpaqueSumOutput(sum, alpha);
    }
  }

  /** With every flag equal to `marked`, pixel c of the final mask is what the blur
      writes for those sums. */
  lemma UniformMaskPass(proc: seq<Byte>, w: nat, h: nat, marked: bool, c: int)
    requires |proc| == w * h && forall c | 0 <= c < w * h :: (proc[c] != 0) == marked
    requires 0 <= c < w * h
    ensures 4 * c + 4 <= w * h * 4
    ensures CellHolds(MaskOf(proc, w, h), c, Output(UniformMaskSum(marked), 2, MaskBlurOptions(), MaskImage(proc, w, h)[4 * c + 3]))
  {
    var img := MaskImage(proc, w, h);
    MaskCell(proc, w, h, c);
    MaskUniform(proc, w, h, marked);
    UniformPass(img, w, h, 2, MaskBlurOptions(), Quad(0.0, 0.0, 0.0, if marked then 0.0 else 255.0), c);
    MaskIsOnePass(proc, w, h);
  }

  /** Pixel c of the final mask when every flag equals `marked`. */
  lemma UniformMaskCell(proc: seq<Byte>, w: nat, h: nat, marked: bool, c: int)
    requires |proc| == w * h && forall c | 0 <= c < w * h :: (proc[c] != 0) == marked
    requires 0 <= c < w * h
    ensures CellHolds(MaskOf(proc, w, h), c, [0, 0, 0, if marked then 0 else 255])
  {
    UniformMaskPass(proc, w, h, marked, c);
    UniformSumOutput(marked, MaskImage(proc, w, h)[4 * c + 3]);
  }

  /** An image of one colour, under a metric at distance 0 from itself and a positive
      `fuzz`, is background everywhere: its mask is fully transparent. */
  lemma UniformImageClearMask(args: FillArgs, proc: seq<Byte>)
    requires args.Valid() && args.FillSpec(proc)
    requires forall p | args.InBounds(p) :: GetPoint(args.ref, p.x, p.y, args.w, 4) == args.RefColor()
    requires args.deltaE(args.RefColor(), args.RefColor()) == 0.0 && args.fuzz > 0.0
    ensures forall c | 0 <= c < args.w * args.h :: CellHolds(MaskOf(proc, args.w, args.h), c, [0, 0, 0, 0])
  {
    var w, h := args.w, args.h;
    UniformAllMarked(args, proc);
    forall c | 0 <= c < w * h
      ensures proc[c] != 0
    {
      IndexInGrid(c, w, h);
      var p := Point(c % w, c / w);
      assert args.Marked(proc, p);
    }
    forall c | 0 <= c < w * h
      ensures CellHolds(MaskOf(proc, w, h), c, [0, 0, 0, 0])
    {
      UniformMaskCell(proc, w, h, true, c);
    }
  }

  /** With a metric that is never negative and `fuzz <= 0` nothing is background:
      the mask is opaque black everywhere. */
  lemma NoBackgroundOpaqueMask(args: FillArgs, proc: seq<Byte>)
    requires args.Valid() && args.FillSpec(proc) && args.fuzz <= 0.0
    requires forall a, b :: args.deltaE(a, b) >= 0.0
    ensures forall c | 0 <= c < args.w * args.h :: CellHolds(MaskOf(proc, args.w, args.h), c, [0, 0, 0, 255])
  {
    var w, h := args.w, args.h;
    NothingMarkedWithoutFuzz(args, proc);
    forall c | 0 <= c < w * h
      ensures proc[c] == 0
    {
      IndexInGrid(c, w, h);
      var p := Point(c % w, c / w);
      assert !args.Marked(proc, p);
    }
    forall c | 0 <= c < w * h
      ensures CellHolds(MaskOf(proc, w, h), c, [0, 0, 0, 255])
    {
      UniformMaskCell(proc, w, h, false, c);
    }
  }
}
