/** What one call of `boxblur` (get-gif-mask.js) computes, stated pixel by pixel:
    a box of premultiplied colour sums over (2r+1) x (2r+1) pixels, the edge pixels
    repeated past the border, divided by (2r)^2 and un-premultiplied. */
module BoxBlurSpec {
  import opened Pixels
  import opened Wrappers

  /** The four running sums `rsum`, `gsum`, `bsum`, `asum`, or one entry each of the
      scratch arrays `r`, `g`, `b`, `a`, which always move together. */
  datatype Quad = Quad(r: real, g: real, b: real, a: real)
  {
    function Plus(q: Quad): Quad { Quad(r + q.r, g + q.g, b + q.b, a + q.a) }
    function Minus(q: Quad): Quad { Quad(r - q.r, g - q.g, b - q.b, a - q.a) }
    function Times(k: real): Quad { Quad(r * k, g * k, b * k, a * k) }
  }

  const Zero := Quad(0.0, 0.0, 0.0, 0.0)

  /** An index pulled back into [lo, hi], as the passes do with their window ends. */
  function Clamp(k: int, lo: int, hi: int): (c: int)
    requires lo <= hi
    ensures lo <= c <= hi
    ensures lo <= k <= hi ==> c == k
  {
    if k < lo then lo else if k > hi then hi else k
  }

  /** `getPx`: the colour of the pixel at byte offset i, premultiplied by its
      alpha, and the alpha. */
  function GetPx(px: seq<Byte>, i: int): Quad
    requires 0 <= i && i + 3 < |px|
  {
    var a := px[i + 3] as real;
    Quad(a * px[i] as real / 255.0, a * px[i + 1] as real / 255.0, a * px[i + 2] as real / 255.0, a)
  }

  /** Sum of line[k] for k from lo to hi, each k clamped to the line. */
  function Window(line: seq<Quad>, lo: int, hi: int): Quad
    requires |line| > 0
    decreases hi - lo
  {
    if hi < lo then Zero else Window(line, lo, hi - 1).Plus(line[Clamp(hi, 0, |line| - 1)])
  }

  /** Peeling the first term off a window. */
  lemma {:induction false} WindowLeft(line: seq<Quad>, lo: int, hi: int)
    requires |line| > 0 && lo <= hi
    ensures Window(line, lo, hi) == line[Clamp(lo, 0, |line| - 1)].Plus(Window(line, lo + 1, hi))
    decreases hi - lo
  {
    if lo < hi {
      WindowLeft(line, lo, hi - 1);
    }
  }

  /** Moving a window one step: add the entry that comes in, drop the one that
      leaves. */
  lemma WindowSlide(line: seq<Quad>, lo: int, hi: int)
    requires |line| > 0 && lo <= hi
    ensures Window(line, lo + 1, hi + 1)
         == Window(line, lo, hi).Plus(line[Clamp(hi + 1, 0, |line| - 1)]).Minus(line[Clamp(lo, 0, |line| - 1)])
  {
    WindowLeft(line, lo, hi + 1);
  }

  /** A window that ends before the line begins counts its first entry once per
      index. */
  lemma {:induction false} WindowBeforeStart(line: seq<Quad>, lo: int, hi: int)
    requires |line| > 0 && lo <= hi + 1 && hi <= 0
    ensures Window(line, lo, hi) == line[0].Times((hi - lo + 1) as real)
    decreases hi - lo
  {
    if lo <= hi {
      WindowBeforeStart(line, lo, hi - 1);
      TimesSucc(line[0], (hi - lo) as real);
    }
  }

  lemma TimesSucc(q: Quad, n: real)
    ensures q.Times(n).Plus(q) == q.Times(n + 1.0)
  {
    assert q.r * n + q.r == q.r * (n + 1.0);
    assert q.g * n + q.g == q.g * (n + 1.0);
    assert q.b * n + q.b == q.b * (n + 1.0);
    assert q.a * n + q.a == q.a * (n + 1.0);
  }

  /** Over a line of one value, a window of n indices sums to n times that value. */
  lemma {:induction false} WindowOfConstant(line: seq<Quad>, q: Quad, lo: int, hi: int)
    requires |line| > 0 && lo <= hi + 1
    requires forall k | 0 <= k < |line| :: line[k] == q
    ensures Window(line, lo, hi) == q.Times((hi - lo + 1) as real)
    decreases hi - lo
  {
    if lo <= hi {
      WindowOfConstant(line, q, lo, hi - 1);
      TimesSucc(q, (hi - lo) as real);
    }
  }

  /** The premultiplied pixels of row y. */
  function RowLine(px: seq<Byte>, w: nat, h: nat, y: int): (line: seq<Quad>)
    requires |px| == w * h * 4 && 0 <= y < h
    ensures |line| == w
  {
    seq(w, j requires 0 <= j < w => RowPixel(px, w, h, y, j))
  }

  function RowPixel(px: seq<Byte>, w: nat, h: nat, y: int, j: int): Quad
    requires |px| == w * h * 4 && 0 <= y < h && 0 <= j < w
  {
    CellInBounds(j, y, w, h);
    GetPx(px, 4 * (y * w + j))
  }

  /** The scratch arrays after the horizontal pass: entry y*w + x holds the sums of
      row y over columns x - r .. x + r. */
  function HScratch(px: seq<Byte>, w: nat, h: nat, r: int): (hs: seq<Quad>)
    requires |px| == w * h * 4 && w > 0
    ensures |hs| == w * h
  {
    seq(w * h, i requires 0 <= i < w * h => HEntry(px, w, h, r, i))
  }

  function HEntry(px: seq<Byte>, w: nat, h: nat, r: int, i: int): Quad
    requires |px| == w * h * 4 && w > 0 && 0 <= i < w * h
  {
    IndexInGrid(i, w, h);
    Window(RowLine(px, w, h, i / w), i % w - r, i % w + r)
  }

  /** Column x of a w*h grid of scratch entries. */
  function Column(hs: seq<Quad>, w: nat, h: nat, x: int): (line: seq<Quad>)
    requires |hs| == w * h && 0 <= x < w
    ensures |line| == h
  {
    seq(h, k requires 0 <= k < h => ColumnEntry(hs, w, h, x, k))
  }

  function ColumnEntry(hs: seq<Quad>, w: nat, h: nat, x: int, k: int): Quad
    requires |hs| == w * h && 0 <= x < w && 0 <= k < h
  {
    CellInBounds(x, k, w, h);
    hs[k * w + x]
  }

  /** The four sums the vertical pass holds when it reaches pixel (x, y). */
  function VSum(px: seq<Byte>, w: nat, h: nat, r: int, x: int, y: int): Quad
    requires |px| == w * h * 4 && 0 <= x < w && h > 0
  {
    Window(Column(HScratch(px, w, h, r), w, h, x), y - r, y + r)
  }

  /** `Math.round` */
  function Round(v: real): int { (v + 0.5).Floor }

  /** A store into a Uint8ClampedArray of an integer value. */
  function ClampByte(n: int): Byte { if n < 0 then 0 else if n > 255 then 255 else n }

  /** The square of twice the radius: the divisor of every sum. */
  function Space(r: int): real { ((2 * r) * (2 * r)) as real }

  /** The options of `boxblur` that the blur reads (the region offsets are fixed to
      the whole canvas). */
  datatype BlurOptions = BlurOptions(iterations: int, mask: bool, easeAlpha: Option<real -> real>)

  /** The value of `pa` before the clamped store: the rounded average alpha, eased. */
  function RawAlpha(sum: Quad, r: int, ease: Option<real -> real>): int
    requires r >= 1
  {
    match ease
    case None => Round(sum.a / Space(r))
    case Some(f) => Round(f(sum.a / Space(r) / 255.0) * 255.0)
  }

  /** A colour channel brought back from premultiplied form. */
  function Unpremultiply(v: real, r: int, pa: int): Byte
    requires r >= 1 && pa > 0
  {
    ClampByte(Round(v / Space(r) * (255.0 / pa as real)))
  }

  /** The RGBA bytes the vertical pass writes for pixel c = y*w + x, given the sums
      it holds there and the pixel's alpha before the pass. */
  function Output(sum: Quad, r: int, opts: BlurOptions, alpha: Byte): (out: seq<Byte>)
    requires r >= 1
    ensures |out| == 4
  {
    if !opts.mask || alpha > 0 then
      var pa := RawAlpha(sum, r, opts.easeAlpha);
      if pa > 0 then
        [Unpremultiply(sum.r, r, pa), Unpremultiply(sum.g, r, pa), Unpremultiply(sum.b, r, pa), ClampByte(pa)]
      else
        [0, 0, 0, ClampByte(pa)]
    else
      [0, 0, 0, alpha]
  }

  /** The RGBA bytes of pixel c after one iteration. */
  function OutPixel(px: seq<Byte>, w: nat, h: nat, r: int, opts: BlurOptions, c: int): (out: seq<Byte>)
    requires |px| == w * h * 4 && r >= 1 && 0 <= c < w * h
    ensures |out| == 4
  {
    IndexInGrid(c, w, h);
    Output(VSum(px, w, h, r, c % w, c / w), r, opts, px[4 * c + 3])
  }

  /** One iteration of the `while (iterations > 0)` loop: the horizontal pass, then
      the vertical pass. */
  function BlurPass(px: seq<Byte>, w: nat, h: nat, r: int, opts: BlurOptions): (out: seq<Byte>)
    requires |px| == w * h * 4 && r >= 1
    ensures |out| == |px|
  {
    seq(|px|, k requires 0 <= k < |px| => OutPixel(px, w, h, r, opts, k / 4)[k % 4])
  }

  /** n iterations. */
  function BlurIter(px: seq<Byte>, w: nat, h: nat, r: int, opts: BlurOptions, n: nat): (out: seq<Byte>)
    requires |px| == w * h * 4 && r >= 1
    ensures |out| == |px|
  {
    if n == 0 then px else BlurPass(BlurIter(px, w, h, r, opts, n - 1), w, h, r, opts)
  }

  /** `boxblur(canvas, radius, opts)` on the whole canvas: nothing for a radius below
      1, otherwise `iterations` passes (none when it is not positive). */
  function BoxBlurResult(px: seq<Byte>, w: nat, h: nat, radius: int, opts: BlurOptions): (out: seq<Byte>)
    requires |px| == w * h * 4
    ensures |out| == |px|
    ensures radius < 1 || opts.iterations <= 0 ==> out == px
  {
    if radius < 1 then px else BlurIter(px, w, h, radius, opts, Max(opts.iterations, 0))
  }
}
