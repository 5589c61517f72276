/** The rasteriser of `fill` (get-gif-mask.js, lines 244-248): every pixel of the
    image becomes black, transparent where the flood fill set its flag and opaque
    elsewhere. */
module Rasterise {
  import opened Pixels
  import opened Sweep

  /** The mask the rasteriser writes for the flags `proc` of a w*h image. */
  function MaskImage(proc: seq<Byte>, w: nat, h: nat): (img: seq<Byte>)
    requires |proc| == w * h
    ensures |img| == w * h * 4
  {
    seq(w * h * 4, k requires 0 <= k < w * h * 4 =>
      if k % 4 == 3 && proc[k / 4] == 0 then 255 else 0)
  }

  /** Pixel c of the mask is black, with alpha 0 exactly when flag c is set and
      255 otherwise. */
  lemma MaskCell(proc: seq<Byte>, w: nat, h: nat, c: int)
    requires |proc| == w * h && 0 <= c < w * h
    ensures 4 * c + 4 <= w * h * 4
    ensures MaskImage(proc, w, h)[4 * c..4 * c + 4] == [0, 0, 0, if proc[c] != 0 then 0 else 255]
  {
    var img := MaskImage(proc, w, h);
    forall k | 4 * c <= k < 4 * c + 4
      ensures img[k] == [0, 0, 0, if proc[c] != 0 then 0 else 255][k - 4 * c]
    {
      assert k / 4 == c && k % 4 == k - 4 * c;
    }
  }

  /** Line 246: pixel (x, y) becomes black, transparent when its flag is set and
      opaque otherwise. */
  method PaintCell(ref: array<Byte>, proc: seq<Byte>, w: nat, h: nat, x: int, y: int,
                   ghost cur: seq<Byte>)
    requires ref.Length == w * h * 4 && |proc| == w * h && |cur| == ref.Length
    requires 0 <= x < w && 0 <= y < h
    requires AtCell(ref[..], cur, MaskImage(proc, w, h), w, x, y)
    modifies ref
    ensures AtCell(ref[..], cur, MaskImage(proc, w, h), w, x, y + 1)
  {
    var c := y * w + x;
    CellInBounds(x, y, w, h);
    assert Offset(x, y, w, 1) == c;
    var flag := GetPoint(proc, x, y, w, 1)[0];
    SetPoint(ref, x, y, w, 4, [0, 0, 0, if flag != 0 then 0 else 255]);
    assert Offset(x, y, w, 4) == 4 * c;
    MaskCell(proc, w, h, c);
    PartialStep(cur, MaskImage(proc, w, h), w, h, x, y, c);
  }

  /** Lines 245-247: the inner loop, down column x. */
  method PaintColumn(ref: array<Byte>, proc: seq<Byte>, w: nat, h: nat, x: int, ghost cur: seq<Byte>)
    requires ref.Length == w * h * 4 && |proc| == w * h && |cur| == ref.Length && 0 <= x < w
    requires AtCell(ref[..], cur, MaskImage(proc, w, h), w, x, 0)
    modifies ref
    ensures AtCell(ref[..], cur, MaskImage(proc, w, h), w, x, h)
  {
    for y := 0 to h
      invariant AtCell(ref[..], cur, MaskImage(proc, w, h), w, x, y)
    {
      PaintCell(ref, proc, w, h, x, y, cur);
    }
  }

  /** Lines 244-248: every pixel of `ref`, column by column, gets the mask pixel of
      its flag. */
  method Rasterise(ref: array<Byte>, proc: seq<Byte>, w: nat, h: nat)
    requires ref.Length == w * h * 4 && |proc| == w * h
    modifies ref
    ensures ref[..] == MaskImage(proc, w, h)
  {
    ghost var cur := ref[..];
    ghost var out := MaskImage(proc, w, h);
    if w > 0 {
      PartialStart(cur, out, w);
    }
    for x := 0 to w
      invariant w > 0 ==> AtCell(ref[..], cur, out, w, x, 0)
    {
      PaintColumn(ref, proc, w, h, x, cur);
      PartialColumn(cur, out, w, h, x);
    }
    if w > 0 {
      PartialEnd(cur, out, w);
    } else {
      assert |out| == 0;
    }
  }
}
