/** The order in which `boxblur`'s vertical pass and `fill`'s rasteriser visit the
    cells of a w*h RGBA buffer: column by column, top to bottom within a column. */
module Sweep {
  import opened Pixels

  /** Cell c lies in a column before x, or in column x above row y. */
  ghost predicate DoneCell(c: int, w: nat, x: int, y: int)
    requires w > 0
  {
    c % w < x || (c % w == x && c / w < y)
  }

  /** A buffer part way through a sweep from `cur` to `out`: the bytes of the cells
      done so far hold `out`, the others still hold `cur`. */
  ghost function Partial(cur: seq<Byte>, out: seq<Byte>, w: nat, x: int, y: int): (p: seq<Byte>)
    requires |out| == |cur| && w > 0
    ensures |p| == |cur|
  {
    seq(|cur|, k requires 0 <= k < |cur| => if DoneCell(k / 4, w, x, y) then out[k] else cur[k])
  }

  /** The buffer `p` is the one the sweep holds when it reaches cell (x, y). */
  ghost predicate AtCell(p: seq<Byte>, cur: seq<Byte>, out: seq<Byte>, w: nat, x: int, y: int)
  {
    |out| == |cur| && w > 0 && p == Partial(cur, out, w, x, y)
  }

  lemma PartialStart(cur: seq<Byte>, out: seq<Byte>, w: nat)
    requires |out| == |cur| && w > 0
    ensures Partial(cur, out, w, 0, 0) == cur
  {
  }

  /** Byte k lies in cell c exactly when k / 4 == c. */
  lemma CellBytes(k: int, c: int)
    requires 0 <= c
    ensures k / 4 == c <==> 4 * c <= k < 4 * c + 4
  {
  }

  /** Writing cell c = y*w + x with its `out` bytes moves the sweep one row down. */
  lemma PartialStep(cur: seq<Byte>, out: seq<Byte>, w: nat, h: nat, x: int, y: int, c: int)
    requires |cur| == w * h * 4 && |out| == |cur| && 0 <= x < w && 0 <= y < h && c == y * w + x
    ensures 0 <= 4 * c && 4 * c + 4 <= |cur|
    ensures Partial(cur, out, w, x, y)[4 * c + 3] == cur[4 * c + 3]
    ensures Written(Partial(cur, out, w, x, y), 4 * c, 4, out[4 * c..4 * c + 4]) == Partial(cur, out, w, x, y + 1)
  {
    CellInBounds(x, y, w, h);
    CellDivMod(x, y, w);
    var before, after := Partial(cur, out, w, x, y), Partial(cur, out, w, x, y + 1);
    CellBytes(4 * c + 3, c);
    forall k | 0 <= k < |cur|
      ensures Written(before, 4 * c, 4, out[4 * c..4 * c + 4])[k] == after[k]
    {
      CellBytes(k, c);
      var d := k / 4;
      IndexInGrid(d, w, h);
      if d % w == x && d / w == y {
        assert d == c;
      }
    }
  }

  /** Finishing column x starts column x + 1. */
  lemma PartialColumn(cur: seq<Byte>, out: seq<Byte>, w: nat, h: nat, x: int)
    requires |cur| == w * h * 4 && |out| == |cur| && w > 0 && 0 <= x < w
    ensures Partial(cur, out, w, x, h) == Partial(cur, out, w, x + 1, 0)
  {
    forall k | 0 <= k < |cur|
      ensures Partial(cur, out, w, x, h)[k] == Partial(cur, out, w, x + 1, 0)[k]
    {
      IndexInGrid(k / 4, w, h);
    }
  }

  /** Finishing the last column leaves `out`. */
  lemma PartialEnd(cur: seq<Byte>, out: seq<Byte>, w: nat)
    requires |out| == |cur| && w > 0
    ensures Partial(cur, out, w, w, 0) == out
  {
  }
}
