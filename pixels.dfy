/** Flat RGBA / flag buffers and the cell accessors `getPoint` and `setPoint`
    of get-gif-mask.js. */
module Pixels {

  /** One element of a Uint8Array or Uint8ClampedArray. */
  type Byte = b: int | 0 <= b < 256

  function Min(a: int, b: int): int { if a < b then a else b }
  function Max(a: int, b: int): int { if a < b then b else a }

  /** Start of the `size`-element cell of (x, y) in a row-major buffer `width` cells wide. */
  function Offset(x: nat, y: nat, width: nat, size: nat): nat
  {
    y * width * size + x * size
  }

  lemma MulMono(a: int, b: int, c: int)
    requires a <= b && 0 <= c
    ensures a * c <= b * c
  {
    assert (b - a) * c >= 0;
  }

  /** Cell (x, y) of a width-by-height grid has a row-major index inside the grid. */
  lemma CellInBounds(x: int, y: int, w: int, h: int)
    requires 0 <= x < w && 0 <= y < h
    ensures 0 <= y * w + x < w * h
  {
    MulMono(0, y, w);
    MulMono(y + 1, h, w);
  }

  /** The cell below (x, y) is w entries further on. */
  lemma NextRow(x: int, y: int, w: int)
    ensures (y + 1) * w + x == y * w + x + w
  {
  }

  /** Two in-grid cells with the same row-major index are the same cell. */
  lemma CellInjective(x1: int, y1: int, x2: int, y2: int, w: int)
    requires 0 <= x1 < w && 0 <= x2 < w && 0 <= y1 && 0 <= y2
    requires y1 * w + x1 == y2 * w + x2
    ensures x1 == x2 && y1 == y2
  {
    if y1 < y2 {
      MulMono(y1 + 1, y2, w);
    } else if y2 < y1 {
      MulMono(y2 + 1, y1, w);
    }
  }

  /** Row and column of a row-major index. */
  lemma CellDivMod(x: int, y: int, w: int)
    requires 0 <= x < w && 0 <= y
    ensures (y * w + x) / w == y && (y * w + x) % w == x
  {
    var c := y * w + x;
    var q, r := c / w, c % w;
    assert c == q * w + r;
    CellInjective(x, y, r, q, w);
  }

  /** A row-major index inside a width-by-height grid names an in-grid cell. */
  lemma IndexInGrid(i: int, w: int, h: int)
    requires 0 <= i < w * h && w > 0
    ensures 0 <= i / w < h && 0 <= i % w < w && (i / w) * w + i % w == i
  {
    if i / w >= h {
      MulMono(h, i / w, w);
    }
  }

  /** `getPoint`: `Array.prototype.slice` of `size` elements from the cell's offset;
      `slice` stops at the end of the buffer instead of failing, so a cell is cut
      short only where the buffer ends. */
  function GetPoint(data: seq<Byte>, x: nat, y: nat, width: nat, size: nat): (cell: seq<Byte>)
    ensures |cell| <= size
    ensures Offset(x, y, width, size) + size <= |data| ==> |cell| == size
    ensures |cell| < size ==> Offset(x, y, width, size) + |cell| >= |data|
    ensures forall j :: 0 <= j < |cell| ==>
      Offset(x, y, width, size) + j < |data| && cell[j] == data[Offset(x, y, width, size) + j]
  {
    var i := Offset(x, y, width, size);
    data[Min(i, |data|)..Min(i + size, |data|)]
  }

  /** The buffer after the first `count` elements of a cell starting at `start` have been
      written from `rgba`. A typed array ignores a write past its end and stores a missing
      source element (`undefined`) as 0. */
  function Written(data: seq<Byte>, start: nat, count: nat, rgba: seq<Byte>): (r: seq<Byte>)
    ensures |r| == |data|
  {
    seq(|data|, k requires 0 <= k < |data| =>
      if start <= k < start + count then (if k - start < |rgba| then rgba[k - start] else 0)
      else data[k])
  }

  /** `setPoint`: copies `rgba` into the `size` elements of cell (x, y). */
  method SetPoint(data: array<Byte>, x: nat, y: nat, width: nat, size: nat, rgba: seq<Byte>)
    modifies data
    ensures data[..] == Written(old(data[..]), Offset(x, y, width, size), size, rgba)
  {
    var i := Offset(x, y, width, size);
    for j := 0 to size
      invariant data[..] == Written(old(data[..]), i, j, rgba)
    {
      if i + j < data.Length {
        data[i + j] := if j < |rgba| then rgba[j] else 0;
      }
    }
  }

  /** Reading a cell back after writing it in full gives what was written. */
  lemma GetAfterSet(data: seq<Byte>, x: nat, y: nat, width: nat, size: nat, rgba: seq<Byte>)
    requires Offset(x, y, width, size) + size <= |data| && |rgba| == size
    ensures GetPoint(Written(data, Offset(x, y, width, size), size, rgba), x, y, width, size) == rgba
  {
  }

  /** Writing a cell changes the `size` elements from its offset that lie inside the
      buffer, and nothing else. */
  lemma SetTouchesOnlyCell(data: seq<Byte>, x: nat, y: nat, width: nat, size: nat, rgba: seq<Byte>, k: int)
    requires 0 <= k < |data|
    ensures var i := Offset(x, y, width, size);
      var after := Written(data, i, size, rgba);
      (k < i || i + size <= k ==> after[k] == data[k])
      && (i <= k < i + size && k - i < |rgba| ==> after[k] == rgba[k - i])
  {
  }
}
