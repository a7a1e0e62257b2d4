/** The layout of a prepared input region and the taps a mask operator reads
    from it: shared by the integer convolution and the morphology operators. */
module MaskWindow {
  import opened Common

  /** A VipsRegion's layout: the rectangle it holds, its line skip in bytes
      (VIPS_REGION_LSKIP), and the sizes of a pixel and of one band element. */
  datatype Region = Region(valid: Rect, bpl: int, psize: int, esize: int)
  {
    /** VIPS_REGION_ADDR, as a byte offset from the start of the buffer. */
    function Addr(x: int, y: int): int
    {
      (y - valid.top) * bpl + (x - valid.left) * psize
    }

    /** Line skip and pixel size are whole numbers of elements. */
    predicate WellFormed()
    {
      esize > 0 && psize > 0 && psize % esize == 0 && bpl % esize == 0
    }

    function LineElements(): int requires esize > 0 { bpl / esize }
    function Bands(): int requires esize > 0 { psize / esize }
  }

  lemma ShiftedProduct(u: int, c: int, m: int)
    ensures (u + c) * m - c * m == u * m
  {
  }

  /** The byte distance between (x + le, y + to) and (le, to) in a region: it
      depends on the line skip and pixel size only. */
  lemma AddrDifference(ir: Region, x: int, y: int, le: int, to: int)
    ensures ir.Addr(x + le, y + to) - ir.Addr(le, to) == y * ir.bpl + x * ir.psize
  {
    ShiftedProduct(y, to - ir.valid.top, ir.bpl);
    ShiftedProduct(x, le - ir.valid.left, ir.psize);
  }

  /** Element index, in the input buffer, of tap `off` for output element x of row yy. */
  function Tap(lineElements: int, yy: int, x: int, off: int): int
  {
    yy * lineElements + x + off
  }

  /** Every tap of every output element of an h by sz block lies in mem. */
  ghost predicate CoversTaps(mem: seq<int>, lineElements: int, h: int, sz: int, offsets: seq<int>)
  {
    forall yy, x, i :: 0 <= yy < h && 0 <= x < sz && 0 <= i < |offsets| ==>
      0 <= Tap(lineElements, yy, x, offsets[i]) < |mem|
  }

  /** The input elements under the mask for output element x of row yy. */
  function Gather(mem: seq<int>, lineElements: int, yy: int, x: int, offsets: seq<int>): (v: seq<int>)
    requires forall i :: 0 <= i < |offsets| ==> 0 <= Tap(lineElements, yy, x, offsets[i]) < |mem|
    ensures |v| == |offsets|
  {
    seq(|offsets|, i requires 0 <= i < |offsets| => mem[Tap(lineElements, yy, x, offsets[i])])
  }

  /** Element offset of mask position j in a buffer with L elements per line
      and B elements per pixel. */
  function MaskOffset(lineElements: int, bands: int, mx: int, j: nat): int
    requires mx >= 1
  {
    (j / mx) * lineElements + (j % mx) * bands
  }

  /** Every mask position of every output element of an h by sz block has its
      tap in mem. */
  ghost predicate CoversMask(mem: seq<int>, lineElements: int, bands: int, mx: int, n: nat, h: int, sz: int)
    requires mx >= 1
  {
    forall yy, x, j :: 0 <= yy < h && 0 <= x < sz && 0 <= j < n ==>
      0 <= Tap(lineElements, yy, x, MaskOffset(lineElements, bands, mx, j)) < |mem|
  }

  /** The input elements under every position of the full mask, in mask order. */
  function Window(mem: seq<int>, lineElements: int, bands: int, mx: int, n: nat, yy: int, x: int): (w: seq<int>)
    requires mx >= 1
    requires forall j :: 0 <= j < n ==> 0 <= Tap(lineElements, yy, x, MaskOffset(lineElements, bands, mx, j)) < |mem|
    ensures |w| == n
  {
    seq(n, j requires 0 <= j < n => mem[Tap(lineElements, yy, x, MaskOffset(lineElements, bands, mx, j))])
  }

  /** The prepared input area (the output rectangle widened by Mx-1 and
      heightened by My-1) holds every tap of every output element. */
  lemma PreparedAreaCoversMask(mem: seq<int>, lineElements: int, bands: int, mx: int, my: int, r: Rect)
    requires mx >= 1 && my >= 1 && bands >= 1 && r.width >= 0 && r.height >= 0
    requires lineElements >= MaskInputArea(r, mx, my).width * bands
    requires |mem| >= MaskInputArea(r, mx, my).height * lineElements
    ensures CoversMask(mem, lineElements, bands, mx, mx * my, r.height, r.width * bands)
  {
    var L, B := lineElements, bands;
    forall yy, x, j | 0 <= yy < r.height && 0 <= x < r.width * B && 0 <= j < mx * my
      ensures 0 <= Tap(L, yy, x, MaskOffset(L, B, mx, j)) < |mem|
    {
      MaskPositionBounds(j, mx, my);
      TapInArea(L, B, r.height, r.width, mx, my, yy, x, j / mx, j % mx);
    }
  }

  /** Position j of an Mx by My mask lies in row j / Mx and column j % Mx. */
  lemma MaskPositionBounds(j: int, mx: int, my: int)
    requires mx >= 1 && 0 <= j < mx * my
    ensures 0 <= j / mx <= my - 1 && 0 <= j % mx <= mx - 1
  {
    var u := j / mx;
    assert u * mx <= j;
    MulMonotone(my, u, mx);
  }

  lemma MulMonotone(a: int, b: int, c: int)
    requires c >= 0
    ensures a <= b ==> a * c <= b * c
  {
    if a <= b { MulLe(a, b, c); }
  }

  lemma MulLe(a: int, b: int, c: int)
    requires a <= b && c >= 0
    ensures a * c <= b * c
  {
    assert b * c - a * c == (b - a) * c;
  }

  lemma TapInArea(L: int, B: int, h: int, w: int, mx: int, my: int, yy: int, x: int, u: int, v: int)
    requires B >= 1 && w >= 0 && L >= (w + mx - 1) * B
    requires 0 <= yy < h && 0 <= x < w * B && 0 <= u <= my - 1 && 0 <= v <= mx - 1
    ensures 0 <= Tap(L, yy, x, u * L + v * B) < (h + my - 1) * L
  {
    assert L >= 0 by { MulLe(0, w + mx - 1, B); }
    MulLe(yy + u, h + my - 2, L);
    MulLe(0, yy + u, L);
    MulLe(0, v, B);
    MulLe(v, mx - 1, B);
    assert x + v * B < (w + mx - 1) * B;
    assert yy * L + u * L == (yy + u) * L;
    assert (h + my - 2) * L + L == (h + my - 1) * L;
  }

}
