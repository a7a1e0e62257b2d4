/** The integer C path of convolution by an integer mask (`convi`): the
    mask's zero coefficients are squeezed out, each sequence caches a table of
    element offsets for the remaining ones, and every output element is the
    rounded, scaled, offset and clipped weighted sum of the input elements
    under the mask. */
module Convi {
  import opened Common
  import opened MaskWindow

  /** The integer band formats the C path handles. */
  datatype BandFormat = UChar | Char | UShort | Short | UInt | Int

  /** Formats whose results are clipped to the range of the element type. */
  predicate IsClipped(fmt: BandFormat)
  {
    !fmt.UInt? && !fmt.Int?
  }

  function FormatMin(fmt: BandFormat): int
  {
    match fmt
    case UChar => 0
    case Char => -128
    case UShort => 0
    case Short => -32768
    case _ => 0
  }

  function FormatMax(fmt: BandFormat): int
  {
    match fmt
    case UChar => 255
    case Char => 127
    case UShort => 65535
    case Short => 32767
    case _ => 0
  }

  /** CLIP_UCHAR, CLIP_CHAR, CLIP_USHORT, CLIP_SHORT and CLIP_NONE. */
  function ClipFormat(fmt: BandFormat, v: int): (r: int)
    ensures IsClipped(fmt) ==> FormatMin(fmt) <= r <= FormatMax(fmt)
    ensures IsClipped(fmt) && FormatMin(fmt) <= v <= FormatMax(fmt) ==> r == v
    ensures !IsClipped(fmt) ==> r == v
  {
    match fmt
    case UChar => Clip(0, v, 255)
    case Char => Clip(-128, v, 127)
    case UShort => Clip(0, v, 65535)
    case Short => Clip(-32768, v, 32767)
    case UInt => v
    case Int => v
  }

  /** One output element of CONV_INT: `CLIP(((sum + scale / 2) / scale) + offset)`
      with C's truncating division. */
  function OutputElement(fmt: BandFormat, sum: int, scale: int, offset: int): int
    requires scale != 0
  {
    ClipFormat(fmt, CDiv(sum + CDiv(scale, 2), scale) + offset)
  }

  /** For a positive scale and a non-negative rounded sum, the unclipped
      result is the quotient rounded half up. */
  lemma OutputRoundsHalfUp(fmt: BandFormat, sum: int, scale: int, offset: int)
    requires scale > 0 && sum + scale / 2 >= 0
    requires !IsClipped(fmt)
    ensures var q := OutputElement(fmt, sum, scale, offset) - offset;
            q * scale <= sum + scale / 2 < (q + 1) * scale
  {
    var q := OutputElement(fmt, sum, scale, offset) - offset;
    assert q == (sum + scale / 2) / scale;
  }

  /** For a positive scale and a negative rounded sum, the unclipped result
      is the quotient truncated toward zero: the smallest q with
      q * scale at or above the rounded sum, not the largest below it. */
  lemma OutputTruncatesTowardZero(fmt: BandFormat, sum: int, scale: int, offset: int)
    requires scale > 0 && sum + CDiv(scale, 2) < 0
    requires !IsClipped(fmt)
    ensures var q := OutputElement(fmt, sum, scale, offset) - offset;
            (q - 1) * scale < sum + scale / 2 <= q * scale
  {
  }

  /** One input where the truncating quotient and Dafny's Euclidean one
      differ: (-5 + 1) / 3 is -1 in C and -2 in Dafny. */
  lemma TruncationIsNotFloor()
    ensures OutputElement(Int, -5, 3, 0) == -1
    ensures (-5 + 3 / 2) / 3 == -2
  {
    assert CDiv(3, 2) == 1;
    assert CDiv(-4, 3) == -1;
  }

  /** Every clipped result lies in its format's range. */
  lemma OutputInRange(fmt: BandFormat, sum: int, scale: int, offset: int)
    requires scale != 0 && IsClipped(fmt)
    ensures FormatMin(fmt) <= OutputElement(fmt, sum, scale, offset) <= FormatMax(fmt)
  {
  }

  // ---------------------------------------------------------------------
  // Squeezing the mask.

  /** sum over i of t[i] * v[i] */
  function Dot(t: seq<int>, v: seq<int>): int
    requires |t| == |v|
  {
    if |t| == 0 then 0 else Dot(t[..|t| - 1], v[..|v| - 1]) + t[|t| - 1] * v[|v| - 1]
  }

  /** The non-zero coefficients of mask, in order, with their positions. */
  function NonZeros(mask: seq<int>): (r: (seq<int>, seq<nat>))
    ensures |r.0| == |r.1| <= |mask|
  {
    if |mask| == 0 then ([], [])
    else
      var last := |mask| - 1;
      var (c, p) := NonZeros(mask[..last]);
      if mask[last] != 0 then (c + [mask[last]], p + [last]) else (c, p)
  }

  /** The squeezed mask: its non-zero coefficients, or a single zero
      coefficient at position 0 when there are none. */
  function Squeezed(mask: seq<int>): (r: (seq<int>, seq<nat>))
  {
    var (c, p) := NonZeros(mask);
    if |c| == 0 then ([0], [0]) else (c, p)
  }

  lemma {:induction false} NonZerosProperties(mask: seq<int>)
    ensures var (c, p) := NonZeros(mask);
            (forall k :: 0 <= k < |c| ==> p[k] < |mask| && c[k] == mask[p[k]] && c[k] != 0) &&
            (forall k, l :: 0 <= k < l < |p| ==> p[k] < p[l]) &&
            (forall i :: 0 <= i < |mask| && mask[i] != 0 ==> i in p)
  {
    if |mask| > 0 {
      var last := |mask| - 1;
      NonZerosProperties(mask[..last]);
      var (c, p) := NonZeros(mask[..last]);
      assert forall i :: 0 <= i < last ==> mask[..last][i] == mask[i];
    }
  }

  /** The properties the C path relies on after the squeeze. */
  lemma SqueezedProperties(mask: seq<int>)
    requires |mask| >= 1
    ensures var (c, p) := Squeezed(mask);
            |c| == |p| && 1 <= |c| <= |mask| &&
            (forall k :: 0 <= k < |c| ==> p[k] < |mask| && c[k] == mask[p[k]]) &&
            (forall k, l :: 0 <= k < l < |p| ==> p[k] < p[l]) &&
            (forall i :: 0 <= i < |mask| && mask[i] != 0 ==> i in p) &&
            ((exists i :: 0 <= i < |mask| && mask[i] != 0) ==> forall k :: 0 <= k < |c| ==> c[k] != 0) &&
            ((forall i :: 0 <= i < |mask| ==> mask[i] == 0) ==> c == [0] && p == [0])
  {
    NonZerosProperties(mask);
    var (c, p) := NonZeros(mask);
    if |c| > 0 {
      assert c[0] == mask[p[0]] && c[0] != 0;
    }
  }

  /** The elements of tap at the positions p, in order. */
  function Pick(tap: seq<int>, p: seq<nat>): (v: seq<int>)
    requires forall k :: 0 <= k < |p| ==> p[k] < |tap|
    ensures |v| == |p|
    ensures forall k :: 0 <= k < |p| ==> v[k] == tap[p[k]]
  {
    if |p| == 0 then [] else Pick(tap, p[..|p| - 1]) + [tap[p[|p| - 1]]]
  }

  lemma PickPrefix(tap: seq<int>, n: nat, p: seq<nat>)
    requires n <= |tap| && forall k :: 0 <= k < |p| ==> p[k] < n
    ensures Pick(tap[..n], p) == Pick(tap, p)
  {
  }

  lemma DotSnoc(t: seq<int>, v: seq<int>, x: int, y: int)
    requires |t| == |v|
    ensures Dot(t + [x], v + [y]) == Dot(t, v) + x * y
  {
    assert (t + [x])[..|t|] == t && (v + [y])[..|v|] == v;
  }

  lemma PickSnoc(tap: seq<int>, p: seq<nat>, j: nat)
    requires j < |tap| && forall k :: 0 <= k < |p| ==> p[k] < |tap|
    ensures Pick(tap, p + [j]) == Pick(tap, p) + [tap[j]]
  {
    assert (p + [j])[..|p|] == p;
  }

  /** Dropping the zero coefficients does not change any weighted sum: the
      non-zero coefficients against the elements at their positions give the
      full mask's sum. */
  lemma {:induction false} NonZerosPreserveSum(mask: seq<int>, tap: seq<int>)
    requires |tap| == |mask|
    ensures forall k :: 0 <= k < |NonZeros(mask).1| ==> NonZeros(mask).1[k] < |tap|
    ensures Dot(NonZeros(mask).0, Pick(tap, NonZeros(mask).1)) == Dot(mask, tap)
  {
    NonZerosProperties(mask);
    if |mask| > 0 {
      var last := |mask| - 1;
      var m, t := mask[..last], tap[..last];
      NonZerosPreserveSum(m, t);
      assert mask == m + [mask[last]] && tap == t + [tap[last]];
      NonZerosProperties(m);
      NonZerosSnoc(m, t, mask[last], tap[last]);
    }
  }

  /** The inductive step of NonZerosPreserveSum: one more coefficient x
      against one more element y. */
  lemma NonZerosSnoc(m: seq<int>, t: seq<int>, x: int, y: int)
    requires |t| == |m|
    requires forall k :: 0 <= k < |NonZeros(m).1| ==> NonZeros(m).1[k] < |t|
    requires Dot(NonZeros(m).0, Pick(t, NonZeros(m).1)) == Dot(m, t)
    requires forall k :: 0 <= k < |NonZeros(m + [x]).1| ==> NonZeros(m + [x]).1[k] < |t| + 1
    ensures Dot(NonZeros(m + [x]).0, Pick(t + [y], NonZeros(m + [x]).1)) == Dot(m + [x], t + [y])
  {
    var (c0, p0) := NonZeros(m);
    assert (m + [x])[..|m|] == m;
    assert NonZeros(m + [x]) == if x != 0 then (c0 + [x], p0 + [|t|]) else (c0, p0);
    assert (t + [y])[..|t|] == t;
    PickPrefix(t + [y], |t|, p0);
    DotSnoc(m, t, x, y);
    if x != 0 {
      PickSnoc(t + [y], p0, |t|);
      DotSnoc(c0, Pick(t, p0), x, y);
    }
  }

  lemma {:induction false} AllZeroDot(mask: seq<int>, tap: seq<int>)
    requires |tap| == |mask|
    requires |NonZeros(mask).0| == 0
    ensures Dot(mask, tap) == 0
  {
    if |mask| > 0 {
      var last := |mask| - 1;
      assert mask[last] == 0;
      AllZeroDot(mask[..last], tap[..last]);
    }
  }

  /** The same holds of the squeezed mask, all-zero masks included. */
  lemma SqueezePreservesSum(mask: seq<int>, tap: seq<int>)
    requires |tap| == |mask| >= 1
    ensures var (c, p) := Squeezed(mask);
            (forall k :: 0 <= k < |p| ==> p[k] < |tap|) && Dot(c, Pick(tap, p)) == Dot(mask, tap)
  {
    NonZerosPreserveSum(mask, tap);
    var (c, p) := NonZeros(mask);
    if |c| == 0 {
      AllZeroDot(mask, tap);
      assert Dot([0], Pick(tap, [0])) == Dot([], []) + 0 * tap[0];
    }
  }

  /** vips_convi_build, C path: the squeeze loop over the intized mask. */
  method Squeeze(mask: seq<int>) returns (nnz: int, coeff: seq<int>, coeffPos: seq<nat>)
    requires |mask| >= 1
    ensures (coeff, coeffPos) == Squeezed(mask)
    ensures nnz == |coeff| == |coeffPos| && 1 <= nnz <= |mask|
    ensures forall k :: 0 <= k < nnz ==> coeffPos[k] < |mask| && coeff[k] == mask[coeffPos[k]]
    ensures forall k, l :: 0 <= k < l < nnz ==> coeffPos[k] < coeffPos[l]
    ensures forall i :: 0 <= i < |mask| && mask[i] != 0 ==> i in coeffPos
  {
    nnz, coeff, coeffPos := 0, [], [];
    var i := 0;
    while i < |mask|
      invariant 0 <= i <= |mask|
      invariant (coeff, coeffPos) == NonZeros(mask[..i]) && nnz == |coeff|
    {
      assert mask[..i + 1][..i] == mask[..i];
      if mask[i] != 0 {
        coeff := coeff + [mask[i]];
        coeffPos := coeffPos + [i];
        nnz := nnz + 1;
      }
      i := i + 1;
    }
    assert mask[..i] == mask;
    if nnz == 0 {
      coeff, coeffPos := [0], [0];
      nnz := 1;
    }
    SqueezedProperties(mask);
  }

  // ---------------------------------------------------------------------
  // The offset table.

  /** The table entry for mask position z: the element distance between
      (x + le, y + to) and (le, to), with x = z % Mx and y = z / Mx. */
  function ElementOffset(ir: Region, mx: int, z: nat, le: int, to: int): int
    requires mx >= 1 && ir.esize > 0
  {
    CDiv(ir.Addr(z % mx + le, z / mx + to) - ir.Addr(le, to), ir.esize)
  }

  /** The offset depends only on the line skip, never on where the output
      rectangle lies: this is what makes caching the table by line skip sound. */
  lemma ElementOffsetIsPositionFree(ir: Region, mx: int, z: nat, le: int, to: int)
    requires mx >= 1 && ir.WellFormed()
    ensures ElementOffset(ir, mx, z, le, to) == (z / mx) * ir.LineElements() + (z % mx) * ir.Bands()
  {
    var u, v := z / mx, z % mx;
    var a, b := ir.LineElements(), ir.Bands();
    AddrDifference(ir, v, u, le, to);
    var d := ir.Addr(v + le, u + to) - ir.Addr(le, to);
    assert ir.bpl == a * ir.esize && ir.psize == b * ir.esize;
    WholeElements(u, v, a, b, ir.esize);
    assert d == (u * a + v * b) * ir.esize;
    CDivExact(u * a + v * b, ir.esize);
  }

  lemma WholeElements(u: int, v: int, a: int, b: int, e: int)
    ensures u * (a * e) + v * (b * e) == (u * a + v * b) * e
  {
    assert u * (a * e) == (u * a) * e;
    assert v * (b * e) == (v * b) * e;
  }

  lemma CDivExact(w: int, e: int)
    requires e > 0
    ensures CDiv(w * e, e) == w
  {
    var q := CDiv(w * e, e);
    assert w * e - q * e == (w - q) * e;
    MulAwayFromZero(w - q, e);
  }

  /** The per-sequence state of vips_convi_gen that outlives one call. What
      the table is built from is fixed for the sequence: the mask width and
      the squeezed positions (from the operation), and the pixel and element
      sizes of the input image its region reads. */
  class ConviSequence {
    const mx: int
    const coeffPos: seq<nat>
    const psize: int
    const esize: int
    var offsets: array<int>
    var lastBpl: int

    /** Once a table has been built (lastBpl is no longer -1), it holds the
        offsets for line skip lastBpl. */
    ghost predicate Valid()
      reads this, offsets
    {
      mx >= 1 && esize > 0 && psize > 0 && psize % esize == 0 && offsets.Length == |coeffPos| &&
      (lastBpl != -1 ==>
         lastBpl % esize == 0 &&
         forall k :: 0 <= k < |coeffPos| ==>
           offsets[k] == (coeffPos[k] / mx) * (lastBpl / esize) + (coeffPos[k] % mx) * (psize / esize))
    }

    /** vips_convi_start: an nnz-entry table, built for no line skip yet. */
    constructor (mx: int, coeffPos: seq<nat>, psize: int, esize: int)
      requires mx >= 1 && esize > 0 && psize > 0 && psize % esize == 0
      ensures this.mx == mx && this.coeffPos == coeffPos && this.psize == psize && this.esize == esize
      ensures fresh(offsets) && offsets.Length == |coeffPos| && lastBpl == -1 && Valid()
    {
      this.mx, this.coeffPos, this.psize, this.esize := mx, coeffPos, psize, esize;
      offsets := new int[|coeffPos|];
      lastBpl := -1;
    }

    /** Rebuild the table, but only when the line skip has changed since the
        last call; either way the table then holds the offsets for the
        region ir, whose line skip, being a buffer's, is never negative. */
    method UpdateOffsets(ir: Region, le: int, to: int)
      requires Valid() && ir.WellFormed() && ir.bpl >= 0 && ir.psize == psize && ir.esize == esize
      modifies this, offsets
      ensures Valid() && offsets == old(offsets) && lastBpl == ir.bpl
      ensures old(lastBpl) == ir.bpl ==> offsets[..] == old(offsets[..])
      ensures forall k :: 0 <= k < |coeffPos| ==> offsets[k] == ElementOffset(ir, mx, coeffPos[k], le, to)
    {
      if lastBpl != ir.bpl {
        lastBpl := ir.bpl;
        var i := 0;
        while i < |coeffPos|
          modifies offsets
          invariant 0 <= i <= |coeffPos|
          invariant forall k :: 0 <= k < i ==> offsets[k] == ElementOffset(ir, mx, coeffPos[k], le, to)
        {
          offsets[i] := ElementOffset(ir, mx, coeffPos[i], le, to);
          i := i + 1;
        }
      }
      forall k | 0 <= k < |coeffPos|
        ensures ElementOffset(ir, mx, coeffPos[k], le, to)
             == (coeffPos[k] / mx) * (lastBpl / esize) + (coeffPos[k] % mx) * (psize / esize)
      {
        ElementOffsetIsPositionFree(ir, mx, coeffPos[k], le, to);
      }
    }
  }

  // ---------------------------------------------------------------------
  // The pixel loops.

  /** The inner `sum += t[i] * p[offsets[i]]` loop. */
  method ElementSum(t: seq<int>, mem: seq<int>, lineElements: int, yy: int, x: int, offsets: seq<int>)
    returns (sum: int)
    requires |t| == |offsets|
    requires forall i :: 0 <= i < |offsets| ==> 0 <= Tap(lineElements, yy, x, offsets[i]) < |mem|
    ensures sum == Dot(t, Gather(mem, lineElements, yy, x, offsets))
  {
    ghost var g := Gather(mem, lineElements, yy, x, offsets);
    sum := 0;
    var i := 0;
    while i < |t|
      invariant 0 <= i <= |t|
      invariant sum == Dot(t[..i], g[..i])
    {
      assert t[..i + 1][..i] == t[..i] && g[..i + 1][..i] == g[..i];
      sum := sum + t[i] * mem[Tap(lineElements, yy, x, offsets[i])];
      i := i + 1;
    }
    assert t[..i] == t && g[..i] == g;
  }

  /** vips_convi_gen for an integer format: the input buffer mem holds the
      prepared area with lineElements elements per line; q receives
      q.Length0 lines of q.Length1 elements. */
  method ConviGen(fmt: BandFormat, mem: seq<int>, lineElements: int, t: seq<int>, offsets: seq<int>,
                  scale: int, offset: int, q: array2<int>)
    requires scale != 0 && |t| == |offsets|
    requires CoversTaps(mem, lineElements, q.Length0, q.Length1, offsets)
    modifies q
    ensures forall yy, x :: 0 <= yy < q.Length0 && 0 <= x < q.Length1 ==>
              q[yy, x] == OutputElement(fmt, Dot(t, Gather(mem, lineElements, yy, x, offsets)), scale, offset)
  {
    var y := 0;
    while y < q.Length0
      invariant 0 <= y <= q.Length0
      invariant forall yy, x :: 0 <= yy < y && 0 <= x < q.Length1 ==>
                  q[yy, x] == OutputElement(fmt, Dot(t, Gather(mem, lineElements, yy, x, offsets)), scale, offset)
    {
      var x := 0;
      while x < q.Length1
        invariant 0 <= x <= q.Length1
        invariant forall yy, xx :: 0 <= yy < y && 0 <= xx < q.Length1 ==>
                    q[yy, xx] == OutputElement(fmt, Dot(t, Gather(mem, lineElements, yy, xx, offsets)), scale, offset)
        invariant forall xx :: 0 <= xx < x ==>
                    q[y, xx] == OutputElement(fmt, Dot(t, Gather(mem, lineElements, y, xx, offsets)), scale, offset)
      {
        var sum := ElementSum(t, mem, lineElements, y, x, offsets);
        q[y, x] := OutputElement(fmt, sum, scale, offset);
        x := x + 1;
      }
      y := y + 1;
    }
  }

  // ---------------------------------------------------------------------
  // What the pieces compute together.

  /** With offsets holding each listed position's MaskOffset, the gathered
      taps are the window's elements at those positions. */
  lemma GatherIsPick(mem: seq<int>, L: int, B: int, mx: int, n: nat, yy: int, x: int,
                     offsets: seq<int>, p: seq<nat>)
    requires mx >= 1 && |offsets| == |p|
    requires forall k :: 0 <= k < |p| ==> p[k] < n && offsets[k] == MaskOffset(L, B, mx, p[k])
    requires forall j :: 0 <= j < n ==> 0 <= Tap(L, yy, x, MaskOffset(L, B, mx, j)) < |mem|
    ensures forall k :: 0 <= k < |offsets| ==> 0 <= Tap(L, yy, x, offsets[k]) < |mem|
    ensures Gather(mem, L, yy, x, offsets) == Pick(Window(mem, L, B, mx, n, yy, x), p)
  {
  }

  /** With the table of the squeezed mask, the sum CONV_INT forms for an
      output element is the full mask's weighted sum over its window: the
      squeeze and the offset table together lose nothing. */
  lemma TableSumIsFullMaskSum(mask: seq<int>, mx: int, ir: Region, le: int, to: int, offsets: seq<int>,
                              mem: seq<int>, yy: int, x: int)
    requires |mask| >= 1 && mx >= 1 && ir.WellFormed()
    requires |offsets| == |Squeezed(mask).1|
    requires forall k :: 0 <= k < |offsets| ==> offsets[k] == ElementOffset(ir, mx, Squeezed(mask).1[k], le, to)
    requires forall j :: 0 <= j < |mask| ==>
               0 <= Tap(ir.LineElements(), yy, x, MaskOffset(ir.LineElements(), ir.Bands(), mx, j)) < |mem|
    ensures forall k :: 0 <= k < |offsets| ==> 0 <= Tap(ir.LineElements(), yy, x, offsets[k]) < |mem|
    ensures Dot(Squeezed(mask).0, Gather(mem, ir.LineElements(), yy, x, offsets))
         == Dot(mask, Window(mem, ir.LineElements(), ir.Bands(), mx, |mask|, yy, x))
  {
    var L, B := ir.LineElements(), ir.Bands();
    var cp := Squeezed(mask);
    SqueezedProperties(mask);
    forall k | 0 <= k < |offsets| ensures cp.1[k] < |mask| && offsets[k] == MaskOffset(L, B, mx, cp.1[k]) {
      ElementOffsetIsPositionFree(ir, mx, cp.1[k], le, to);
    }
    GatherIsPick(mem, L, B, mx, |mask|, yy, x, offsets, cp.1);
    SqueezePreservesSum(mask, Window(mem, L, B, mx, |mask|, yy, x));
  }
}
