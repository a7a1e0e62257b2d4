/** Binary hit-or-miss morphology, C path. A mask element of 255 must lie over
    a set (non-zero) pixel, 0 over a clear (zero) pixel, and 128 means "don't
    care". Dilation outputs 255 where any element matches, erosion where every
    element matches. */
module Morph {
  import opened Common
  import opened MaskWindow

  /** VIPS_OPERATION_MORPHOLOGY_DILATE and VIPS_OPERATION_MORPHOLOGY_ERODE */
  datatype MorphOp = Dilate | Erode

  predicate IsMorphElement(v: int)
  {
    v == 0 || v == 128 || v == 255
  }

  /** vips_morph_build: the check of the intized mask, copying each element
      into the coefficient array as it goes. */
  method CheckMask(coeff: seq<int>) returns (r: Result<seq<int>>)
    ensures r.Ok? <==> forall i :: 0 <= i < |coeff| ==> IsMorphElement(coeff[i])
    ensures r.Ok? ==> r.value == coeff
  {
    var copied := [];
    var i := 0;
    while i < |coeff|
      invariant 0 <= i <= |coeff|
      invariant copied == coeff[..i]
      invariant forall k :: 0 <= k < i ==> IsMorphElement(coeff[k])
    {
      if !IsMorphElement(coeff[i]) {
        return Err("bad mask element (should be 0, 128 or 255)");
      }
      copied := copied + [coeff[i]];
      i := i + 1;
    }
    assert copied == coeff;
    return Ok(copied);
  }

  // ---------------------------------------------------------------------
  // The set and clear lists.

  /** The positions, in row-major order, of the mask elements equal to v. */
  function Positions(mask: seq<int>, v: int): (p: seq<nat>)
    ensures |p| <= |mask|
    ensures forall k :: 0 <= k < |p| ==> p[k] < |mask| && mask[p[k]] == v
  {
    if mask == [] then []
    else
      var n := |mask| - 1;
      Positions(mask[..n], v) + (if mask[n] == v then [n] else [])
  }

  /** The positions are strictly increasing and list every element equal to v. */
  lemma {:induction false} PositionsProperties(mask: seq<int>, v: int)
    ensures var p := Positions(mask, v);
            (forall k, l :: 0 <= k < l < |p| ==> p[k] < p[l]) &&
            (forall j :: 0 <= j < |mask| && mask[j] == v ==> j in p)
  {
    if mask != [] {
      var n := |mask| - 1;
      PositionsProperties(mask[..n], v);
      var p := Positions(mask, v);
      var q := Positions(mask[..n], v);
      assert p[..|q|] == q;
      forall j | 0 <= j < |mask| && mask[j] == v ensures j in p {
        if j < n {
          assert mask[..n][j] == v;
          var k :| 0 <= k < |q| && q[k] == j;
          assert p[k] == j;
        } else {
          assert p[|p| - 1] == n;
        }
      }
    }
  }

  /** Elements equal to 255 and elements equal to 0 are distinct, so both lists
      together never hold more than the mask's n_point entries. */
  lemma {:induction false} ListsFit(mask: seq<int>)
    ensures |Positions(mask, 255)| + |Positions(mask, 0)| <= |mask|
  {
    if mask != [] {
      ListsFit(mask[..|mask| - 1]);
    }
  }

  /** Byte offsets of the given mask positions in a region with line skip
      `bpl` and pixel size `psize`. */
  function Offsets(ps: seq<nat>, bpl: int, psize: int, mx: int): (offs: seq<int>)
    requires mx >= 1
    ensures |offs| == |ps|
  {
    seq(|ps|, k requires 0 <= k < |ps| => MaskOffset(bpl, psize, mx, ps[k]))
  }

  /** Position y * Mx + x of an Mx-wide mask is row y, column x. */
  lemma RowMajor(y: int, x: int, mx: int)
    requires mx >= 1 && y >= 0 && 0 <= x < mx
    ensures (y * mx + x) / mx == y && (y * mx + x) % mx == x
  {
    var t := y * mx + x;
    var q, r := t / mx, t % mx;
    assert (q - y) * mx == x - r;
    MulAwayFromZero(q - y, mx);
  }

  /** The state of vips_morph_start's sequence that outlives one call. What
      the lists are built from is fixed for the sequence: the checked mask
      and its size (from the operation), and the pixel size of the input
      image its region reads. */
  class MorphSequence {
    const mask: seq<int>
    const mx: int
    const my: int
    const psize: int
    var soff: array<int>
    var ss: int
    var coff: array<int>
    var cs: int
    var lastBpl: int

    /** Once the lists have been built (lastBpl is no longer -1), soff[..ss]
        and coff[..cs] hold the offsets of the 255 and the 0 elements for line
        skip lastBpl. */
    ghost predicate Valid()
      reads this, soff, coff
    {
      mx >= 1 && my >= 1 && |mask| == mx * my &&
      (forall i :: 0 <= i < |mask| ==> IsMorphElement(mask[i])) &&
      soff.Length == |mask| && coff.Length == |mask| && soff != coff &&
      0 <= ss <= |mask| && 0 <= cs <= |mask| &&
      (lastBpl != -1 ==>
         ss + cs <= |mask| &&
         soff[..ss] == Offsets(Positions(mask, 255), lastBpl, psize, mx) &&
         coff[..cs] == Offsets(Positions(mask, 0), lastBpl, psize, mx))
    }

    /** vips_morph_start: n_point entries for each list, both empty, and
        built for no line skip yet. */
    constructor (mask: seq<int>, mx: int, my: int, psize: int)
      requires mx >= 1 && my >= 1 && |mask| == mx * my
      requires forall i :: 0 <= i < |mask| ==> IsMorphElement(mask[i])
      ensures this.mask == mask && this.mx == mx && this.my == my && this.psize == psize
      ensures fresh(soff) && fresh(coff) && soff.Length == |mask| && coff.Length == |mask|
      ensures ss == 0 && cs == 0 && lastBpl == -1 && Valid()
    {
      this.mask, this.mx, this.my, this.psize := mask, mx, my, psize;
      soff := new int[|mask|];
      coff := new int[|mask|];
      ss, cs := 0, 0;
      lastBpl := -1;
    }

    /** The mask scan of vips_dilate_gen and vips_erode_gen. It runs only when
        the line skip differs from the one the lists were built for; either
        way the lists then hold, in row-major order, the offsets in region ir
        of the 255 elements (soff) and of the 0 elements (coff). A buffer's
        line skip is never negative. Here coff keeps the full offset (see
        StoredClearOffset for what the C code stores). */
    method Scan(ir: Region, le: int, to: int)
      requires Valid() && ir.bpl >= 0 && ir.psize == psize
      modifies this, soff, coff
      ensures Valid() && soff == old(soff) && coff == old(coff) && lastBpl == ir.bpl
      ensures old(lastBpl) == ir.bpl ==>
                ss == old(ss) && cs == old(cs) && soff[..] == old(soff[..]) && coff[..] == old(coff[..])
      ensures 0 <= ss && 0 <= cs && ss + cs <= |mask|
      ensures soff[..ss] == Offsets(Positions(mask, 255), ir.bpl, ir.psize, mx)
      ensures coff[..cs] == Offsets(Positions(mask, 0), ir.bpl, ir.psize, mx)
    {
      if lastBpl == ir.bpl {
        return;
      }
      lastBpl := ir.bpl;
      var s, c := BuildLists(mask, mx, my, ir, le, to);
      assert mask[..|mask|] == mask;
      ListsFit(mask);
      ss, cs := s, c;
    }

    /** The two nested loops of the scan, over mask rows and columns. */
    method BuildLists(mask: seq<int>, mx: int, my: int, ir: Region, le: int, to: int) returns (s: int, c: int)
      requires mx >= 1 && my >= 1 && |mask| == mx * my
      requires forall i :: 0 <= i < |mask| ==> IsMorphElement(mask[i])
      requires soff.Length == |mask| && coff.Length == |mask| && soff != coff
      modifies soff, coff
      ensures Listed(mask, |mask|, s, c, ir.bpl, ir.psize, mx)
    {
      s, c := 0, 0;
      var t := 0;
      var y := 0;
      while y < my
        invariant 0 <= y <= my && t == y * mx && t <= |mask|
        invariant Listed(mask, t, s, c, ir.bpl, ir.psize, mx)
      {
        var x := 0;
        while x < mx
          invariant 0 <= x <= mx && t == y * mx + x
          invariant Listed(mask, t, s, c, ir.bpl, ir.psize, mx)
        {
          ScanPosition(ir, mx, my, y, x, le, to);
          var off := ir.Addr(x + le, y + to) - ir.Addr(le, to);
          s, c := AddElement(mask, t, off, s, c, ir.bpl, ir.psize, mx);
          x, t := x + 1, t + 1;
        }
        assert t == (y + 1) * mx by {
          assert (y + 1) * mx == y * mx + mx;
        }
        assert t <= |mask| by {
          MulLe(y + 1, my, mx);
        }
        y := y + 1;
      }
      assert t == |mask|;
    }

    /** soff[..s] and coff[..c] list the 255 and 0 elements among the first t. */
    ghost predicate Listed(mask: seq<int>, t: int, s: int, c: int, bpl: int, psize: int, mx: int)
      reads this, soff, coff
      requires mx >= 1
    {
      0 <= t <= |mask| && 0 <= s <= soff.Length && 0 <= c <= coff.Length &&
      s == |Positions(mask[..t], 255)| && c == |Positions(mask[..t], 0)| &&
      soff[..s] == Offsets(Positions(mask[..t], 255), bpl, psize, mx) &&
      coff[..c] == Offsets(Positions(mask[..t], 0), bpl, psize, mx)
    }

    /** The body of the scan for mask element t, whose offset is off. */
    method AddElement(mask: seq<int>, t: int, off: int, s: int, c: int, bpl: int, psize: int, mx: int)
      returns (s': int, c': int)
      requires mx >= 1 && 0 <= t < |mask| && IsMorphElement(mask[t])
      requires soff.Length == |mask| && coff.Length == |mask| && soff != coff
      requires Listed(mask, t, s, c, bpl, psize, mx) && off == MaskOffset(bpl, psize, mx, t)
      modifies soff, coff
      ensures Listed(mask, t + 1, s', c', bpl, psize, mx)
    {
      ScanStep(mask, t);
      ListsFit(mask[..t]);
      var ps, pc := Positions(mask[..t], 255), Positions(mask[..t], 0);
      s', c' := s, c;
      if mask[t] == 255 {
        OffsetsSnoc(ps, t, bpl, psize, mx);
        soff[s] := off;
        s' := s + 1;
        assert soff[..s'] == soff[..s] + [off];
      } else if mask[t] == 0 {
        OffsetsSnoc(pc, t, bpl, psize, mx);
        coff[c] := off;
        c' := c + 1;
        assert coff[..c'] == coff[..c] + [off];
      }
    }
  }

  lemma OffsetsSnoc(ps: seq<nat>, t: nat, bpl: int, psize: int, mx: int)
    requires mx >= 1
    ensures Offsets(ps + [t], bpl, psize, mx) == Offsets(ps, bpl, psize, mx) + [MaskOffset(bpl, psize, mx, t)]
  {
  }

  /** Mask element (x, y) of an Mx by My mask is element y * Mx + x, and its
      offset is that element's MaskOffset. */
  lemma ScanPosition(ir: Region, mx: int, my: int, y: int, x: int, le: int, to: int)
    requires mx >= 1 && 0 <= y < my && 0 <= x < mx
    ensures y * mx + x < mx * my
    ensures ir.Addr(x + le, y + to) - ir.Addr(le, to) == MaskOffset(ir.bpl, ir.psize, mx, y * mx + x)
  {
    MulLe(y + 1, my, mx);
    assert (y + 1) * mx == y * mx + mx;
    AddrDifference(ir, x, y, le, to);
    RowMajor(y, x, mx);
  }

  /** One step of the scan: position t joins the list of its value. */
  lemma ScanStep(mask: seq<int>, t: nat)
    requires t < |mask|
    ensures forall v :: Positions(mask[..t + 1], v) == Positions(mask[..t], v) + (if mask[t] == v then [t] else [])
  {
    assert mask[..t + 1][..t] == mask[..t];
  }

  // ---------------------------------------------------------------------
  // The pixel rule.

  predicate SomeNonZero(g: seq<int>)
  {
    exists i :: 0 <= i < |g| && g[i] != 0
  }

  predicate SomeZero(g: seq<int>)
  {
    exists i :: 0 <= i < |g| && g[i] == 0
  }

  /** The output for the pixels under the set list (s) and the clear list (c). */
  function Rule(op: MorphOp, s: seq<int>, c: seq<int>): int
  {
    match op
    case Dilate => if SomeNonZero(s) || SomeZero(c) then 255 else 0
    case Erode => if !SomeZero(s) && !SomeNonZero(c) then 255 else 0
  }

  /** The result the operator promises for a window w under mask: dilation
      hits when any set element lies over a non-zero pixel or any clear
      element over a zero one; erosion when every element matches. */
  function HitOrMiss(op: MorphOp, mask: seq<int>, w: seq<int>): (r: int)
    requires |w| == |mask|
    ensures r == 0 || r == 255
  {
    var hit := exists j :: 0 <= j < |mask| && ((mask[j] == 255 && w[j] != 0) || (mask[j] == 0 && w[j] == 0));
    var fit := forall j :: 0 <= j < |mask| ==> (mask[j] == 255 ==> w[j] != 0) && (mask[j] == 0 ==> w[j] == 0);
    match op
    case Dilate => if hit then 255 else 0
    case Erode => if fit then 255 else 0
  }

  /** The inner loops of vips_dilate_gen for one output pixel: a search of the
      set list for a non-zero pixel, then, if none, of the clear list for a
      zero one, each stopping at the first hit. */
  method DilateAt(mem: seq<int>, L: int, yy: int, x: int, soff: seq<int>, coff: seq<int>) returns (result: int)
    requires forall i :: 0 <= i < |soff| ==> 0 <= Tap(L, yy, x, soff[i]) < |mem|
    requires forall i :: 0 <= i < |coff| ==> 0 <= Tap(L, yy, x, coff[i]) < |mem|
    ensures result == 0 || result == 255
    ensures result == 255 <==> SomeNonZero(Gather(mem, L, yy, x, soff)) || SomeZero(Gather(mem, L, yy, x, coff))
    ensures result == Rule(Dilate, Gather(mem, L, yy, x, soff), Gather(mem, L, yy, x, coff))
  {
    ghost var gs, gc := Gather(mem, L, yy, x, soff), Gather(mem, L, yy, x, coff);
    result := 0;
    var i := 0;
    while i < |soff|
      invariant 0 <= i <= |soff|
      invariant result == 0 ==> forall k :: 0 <= k < i ==> gs[k] == 0
      invariant result == 0 || (result == 255 && SomeNonZero(gs))
      decreases |soff| - i, result
    {
      if mem[Tap(L, yy, x, soff[i])] != 0 {
        assert gs[i] != 0;
        result := 255;
        break;
      }
      i := i + 1;
    }
    if result == 0 {
      i := 0;
      while i < |coff|
        invariant 0 <= i <= |coff|
        invariant result == 0 ==> forall k :: 0 <= k < i ==> gc[k] != 0
        invariant result == 0 || (result == 255 && SomeZero(gc))
        decreases |coff| - i, result
      {
        if mem[Tap(L, yy, x, coff[i])] == 0 {
          assert gc[i] == 0;
          result := 255;
          break;
        }
        i := i + 1;
      }
    }
  }

  /** The inner loops of vips_erode_gen for one output pixel: every set-list
      pixel must be non-zero and then every clear-list pixel zero; each search
      stops at the first mismatch. */
  method ErodeAt(mem: seq<int>, L: int, yy: int, x: int, soff: seq<int>, coff: seq<int>) returns (result: int)
    requires forall i :: 0 <= i < |soff| ==> 0 <= Tap(L, yy, x, soff[i]) < |mem|
    requires forall i :: 0 <= i < |coff| ==> 0 <= Tap(L, yy, x, coff[i]) < |mem|
    ensures result == 0 || result == 255
    ensures result == 255 <==> !SomeZero(Gather(mem, L, yy, x, soff)) && !SomeNonZero(Gather(mem, L, yy, x, coff))
    ensures result == Rule(Erode, Gather(mem, L, yy, x, soff), Gather(mem, L, yy, x, coff))
  {
    ghost var gs, gc := Gather(mem, L, yy, x, soff), Gather(mem, L, yy, x, coff);
    result := 255;
    var i := 0;
    while i < |soff|
      invariant 0 <= i <= |soff|
      invariant result == 255 ==> forall k :: 0 <= k < i ==> gs[k] != 0
      invariant result == 255 || (result == 0 && SomeZero(gs))
      decreases |soff| - i, result
    {
      if mem[Tap(L, yy, x, soff[i])] == 0 {
        assert gs[i] == 0;
        result := 0;
        break;
      }
      i := i + 1;
    }
    if result == 255 {
      i := 0;
      while i < |coff|
        invariant 0 <= i <= |coff|
        invariant result == 255 ==> forall k :: 0 <= k < i ==> gc[k] == 0
        invariant result == 255 || (result == 0 && SomeNonZero(gc))
        decreases |coff| - i, result
      {
        if mem[Tap(L, yy, x, coff[i])] != 0 {
          assert gc[i] != 0;
          result := 0;
          break;
        }
        i := i + 1;
      }
    }
  }

  /** vips_dilate_gen or vips_erode_gen over an output block: mem holds the
      prepared input from (le, to) on, with L bytes per line; q receives
      q.Length0 lines of q.Length1 bytes. */
  method MorphGen(op: MorphOp, mem: seq<int>, L: int, soff: seq<int>, coff: seq<int>, q: array2<int>)
    requires CoversTaps(mem, L, q.Length0, q.Length1, soff)
    requires CoversTaps(mem, L, q.Length0, q.Length1, coff)
    modifies q
    ensures forall yy, x :: 0 <= yy < q.Length0 && 0 <= x < q.Length1 ==>
              q[yy, x] == Rule(op, Gather(mem, L, yy, x, soff), Gather(mem, L, yy, x, coff))
  {
    var y := 0;
    while y < q.Length0
      invariant 0 <= y <= q.Length0
      invariant forall yy, x :: 0 <= yy < y && 0 <= x < q.Length1 ==>
                  q[yy, x] == Rule(op, Gather(mem, L, yy, x, soff), Gather(mem, L, yy, x, coff))
    {
      var x := 0;
      while x < q.Length1
        invariant 0 <= x <= q.Length1
        invariant forall yy, xx :: 0 <= yy < y && 0 <= xx < q.Length1 ==>
                    q[yy, xx] == Rule(op, Gather(mem, L, yy, xx, soff), Gather(mem, L, yy, xx, coff))
        invariant forall xx :: 0 <= xx < x ==>
                    q[y, xx] == Rule(op, Gather(mem, L, y, xx, soff), Gather(mem, L, y, xx, coff))
      {
        var result;
        if op == Dilate {
          result := DilateAt(mem, L, y, x, soff, coff);
        } else {
          result := ErodeAt(mem, L, y, x, soff, coff);
        }
        q[y, x] := result;
        x := x + 1;
      }
      y := y + 1;
    }
  }

  // ---------------------------------------------------------------------
  // What the pieces compute together.

  /** Every output pixel is 0 or 255. */
  lemma RuleIsBinary(op: MorphOp, s: seq<int>, c: seq<int>)
    ensures Rule(op, s, c) == 0 || Rule(op, s, c) == 255
  {
  }

  /** The offsets of listed positions are taps of the window whenever the
      window's taps lie in the buffer. */
  lemma ListCovered(mem: seq<int>, L: int, B: int, mx: int, n: nat, h: int, sz: int, ps: seq<nat>)
    requires mx >= 1 && CoversMask(mem, L, B, mx, n, h, sz)
    requires forall k :: 0 <= k < |ps| ==> ps[k] < n
    ensures CoversTaps(mem, L, h, sz, Offsets(ps, L, B, mx))
  {
  }

  /** The pixels under a list are the window's pixels at the listed positions. */
  lemma GatherList(mem: seq<int>, L: int, B: int, mx: int, n: nat, yy: int, x: int, ps: seq<nat>)
    requires mx >= 1
    requires forall k :: 0 <= k < |ps| ==> ps[k] < n
    requires forall j :: 0 <= j < n ==> 0 <= Tap(L, yy, x, MaskOffset(L, B, mx, j)) < |mem|
    ensures forall k :: 0 <= k < |ps| ==> 0 <= Tap(L, yy, x, Offsets(ps, L, B, mx)[k]) < |mem|
    ensures forall k :: 0 <= k < |ps| ==>
              Gather(mem, L, yy, x, Offsets(ps, L, B, mx))[k] == Window(mem, L, B, mx, n, yy, x)[ps[k]]
  {
  }

  /** Searching the pixels g under the list of the v elements is searching the
      window for a v element over a non-zero (or a zero) pixel. */
  lemma ListSearch(mask: seq<int>, w: seq<int>, v: int, g: seq<int>)
    requires |w| == |mask| && |g| == |Positions(mask, v)|
    requires forall k :: 0 <= k < |g| ==> g[k] == w[Positions(mask, v)[k]]
    ensures SomeNonZero(g) <==> exists j :: 0 <= j < |mask| && mask[j] == v && w[j] != 0
    ensures SomeZero(g) <==> exists j :: 0 <= j < |mask| && mask[j] == v && w[j] == 0
  {
    var p := Positions(mask, v);
    PositionsProperties(mask, v);
    if exists j :: 0 <= j < |mask| && mask[j] == v && w[j] != 0 {
      var j :| 0 <= j < |mask| && mask[j] == v && w[j] != 0;
      var k :| 0 <= k < |p| && p[k] == j;
      assert g[k] != 0;
    }
    if exists j :: 0 <= j < |mask| && mask[j] == v && w[j] == 0 {
      var j :| 0 <= j < |mask| && mask[j] == v && w[j] == 0;
      var k :| 0 <= k < |p| && p[k] == j;
      assert g[k] == 0;
    }
  }

  /** With the lists the scan builds, the per-pixel rule is the hit-or-miss
      test of the whole mask against the pixel's window. */
  lemma RuleIsHitOrMiss(op: MorphOp, mask: seq<int>, mem: seq<int>, L: int, B: int, mx: int, yy: int, x: int)
    requires mx >= 1
    requires forall j :: 0 <= j < |mask| ==> 0 <= Tap(L, yy, x, MaskOffset(L, B, mx, j)) < |mem|
    ensures var s := Offsets(Positions(mask, 255), L, B, mx);
            var c := Offsets(Positions(mask, 0), L, B, mx);
            Rule(op, Gather(mem, L, yy, x, s), Gather(mem, L, yy, x, c))
              == HitOrMiss(op, mask, Window(mem, L, B, mx, |mask|, yy, x))
  {
    var w := Window(mem, L, B, mx, |mask|, yy, x);
    var ps, pc := Positions(mask, 255), Positions(mask, 0);
    GatherList(mem, L, B, mx, |mask|, yy, x, ps);
    GatherList(mem, L, B, mx, |mask|, yy, x, pc);
    var gs := Gather(mem, L, yy, x, Offsets(ps, L, B, mx));
    var gc := Gather(mem, L, yy, x, Offsets(pc, L, B, mx));
    ListSearch(mask, w, 255, gs);
    ListSearch(mask, w, 0, gc);
    RuleOfSearches(op, mask, w, gs, gc);
  }

  /** The rule over the two searches is the hit-or-miss test over the window. */
  lemma RuleOfSearches(op: MorphOp, mask: seq<int>, w: seq<int>, gs: seq<int>, gc: seq<int>)
    requires |w| == |mask|
    requires SomeNonZero(gs) <==> exists j :: 0 <= j < |mask| && mask[j] == 255 && w[j] != 0
    requires SomeZero(gs) <==> exists j :: 0 <= j < |mask| && mask[j] == 255 && w[j] == 0
    requires SomeNonZero(gc) <==> exists j :: 0 <= j < |mask| && mask[j] == 0 && w[j] != 0
    requires SomeZero(gc) <==> exists j :: 0 <= j < |mask| && mask[j] == 0 && w[j] == 0
    ensures Rule(op, gs, gc) == HitOrMiss(op, mask, w)
  {
  }

  /** A mask of nothing but "don't care" elements leaves both lists empty:
      dilation then gives 0 and erosion 255 everywhere. */
  lemma AllDontCare(mask: seq<int>, w: seq<int>)
    requires |w| == |mask| && forall i :: 0 <= i < |mask| ==> mask[i] == 128
    ensures Positions(mask, 255) == [] && Positions(mask, 0) == []
    ensures Rule(Dilate, [], []) == 0 && Rule(Erode, [], []) == 255
    ensures HitOrMiss(Dilate, mask, w) == 0 && HitOrMiss(Erode, mask, w) == 255
  {
    NoPositions(mask, 255);
    NoPositions(mask, 0);
  }

  lemma {:induction false} NoPositions(mask: seq<int>, v: int)
    requires forall i :: 0 <= i < |mask| ==> mask[i] != v
    ensures Positions(mask, v) == []
  {
    if mask != [] {
      NoPositions(mask[..|mask| - 1], v);
    }
  }

  // ---------------------------------------------------------------------
  // The clear list as the C code stores it.

  /** What `coff[seq->cs++] = offset` keeps: coff is an array of guint8, so
      only the offset modulo 256 survives. */
  function StoredClearOffset(off: int): (b: int)
    ensures 0 <= b < 256
    ensures b == off <==> 0 <= off < 256
  {
    off % 256
  }

  /** A 1 by 2 mask [128, 0] over a one-band image 256 bytes wide: the clear
      element's offset is 256 and is stored as 0, so erosion reads the pixel
      above the one it should. Wherever that pixel is set and the one below
      it clear, the mask fits, yet the stored list reports a mismatch (the
      lists here have one entry each, so by GatherOne the pixels ErodeAt
      reads are exactly the ones named below). */
  lemma ClearOffsetTruncation(mem: seq<int>)
    requires |mem| > 256 && mem[0] == 255 && mem[256] == 0
    ensures Positions([128, 0], 255) == [] && Offsets(Positions([128, 0], 0), 256, 1, 1) == [256]
    ensures StoredClearOffset(256) == 0
    ensures HitOrMiss(Erode, [128, 0], Window(mem, 256, 1, 1, 2, 0, 0)) == 255
    ensures Rule(Erode, [], [mem[Tap(256, 0, 0, 256)]]) == 255
    ensures Rule(Erode, [], [mem[Tap(256, 0, 0, StoredClearOffset(256))]]) == 0
  {
    ColumnMaskLists();
    ColumnMaskFits(mem);
    var intended, stored := mem[Tap(256, 0, 0, 256)], mem[Tap(256, 0, 0, StoredClearOffset(256))];
    assert intended == 0 && stored == 255;
    ErodeOfOne(intended);
    ErodeOfOne(stored);
  }

  lemma ColumnMaskLists()
    ensures Positions([128, 0], 0) == [1] && Positions([128, 0], 255) == []
    ensures Offsets(Positions([128, 0], 0), 256, 1, 1) == [256]
  {
    var mask: seq<int> := [128, 0];
    assert mask[..1] == [128] && mask[..1][..0] == [];
  }

  lemma ColumnMaskFits(mem: seq<int>)
    requires |mem| > 256 && mem[0] == 255 && mem[256] == 0
    ensures HitOrMiss(Erode, [128, 0], Window(mem, 256, 1, 1, 2, 0, 0)) == 255
  {
    var w := Window(mem, 256, 1, 1, 2, 0, 0);
    assert w[0] == 255 && w[1] == 0;
  }

  lemma GatherOne(mem: seq<int>, L: int, yy: int, x: int, o: int)
    requires 0 <= Tap(L, yy, x, o) < |mem|
    ensures Gather(mem, L, yy, x, [o]) == [mem[Tap(L, yy, x, o)]]
  {
  }

  /** Erosion with an empty set list and one clear-list pixel a. */
  lemma ErodeOfOne(a: int)
    ensures Rule(Erode, [], [a]) == if a == 0 then 255 else 0
  {
    if a != 0 {
      assert [a][0] != 0;
    }
  }
}
