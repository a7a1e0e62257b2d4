/** Shared vocabulary: optional results, C integer semantics and rectangles. */
module Common {

  datatype Option<T> = None | Some(value: T)

  datatype Result<T> = Ok(value: T) | Err(msg: string)

  function Abs(a: int): (r: nat)
    ensures r == a || r == -a
  {
    if a < 0 then -a else a
  }

  /** C's `/` on `int`: the quotient is truncated toward zero, so the
      remainder takes the sign of the dividend (Dafny's own `/` is Euclidean). */
  function CDiv(a: int, b: int): (q: int)
    requires b != 0
    ensures Abs(a - q * b) < Abs(b)
    ensures a - q * b == 0 || (a - q * b < 0) == (a < 0)
    ensures a >= 0 && b > 0 ==> q == a / b
  {
    var m := Abs(a) / Abs(b);
    TruncatedQuotient(a, b);
    if (a < 0) != (b < 0) then -m else m
  }

  /** The remainder left by the truncated quotient is |a| mod |b| with a's sign. */
  lemma TruncatedQuotient(a: int, b: int)
    requires b != 0
    ensures var m := Abs(a) / Abs(b);
            var q := if (a < 0) != (b < 0) then -m else m;
            a - q * b == (if a < 0 then -(Abs(a) % Abs(b)) else Abs(a) % Abs(b))
  {
    var m := Abs(a) / Abs(b);
    var r := Abs(a) % Abs(b);
    assert Abs(a) == m * Abs(b) + r;
    if a >= 0 && b > 0 {
    } else if a < 0 && b < 0 {
      assert a - m * b == -(m * Abs(b) + r) + m * Abs(b);
    } else if a >= 0 {
      assert a - (-m) * b == a + m * b;
      assert m * b == -(m * Abs(b));
    } else {
      assert a - (-m) * b == a + m * b;
      assert m * b == m * Abs(b);
    }
  }

  /** A multiple of e, for e positive, is at least e away from zero unless it is zero. */
  lemma MulAwayFromZero(k: int, e: int)
    requires e > 0
    ensures k >= 1 ==> k * e >= e
    ensures k <= -1 ==> k * e <= -e
  {
  }

  /** VIPS_CLIP(lo, x, hi): the larger of lo and the smaller of hi and x. */
  function Clip(lo: int, x: int, hi: int): (r: int)
    requires lo <= hi
    ensures lo <= r <= hi
    ensures lo <= x <= hi ==> r == x
    ensures x < lo ==> r == lo
    ensures x > hi ==> r == hi
  {
    if hi < x then hi else if x < lo then lo else x
  }

  /** VipsRect: an axis-aligned rectangle. */
  datatype Rect = Rect(left: int, top: int, width: int, height: int)
  {
    function Right(): int { left + width }
    function Bottom(): int { top + height }
    predicate Contains(x: int, y: int) { left <= x < Right() && top <= y < Bottom() }
  }

  /** vips_rect_intersectrect: the common part of a and b, empty (zero width
      or height) when they do not meet. */
  function Intersect(a: Rect, b: Rect): (o: Rect)
    ensures o.width >= 0 && o.height >= 0
    ensures forall x, y :: o.Contains(x, y) <==> a.Contains(x, y) && b.Contains(x, y)
    ensures o.left >= b.left && o.top >= b.top
    ensures o.width > 0 && o.height > 0 ==> o.Right() <= b.Right() && o.Bottom() <= b.Bottom()
  {
    var left := if a.left > b.left then a.left else b.left;
    var top := if a.top > b.top then a.top else b.top;
    var right := if a.Right() < b.Right() then a.Right() else b.Right();
    var bottom := if a.Bottom() < b.Bottom() then a.Bottom() else b.Bottom();
    Rect(left, top, if right - left > 0 then right - left else 0, if bottom - top > 0 then bottom - top else 0)
  }

  /** The placement and size of an image: VipsImage's Xsize, Ysize, Xoffset, Yoffset. */
  datatype Geometry = Geometry(xsize: int, ysize: int, xoffset: int, yoffset: int)

  /** The embed-then-shrink geometry shared by the mask operators (convolution
      and morphology): the input is embedded, with edge copying, into an image
      larger by Mx-1 by My-1 with the original at (Mx/2, My/2); the output is that
      image shrunk back by Mx-1 by My-1, with offsets -Mx/2 and -My/2 written
      in C, where unary minus binds before the (truncating) division. */
  function MaskOutputGeometry(inWidth: int, inHeight: int, mx: int, my: int): (g: Geometry)
    requires mx >= 1 && my >= 1
    ensures g.xsize == inWidth && g.ysize == inHeight
    ensures g.xoffset == -(mx / 2) && g.yoffset == -(my / 2)
    ensures g.xoffset <= 0 && g.yoffset <= 0
  {
    var embedded := Rect(mx / 2, my / 2, inWidth + mx - 1, inHeight + my - 1);
    Geometry(embedded.width - (mx - 1), embedded.height - (my - 1), CDiv(-mx, 2), CDiv(-my, 2))
  }

  /** The input area a mask operator prepares for the output rectangle r:
      r widened by Mx-1 and heightened by My-1, same origin. */
  function MaskInputArea(r: Rect, mx: int, my: int): (s: Rect)
    requires mx >= 1 && my >= 1
    ensures s.left == r.left && s.top == r.top
    ensures s.Right() == r.Right() + mx - 1 && s.Bottom() == r.Bottom() + my - 1
  {
    Rect(r.left, r.top, r.width + mx - 1, r.height + my - 1)
  }
}
