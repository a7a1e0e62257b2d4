/** The screen sink: a Render holds the tile cache of ScreenCache in its
    fields; image_fill serves each output region from the cache tile by
    tile, and mask_fill reports which tiles hold valid pixels. */
module SinkScreen {
  import opened Common
  import opened ScreenCache

  /** x rounded down to a multiple of w, written as repeated subtraction so
      that proofs about the grid stay linear; FloorIsDivMul relates it to
      the C expression (x / w) * w. */
  function Floor(x: int, w: int): (f: int)
    requires x >= 0 && w > 0
    ensures 0 <= f <= x < f + w
    decreases x
  {
    if x < w then 0 else Floor(x - w, w) + w
  }

  /** Rounding down an origin of the grid leaves it where it is. */
  lemma {:induction false} FloorAligned(x: int, w: int)
    requires x >= 0 && w > 0
    ensures Floor(Floor(x, w), w) == Floor(x, w)
  {
    if x >= w {
      FloorAligned(x - w, w);
      FloorStep(Floor(x - w, w), Floor(x - w, w) + w, w);
    }
  }

  /** The next origin of the grid is w further on. */
  lemma FloorStep(a: int, b: int, w: int)
    requires a >= 0 && w > 0 && Floor(a, w) == a && b == a + w
    ensures Floor(b, w) == b
  {
  }

  /** Every pixel from a grid origin a to a + w - 1 rounds down to a. */
  lemma {:induction false} FloorOfAligned(a: int, x: int, w: int)
    requires a >= 0 && w > 0 && Floor(a, w) == a && a <= x < a + w
    ensures Floor(x, w) == a
  {
    if a >= w {
      FloorOfAligned(a - w, x - w, w);
    }
  }

  /** Rounding down keeps order. */
  lemma {:induction false} FloorMonotone(x: int, y: int, w: int)
    requires 0 <= x <= y && w > 0
    ensures Floor(x, w) <= Floor(y, w)
  {
    if x >= w {
      FloorMonotone(x - w, y - w, w);
    }
  }

  /** A multiple m * w of w that is within w below x is where x rounds down to. */
  lemma {:induction false} FloorOfMultiple(x: int, m: nat, w: int)
    requires w > 0 && m * w <= x < m * w + w
    ensures Floor(x, w) == m * w
  {
    if m > 0 {
      assert (m - 1) * w == m * w - w;
      FloorOfMultiple(x - w, m - 1, w);
    }
  }

  /** The C expression for the first tile origin: (x / w) * w. */
  lemma FloorIsDivMul(x: int, w: int)
    requires x >= 0 && w > 0
    ensures Floor(x, w) == (x / w) * w
  {
    var q := x / w;
    assert x == q * w + x % w;
    FloorOfMultiple(x, q, w);
  }

  /** The origin of the tile holding pixel (x, y): tiles sit on a grid of
      tw by th cells from (0, 0). */
  function CellOf(tw: int, th: int, x: int, y: int): (k: Key)
    requires tw > 0 && th > 0 && x >= 0 && y >= 0
    ensures k.left <= x < k.left + tw && k.top <= y < k.top + th
    ensures k.left >= 0 && k.top >= 0 && Floor(k.left, tw) == k.left && Floor(k.top, th) == k.top
  {
    FloorAligned(x, tw);
    FloorAligned(y, th);
    Key(Floor(x, tw), Floor(y, th))
  }

  /** A tile at a grid origin holds exactly the pixels whose cell it is. */
  lemma CellOfTile(tw: int, th: int, k: Key, x: int, y: int)
    requires tw > 0 && th > 0 && x >= 0 && y >= 0 && k.left >= 0 && k.top >= 0
    requires Floor(k.left, tw) == k.left && Floor(k.top, th) == k.top
    ensures CellOf(tw, th, x, y) == k <==> Rect(k.left, k.top, tw, th).Contains(x, y)
  {
    if k.left <= x < k.left + tw {
      FloorOfAligned(k.left, x, tw);
    }
    if k.top <= y < k.top + th {
      FloorOfAligned(k.top, y, th);
    }
  }

  /** The tile origins one row of image_fill visits, from x on. */
  function RowCells(y: int, x: int, right: int, tw: int): (cells: seq<Key>)
    requires tw > 0
    decreases right - x
  {
    if x >= right then [] else [Key(x, y)] + RowCells(y, x + tw, right, tw)
  }

  /** The tile origins image_fill visits, row by row from row y on. */
  function GridCells(y: int, xs: int, bottom: int, right: int, tw: int, th: int): (cells: seq<Key>)
    requires tw > 0 && th > 0
    decreases bottom - y
  {
    if y >= bottom then [] else RowCells(y, xs, right, tw) + GridCells(y + th, xs, bottom, right, tw, th)
  }

  /** For each origin requested so far, the tile handed out (its index and
      contents right after the request), or None when none was. */
  type Served = map<Key, Option<(nat, Tile)>>

  /** The requests of image_fill over `cells`, in order: the cache they
      leave and what each one served. */
  function FillRequests(c: Cache, cells: seq<Key>, invalid: set<nat>, src: (int, int) -> int, fails: set<Key>,
                        served: Served): (f: (Cache, Served))
    requires ScreenCache.Valid(c)
    ensures ScreenCache.Valid(f.0) && f.0.tw == c.tw && f.0.th == c.th && f.0.maxTiles == c.maxTiles
    decreases |cells|
  {
    if cells == [] then (c, served)
    else
      var o := Request(c, cells[0], invalid, src, fails);
      RequestPreservesValid(c, cells[0], invalid, src, fails);
      FillRequests(o.cache, cells[1..], invalid, src, fails, served[cells[0] := Entry(o)])
  }

  /** What a request serves: the tile handed out and its contents. */
  function Entry(o: Outcome): Option<(nat, Tile)>
  {
    if o.tile.Some? && o.tile.value < |o.cache.pool| then Some((o.tile.value, o.cache.pool[o.tile.value])) else None
  }

  /** A run of requests is its first request followed by the rest. */
  lemma FillCons(c: Cache, k: Key, rest: seq<Key>, invalid: set<nat>, src: (int, int) -> int, fails: set<Key>,
                 served: Served)
    requires ScreenCache.Valid(c)
    ensures ScreenCache.Valid(Request(c, k, invalid, src, fails).cache)
    ensures var o := Request(c, k, invalid, src, fails);
            FillRequests(c, [k] + rest, invalid, src, fails, served) ==
            FillRequests(o.cache, rest, invalid, src, fails, served[k := Entry(o)])
  {
    RequestPreservesValid(c, k, invalid, src, fails);
    assert ([k] + rest)[0] == k;
    assert ([k] + rest)[1..] == rest;
  }

  /** A row of origins starting before `right` is its first origin followed
      by the row from the next one (nx is x + tw). */
  lemma RowUnfold(y: int, x: int, nx: int, right: int, tw: int, later: seq<Key>)
    requires tw > 0 && x < right && nx == x + tw
    ensures RowCells(y, x, right, tw) + later == [Key(x, y)] + (RowCells(y, nx, right, tw) + later)
  {
  }

  /** A row whose origin has reached `right` is empty. */
  lemma RowEnd(y: int, x: int, right: int, tw: int, later: seq<Key>)
    requires tw > 0 && x >= right
    ensures RowCells(y, x, right, tw) + later == later
  {
  }

  /** The grid from row y on is row y followed by the grid from ny = y + th on. */
  lemma GridUnfold(y: int, ny: int, xs: int, bottom: int, right: int, tw: int, th: int)
    requires tw > 0 && th > 0 && y < bottom && ny == y + th
    ensures GridCells(y, xs, bottom, right, tw, th) == RowCells(y, xs, right, tw) + GridCells(ny, xs, bottom, right, tw, th)
  {
  }

  /** Past the last row nothing is left to request. */
  lemma GridEnd(c: Cache, y: int, xs: int, bottom: int, right: int, tw: int, th: int, invalid: set<nat>,
                src: (int, int) -> int, fails: set<Key>, served: Served)
    requires ScreenCache.Valid(c) && tw > 0 && th > 0 && y >= bottom
    ensures FillRequests(c, GridCells(y, xs, bottom, right, tw, th), invalid, src, fails, served) == (c, served)
  {
  }

  /** Once the tile at (x, y) has been requested, what
      is left of the whole fill is the rest of the run. */
  lemma FillAdvance(c0: Cache, cells0: seq<Key>, served0: Served, before: Cache, y: int, x: int, nx: int, right: int,
                    tw: int, later: seq<Key>, invalid: set<nat>, src: (int, int) -> int, fails: set<Key>, served: Served,
                    after: Cache, tile: Option<nat>)
    requires ScreenCache.Valid(c0) && ScreenCache.Valid(before) && ScreenCache.Valid(after) && tw > 0 && x < right
    requires nx == x + tw
    requires Outcome(after, tile) == Request(before, Key(x, y), invalid, src, fails)
    requires FillRequests(c0, cells0, invalid, src, fails, served0) ==
             FillRequests(before, RowCells(y, x, right, tw) + later, invalid, src, fails, served)
    ensures FillRequests(c0, cells0, invalid, src, fails, served0) ==
            FillRequests(after, RowCells(y, nx, right, tw) + later, invalid, src, fails,
                         served[Key(x, y) := Entry(Outcome(after, tile))])
  {
    RowUnfold(y, x, nx, right, tw, later);
    FillCons(before, Key(x, y), RowCells(y, nx, right, tw) + later, invalid, src, fails, served);
  }

  /** Row `row`, column `col` of a tile's pixels (out of range cannot occur
      for a tile-sized buffer and reads as 0). */
  function At(p: seq<seq<int>>, row: int, col: int): int
  {
    if 0 <= row < |p| && 0 <= col < |p[row]| then p[row][col] else 0
  }

  /** tile_copy's value for pixel (x, y): the tile's pixel when it is painted
      and its region is still valid, otherwise zero. */
  function CopiedValue(t: Tile, i: nat, invalid: set<nat>, x: int, y: int): int
  {
    if t.painted && i !in invalid then At(t.pixels, y - t.key.top, x - t.key.left) else 0
  }

  /** The origin of the tile holding row a, column b of region r. */
  function PixelCell(tw: int, th: int, r: Rect, a: int, b: int): Key
    requires tw > 0 && th > 0 && r.left >= 0 && r.top >= 0 && a >= 0 && b >= 0
  {
    CellOf(tw, th, r.left + b, r.top + a)
  }

  /** What image_fill leaves in row a, column b of its region r: the copy
      from the tile served for that pixel's cell, or what was there when no
      tile was served. */
  function Shown(served: Served, invalid: set<nat>, tw: int, th: int, r: Rect, a: int, b: int, before: int): int
    requires tw > 0 && th > 0 && r.left >= 0 && r.top >= 0 && a >= 0 && b >= 0
  {
    var k := PixelCell(tw, th, r, a, b);
    if k in served && served[k].Some? then CopiedValue(served[k].value.1, served[k].value.0, invalid, r.left + b, r.top + a)
    else before
  }

  /** Serving one more origin changes what is shown only in that origin's
      tile. */
  lemma ShownStep(served: Served, key: Key, entry: Option<(nat, Tile)>, invalid: set<nat>, tw: int, th: int,
                  r: Rect, a: int, b: int, before: int)
    requires tw > 0 && th > 0 && r.left >= 0 && r.top >= 0 && a >= 0 && b >= 0
    ensures PixelCell(tw, th, r, a, b) != key ==>
              Shown(served[key := entry], invalid, tw, th, r, a, b, before) == Shown(served, invalid, tw, th, r, a, b, before)
    ensures PixelCell(tw, th, r, a, b) == key ==>
              Shown(served[key := entry], invalid, tw, th, r, a, b, before) ==
              if entry.Some? then CopiedValue(entry.value.1, entry.value.0, invalid, r.left + b, r.top + a) else before
  {
  }

  /** Tile origin k comes before origin (x, y) in the row-major order in
      which image_fill and mask_fill visit the grid. */
  predicate Before(k: Key, y: int, x: int)
  {
    k.top < y || (k.top == y && k.left < x)
  }

  /** No pixel of r lies in a tile before the first origin (ys, xs). */
  lemma PixelStart(tw: int, th: int, r: Rect, a: int, b: int, ys: int, xs: int)
    requires tw > 0 && th > 0 && r.left >= 0 && r.top >= 0 && a >= 0 && b >= 0
    requires ys == Floor(r.top, th) && xs == Floor(r.left, tw)
    ensures !Before(PixelCell(tw, th, r, a, b), ys, xs)
  {
    FloorMonotone(r.top, r.top + a, th);
    FloorMonotone(r.left, r.left + b, tw);
  }

  /** Stepping from origin (x, y) to (nx, y), nx = x + tw, passes exactly the
      pixels of the tile at (x, y). */
  lemma PixelStep(tw: int, th: int, r: Rect, a: int, b: int, y: int, x: int, nx: int)
    requires tw > 0 && th > 0 && r.left >= 0 && r.top >= 0 && a >= 0 && b >= 0
    requires x >= 0 && Floor(x, tw) == x && nx == x + tw
    ensures Before(PixelCell(tw, th, r, a, b), y, nx) <==>
            Before(PixelCell(tw, th, r, a, b), y, x) || PixelCell(tw, th, r, a, b) == Key(x, y)
  {
    var k := PixelCell(tw, th, r, a, b);
    if k.top == y && x <= k.left < nx {
      FloorOfAligned(x, k.left, tw);
    }
  }

  /** Once a row has reached the right edge of r, being before its end is
      being before the first origin (xs, ny) of the next row, ny = y + th. */
  lemma PixelNextRow(tw: int, th: int, r: Rect, a: int, b: int, y: int, x: int, ny: int, xs: int)
    requires tw > 0 && th > 0 && r.left >= 0 && r.top >= 0 && a >= 0 && 0 <= b < r.width
    requires y >= 0 && Floor(y, th) == y && ny == y + th && xs == Floor(r.left, tw) && x >= r.Right()
    ensures Before(PixelCell(tw, th, r, a, b), y, x) <==> Before(PixelCell(tw, th, r, a, b), ny, xs)
  {
    var k := PixelCell(tw, th, r, a, b);
    FloorMonotone(r.left, r.left + b, tw);
    assert xs <= k.left < x;
    if y <= k.top < ny {
      FloorOfAligned(y, k.top, th);
    }
  }

  /** Past the bottom of r every pixel's tile has been visited. */
  lemma PixelEnd(tw: int, th: int, r: Rect, a: int, b: int, y: int, x: int)
    requires tw > 0 && th > 0 && r.left >= 0 && r.top >= 0 && 0 <= a < r.height && b >= 0 && y >= r.Bottom()
    ensures Before(PixelCell(tw, th, r, a, b), y, x)
  {
    assert PixelCell(tw, th, r, a, b).top <= r.top + a;
  }

  /** The contents of `out`, row by row. */
  ghost function Snapshot(out: array2<int>): (s: seq<seq<int>>)
    reads out
    ensures |s| == out.Length0 && forall a :: 0 <= a < out.Length0 ==> |s[a]| == out.Length1
    ensures forall a, b :: 0 <= a < out.Length0 && 0 <= b < out.Length1 ==> s[a][b] == out[a, b]
  {
    seq(out.Length0, a reads out => seq(out.Length1, b reads out =>
      if 0 <= a < out.Length0 && 0 <= b < out.Length1 then out[a, b] else 0))
  }

  /** How far image_fill has got: the tiles at origins before (x, y) in
      row-major order have been served, and `out` (which held `orig`) shows
      them there and is untouched elsewhere. */
  ghost predicate Progress(out: array2<int>, orig: seq<seq<int>>, served: Served, invalid: set<nat>, tw: int, th: int,
                           r: Rect, y: int, x: int)
    reads out
    requires tw > 0 && th > 0 && r.left >= 0 && r.top >= 0
  {
    |orig| == out.Length0 && (forall a :: 0 <= a < |orig| ==> |orig[a]| == out.Length1) &&
    forall a, b :: 0 <= a < out.Length0 && 0 <= b < out.Length1 ==>
      var k := PixelCell(tw, th, r, a, b);
      var done := Before(k, y, x);
      (done ==> k in served) &&
      out[a, b] == if done then Shown(served, invalid, tw, th, r, a, b, orig[a][b]) else orig[a][b]
  }

  /** Before the first request nothing has been served and `out` is as it
      was: every pixel's tile origin is at or after the first origin. */
  lemma ProgressStart(out: array2<int>, orig: seq<seq<int>>, invalid: set<nat>, tw: int, th: int, r: Rect,
                      ys: int, xs: int)
    requires tw > 0 && th > 0 && r.left >= 0 && r.top >= 0
    requires ys == Floor(r.top, th) && xs == Floor(r.left, tw)
    requires |orig| == out.Length0 && forall a :: 0 <= a < out.Length0 ==> |orig[a]| == out.Length1
    requires forall a, b :: 0 <= a < out.Length0 && 0 <= b < out.Length1 ==> orig[a][b] == out[a, b]
    ensures Progress(out, orig, map[], invalid, tw, th, r, ys, xs)
  {
    forall a, b | 0 <= a < out.Length0 && 0 <= b < out.Length1
      ensures !Before(PixelCell(tw, th, r, a, b), ys, xs)
    {
      PixelStart(tw, th, r, a, b, ys, xs);
    }
  }


  /** A finished row y is the same progress as the start of row ny = y + th. */
  lemma ProgressNextRow(out: array2<int>, orig: seq<seq<int>>, served: Served, invalid: set<nat>, tw: int, th: int,
                        r: Rect, y: int, x: int, ny: int, xs: int)
    requires tw > 0 && th > 0 && r.left >= 0 && r.top >= 0
    requires out.Length0 == r.height && out.Length1 == r.width
    requires y >= 0 && Floor(y, th) == y && ny == y + th && xs == Floor(r.left, tw) && x >= r.Right()
    requires Progress(out, orig, served, invalid, tw, th, r, y, x)
    ensures Progress(out, orig, served, invalid, tw, th, r, ny, xs)
  {
    forall a, b | 0 <= a < out.Length0 && 0 <= b < out.Length1
      ensures Before(PixelCell(tw, th, r, a, b), y, x) <==> Before(PixelCell(tw, th, r, a, b), ny, xs)
    {
      PixelNextRow(tw, th, r, a, b, y, x, ny, xs);
    }
  }


  /** Past the last row every pixel has been served. */
  lemma ProgressDone(out: array2<int>, orig: seq<seq<int>>, served: Served, invalid: set<nat>, tw: int, th: int,
                     r: Rect, y: int, x: int)
    requires tw > 0 && th > 0 && r.left >= 0 && r.top >= 0 && y >= r.Bottom()
    requires out.Length0 == r.height && out.Length1 == r.width
    requires Progress(out, orig, served, invalid, tw, th, r, y, x)
    ensures forall a, b :: 0 <= a < out.Length0 && 0 <= b < out.Length1 ==>
              PixelCell(tw, th, r, a, b) in served &&
              out[a, b] == Shown(served, invalid, tw, th, r, a, b, orig[a][b])
  {
    forall a, b | 0 <= a < out.Length0 && 0 <= b < out.Length1
      ensures Before(PixelCell(tw, th, r, a, b), y, x)
    {
      PixelEnd(tw, th, r, a, b, y, x);
    }
  }

  /** mask_fill's value for the tile at k: 255 when the cache holds a painted
      tile there whose region is valid, otherwise 0. */
  function MaskValue(c: Cache, invalid: set<nat>, k: Key): (v: int)
    ensures v == 0 || v == 255
  {
    match Lookup(c, k)
    case Some(i) => if i < |c.pool| && c.pool[i].painted && i !in invalid then 255 else 0
    case None => 0
  }

  /** Between requests every cached tile is painted, so the mask is 255
      exactly over the tiles that are cached and not invalidated. */
  lemma MaskMeansCached(c: Cache, invalid: set<nat>, k: Key)
    requires ScreenCache.Valid(c)
    ensures MaskValue(c, invalid, k) == 255 <==> k in c.index && c.index[k] !in invalid
  {
  }
  /** How far mask_fill has got: the tiles at origins before (x, y) are
      painted with their mask value, and `out` (which held `orig`) is
      untouched elsewhere. */
  ghost predicate Masked(out: array2<int>, orig: seq<seq<int>>, c: Cache, invalid: set<nat>, tw: int, th: int,
                         r: Rect, y: int, x: int)
    reads out
    requires tw > 0 && th > 0 && r.left >= 0 && r.top >= 0
  {
    |orig| == out.Length0 && (forall a :: 0 <= a < |orig| ==> |orig[a]| == out.Length1) &&
    forall a, b :: 0 <= a < out.Length0 && 0 <= b < out.Length1 ==>
      out[a, b] == if Before(PixelCell(tw, th, r, a, b), y, x)
                   then MaskValue(c, invalid, PixelCell(tw, th, r, a, b)) else orig[a][b]
  }

  lemma MaskedStart(out: array2<int>, orig: seq<seq<int>>, c: Cache, invalid: set<nat>, tw: int, th: int, r: Rect,
                    ys: int, xs: int)
    requires tw > 0 && th > 0 && r.left >= 0 && r.top >= 0
    requires ys == Floor(r.top, th) && xs == Floor(r.left, tw)
    requires |orig| == out.Length0 && forall a :: 0 <= a < out.Length0 ==> |orig[a]| == out.Length1
    requires forall a, b :: 0 <= a < out.Length0 && 0 <= b < out.Length1 ==> orig[a][b] == out[a, b]
    ensures Masked(out, orig, c, invalid, tw, th, r, ys, xs)
  {
    forall a, b | 0 <= a < out.Length0 && 0 <= b < out.Length1
      ensures !Before(PixelCell(tw, th, r, a, b), ys, xs)
    {
      PixelStart(tw, th, r, a, b, ys, xs);
    }
  }

  lemma MaskedNextRow(out: array2<int>, orig: seq<seq<int>>, c: Cache, invalid: set<nat>, tw: int, th: int,
                      r: Rect, y: int, x: int, ny: int, xs: int)
    requires tw > 0 && th > 0 && r.left >= 0 && r.top >= 0
    requires out.Length0 == r.height && out.Length1 == r.width
    requires y >= 0 && Floor(y, th) == y && ny == y + th && xs == Floor(r.left, tw) && x >= r.Right()
    requires Masked(out, orig, c, invalid, tw, th, r, y, x)
    ensures Masked(out, orig, c, invalid, tw, th, r, ny, xs)
  {
    forall a, b | 0 <= a < out.Length0 && 0 <= b < out.Length1
      ensures Before(PixelCell(tw, th, r, a, b), y, x) <==> Before(PixelCell(tw, th, r, a, b), ny, xs)
    {
      PixelNextRow(tw, th, r, a, b, y, x, ny, xs);
    }
  }

  lemma MaskedDone(out: array2<int>, orig: seq<seq<int>>, c: Cache, invalid: set<nat>, tw: int, th: int,
                   r: Rect, y: int, x: int)
    requires tw > 0 && th > 0 && r.left >= 0 && r.top >= 0 && y >= r.Bottom()
    requires out.Length0 == r.height && out.Length1 == r.width
    requires Masked(out, orig, c, invalid, tw, th, r, y, x)
    ensures forall a, b :: 0 <= a < out.Length0 && 0 <= b < out.Length1 ==>
              out[a, b] == MaskValue(c, invalid, PixelCell(tw, th, r, a, b))
  {
    forall a, b | 0 <= a < out.Length0 && 0 <= b < out.Length1
      ensures Before(PixelCell(tw, th, r, a, b), y, x)
    {
      PixelEnd(tw, th, r, a, b, y, x);
    }
  }


  /** Writes f(x, y) to every pixel of `out` (the region r) inside `area`
      and leaves the others alone: a row-by-row copy or paint of the common
      part of area and r. */
  method Blit(out: array2<int>, r: Rect, area: Rect, f: (int, int) -> int)
    requires out.Length0 == r.height && out.Length1 == r.width
    modifies out
    ensures forall a, b :: 0 <= a < out.Length0 && 0 <= b < out.Length1 ==>
              out[a, b] == if area.Contains(r.left + b, r.top + a) then f(r.left + b, r.top + a) else old(out[a, b])
  {
    var ov := Intersect(area, r);
    if ov.width == 0 || ov.height == 0 {
      return;
    }
    var y := ov.top;
    while y < ov.Bottom()
      invariant ov.top <= y <= ov.Bottom()
      invariant forall a, b :: 0 <= a < out.Length0 && 0 <= b < out.Length1 ==>
                  out[a, b] == if ov.Contains(r.left + b, r.top + a) && r.top + a < y
                               then f(r.left + b, r.top + a) else old(out[a, b])
    {
      var x := ov.left;
      while x < ov.Right()
        invariant ov.left <= x <= ov.Right()
        invariant forall a, b :: 0 <= a < out.Length0 && 0 <= b < out.Length1 ==>
                    out[a, b] == if ov.Contains(r.left + b, r.top + a) &&
                                    (r.top + a < y || (r.top + a == y && r.left + b < x))
                                 then f(r.left + b, r.top + a) else old(out[a, b])
      {
        out[y - r.top, x - r.left] := f(x, y);
        x := x + 1;
      }
      y := y + 1;
    }
  }

  /** Per-call state of the screen sink, with the tile cache in its fields. */
  class Render {
    const tileWidth: int
    const tileHeight: int
    const maxTiles: int
    /** All tiles, in the order they were made (the C list prepends). */
    var all: seq<Tile>
    /** Origin to tile. */
    var tiles: map<Key, nat>
    var ntiles: int
    var ticks: int
    var refCount: nat
    /** render_free has run. */
    var freed: bool

    function State(): Cache
      reads this
    {
      Cache(tileWidth, tileHeight, maxTiles, all, tiles, ntiles, ticks)
    }

    ghost predicate Valid()
      reads this
    {
      ScreenCache.Valid(State()) && (freed <==> refCount == 0)
    }

    /** render_new: one reference for the output image, one more for the
        mask when there is one (each drops its reference when it closes). */
    constructor (tileWidth: int, tileHeight: int, maxTiles: int, hasMask: bool)
      requires tileWidth > 0 && tileHeight > 0 && maxTiles >= -1
      ensures State() == Empty(tileWidth, tileHeight, maxTiles)
      ensures refCount == (if hasMask then 2 else 1) && !freed && Valid()
    {
      this.tileWidth := tileWidth;
      this.tileHeight := tileHeight;
      this.maxTiles := maxTiles;
      all, tiles, ntiles, ticks := [], map[], 0, 0;
      refCount := if hasMask then 2 else 1;
      freed := false;
    }

    /** render_ref */
    method Ref()
      requires Valid() && refCount > 0
      modifies this
      ensures refCount == old(refCount) + 1 && State() == old(State()) && !freed && Valid()
    {
      refCount := refCount + 1;
    }

    /** render_unref: the last reference frees the tiles. */
    method Unref()
      requires Valid() && refCount > 0
      modifies this
      ensures refCount == old(refCount) - 1 && freed == (refCount == 0) && Valid()
      ensures refCount > 0 ==> State() == old(State())
      ensures refCount == 0 ==> all == [] && tiles == map[] && ntiles == 0
    {
      refCount := refCount - 1;
      if refCount == 0 {
        Free();
      }
    }

    /** render_free */
    method Free()
      requires refCount == 0 && tileWidth > 0 && tileHeight > 0 && maxTiles >= -1 && ticks >= 0
      modifies this
      ensures all == [] && tiles == map[] && ntiles == 0 && ticks == old(ticks) && freed && refCount == 0
    {
      all, tiles, ntiles := [], map[], 0;
      freed := true;
    }

    /** tile_new */
    method TileNew() returns (i: nat)
      requires tileWidth >= 0 && tileHeight >= 0
      modifies this
      ensures i == |old(all)| && State() == NewTile(old(State())) && unchanged(this`refCount, this`freed)
    {
      i := |all|;
      all := all + [Tile(Key(0, 0), false, ticks, Blank(tileWidth, tileHeight))];
      ntiles := ntiles + 1;
    }

    /** render_tile_lookup */
    method TileLookup(k: Key) returns (t: Option<nat>)
      ensures t == Lookup(State(), k)
    {
      t := if k in tiles then Some(tiles[k]) else None;
    }

    /** render_tile_add; the origin must not be in the table. */
    method TileAdd(i: nat, k: Key)
      requires i < |all| && k !in tiles
      modifies this
      ensures State() == Add(old(State()), i, k) && unchanged(this`refCount, this`freed)
    {
      all := all[i := all[i].(key := k, painted := false)];
      tiles := tiles[k := i];
    }

    /** render_tile_move; the tile must be in the table, and a different
        origin must not be. */
    method TileMove(i: nat, k: Key)
      requires i < |all| && all[i].key in tiles && (all[i].key != k ==> k !in tiles)
      modifies this
      ensures State() == Move(old(State()), i, k) && unchanged(this`refCount, this`freed)
    {
      if all[i].key != k {
        tiles := tiles - {all[i].key};
        TileAdd(i, k);
      }
    }

    /** tile_touch */
    method TileTouch(i: nat)
      requires i < |all|
      modifies this
      ensures State() == Touch(old(State()), i) && unchanged(this`refCount, this`freed)
    {
      all := all[i := all[i].(ticks := ticks)];
      ticks := ticks + 1;
    }

    /** tile_queue: the tile is computed synchronously; a failed computation
        leaves the buffer as it was, and the tile is marked painted anyway. */
    method TileQueue(i: nat, src: (int, int) -> int, fails: set<Key>)
      requires i < |all| && tileWidth >= 0 && tileHeight >= 0
      modifies this
      ensures State() == Queue(old(State()), i, src, fails) && unchanged(this`refCount, this`freed)
    {
      all := all[i := all[i].(painted := false)];
      TileTouch(i);
      if all[i].key !in fails {
        all := all[i := all[i].(pixels := Computed(src, all[i].key, tileWidth, tileHeight))];
      }
      all := all[i := all[i].(painted := true)];
      assert all[i].pixels == Prepared(old(all[i]), src, fails, tileWidth, tileHeight);
    }

    /** render_tile_get_painted: one pass over the tiles keeping the painted
        one with the smallest stamp. */
    method GetPainted() returns (best: Option<nat>)
      ensures best == Lru(all)
      ensures best.Some? ==> best.value < |all| && all[best.value].painted
    {
      best := None;
      var i := 0;
      while i < |all|
        invariant 0 <= i <= |all|
        invariant best == Lru(all[..i])
      {
        assert all[..i + 1][..i] == all[..i];
        if all[i].painted && (best.None? || all[i].ticks < all[best.value].ticks) {
          best := Some(i);
        }
        i := i + 1;
      }
      assert all[..i] == all;
    }

    /** render_tile_request */
    method TileRequest(k: Key, invalid: set<nat>, src: (int, int) -> int, fails: set<Key>) returns (tile: Option<nat>)
      requires Valid()
      modifies this
      ensures Outcome(State(), tile) == Request(old(State()), k, invalid, src, fails)
      ensures Valid() && unchanged(this`refCount, this`freed)
    {
      ghost var c := State();
      RequestPreservesValid(c, k, invalid, src, fails);
      tile := TileLookup(k);
      if tile.Some? {
        if tile.value in invalid {
          TileQueue(tile.value, src, fails);
        } else {
          TileTouch(tile.value);
        }
      } else if ntiles < maxTiles || maxTiles == -1 {
        var i := TileNew();
        TileAdd(i, k);
        TileQueue(i, src, fails);
        tile := Some(i);
      } else {
        tile := GetPainted();
        if tile.Some? {
          TileMove(tile.value, k);
          TileQueue(tile.value, src, fails);
        }
      }
    }

    /** tile_copy: the part of tile i inside r is copied into `out` when the
        tile is painted and valid, and zeroed otherwise. */
    method TileCopy(i: nat, invalid: set<nat>, r: Rect, out: array2<int>)
      requires i < |all| && out.Length0 == r.height && out.Length1 == r.width
      requires tileWidth > 0 && tileHeight > 0
      modifies out
      ensures forall a, b :: 0 <= a < out.Length0 && 0 <= b < out.Length1 ==>
                out[a, b] == if Rect(all[i].key.left, all[i].key.top, tileWidth, tileHeight).Contains(r.left + b, r.top + a)
                             then CopiedValue(all[i], i, invalid, r.left + b, r.top + a) else old(out[a, b])
    {
      var t := all[i];
      var area := Rect(t.key.left, t.key.top, tileWidth, tileHeight);
      if t.painted && i !in invalid {
        Blit(out, r, area, (x, y) => At(t.pixels, y - t.key.top, x - t.key.left));
      } else {
        Blit(out, r, area, (x, y) => 0);
      }
    }

    /** One step of image_fill: the tile at origin key is requested and,
        when one is served, copied into `out` (the region r). */
    method FillTile(key: Key, r: Rect, invalid: set<nat>, src: (int, int) -> int, fails: set<Key>, out: array2<int>)
      returns (tile: Option<nat>)
      requires Valid() && r.left >= 0 && r.top >= 0 && out.Length0 == r.height && out.Length1 == r.width
      requires key.left >= 0 && key.top >= 0 && Floor(key.left, tileWidth) == key.left && Floor(key.top, tileHeight) == key.top
      modifies this, out
      ensures Valid() && unchanged(this`refCount, this`freed)
      ensures Outcome(State(), tile) == Request(old(State()), key, invalid, src, fails)
      ensures tile.Some? ==> tile.value < |all| && all[tile.value].key == key
      ensures forall a, b :: 0 <= a < out.Length0 && 0 <= b < out.Length1 ==>
                out[a, b] == if tile.Some? && PixelCell(tileWidth, tileHeight, r, a, b) == key
                             then CopiedValue(all[tile.value], tile.value, invalid, r.left + b, r.top + a)
                             else old(out[a, b])
    {
      RequestServes(State(), key, invalid, src, fails);
      tile := TileRequest(key, invalid, src, fails);
      if tile.Some? {
        TileCopy(tile.value, invalid, r, out);
      }
      forall a, b | 0 <= a < out.Length0 && 0 <= b < out.Length1
        ensures PixelCell(tileWidth, tileHeight, r, a, b) == key <==>
                Rect(key.left, key.top, tileWidth, tileHeight).Contains(r.left + b, r.top + a)
      {
        CellOfTile(tileWidth, tileHeight, key, r.left + b, r.top + a);
      }
    }

    /** One step along a row of image_fill: the origin (x, y) is requested,
        its part of `out` shows what was served, and what is left of the
        fill is the rest of the row (nx is x + tileWidth). */
    method FillStep(x: int, nx: int, y: int, r: Rect, invalid: set<nat>, src: (int, int) -> int, fails: set<Key>,
                    out: array2<int>, ghost orig: seq<seq<int>>, ghost c0: Cache, ghost cells0: seq<Key>,
                    ghost served0: Served, ghost later: seq<Key>, ghost served: Served)
      returns (ghost served': Served)
      requires Valid() && r.left >= 0 && r.top >= 0 && out.Length0 == r.height && out.Length1 == r.width
      requires x >= 0 && y >= 0 && Floor(x, tileWidth) == x && Floor(y, tileHeight) == y && x < r.Right()
      requires nx == x + tileWidth && ScreenCache.Valid(c0)
      requires FillRequests(c0, cells0, invalid, src, fails, served0) ==
               FillRequests(State(), RowCells(y, x, r.Right(), tileWidth) + later, invalid, src, fails, served)
      requires Progress(out, orig, served, invalid, tileWidth, tileHeight, r, y, x)
      modifies this, out
      ensures Valid() && unchanged(this`refCount, this`freed)
      ensures FillRequests(c0, cells0, invalid, src, fails, served0) ==
              FillRequests(State(), RowCells(y, nx, r.Right(), tileWidth) + later, invalid, src, fails, served')
      ensures Progress(out, orig, served', invalid, tileWidth, tileHeight, r, y, nx)
    {
      var tw, th := tileWidth, tileHeight;
      ghost var before := State();
      var key := Key(x, y);
      var tile := FillTile(key, r, invalid, src, fails, out);
      FillAdvance(c0, cells0, served0, before, y, x, nx, r.Right(), tw, later, invalid, src, fails, served, State(), tile);
      ghost var entry := Entry(Outcome(State(), tile));
      assert entry == if tile.Some? then Some((tile.value, all[tile.value])) else None;
      served' := served[key := entry];
      forall a, b | 0 <= a < out.Length0 && 0 <= b < out.Length1
        ensures var k := PixelCell(tw, th, r, a, b);
                var done := Before(k, y, nx);
                (done ==> k in served') &&
                out[a, b] == if done then Shown(served', invalid, tw, th, r, a, b, orig[a][b]) else orig[a][b]
      {
        PixelStep(tw, th, r, a, b, y, x, nx);
        ShownStep(served, key, entry, invalid, tw, th, r, a, b, orig[a][b]);
      }
    }

    /** One row of tiles of image_fill, the row with origins at height y
        (ny is y + tileHeight), from the first origin xs of the region. */
    method FillRow(y: int, ny: int, xs: int, r: Rect, invalid: set<nat>, src: (int, int) -> int, fails: set<Key>,
                   out: array2<int>, ghost orig: seq<seq<int>>, ghost c0: Cache, ghost cells0: seq<Key>,
                   ghost served0: Served, ghost later: seq<Key>, ghost served: Served)
      returns (ghost served': Served)
      requires Valid() && r.left >= 0 && r.top >= 0 && out.Length0 == r.height && out.Length1 == r.width
      requires y >= 0 && Floor(y, tileHeight) == y && ny == y + tileHeight && xs == Floor(r.left, tileWidth)
      requires ScreenCache.Valid(c0)
      requires FillRequests(c0, cells0, invalid, src, fails, served0) ==
               FillRequests(State(), RowCells(y, xs, r.Right(), tileWidth) + later, invalid, src, fails, served)
      requires Progress(out, orig, served, invalid, tileWidth, tileHeight, r, y, xs)
      modifies this, out
      ensures Valid() && unchanged(this`refCount, this`freed)
      ensures FillRequests(c0, cells0, invalid, src, fails, served0) == FillRequests(State(), later, invalid, src, fails, served')
      ensures Progress(out, orig, served', invalid, tileWidth, tileHeight, r, ny, xs)
    {
      var tw := tileWidth;
      FloorAligned(r.left, tw);
      served' := served;
      var x := xs;
      while x < r.Right()
        invariant Valid() && unchanged(this`refCount, this`freed)
        invariant x >= 0 && Floor(x, tw) == x
        invariant FillRequests(c0, cells0, invalid, src, fails, served0) ==
                  FillRequests(State(), RowCells(y, x, r.Right(), tw) + later, invalid, src, fails, served')
        invariant Progress(out, orig, served', invalid, tw, tileHeight, r, y, x)
        decreases r.Right() - x
      {
        var nx := x + tw;
        FloorStep(x, nx, tw);
        served' := FillStep(x, nx, y, r, invalid, src, fails, out, orig, c0, cells0, served0, later, served');
        x := nx;
      }
      RowEnd(y, x, r.Right(), tw, later);
      ProgressNextRow(out, orig, served', invalid, tw, tileHeight, r, y, x, ny, xs);
    }

    /** image_fill for the output region r (held in `out`, row a and column
        b being pixel (r.left + b, r.top + a)): every tile origin of the grid
        that r meets is requested in turn, row by row, and what each request
        serves is copied into `out` at once. */
    method ImageFill(r: Rect, invalid: set<nat>, src: (int, int) -> int, fails: set<Key>, out: array2<int>)
      returns (ghost served: Served)
      requires Valid() && r.left >= 0 && r.top >= 0 && out.Length0 == r.height && out.Length1 == r.width
      modifies this, out
      ensures Valid() && unchanged(this`refCount, this`freed)
      ensures (State(), served) ==
              FillRequests(old(State()), GridCells(Floor(r.top, tileHeight), Floor(r.left, tileWidth), r.Bottom(), r.Right(),
                                                   tileWidth, tileHeight), invalid, src, fails, map[])
      ensures forall a, b :: 0 <= a < out.Length0 && 0 <= b < out.Length1 ==>
                PixelCell(tileWidth, tileHeight, r, a, b) in served
      ensures forall a, b :: 0 <= a < out.Length0 && 0 <= b < out.Length1 ==>
                out[a, b] == Shown(served, invalid, tileWidth, tileHeight, r, a, b, old(out[a, b]))
    {
      var tw, th := tileWidth, tileHeight;
      var xs := CDiv(r.left, tw) * tw;
      var ys := CDiv(r.top, th) * th;
      FloorIsDivMul(r.left, tw);
      FloorIsDivMul(r.top, th);
      assert xs == Floor(r.left, tw) && ys == Floor(r.top, th);
      FloorAligned(r.top, th);
      ghost var orig := Snapshot(out);
      ghost var c0 := State();
      ghost var cells := GridCells(ys, xs, r.Bottom(), r.Right(), tw, th);
      served := map[];
      ProgressStart(out, orig, invalid, tw, th, r, ys, xs);
      var y := ys;
      while y < r.Bottom()
        invariant Valid() && unchanged(this`refCount, this`freed)
        invariant y >= 0 && Floor(y, th) == y
        invariant FillRequests(c0, cells, invalid, src, fails, map[]) ==
                  FillRequests(State(), GridCells(y, xs, r.Bottom(), r.Right(), tw, th), invalid, src, fails, served)
        invariant Progress(out, orig, served, invalid, tw, th, r, y, xs)
        decreases r.Bottom() - y
      {
        var ny := y + th;
        FloorStep(y, ny, th);
        GridUnfold(y, ny, xs, r.Bottom(), r.Right(), tw, th);
        served := FillRow(y, ny, xs, r, invalid, src, fails, out, orig, c0, cells, map[],
                          GridCells(ny, xs, r.Bottom(), r.Right(), tw, th), served);
        y := ny;
      }
      GridEnd(State(), y, xs, r.Bottom(), r.Right(), tw, th, invalid, src, fails, served);
      ProgressDone(out, orig, served, invalid, tw, th, r, y, xs);
    }

    /** One row of mask_fill, the row of tile origins at height y (ny is
        y + tileHeight): each tile is painted with its mask value. */
    method MaskRow(y: int, ny: int, xs: int, r: Rect, invalid: set<nat>, out: array2<int>, ghost orig: seq<seq<int>>)
      requires Valid() && r.left >= 0 && r.top >= 0 && out.Length0 == r.height && out.Length1 == r.width
      requires y >= 0 && Floor(y, tileHeight) == y && ny == y + tileHeight && xs == Floor(r.left, tileWidth)
      requires Masked(out, orig, State(), invalid, tileWidth, tileHeight, r, y, xs)
      modifies out
      ensures Masked(out, orig, State(), invalid, tileWidth, tileHeight, r, ny, xs)
    {
      var tw, th := tileWidth, tileHeight;
      FloorAligned(r.left, tw);
      var x := xs;
      while x < r.Right()
        invariant x >= 0 && Floor(x, tw) == x
        invariant Masked(out, orig, State(), invalid, tw, th, r, y, x)
        decreases r.Right() - x
      {
        var nx := x + tw;
        FloorStep(x, nx, tw);
        var key := Key(x, y);
        var tile := TileLookup(key);
        var value := if tile.Some? && tile.value < |all| && all[tile.value].painted && tile.value !in invalid
                     then 255 else 0;
        assert value == MaskValue(State(), invalid, key);
        Blit(out, r, Rect(x, y, tw, th), (px: int, py: int) => value);
        forall a, b | 0 <= a < out.Length0 && 0 <= b < out.Length1
          ensures out[a, b] == if Before(PixelCell(tw, th, r, a, b), y, nx)
                               then MaskValue(State(), invalid, PixelCell(tw, th, r, a, b)) else orig[a][b]
        {
          CellOfTile(tw, th, key, r.left + b, r.top + a);
          PixelStep(tw, th, r, a, b, y, x, nx);
        }
        x := nx;
      }
      MaskedNextRow(out, orig, State(), invalid, tw, th, r, y, x, ny, xs);
    }

    /** mask_fill for the mask region r (held in `out` as image_fill's
        region is): each tile of the grid that r meets is painted 255 when
        the cache holds a painted tile there whose region is valid, and 0
        otherwise. Nothing is requested, so the cache does not change. */
    method MaskFill(r: Rect, invalid: set<nat>, out: array2<int>)
      requires Valid() && r.left >= 0 && r.top >= 0 && out.Length0 == r.height && out.Length1 == r.width
      modifies out
      ensures forall a, b :: 0 <= a < out.Length0 && 0 <= b < out.Length1 ==>
                out[a, b] == MaskValue(State(), invalid, PixelCell(tileWidth, tileHeight, r, a, b))
    {
      var tw, th := tileWidth, tileHeight;
      var xs := CDiv(r.left, tw) * tw;
      var ys := CDiv(r.top, th) * th;
      FloorIsDivMul(r.left, tw);
      FloorIsDivMul(r.top, th);
      assert xs == Floor(r.left, tw) && ys == Floor(r.top, th);
      FloorAligned(r.top, th);
      ghost var orig := Snapshot(out);
      MaskedStart(out, orig, State(), invalid, tw, th, r, ys, xs);
      var y := ys;
      while y < r.Bottom()
        invariant y >= 0 && Floor(y, th) == y
        invariant Masked(out, orig, State(), invalid, tw, th, r, y, xs)
        decreases r.Bottom() - y
      {
        var ny := y + th;
        FloorStep(y, ny, th);
        MaskRow(y, ny, xs, r, invalid, out, orig);
        y := ny;
      }
      MaskedDone(out, orig, State(), invalid, tw, th, r, y, xs);
    }
  }

  /** vips_sink_screen's parameter check and render_new: a tile size that
      is not positive or a cache limit below -1 is refused with "bad
      parameters"; otherwise a new render holds an empty cache. */
  method NewSink(tileWidth: int, tileHeight: int, maxTiles: int, hasMask: bool) returns (r: Result<Render>)
    ensures r.Err? <==> tileWidth <= 0 || tileHeight <= 0 || maxTiles < -1
    ensures r.Err? ==> r.msg == "bad parameters"
    ensures r.Ok? ==> fresh(r.value) && r.value.Valid() && r.value.State() == Empty(tileWidth, tileHeight, maxTiles) &&
                      r.value.refCount == (if hasMask then 2 else 1)
  {
    if tileWidth <= 0 || tileHeight <= 0 || maxTiles < -1 {
      return Err("bad parameters");
    }
    var render := new Render(tileWidth, tileHeight, maxTiles, hasMask);
    r := Ok(render);
  }
}
