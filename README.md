# libvips core: screen-sink tile cache, integer convolution, hit-or-miss morphology, SIMD flags, `.vips` sniffing

This project models five pieces of libvips in Dafny and proves properties of them.

- **Screen sink** (`libvips/iofuncs/sinkscreen.c`). A `Render` is a per-call cache of fixed-size tiles.
  - The tiles are keyed by their origin `(left, top)`. Each tile has a `painted` flag and an LRU stamp (`ticks`).
  - `render_tile_request` has four outcomes:
    - on a hit, touch the tile, or recompute it if its region is invalid;
    - on a miss below the limit, make a new tile;
    - on a miss at the limit, reuse the least recently used painted tile;
    - otherwise, hand out nothing.
  - `image_fill` walks the grid of tiles that an output region meets and copies each tile in. `mask_fill` paints 255 or 0 per tile, from the cache state alone.
  - A manual reference count ties the Render to the output and mask images.
  - Module `ScreenCache` (`screencache.dfy`) states the cache as a state machine over values.
  - Module `SinkScreen` (`sinkscreen.dfy`) has class `Render`. It keeps that state in mutable fields and proves every method against the `ScreenCache` functions. It writes the fills into an `array2`.
- **Integer convolution** (`libvips/convolution/convi.c`, C path), module `Convi` (`convi.dfy`):
  - the squeeze of zero coefficients;
  - the per-sequence offset table, cached by line skip;
  - `CONV_INT`, with C's truncating division and the per-format clips;
  - the embed/shrink output geometry.
- **Hit-or-miss morphology** (`libvips/morphology/morph.c`, C path), module `Morph` (`morph.dfy`):
  - mask validation;
  - the set and clear offset lists;
  - the dilate and erode search loops.
- **SIMD feature flags** (`libvips/iofuncs/simd.c`), module `Simd` (`simd.dfy`): two global booleans guarded by build flags.
- **`.vips` magic sniffing** (`libvips/foreign/vipsload.c`), module `VipsLoad` (`vipsload.dfy`).
- **Shared modules**:
  - `Common` (`common.dfy`): Option and Result, C division, `VIPS_CLIP`, rectangles, and the geometry that both mask operators share;
  - `MaskWindow` (`window.dfy`): region addressing, and the input elements under a mask.

Inputs that the code reads from elsewhere are parameters of the model:

- the image the screen sink renders: a function `src` from pixel position to value;
- which computations fail: a set `fails` of tile origins;
- which tile regions are invalid: a set `invalid` of tile indices;
- the bytes a source delivers;
- the parsed `VIPS_SIMD` value;
- the CPU's answers to `__builtin_cpu_supports`.

## Model

| member | source | states |
|---|---|---|
| Common.CDiv | libvips/convolution/convi.c:279 | C's `/`: the remainder is smaller than the divisor in magnitude and has the dividend's sign, so the quotient is truncated toward zero; for non-negative operands it is the ordinary quotient |
| Common.Clip | libvips/convolution/convi.c:313-317 | `VIPS_CLIP(lo, x, hi)` lies in `[lo, hi]`, is `x` inside the range, `lo` below it and `hi` above it |
| Common.Intersect | libvips/iofuncs/sinkscreen.c:525 | the overlap rectangle contains exactly the points that lie in both rectangles, and is empty when they do not meet |
| Common.MaskOutputGeometry | libvips/convolution/convi.c:742-750 | embedding by M-1 and then shrinking by M-1 gives the input's width and height; the offsets are `-Mx/2` and `-My/2`, with unary minus before truncating division |
| Common.MaskInputArea | libvips/convolution/convi.c:346-353 | the prepared input area has the output rectangle's origin and is Mx-1 wider and My-1 taller |
| MaskWindow.AddrDifference | libvips/convolution/convi.c:363-366 | the byte distance between `(x+le, y+to)` and `(le, to)` in a region is `y*bpl + x*psize`, whatever the region's origin |
| MaskWindow.PreparedAreaCoversMask | libvips/convolution/convi.c:346-353 | every mask tap of every output element of the rectangle lies inside the prepared input area |
| Convi.ClipFormat | libvips/convolution/convi.c:376-399 | uchar, char, ushort and short results lie in their type's range and are unchanged when already in it; uint and int are not clipped |
| Convi.OutputRoundsHalfUp | libvips/convolution/convi.c:279 | for a positive scale and a non-negative rounded sum, the unclipped result is `sum/scale` rounded half up |
| Convi.OutputTruncatesTowardZero | libvips/convolution/convi.c:279 | for a positive scale and a negative rounded sum, the unclipped result is the quotient truncated toward zero: `(q-1)*scale < sum + scale/2 <= q*scale` |
| Convi.TruncationIsNotFloor | libvips/convolution/convi.c:279 | one input where C and Euclidean division differ: `(-5+1)/3` gives -1 in C, where Euclidean division gives -2 |
| Convi.OutputInRange | libvips/convolution/convi.c:376-399 | every clipped output element lies in its format's range |
| Convi.NonZerosProperties | libvips/convolution/convi.c:711-719 | the squeezed coefficients are the non-zero mask elements at their positions; the positions strictly increase and list every non-zero element |
| Convi.SqueezedProperties | libvips/convolution/convi.c:711-728 | after the squeeze `1 <= nnz <= n_point`, `coeff[k] == mask[coeff_pos[k]]`, the positions strictly increase, every non-zero element is listed, and an all-zero mask leaves the single entry 0 at position 0 |
| Convi.NonZerosPreserveSum | libvips/convolution/convi.c:711-719 | the non-zero coefficients, weighted against the elements at their positions, give the full mask's weighted sum |
| Convi.SqueezePreservesSum | libvips/convolution/convi.c:711-728 | the squeezed mask, all-zero masks included, gives the full mask's weighted sum against any taps |
| Convi.Squeeze | libvips/convolution/convi.c:711-728 | the squeeze loop yields the squeezed mask, with `nnz` its length and all the properties above |
| Convi.ElementOffsetIsPositionFree | libvips/convolution/convi.c:358-370 | table entry k is `(z/Mx)*lineElements + (z%Mx)*bands` for `z = coeff_pos[k]`; it depends only on the line skip, which is what makes caching by line skip sound |
| Convi.ConviSequence.constructor | libvips/convolution/convi.c:182-200 | a new sequence has an nnz-entry offset table and `last_bpl == -1`, and satisfies the sequence invariant: once built, the table holds the offsets for line skip `last_bpl` |
| Convi.ConviSequence.UpdateOffsets | libvips/convolution/convi.c:355-371 | keeps the sequence invariant; when the line skip equals `last_bpl`, the table is left alone, otherwise it is rebuilt; either way every entry is then the element offset of its mask position in the current region, which is the precondition of `TableSumIsFullMaskSum` |
| Convi.ElementSum | libvips/convolution/convi.c:275-277 | the inner loop's `sum` is the weighted sum of the coefficients and the gathered taps |
| Convi.ConviGen | libvips/convolution/convi.c:266-286 | every output element is `CLIP((sum + scale/2)/scale + offset)` over its taps |
| Convi.TableSumIsFullMaskSum | libvips/convolution/convi.c:267-286 | with the table built for the squeezed mask, the sum CONV_INT forms equals the full mask's weighted sum over the element's window |
| Morph.CheckMask | libvips/morphology/morph.c:607-617 | the mask check succeeds exactly when every element is 0, 128 or 255, and then the coefficients equal the mask |
| Morph.PositionsProperties | libvips/morphology/morph.c:364-392 | the positions listed for a value strictly increase (row-major order) and include every element with that value |
| Morph.ListsFit | libvips/morphology/morph.c:364-392 | the set list and the clear list together hold at most n_point entries |
| Morph.MorphSequence.constructor | libvips/morphology/morph.c:136-163 | a new sequence has n_point entries for each list, both lists empty, and `last_bpl == -1`, and satisfies the sequence invariant: once built, the lists hold the offsets for line skip `last_bpl` |
| Morph.MorphSequence.Scan | libvips/morphology/morph.c:364-392 | keeps the sequence invariant; the scan runs only when the line skip changed, and otherwise changes nothing; either way `soff` then lists the offsets of the 255 elements and `coff` those of the 0 elements in the current region, with `ss + cs <= n_point` |
| Morph.MorphSequence.BuildLists | libvips/morphology/morph.c:367-391 | the nested row and column loops list all the 255 and 0 elements of the mask |
| Morph.ScanPosition | libvips/morphology/morph.c:373-376 | the offset computed for mask element (x, y) is that of mask position `y*Mx + x` |
| Morph.HitOrMiss | libvips/morphology/morph.c:720-730 | the documented result for a window is 0 or 255: dilate hits when any element matches, erode when all do |
| Morph.DilateAt | libvips/morphology/morph.c:404-429 | the result is 255 exactly when some set-list pixel is non-zero or some clear-list pixel is zero; otherwise it is 0 |
| Morph.ErodeAt | libvips/morphology/morph.c:521-543 | the result is 255 exactly when every set-list pixel is non-zero and every clear-list pixel is zero; otherwise it is 0 |
| Morph.MorphGen | libvips/morphology/morph.c:397-429 | every output pixel of the block is the rule applied to its set-list and clear-list pixels |
| Morph.RuleIsBinary | libvips/morphology/morph.c:407-428 | every output pixel is 0 or 255 |
| Morph.ListSearch | libvips/morphology/morph.c:406-426 | searching the listed pixels is searching the mask's window for an element of that value over a non-zero (or zero) pixel |
| Morph.RuleIsHitOrMiss | libvips/morphology/morph.c:364-429 | with the lists the scan builds, the per-pixel rule equals the hit-or-miss test of the whole mask against the pixel's window |
| Morph.AllDontCare | libvips/morphology/morph.c:407 | an all-128 mask leaves both lists empty; dilate then yields 0 and erode 255 |
| Morph.StoredClearOffset | libvips/morphology/morph.c:115 | a value stored in the `guint8` clear list is the offset modulo 256, and equals the offset only when that lies in 0..255 |
| Morph.ClearOffsetTruncation | libvips/morphology/morph.c:383-386 | for a 1 by 2 mask on a 256-byte-wide image, the true offset 256 is stored as 0, and erode then rejects a window the mask fits |
| Simd.BuiltinFeatures | libvips/iofuncs/simd.c:112-126 | the SSE41 bit is set iff the build has `HAVE_SSE41`, the AVX2 bit iff it has `HAVE_AVX2`, and no other bit is set |
| Simd.SupportedFeatures | libvips/iofuncs/simd.c:137-141 | the SSE41 bit is set iff `have_sse41`, the AVX2 bit iff `have_avx2`, and no other bit is set |
| Simd.SetFeatures | libvips/iofuncs/simd.c:153-162 | each flag takes its bit of `features` when its guard is built in, and is otherwise unchanged |
| Simd.Init | libvips/iofuncs/simd.c:57-91 | with `VIPS_SIMD` set, init leaves exactly the state that setting the parsed value would; no path turns on a flag that is not built in |
| Simd.SupportedWithinBuiltin | libvips/iofuncs/simd.c:54-55 | while no flag is on without its build switch, the supported features are a subset of the builtin ones |
| Simd.SetFeaturesSupported | libvips/iofuncs/simd.c:137-162 | after `set_features(f)`, the supported features are `f & builtin` |
| Simd.SetFeaturesIdempotent | libvips/iofuncs/simd.c:153-162 | setting the same features twice leaves the state that setting them once does |
| Simd.Features.constructor | libvips/iofuncs/simd.c:54-55 | both static flags start FALSE |
| Simd.Features.GetSupportedFeatures | libvips/iofuncs/simd.c:137-141 | the result's bits reflect the two flags and lie within the builtin features |
| Simd.Features.SetFeaturesFrom | libvips/iofuncs/simd.c:153-162 | the globals become `SetFeatures` of the old state, and the supported features then equal `features & builtin` |
| Simd.Features.SimdInit | libvips/iofuncs/simd.c:57-91 | the globals become `Init` of the old state, and stay within the build |
| VipsLoad.Memcmp | libvips/foreign/vipsload.c:339-340 | `memcmp` returns zero iff the first n bytes agree, which is all the callers test; a non-zero result has the sign of the first differing byte pair |
| VipsLoad.Sniff | libvips/foreign/vipsload.c:338 | the sniff yields the first four bytes exactly when the source has four bytes |
| VipsLoad.IsASource | libvips/foreign/vipsload.c:331-344 | the result is TRUE iff the source has four bytes and they are the intel or the sparc signature |
| VipsLoad.GetFlagsSource | libvips/foreign/vipsload.c:77-92 | the flags always include PARTIAL, include BIGENDIAN iff the first four bytes are the sparc signature, and include nothing else |
| VipsLoad.SignaturesMirror | libvips/foreign/vipsload.c:333-334 | the sparc signature is the byte reversal of the intel one; an intel file is a `.vips` source and is never flagged big-endian |
| VipsLoad.ShortSource | libvips/foreign/vipsload.c:87-91 | a source shorter than four bytes is not a `.vips` source, and its flags are PARTIAL only |
| VipsLoad.OnlyPrefixMatters | libvips/foreign/vipsload.c:338-340 | bytes after the first four change neither the verdict nor the flags |
| ScreenCache.Empty | libvips/iofuncs/sinkscreen.c:283-288 | a new render has no tiles, an empty table, `ntiles == 0` and `ticks == 0` |
| ScreenCache.EmptyValid | libvips/iofuncs/sinkscreen.c:283-288 | the empty cache satisfies the cache invariant |
| ScreenCache.Lookup | libvips/iofuncs/sinkscreen.c:350-354 | the lookup finds a tile iff the origin is in the table, and then finds the table's tile |
| ScreenCache.NewTile | libvips/iofuncs/sinkscreen.c:312-346 | `tile_new` adds exactly one tile and keeps the existing ones |
| ScreenCache.Lru | libvips/iofuncs/sinkscreen.c:441-466 | a tile chosen for reuse exists and is painted |
| ScreenCache.LookupFindsOrigin | libvips/iofuncs/sinkscreen.c:220-239 | a tile found is at the requested origin, and a miss means no tile has that origin; only left and top matter |
| ScreenCache.LruProperties | libvips/iofuncs/sinkscreen.c:441-466 | the reused tile has the smallest stamp of all painted tiles; every painted tile before it has a strictly larger one, so the first wins a tie; there is none iff no tile is painted |
| ScreenCache.QueueEffect | libvips/iofuncs/sinkscreen.c:408-439 | `tile_queue` leaves the tile painted, stamped with the clock, and holding the computed pixels, or its old ones when the computation fails; only the clock changes besides |
| ScreenCache.RequestHit | libvips/iofuncs/sinkscreen.c:479-487 | a hit hands out the table's tile; a valid tile is only touched (`ticks := render.ticks`, clock plus one), and an invalid one is recomputed in place with its origin kept |
| ScreenCache.RequestMissBelowLimit | libvips/iofuncs/sinkscreen.c:488-499 | a miss below the limit appends one painted tile at the requested origin, enters it in the table, and adds one to `ntiles` |
| ScreenCache.RequestMissAtLimit | libvips/iofuncs/sinkscreen.c:500-512 | a miss at the limit reuses the LRU painted tile, which leaves its old origin for the new one; with no painted tile, it hands out NULL and changes nothing |
| ScreenCache.MoveProperties | libvips/iofuncs/sinkscreen.c:379-393 | moving to the same origin is a no-op; moving to an absent origin removes the old key, inserts the new one, and keeps the table one-to-one |
| ScreenCache.RequestServes | libvips/iofuncs/sinkscreen.c:471-515 | a tile handed out is painted, sits at the requested origin, is in the table there, and has a stamp larger than every other tile's |
| ScreenCache.RequestNull | libvips/iofuncs/sinkscreen.c:471-515 | a request returns NULL iff it misses, may not make a tile, and the cache holds no tile (a limit of zero) |
| ScreenCache.RequestPreservesValid | libvips/iofuncs/sinkscreen.c:471-515 | a request keeps the invariant: one tile per origin, `ntiles <= max_tiles` when there is a limit, every tile painted with a stamp below the clock |
| SinkScreen.FloorIsDivMul | libvips/iofuncs/sinkscreen.c:571-572 | the first tile origin `(x / w) * w` is x rounded down to a multiple of w |
| SinkScreen.CellOf | libvips/iofuncs/sinkscreen.c:584-600 | the tile origin for a pixel is a grid origin, at most one tile size above and to the left of the pixel |
| SinkScreen.CellOfTile | libvips/iofuncs/sinkscreen.c:584-600 | a tile at a grid origin holds exactly the pixels whose cell it is |
| SinkScreen.FillRequests | libvips/iofuncs/sinkscreen.c:584-600 | a run of requests keeps the cache invariant and leaves the tile size and limit unchanged |
| SinkScreen.MaskValue | libvips/iofuncs/sinkscreen.c:640-645 | the mask value is 0 or 255 |
| SinkScreen.MaskMeansCached | libvips/iofuncs/sinkscreen.c:640-645 | between requests, the mask is 255 exactly over the tiles that are cached and not invalidated |
| SinkScreen.Blit | libvips/iofuncs/sinkscreen.c:525-552 | every pixel of the region inside the area gets the given value, and every other pixel keeps its value |
| SinkScreen.NewSink | libvips/iofuncs/sinkscreen.c:707-711 | the sink fails with "bad parameters", before any render exists, iff `tile_width <= 0`, `tile_height <= 0` or `max_tiles < -1`; otherwise the new render holds an empty cache |
| SinkScreen.Render.constructor | libvips/iofuncs/sinkscreen.c:250-308 | the reference count starts at 1, plus 1 when there is a mask image; the cache is empty |
| SinkScreen.Render.Ref | libvips/iofuncs/sinkscreen.c:182-196 | adds exactly one reference and changes nothing else; a ref at 0 is excluded, as the assertion does |
| SinkScreen.Render.Unref | libvips/iofuncs/sinkscreen.c:198-218 | drops exactly one reference; the render is freed exactly when the count reaches 0, and is otherwise unchanged |
| SinkScreen.Render.Free | libvips/iofuncs/sinkscreen.c:148-178 | freeing empties the tile list and the table and sets `ntiles` to 0 |
| SinkScreen.Render.TileNew | libvips/iofuncs/sinkscreen.c:312-346 | the fields become `NewTile` of the old state, and the new tile's index is returned |
| SinkScreen.Render.TileLookup | libvips/iofuncs/sinkscreen.c:350-354 | returns `Lookup` of the current state |
| SinkScreen.Render.TileAdd | libvips/iofuncs/sinkscreen.c:358-375 | with the origin absent, the tile takes that origin unpainted and enters the table |
| SinkScreen.Render.TileMove | libvips/iofuncs/sinkscreen.c:379-393 | the fields become `Move` of the old state |
| SinkScreen.Render.TileTouch | libvips/iofuncs/sinkscreen.c:397-404 | the tile's stamp becomes the clock, and the clock goes up by one |
| SinkScreen.Render.TileQueue | libvips/iofuncs/sinkscreen.c:408-439 | the fields become `Queue` of the old state: painted even when the prepare fails |
| SinkScreen.Render.GetPainted | libvips/iofuncs/sinkscreen.c:451-466 | the one-pass search returns `Lru` of the tiles: a painted tile with the smallest stamp, the first on a tie |
| SinkScreen.Render.TileRequest | libvips/iofuncs/sinkscreen.c:471-515 | the new state and the tile handed out are `Request` of the old state, and the invariant is kept |
| SinkScreen.Render.TileCopy | libvips/iofuncs/sinkscreen.c:519-553 | inside the tile, each pixel of the region gets the tile's pixel when the tile is painted and valid, or zero otherwise; pixels outside the tile are untouched |
| SinkScreen.Render.FillTile | libvips/iofuncs/sinkscreen.c:593-598 | one grid cell is requested, and when a tile is handed out its pixels in the region show that tile; other pixels, and all pixels after a NULL, are untouched |
| SinkScreen.Render.FillStep | libvips/iofuncs/sinkscreen.c:588-598 | one step of the inner loop advances the run of requests by one origin and the written part of the region by one tile |
| SinkScreen.Render.FillRow | libvips/iofuncs/sinkscreen.c:587-600 | one row of tiles advances the run of requests and the written part of the region by one row |
| SinkScreen.Render.ImageFill | libvips/iofuncs/sinkscreen.c:557-606 | the cache ends as the grid's requests leave it, in row-major order from `((left/tw)*tw, (top/th)*th)`; each region pixel shows its cell's served tile, copied when painted and valid and zero otherwise, and is unchanged when the request returned NULL |
| SinkScreen.Render.MaskRow | libvips/iofuncs/sinkscreen.c:630-652 | one row of tiles of the mask is painted with each tile's mask value |
| SinkScreen.Render.MaskFill | libvips/iofuncs/sinkscreen.c:610-657 | each region pixel becomes 255 iff the lookup of its cell finds a painted tile with a valid region, and 0 otherwise; no tile is created, moved or touched |

## Left out

- Concurrency. The mutexes, the unlock around the compute in `tile_queue`, and the atomic ref-count variants are not modelled; calls run one at a time. A tile is therefore never unpainted between requests (`ScreenCache.Valid` says every tile is painted).
- GObject signal wiring. `render_close_cb` is modelled as a call to `Render.Unref`. The debug counter `vips__print_renders` is left out.
- `vips_region_prepare_to` is an oracle: the pixels are `src` at the tile's positions, unless the tile's origin is in `fails`. A failed prepare leaves the buffer as it was; C leaves it unspecified.
- A newly allocated tile buffer holds zeros (`Blank`). Allocation failures are not modelled: `tile_new`, `vips_region_buffer` and the array allocations always succeed.
- The region's `invalid` flag is an input set of tile indices, fixed for one call. region.c is not part of this model: `ImageFill` therefore still treats a tile that was invalid on entry as invalid after it is recomputed, and zero-fills it.
- `g_hash_table_foreach` visits the tiles in an unspecified order. `Lru` takes the pool's order, so "first on a tie" refers to that order.
- `render->all` is prepended in C. The model appends, so that pool indices stay stable names for tiles; the list is used only for freeing.
- Each pixel holds one integer, not `VIPS_IMAGE_SIZEOF_PEL` bytes. `memcpy` and `vips_region_paint` are modelled as writing pixels of the region that lie inside the tile.
- `ImageFill` and `MaskFill` require `r.left >= 0` and `r.top >= 0`. Output regions of an image always have non-negative origins.
- `vips_sink_screen` beyond the parameter check is left out: `vips_image_pio_input`, `vips_image_pipelinev`, `vips_image_generate`, and the notify callback.
- `render_free` frees the render itself. The model keeps the object and sets `freed`.
- SinkScreen.Render.TileQueue: states its effect as one step, `Queue`. The intermediate unpainted state is visible only to other threads.
- Convi.ConviGen: C's `int` overflow of `sum` is not modelled; sums are unbounded integers. Pixel values are given as integers in the format's range, and the cast of `sum` to the output type after clipping is the identity there (no clip applies to uint and int, and their wrap-around is not modelled).
- `vips__image_intize`, `vips_convi_intize`, `CONV_FLOAT` and the Highway vector paths are floating point or vector code. The integer mask, `scale` (non-zero) and `offset` are inputs.
- `vips_embed` with edge copying and `vips_region_prepare` are not modelled. The input buffer is given as a sequence holding the prepared area.
- Complex formats (which double `sz`) are left out with the float path.
- Convi.ConviSequence.UpdateOffsets and Morph.MorphSequence.Scan: require a non-negative line skip. A region's line skip is never negative, so it never equals the initial `last_bpl` of -1, which marks a table that has not been built.
- Morph.MorphSequence.Scan: keeps the full clear-list offsets. The truncated form that the C code stores is modelled separately by `Morph.StoredClearOffset` (see Findings).
- SIMD: `__builtin_cpu_supports` is an input (`Cpu`). `strtoul`'s parse of `VIPS_SIMD` is an input; its cast to `unsigned int` is modelled as truncation to 32 bits. `gboolean` flags are modelled as `bool`; C stores the masked bit value, which is only tested for truth.
- vipsload: the header read, mmap and `vips__file_magic` are I/O and are left out. The `VipsForeignFlags` bit values are not part of this model, so the flags are a set.

## Findings

| source | as written | input that shows it | evidently intended | confidence | as-written member | corrected member |
|---|---|---|---|---|---|---|
| libvips/morphology/morph.c:115 | The clear-list offsets go into `guint8 *coff`, so each offset is truncated to its low 8 bits; the set list uses `int *soff`. | A 1 by 2 mask `[128, 0]` over a one-band uchar image 256 bytes wide: the clear element's offset is 256 and is stored as 0. Erode then reads the pixel above the one it should, and fails a window where the mask fits (top pixel 255, pixel below 0). | `coff` holds `int` offsets like `soff`, so each pixel is compared with the mask element over it | high (not executed) | Morph.ClearOffsetTruncation | Morph.RuleIsHitOrMiss |
