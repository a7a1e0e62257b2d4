/** The tile cache behind the screen sink, as a state machine over values.
    A render owns a pool of fixed-size tiles and a table from tile origin to
    tile; each tile records whether it holds computed pixels and when it
    was last used. A request for an origin either finds its tile, makes a
    new one while the cache is below its limit, or reuses the least recently
    used painted tile. The class in sinkscreen.dfy keeps this state in its
    fields and is proved against these functions. */
module ScreenCache {
  import opened Common

  /** A tile's place: the table hashes and compares only left and top. */
  datatype Key = Key(left: int, top: int)

  /** A tile: its origin, whether it holds computed pixels, its LRU stamp and
      its pixels, th rows of tw values. */
  datatype Tile = Tile(key: Key, painted: bool, ticks: int, pixels: seq<seq<int>>)

  /** The cache part of a Render: tile size, limit (-1 for none), the tiles
      in the order they were made, the table, the tile count and the clock. */
  datatype Cache = Cache(tw: int, th: int, maxTiles: int, pool: seq<Tile>, index: map<Key, nat>,
                         ntiles: int, ticks: int)

  /** What a request leaves behind: the new cache and the tile handed out,
      if any (NULL in C). */
  datatype Outcome = Outcome(cache: Cache, tile: Option<nat>)

  /** The pixels of a tile at key as the image computes them; `src` is the
      image the screen sink renders. */
  function Computed(src: (int, int) -> int, key: Key, tw: nat, th: nat): (p: seq<seq<int>>)
    ensures |p| == th && forall j :: 0 <= j < th ==> |p[j]| == tw
    ensures forall j, i :: 0 <= j < th && 0 <= i < tw ==> p[j][i] == src(key.left + i, key.top + j)
  {
    seq(th, j => seq(tw, i => src(key.left + i, key.top + j)))
  }

  /** A freshly allocated tile buffer. */
  function Blank(tw: nat, th: nat): (p: seq<seq<int>>)
    ensures |p| == th && forall j :: 0 <= j < th ==> |p[j]| == tw && forall i :: 0 <= i < tw ==> p[j][i] == 0
  {
    seq(th, j => seq(tw, i => 0))
  }

  predicate Shaped(p: seq<seq<int>>, tw: int, th: int)
  {
    |p| == th && forall j :: 0 <= j < |p| ==> |p[j]| == tw
  }

  /** Every tile is in the table under its own origin and every entry names
      a tile at that origin: one tile per origin. */
  ghost predicate Indexed(c: Cache)
  {
    c.ntiles == |c.pool| &&
    (forall k :: k in c.index ==> c.index[k] < |c.pool| && c.pool[c.index[k]].key == k) &&
    (forall i :: 0 <= i < |c.pool| ==> c.pool[i].key in c.index && c.index[c.pool[i].key] == i)
  }

  /** The invariant a Render keeps between requests. */
  ghost predicate Valid(c: Cache)
  {
    c.tw > 0 && c.th > 0 && c.maxTiles >= -1 && c.ticks >= 0 &&
    Indexed(c) &&
    (c.maxTiles >= 0 ==> c.ntiles <= c.maxTiles) &&
    (forall i :: 0 <= i < |c.pool| ==>
       c.pool[i].painted && 0 <= c.pool[i].ticks < c.ticks && Shaped(c.pool[i].pixels, c.tw, c.th))
  }

  /** render_new: no tiles, clock at zero. */
  function Empty(tw: int, th: int, maxTiles: int): (c: Cache)
    ensures c.pool == [] && c.index == map[] && c.ntiles == 0 && c.ticks == 0
  {
    Cache(tw, th, maxTiles, [], map[], 0, 0)
  }

  lemma EmptyValid(tw: int, th: int, maxTiles: int)
    requires tw > 0 && th > 0 && maxTiles >= -1
    ensures Valid(Empty(tw, th, maxTiles))
  {
  }

  // ---------------------------------------------------------------------
  // The steps.

  /** render_tile_lookup */
  function Lookup(c: Cache, k: Key): (r: Option<nat>)
    ensures r.Some? <==> k in c.index
    ensures r.Some? ==> r.value == c.index[k]
  {
    if k in c.index then Some(c.index[k]) else None
  }

  /** tile_new: a tile at (0, 0), unpainted, stamped with the current clock,
      appended to the pool. */
  function NewTile(c: Cache): (c': Cache)
    requires c.tw >= 0 && c.th >= 0
    ensures |c'.pool| == |c.pool| + 1 && c'.pool[..|c.pool|] == c.pool
  {
    var t := Tile(Key(0, 0), false, c.ticks, Blank(c.tw, c.th));
    c.(pool := c.pool + [t], ntiles := c.ntiles + 1)
  }

  /** render_tile_add: tile i takes origin k, unpainted, and enters the table. */
  function Add(c: Cache, i: nat, k: Key): Cache
    requires i < |c.pool|
  {
    c.(pool := c.pool[i := c.pool[i].(key := k, painted := false)], index := c.index[k := i])
  }

  /** render_tile_move: to a different origin, the old entry leaves the table
      and the tile is added at k; to its own origin, nothing happens. */
  function Move(c: Cache, i: nat, k: Key): Cache
    requires i < |c.pool|
  {
    if c.pool[i].key != k then Add(c.(index := c.index - {c.pool[i].key}), i, k) else c
  }

  /** tile_touch */
  function Touch(c: Cache, i: nat): Cache
    requires i < |c.pool|
  {
    c.(pool := c.pool[i := c.pool[i].(ticks := c.ticks)], ticks := c.ticks + 1)
  }

  /** vips_region_prepare_to into a tile's buffer: the computed pixels, or,
      when the computation fails for that origin, the buffer as it was. */
  function Prepared(t: Tile, src: (int, int) -> int, fails: set<Key>, tw: nat, th: nat): seq<seq<int>>
  {
    if t.key in fails then t.pixels else Computed(src, t.key, tw, th)
  }

  /** tile_queue: the tile is unpainted, touched, computed and then marked
      painted whether or not the computation succeeded; in one step, that is
      a painted, freshly stamped tile holding the prepared pixels. */
  function Queue(c: Cache, i: nat, src: (int, int) -> int, fails: set<Key>): Cache
    requires i < |c.pool| && c.tw >= 0 && c.th >= 0
  {
    var t := c.pool[i];
    c.(pool := c.pool[i := Tile(t.key, true, c.ticks, Prepared(t, src, fails, c.tw, c.th))], ticks := c.ticks + 1)
  }

  /** render_tile_get_painted: the painted tile with the smallest stamp, the
      first one met winning a tie. The table's iteration order is not
      specified; it is taken here to be the order of the pool. */
  function Lru(pool: seq<Tile>): (r: Option<nat>)
    ensures r.Some? ==> r.value < |pool| && pool[r.value].painted
  {
    if pool == [] then None
    else
      var n := |pool| - 1;
      var best := Lru(pool[..n]);
      if pool[n].painted && (best.None? || pool[n].ticks < pool[best.value].ticks) then Some(n) else best
  }

  /** Whether a miss may make a new tile. */
  predicate BelowLimit(c: Cache)
  {
    c.ntiles < c.maxTiles || c.maxTiles == -1
  }

  /** render_tile_request for the tile at origin k; `invalid` holds the tiles
      whose region has been invalidated. */
  function Request(c: Cache, k: Key, invalid: set<nat>, src: (int, int) -> int, fails: set<Key>): (o: Outcome)
    requires Indexed(c) && c.tw >= 0 && c.th >= 0
  {
    match Lookup(c, k)
    case Some(i) =>
      if i in invalid then Outcome(Queue(c, i, src, fails), Some(i)) else Outcome(Touch(c, i), Some(i))
    case None =>
      if BelowLimit(c) then
        var n := |c.pool|;
        Outcome(Queue(Add(NewTile(c), n, k), n, src, fails), Some(n))
      else
        match Lru(c.pool)
        case None => Outcome(c, None)
        case Some(i) => Outcome(Queue(Move(c, i, k), i, src, fails), Some(i))
  }

  // ---------------------------------------------------------------------
  // Properties.

  /** Lookup follows the table: a tile found is the one at that origin. */
  lemma LookupFindsOrigin(c: Cache, k: Key)
    requires Indexed(c)
    ensures Lookup(c, k).Some? ==> Lookup(c, k).value < |c.pool| && c.pool[Lookup(c, k).value].key == k
    ensures Lookup(c, k).None? ==> forall i :: 0 <= i < |c.pool| ==> c.pool[i].key != k
  {
  }

  /** The reused tile is painted and has the smallest stamp of all painted
      tiles; every painted tile before it has a strictly larger stamp; there
      is none exactly when no tile is painted. */
  lemma {:induction false} LruProperties(pool: seq<Tile>)
    ensures Lru(pool).None? <==> forall j :: 0 <= j < |pool| ==> !pool[j].painted
    ensures Lru(pool).Some? ==>
              var b := Lru(pool).value;
              (forall j :: 0 <= j < |pool| && pool[j].painted ==> pool[b].ticks <= pool[j].ticks) &&
              (forall j :: 0 <= j < b && pool[j].painted ==> pool[b].ticks < pool[j].ticks)
  {
    if pool != [] {
      var n := |pool| - 1;
      LruProperties(pool[..n]);
      assert forall j :: 0 <= j < n ==> pool[..n][j] == pool[j];
    }
  }

  /** What a queue does to tile i: painted, stamped with the clock, pixels
      computed unless the computation fails; nothing else changes but the
      clock. */
  lemma QueueEffect(c: Cache, i: nat, src: (int, int) -> int, fails: set<Key>)
    requires i < |c.pool| && c.tw >= 0 && c.th >= 0
    ensures var q := Queue(c, i, src, fails);
      q.tw == c.tw && q.th == c.th && q.maxTiles == c.maxTiles &&
      q.index == c.index && q.ntiles == c.ntiles && q.ticks == c.ticks + 1 &&
      |q.pool| == |c.pool| &&
      (forall j :: 0 <= j < |c.pool| && j != i ==> q.pool[j] == c.pool[j]) &&
      q.pool[i] == Tile(c.pool[i].key, true, c.ticks,
                        if c.pool[i].key in fails then c.pool[i].pixels
                        else Computed(src, c.pool[i].key, c.tw, c.th))
  {
  }

  /** A hit hands out the tile at that origin and changes no origin. A valid
      tile is only touched; an invalid one is recomputed in place. */
  lemma RequestHit(c: Cache, k: Key, invalid: set<nat>, src: (int, int) -> int, fails: set<Key>)
    requires Valid(c) && k in c.index
    ensures var o := Request(c, k, invalid, src, fails); var i := c.index[k];
      o.tile == Some(i) &&
      o.cache.index == c.index && o.cache.ntiles == c.ntiles && o.cache.ticks == c.ticks + 1 &&
      |o.cache.pool| == |c.pool| &&
      (forall j :: 0 <= j < |c.pool| && j != i ==> o.cache.pool[j] == c.pool[j]) &&
      (i !in invalid ==> o.cache.pool[i] == c.pool[i].(ticks := c.ticks)) &&
      (i in invalid ==> o.cache.pool[i] == Tile(k, true, c.ticks,
                          if k in fails then c.pool[i].pixels else Computed(src, k, c.tw, c.th)))
  {
    QueueEffect(c, c.index[k], src, fails);
  }

  /** A miss below the limit appends one new painted tile at that origin. */
  lemma RequestMissBelowLimit(c: Cache, k: Key, invalid: set<nat>, src: (int, int) -> int, fails: set<Key>)
    requires Valid(c) && k !in c.index && BelowLimit(c)
    ensures var o := Request(c, k, invalid, src, fails); var n := |c.pool|;
      o.tile == Some(n) &&
      o.cache.index == c.index[k := n] && o.cache.ntiles == c.ntiles + 1 && o.cache.ticks == c.ticks + 1 &&
      o.cache.pool == c.pool + [Tile(k, true, c.ticks,
                                     if k in fails then Blank(c.tw, c.th) else Computed(src, k, c.tw, c.th))]
  {
    var n := |c.pool|;
    var a := Add(NewTile(c), n, k);
    QueueEffect(a, n, src, fails);
    var q := Request(c, k, invalid, src, fails).cache;
    assert q.pool == Queue(a, n, src, fails).pool;
    assert forall j :: 0 <= j < n ==> q.pool[j] == c.pool[j];
  }

  /** A miss at the limit reuses the least recently used painted tile,
      which leaves its old origin; with no painted tile it hands out nothing
      and changes nothing. */
  lemma RequestMissAtLimit(c: Cache, k: Key, invalid: set<nat>, src: (int, int) -> int, fails: set<Key>)
    requires Valid(c) && k !in c.index && !BelowLimit(c)
    ensures var o := Request(c, k, invalid, src, fails);
      o.tile == Lru(c.pool) &&
      (o.tile.None? ==> o.cache == c) &&
      (o.tile.Some? ==>
        var i := o.tile.value;
        c.pool[i].key != k &&
        o.cache.index == (c.index - {c.pool[i].key})[k := i] && c.pool[i].key !in o.cache.index &&
        o.cache.ntiles == c.ntiles && o.cache.ticks == c.ticks + 1 && |o.cache.pool| == |c.pool| &&
        (forall j :: 0 <= j < |c.pool| && j != i ==> o.cache.pool[j] == c.pool[j]) &&
        o.cache.pool[i] == Tile(k, true, c.ticks,
                                if k in fails then c.pool[i].pixels else Computed(src, k, c.tw, c.th)))
  {
    match Lru(c.pool)
    case None =>
    case Some(i) =>
      assert c.pool[i].key in c.index;
      QueueEffect(Move(c, i, k), i, src, fails);
  }

  /** Moving a tile to its own origin does nothing; to an origin no tile
      holds, it re-keys that one tile and keeps the table one-to-one. */
  lemma {:induction false} MoveProperties(c: Cache, i: nat, k: Key)
    requires Indexed(c) && i < |c.pool|
    ensures Move(c, i, c.pool[i].key) == c
    ensures k !in c.index ==>
      var m := Move(c, i, k);
      Indexed(m) && m.index == (c.index - {c.pool[i].key})[k := i] && c.pool[i].key !in m.index &&
      m.pool[i] == c.pool[i].(key := k, painted := false) &&
      forall j :: 0 <= j < |c.pool| && j != i ==> m.pool[j] == c.pool[j]
  {
    if k !in c.index {
      var m := Move(c, i, k);
      var old_ := c.pool[i].key;
      assert old_ != k;
      forall j | 0 <= j < |m.pool|
        ensures m.pool[j].key in m.index && m.index[m.pool[j].key] == j
      {
        if j != i {
          assert c.pool[j].key != old_;
          assert c.pool[j].key != k;
        }
      }
      forall kk | kk in m.index
        ensures m.index[kk] < |m.pool| && m.pool[m.index[kk]].key == kk
      {
        if kk != k {
          assert kk in c.index && kk != old_;
          assert c.index[kk] != i;
        }
      }
    }
  }

  /** The tile a request hands out is at the requested origin, painted, in
      the table under that origin, and the most recently used tile: its
      stamp is larger than every other tile's. */
  lemma RequestServes(c: Cache, k: Key, invalid: set<nat>, src: (int, int) -> int, fails: set<Key>)
    requires Valid(c)
    ensures var o := Request(c, k, invalid, src, fails);
      o.tile.Some? ==>
        var i := o.tile.value;
        i < |o.cache.pool| && o.cache.pool[i].key == k && o.cache.pool[i].painted &&
        k in o.cache.index && o.cache.index[k] == i && o.cache.pool[i].ticks == c.ticks &&
        o.cache.ticks == c.ticks + 1 &&
        forall j :: 0 <= j < |o.cache.pool| && j != i ==> o.cache.pool[j].ticks < o.cache.pool[i].ticks
  {
    if k in c.index {
      RequestHit(c, k, invalid, src, fails);
    } else if BelowLimit(c) {
      RequestMissBelowLimit(c, k, invalid, src, fails);
    } else {
      RequestMissAtLimit(c, k, invalid, src, fails);
    }
  }

  /** A request hands out nothing only when it misses, may not make a tile
      and the cache holds none: with a limit of zero. */
  lemma RequestNull(c: Cache, k: Key, invalid: set<nat>, src: (int, int) -> int, fails: set<Key>)
    requires Valid(c)
    ensures Request(c, k, invalid, src, fails).tile.None? <==> k !in c.index && !BelowLimit(c) && c.pool == []
  {
    if k !in c.index && !BelowLimit(c) {
      LruProperties(c.pool);
      if c.pool != [] {
        assert c.pool[0].painted;
      }
    }
  }

  /** A request keeps the cache invariant: one tile per origin, never more
      tiles than the limit, every tile painted with a stamp below the clock,
      tile-sized buffers. */
  lemma RequestPreservesValid(c: Cache, k: Key, invalid: set<nat>, src: (int, int) -> int, fails: set<Key>)
    requires Valid(c)
    ensures Valid(Request(c, k, invalid, src, fails).cache)
    ensures var q := Request(c, k, invalid, src, fails).cache; q.tw == c.tw && q.th == c.th && q.maxTiles == c.maxTiles
  {
    if k in c.index {
      HitKeepsValid(c, k, invalid, src, fails);
    } else if BelowLimit(c) {
      NewTileKeepsValid(c, k, invalid, src, fails);
    } else {
      ReuseKeepsValid(c, k, invalid, src, fails);
    }
  }

  lemma HitKeepsValid(c: Cache, k: Key, invalid: set<nat>, src: (int, int) -> int, fails: set<Key>)
    requires Valid(c) && k in c.index
    ensures Valid(Request(c, k, invalid, src, fails).cache)
  {
    RequestHit(c, k, invalid, src, fails);
    var q := Request(c, k, invalid, src, fails).cache;
    assert forall j :: 0 <= j < |q.pool| ==> q.pool[j].key == c.pool[j].key;
  }

  lemma NewTileKeepsValid(c: Cache, k: Key, invalid: set<nat>, src: (int, int) -> int, fails: set<Key>)
    requires Valid(c) && k !in c.index && BelowLimit(c)
    ensures Valid(Request(c, k, invalid, src, fails).cache)
  {
    RequestMissBelowLimit(c, k, invalid, src, fails);
    var q := Request(c, k, invalid, src, fails).cache;
    var n := |c.pool|;
    assert forall j :: 0 <= j < n ==> q.pool[j] == c.pool[j];
    assert q.pool[n].key == k;
    assert Indexed(q);
  }

  lemma ReuseKeepsValid(c: Cache, k: Key, invalid: set<nat>, src: (int, int) -> int, fails: set<Key>)
    requires Valid(c) && k !in c.index && !BelowLimit(c)
    ensures Valid(Request(c, k, invalid, src, fails).cache)
  {
    RequestMissAtLimit(c, k, invalid, src, fails);
    var o := Request(c, k, invalid, src, fails);
    if o.tile.Some? {
      var i := o.tile.value;
      MoveProperties(c, i, k);
      var m := Move(c, i, k);
      assert o.cache == Queue(m, i, src, fails);
      QueueEffect(m, i, src, fails);
      assert forall j :: 0 <= j < |m.pool| ==> o.cache.pool[j].key == m.pool[j].key;
      assert Indexed(o.cache);
    }
  }
}
