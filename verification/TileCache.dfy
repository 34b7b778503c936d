/** Which cached map tiles cover an extent, and their expiry. Coordinates are exact. */
module Tiling {

  /** Half the width of the Web Mercator square, in metres. */
  const MERCATOR_HALF := 20037508.342789244

  datatype Index = Index(col: int, row: int)
  datatype Extent = Extent(minx: real, miny: real, maxx: real, maxy: real, minZoom: nat, maxZoom: int)

  function Pow2(z: nat): (n: nat)
    ensures n >= 1
  {
    if z == 0 then 1 else 2 * Pow2(z - 1)
  }

  function Clamp(i: int, n: int): int {
    var low := if i < 0 then 0 else i;
    if low > n - 1 then n - 1 else low
  }

  /** The tile, counted from the edge that `offset` is measured from. */
  function Along(offset: real, z: nat): int {
    var size := 2.0 * MERCATOR_HALF / Pow2(z) as real;
    Clamp((offset / size).Floor, Pow2(z))
  }

  /** Column and row of the zoom-`z` tile holding a point. */
  function TileIndex(x: real, y: real, z: nat): Index {
    Index(Along(x + MERCATOR_HALF, z), Along(MERCATOR_HALF - y, z))
  }

  predicate WellFormed(e: Extent) {
    e.minx <= e.maxx && e.miny <= e.maxy
  }

  ghost predicate Inside(x: real, y: real, e: Extent) {
    e.minx <= x <= e.maxx && e.miny <= y <= e.maxy
  }

  /** Some point of the extent is on the tile. */
  ghost predicate Covers(e: Extent, t: Index, z: nat) {
    exists x: real, y: real :: Inside(x, y, e) && TileIndex(x, y, z) == t
  }

  /** The tile is in the rectangle between the tiles of two opposite corners. */
  predicate InRange(e: Extent, t: Index, z: nat) {
    var first, last := TileIndex(e.minx, e.maxy, z), TileIndex(e.maxx, e.miny, z);
    first.col <= t.col <= last.col && first.row <= t.row <= last.row
  }

  // ---- one axis ----

  lemma FloorIsMonotone(a: real, b: real)
    requires a <= b
    ensures a.Floor <= b.Floor
  {
  }

  lemma DivideIsMonotone(a: real, b: real, size: real)
    requires a <= b && size > 0.0
    ensures a / size <= b / size
  {
    assert b / size - a / size == (b - a) / size;
  }

  lemma AlongIsMonotone(a: real, b: real, z: nat)
    requires a <= b
    ensures 0 <= Along(a, z) <= Along(b, z) < Pow2(z)
  {
    var size := 2.0 * MERCATOR_HALF / Pow2(z) as real;
    DivideIsMonotone(a, b, size);
    FloorIsMonotone(a / size, b / size);
  }

  /** The place where a tile starts. */
  lemma AlongAt(i: int, z: nat) returns (offset: real)
    requires 0 <= i < Pow2(z)
    ensures Along(offset, z) == i
  {
    var size := 2.0 * MERCATOR_HALF / Pow2(z) as real;
    offset := i as real * size;
    QuotientOfProduct(i as real, size);
  }

  /** Every tile between those of two points holds a point between them. */
  lemma AlongIsOnto(a: real, b: real, i: int, z: nat) returns (offset: real)
    requires a <= b && Along(a, z) <= i <= Along(b, z)
    ensures a <= offset <= b && Along(offset, z) == i
  {
    hide Along;
    AlongIsMonotone(a, b, z);
    offset := AlongAt(i, z);
    if offset < a {
      AlongIsMonotone(offset, a, z);
      offset := a;
    } else if b < offset {
      AlongIsMonotone(b, offset, z);
      offset := b;
    }
  }

  lemma QuotientOfProduct(i: real, size: real)
    requires size > 0.0
    ensures i * size / size == i
  {
  }

  /** A tile at one zoom is the half of the tile at the next, at the edges too. */
  lemma AlongHalves(offset: real, z: nat)
    ensures Along(offset, z) == Along(offset, z + 1) / 2
  {
    var n := Pow2(z);
    var size := 2.0 * MERCATOR_HALF / n as real;
    var half := 2.0 * MERCATOR_HALF / Pow2(z + 1) as real;
    assert Pow2(z + 1) == 2 * n;
    assert size == 2.0 * half;
    var wide, fine := offset / size, offset / half;
    assert fine == 2.0 * wide;
    assert wide.Floor == fine.Floor / 2;
  }

  /** Of `n` tiles along `width`, the i-th spans its equal share, and what lies beyond an edge is on the tile there. */
  ghost predicate Spans(i: int, n: int, offset: real, width: real) {
    && 0 <= i < n && (offset < 0.0 ==> i == 0) && (offset >= width ==> i == n - 1)
    && (0.0 <= offset < width ==> width * i as real <= offset * n as real < width * (i + 1) as real)
  }

  lemma AlongSpans(offset: real, z: nat)
    ensures Spans(Along(offset, z), Pow2(z), offset, 2.0 * MERCATOR_HALF)
  {
    var n, width := Pow2(z), 2.0 * MERCATOR_HALF;
    var size := width / n as real;
    var t := offset / size;
    assert Along(offset, z) == Clamp(t.Floor, n);
    hide Along;
    assert size * n as real == width && size > 0.0;
    QuotientTimes(offset, size);
    QuotientScaled(t, size, n as real, offset, width);
    QuotientSign(t, size, offset, n as real, width);
    ClampSpans(t, n, offset, width);
  }

  lemma ClampSpans(t: real, n: int, offset: real, width: real)
    requires n > 0 && width > 0.0 && t * width == offset * n as real
    requires (t < 0.0 <==> offset < 0.0) && (t < n as real <==> offset < width)
    ensures Spans(Clamp(t.Floor, n), n, offset, width)
  {
    ProductAtLeast(t, t.Floor as real, width);
    ProductBelow(t, (t.Floor + 1) as real, width);
  }

  lemma QuotientSign(t: real, size: real, offset: real, n: real, width: real)
    requires t * size == offset && size * n == width && size > 0.0
    ensures (t < 0.0 <==> offset < 0.0) && (t < n <==> offset < width)
  {
    if t < 0.0 { ProductBelow(t, 0.0, size); } else { ProductAtLeast(t, 0.0, size); }
    if t < n { ProductBelow(t, n, size); } else { ProductAtLeast(t, n, size); }
  }

  lemma QuotientTimes(offset: real, size: real)
    requires size > 0.0
    ensures offset / size * size == offset
  {
  }

  lemma QuotientScaled(t: real, size: real, n: real, offset: real, width: real)
    requires t * size == offset && size * n == width
    ensures t * width == offset * n
  {
    assert t * (size * n) == t * size * n;
  }

  lemma ProductBelow(a: real, b: real, size: real)
    requires a < b && size > 0.0
    ensures a * size < b * size && size * a < size * b
  {
  }

  lemma ProductAtLeast(a: real, b: real, size: real)
    requires a >= b && size > 0.0
    ensures a * size >= b * size && size * a >= size * b
  {
  }

  // ---- both axes ----

  /** The tiles that hold a point of the extent are exactly the rectangle between its corners' tiles. */
  lemma RangeIsCoverage(e: Extent, t: Index, z: nat)
    requires WellFormed(e)
    ensures InRange(e, t, z) <==> Covers(e, t, z)
  {
    if Covers(e, t, z) {
      var x: real, y: real :| Inside(x, y, e) && TileIndex(x, y, z) == t;
      PointIsInRange(e, x, y, z);
    }
    if InRange(e, t, z) {
      var x, y := RangeHasPoint(e, t, z);
    }
  }

  lemma PointIsInRange(e: Extent, x: real, y: real, z: nat)
    requires Inside(x, y, e)
    ensures InRange(e, TileIndex(x, y, z), z)
  {
    hide Along;
    AlongIsMonotone(e.minx + MERCATOR_HALF, x + MERCATOR_HALF, z);
    AlongIsMonotone(x + MERCATOR_HALF, e.maxx + MERCATOR_HALF, z);
    AlongIsMonotone(MERCATOR_HALF - e.maxy, MERCATOR_HALF - y, z);
    AlongIsMonotone(MERCATOR_HALF - y, MERCATOR_HALF - e.miny, z);
  }

  lemma RangeHasPoint(e: Extent, t: Index, z: nat) returns (x: real, y: real)
    requires WellFormed(e) && InRange(e, t, z)
    ensures Inside(x, y, e) && TileIndex(x, y, z) == t
  {
    hide Along;
    var east := AlongIsOnto(e.minx + MERCATOR_HALF, e.maxx + MERCATOR_HALF, t.col, z);
    var south := AlongIsOnto(MERCATOR_HALF - e.maxy, MERCATOR_HALF - e.miny, t.row, z);
    x, y := east - MERCATOR_HALF, MERCATOR_HALF - south;
    assert x + MERCATOR_HALF == east && MERCATOR_HALF - y == south;
  }

  /** One zoom more doubles the tiles along an edge. */
  lemma {:induction false} PowersAdd(a: nat, b: nat)
    ensures Pow2(0) == 1 && Pow2(1) == 2 && Pow2(a + b) == Pow2(a) * Pow2(b)
  {
    if a > 0 {
      PowersAdd(a - 1, b);
    }
  }

  /** Columns count equal shares of the width from the west, rows equal shares of the height from the north. A point
      beyond an edge is on the tile at that edge. */
  lemma {:induction false} TileSpans(x: real, y: real, z: nat)
    ensures var t, half := TileIndex(x, y, z), 20037508.342789244;
            Spans(t.col, Pow2(z), x + half, 2.0 * half) && Spans(t.row, Pow2(z), half - y, 2.0 * half)
  {
    hide Along, Spans, Pow2;
    AlongSpans(x + MERCATOR_HALF, z);
    AlongSpans(MERCATOR_HALF - y, z);
  }

  lemma {:induction false} TileHalves(x: real, y: real, z: nat)
    ensures TileIndex(x, y, z) == Index(TileIndex(x, y, z + 1).col / 2, TileIndex(x, y, z + 1).row / 2)
  {
    AlongHalves(x + MERCATOR_HALF, z);
    AlongHalves(MERCATOR_HALF - y, z);
  }

  /** A tile is covered exactly when one of its four quarters is. */
  lemma {:induction false} CoverageIsPyramid(e: Extent, t: Index, z: nat)
    ensures Covers(e, t, z) <==> exists q: Index :: Covers(e, q, z + 1) && t == Index(q.col / 2, q.row / 2)
  {
    if Covers(e, t, z) {
      var x: real, y: real :| Inside(x, y, e) && TileIndex(x, y, z) == t;
      TileHalves(x, y, z);
      assert Covers(e, TileIndex(x, y, z + 1), z + 1);
    }
    if q: Index :| Covers(e, q, z + 1) && t == Index(q.col / 2, q.row / 2) {
      var x: real, y: real :| Inside(x, y, e) && TileIndex(x, y, z + 1) == q;
      TileHalves(x, y, z);
    }
  }
}

/** The table of cached tiles. */
module TileCaching {
  import opened Tiling

  datatype Tile = Tile(profile: int, z: int, index: Index)

  /** Some extent reaches the tile at one of its own zooms, and its profile is one that draws maps. */
  ghost predicate Stale(t: Tile, extents: seq<Extent>, profiles: set<int>) {
    t.profile in profiles && exists i :: 0 <= i < |extents| && StaleBy(t, extents[i])
  }

  ghost predicate StaleBy(t: Tile, e: Extent) {
    e.minZoom <= t.z <= e.maxZoom && Covers(e, t.index, t.z)
  }

  /** A tile is stale exactly when its profile is asked for, and some point of some extent is on it at a zoom from the
      least to the greatest of the extent, both included. */
  lemma {:induction false} StaleExactly(t: Tile, extents: seq<Extent>, profiles: set<int>)
    ensures Stale(t, extents, profiles) <==>
            && t.profile in profiles
            && exists e: Extent, x: real, y: real ::
                 && e in extents && e.minZoom <= t.z <= e.maxZoom
                 && e.minx <= x <= e.maxx && e.miny <= y <= e.maxy && TileIndex(x, y, t.z) == t.index
  {
    hide TileIndex;
    if Stale(t, extents, profiles) {
      var i :| 0 <= i < |extents| && StaleBy(t, extents[i]);
      var x: real, y: real :| Inside(x, y, extents[i]) && TileIndex(x, y, t.z) == t.index;
      assert extents[i] in extents;
    }
    forall e: Extent, x: real, y: real |
      e in extents && e.minZoom <= t.z <= e.maxZoom && Inside(x, y, e) && TileIndex(x, y, t.z) == t.index
      ensures exists i :: 0 <= i < |extents| && StaleBy(t, extents[i])
    {
      var i :| 0 <= i < |extents| && extents[i] == e;
      assert StaleBy(t, extents[i]);
    }
  }

  class TileCache {
    var tiles: set<Tile>

    /** `DELETE … WHERE z = :z AND x BETWEEN … AND y BETWEEN … AND profile = ANY(:profiles)`, and how many. */
    method DeleteRange(z: nat, first: Index, last: Index, profiles: set<int>) returns (count: nat)
      modifies this
      ensures tiles == set t | t in old(tiles) && !(t.z == z && t.profile in profiles
                            && first.col <= t.index.col <= last.col && first.row <= t.index.row <= last.row)
      ensures count == |old(tiles)| - |tiles|
    {
      var gone := set t | t in tiles && t.z == z && t.profile in profiles
                    && first.col <= t.index.col <= last.col && first.row <= t.index.row <= last.row;
      count := |gone|;
      tiles := tiles - gone;
    }

    /** Deletes the tiles that hold a point of some extent, and no others. */
    method Expire(extents: seq<Extent>, profiles: set<int>) returns (total: nat)
      requires forall i :: 0 <= i < |extents| ==> WellFormed(extents[i])
      modifies this
      ensures forall t :: t in tiles <==> t in old(tiles) && !Stale(t, extents, profiles)
      ensures total == |old(tiles)| - |tiles|
    {
      total := 0;
      for i := 0 to |extents|
        invariant forall t :: t in tiles <==> t in old(tiles) && !Stale(t, extents[..i], profiles)
        invariant total == |old(tiles)| - |tiles|
      {
        var e := extents[i];
        var z := e.minZoom;
        while z < e.maxZoom + 1
          invariant e.minZoom <= z && (z <= e.maxZoom + 1 || z == e.minZoom)
          invariant forall t :: t in tiles <==>
                      t in old(tiles) && !Stale(t, extents[..i], profiles)
                      && !(t.profile in profiles && t.z < z && StaleBy(t, e))
          invariant total == |old(tiles)| - |tiles|
        {
          hide Stale;
          forall t: Index ensures InRange(e, t, z) <==> Covers(e, t, z) {
            RangeIsCoverage(e, t, z);
          }
          hide Covers, TileIndex;
          var count := DeleteRange(z, TileIndex(e.minx, e.maxy, z), TileIndex(e.maxx, e.miny, z), profiles);
          total := total + count;
          z := z + 1;
        }
        assert extents[..i + 1] == extents[..i] + [e];
      }
      assert extents[..|extents|] == extents;
    }
  }
}
