/**
 * Tile addressing of the version 3 archive format: a tile (z, x, y) is numbered by
 * the count of all tiles on lower zoom levels plus its rank along the Hilbert curve
 * that covers zoom level z.
 */
module TileId {
  import opened Arith
  import opened Wrappers

  /** The deepest zoom level whose identifiers stay below 2^53. */
  const MaxZoom: nat := 26

  datatype Tile = Tile(z: nat, x: nat, y: nat)

  datatype TileError =
    | ZoomTooLarge       // zoom level exceeds 26
    | OutsideZoomBounds  // x or y is not below 2^z
    | IdTooLarge         // identifier lies beyond zoom level 26

  ghost predicate ValidTile(t: Tile)
  {
    t.z <= MaxZoom && t.x < Pow2(t.z) && t.y < Pow2(t.z)
  }

  /** Number of tiles on zoom level z, 4^z. */
  function TilesOnLevel(z: nat): (n: nat)
    ensures n >= 1
  {
    if z == 0 then 1 else 4 * TilesOnLevel(z - 1)
  }

  /** Number of tiles on all zoom levels below z: the first identifier of level z. */
  function ZoomBase(z: nat): nat
  {
    if z == 0 then 0 else ZoomBase(z - 1) + TilesOnLevel(z - 1)
  }

  /** The first identifier beyond zoom level 26. */
  const IdLimit: nat := ZoomBase(MaxZoom + 1)

  /** Identifier id lies in the range of zoom level z. */
  predicate OnLevel(id: nat, z: nat)
  {
    ZoomBase(z) <= id < ZoomBase(z) + TilesOnLevel(z)
  }

  /** A level of side 2^z holds 2^z * 2^z tiles. */
  lemma {:induction false} TilesIsSquare(z: nat)
    ensures TilesOnLevel(z) == Pow2(z) * Pow2(z)
  {
    if z > 0 {
      TilesIsSquare(z - 1);
      var p := Pow2(z - 1);
      assert (2 * p) * (2 * p) == 4 * (p * p);
    }
  }

  /** The first identifier of zoom level z is (4^z - 1) / 3. */
  lemma {:induction false} ZoomBaseClosedForm(z: nat)
    ensures 3 * ZoomBase(z) + 1 == TilesOnLevel(z)
  {
    if z > 0 {
      ZoomBaseClosedForm(z - 1);
    }
  }

  lemma {:induction false} ZoomBaseMonotone(a: nat, b: nat)
    requires a <= b
    ensures ZoomBase(a) <= ZoomBase(b)
    ensures a < b ==> ZoomBase(a) + TilesOnLevel(a) <= ZoomBase(b)
    decreases b
  {
    if a < b {
      ZoomBaseMonotone(a, b - 1);
    }
  }

  lemma {:induction false} Pow2StrictlyMonotone(a: nat, b: nat)
    requires a < b
    ensures Pow2(a) < Pow2(b)
    decreases b
  {
    if a + 1 < b {
      Pow2StrictlyMonotone(a, b - 1);
    }
  }

  /** The curve position of a quadrant, (3 * rx) xor ry: (0,0), (0,1), (1,1), (1,0) in that order. */
  function Quadrant(rx: nat, ry: nat): (q: nat)
    requires rx < 2 && ry < 2
    ensures q < 4
  {
    if rx == 0 then ry else 3 - ry
  }

  /** The quadrant bits of a curve position: rx is bit 1, ry is bit 0 xor rx. */
  function QuadrantBits(q: nat): (b: (nat, nat))
    requires q < 4
    ensures b.0 < 2 && b.1 < 2 && Quadrant(b.0, b.1) == q
  {
    (q / 2, (q % 2 + q / 2) % 2)
  }

  /**
   * The Hilbert curve's rotation of a sub-square of side s: in the two lower
   * quadrants the square is transposed, and in the lower right one also flipped.
   */
  function Rotate(s: nat, x: nat, y: nat, rx: nat, ry: nat): (r: (nat, nat))
    requires x < s && y < s
    ensures r.0 < s && r.1 < s
  {
    if ry == 0 then
      if rx == 1 then (s - 1 - y, s - 1 - x) else (y, x)
    else
      (x, y)
  }

  lemma RotateInvolution(s: nat, x: nat, y: nat, rx: nat, ry: nat)
    requires x < s && y < s
    ensures var r := Rotate(s, x, y, rx, ry); Rotate(s, r.0, r.1, rx, ry) == (x, y)
  {
  }

  /**
   * The rank of the rest-th point of the q-th block of m consecutive ranks, that is
   * m * q + rest, spelled as repeated addition.
   */
  function Offset(m: nat, q: nat, rest: nat): (r: nat)
    ensures r >= rest
  {
    if q == 0 then rest else m + Offset(m, q - 1, rest)
  }

  /** Four blocks of m ranks. */
  lemma OffsetFour(m: nat, rest: nat)
    ensures Offset(m, 4, rest) == m + m + m + m + rest
  {
    assert Offset(m, 1, rest) == m + rest;
    assert Offset(m, 2, rest) == m + m + rest;
    assert Offset(m, 3, rest) == m + m + m + rest;
  }

  /** The offset is the product m * q plus rest. */
  lemma OffsetProduct(m: nat, q: nat, rest: nat)
    requires q < 4
    ensures Offset(m, q, rest) == m * q + rest
  {
    if q >= 1 {
      assert Offset(m, 1, rest) == m + rest;
    }
    if q >= 2 {
      assert Offset(m, 2, rest) == m + m + rest;
    }
    if q >= 3 {
      assert Offset(m, 3, rest) == m + m + m + rest;
    }
  }

  /** A rest inside a block and at most three whole blocks before it stay within four blocks. */
  lemma OffsetBelow(m: nat, q: nat, rest: nat)
    ensures q < 4 && rest < m ==> Offset(m, q, rest) < 4 * m
  {
    if q < 4 {
      OffsetProduct(m, q, rest);
    }
  }

  lemma {:induction false} OffsetGrows(m: nat, q: nat, rest: nat)
    ensures q >= 1 ==> Offset(m, q, rest) >= m
    ensures q >= 4 ==> Offset(m, q, rest) >= 4 * m
  {
    if q > 4 {
      OffsetGrows(m, q - 1, rest);
    } else if q == 4 {
      OffsetFour(m, rest);
    }
  }

  lemma {:induction false} OffsetAdd(m: nat, a: nat, b: nat, rest: nat)
    ensures Offset(m, a + b, rest) == Offset(m, a, Offset(m, b, rest))
  {
    if a > 0 {
      OffsetAdd(m, a - 1, b, rest);
    }
  }

  lemma {:induction false} OffsetUnit(q: nat)
    ensures Offset(1, q, 0) == q
  {
    if q > 0 {
      OffsetUnit(q - 1);
    }
  }

  /** k blocks of 4m ranks are 4k blocks of m ranks. */
  lemma {:induction false} OffsetScale(m: nat, k: nat, rest: nat)
    ensures Offset(4 * m, k, rest) == Offset(m, 4 * k, rest)
  {
    if k > 0 {
      OffsetScale(m, k - 1, rest);
      OffsetAdd(m, 4, 4 * (k - 1), rest);
      OffsetFour(m, Offset(m, 4 * (k - 1), rest));
    }
  }

  /** The block and the rank inside the block of rank d, for blocks of m ranks: d divided by m with remainder. */
  function Split(m: nat, d: nat): (r: (nat, nat))
    requires m > 0
    ensures r.1 < m && Offset(m, r.0, r.1) == d
    ensures d < 4 * m ==> r.0 < 4
    decreases d
  {
    var r := if d < m then (0, d) else var h := Split(m, d - m); (h.0 + 1, h.1);
    OffsetGrows(m, r.0, r.1);
    r
  }

  /** Splitting an offset recovers its block and its rest. */
  lemma {:induction false} SplitOffset(m: nat, q: nat, rest: nat)
    requires rest < m
    ensures Split(m, Offset(m, q, rest)) == (q, rest)
  {
    if q > 0 {
      SplitOffset(m, q - 1, rest);
    }
  }

  /**
   * One level down the curve: the quadrant position of (x, y) inside a level of
   * side 2s, and its coordinates inside that quadrant after the quadrant's rotation.
   */
  function Descend(s: nat, x: nat, y: nat): (c: (nat, nat, nat))
    requires x < 2 * s && y < 2 * s
    ensures c.0 < 4 && c.1 < s && c.2 < s
  {
    var rx := if x >= s then 1 else 0;
    var ry := if y >= s then 1 else 0;
    var r := Rotate(s, if rx == 1 then x - s else x, if ry == 1 then y - s else y, rx, ry);
    (Quadrant(rx, ry), r.0, r.1)
  }

  /** One level up the curve: the point of a level of side 2s lying at (a, b) inside quadrant position q. */
  function Place(s: nat, q: nat, a: nat, b: nat): (p: (nat, nat))
    requires q < 4 && a < s && b < s
    ensures p.0 < 2 * s && p.1 < 2 * s
  {
    var bits := QuadrantBits(q);
    var r := Rotate(s, a, b, bits.0, bits.1);
    (if bits.0 == 1 then r.0 + s else r.0, if bits.1 == 1 then r.1 + s else r.1)
  }

  lemma PlaceDescend(s: nat, x: nat, y: nat)
    requires x < 2 * s && y < 2 * s
    ensures var c := Descend(s, x, y); Place(s, c.0, c.1, c.2) == (x, y)
  {
    var rx := if x >= s then 1 else 0;
    var ry := if y >= s then 1 else 0;
    RotateInvolution(s, if rx == 1 then x - s else x, if ry == 1 then y - s else y, rx, ry);
    assert QuadrantBits(Quadrant(rx, ry)) == (rx, ry);
  }

  lemma DescendPlace(s: nat, q: nat, a: nat, b: nat)
    requires q < 4 && a < s && b < s
    ensures var p := Place(s, q, a, b); Descend(s, p.0, p.1) == (q, a, b)
  {
    var bits := QuadrantBits(q);
    RotateInvolution(s, a, b, bits.0, bits.1);
  }

  /** The rank of (x, y) along the Hilbert curve of order k, found from the top quadrant down. */
  function HilbertRank(k: nat, x: nat, y: nat): (d: nat)
    requires x < Pow2(k) && y < Pow2(k)
    ensures d < TilesOnLevel(k)
    decreases k
  {
    if k == 0 then 0
    else
      var c := Descend(Pow2(k - 1), x, y);
      var sub := HilbertRank(k - 1, c.1, c.2);
      OffsetBelow(TilesOnLevel(k - 1), c.0, sub);
      Offset(TilesOnLevel(k - 1), c.0, sub)
  }

  /** The point of rank d along the Hilbert curve of order k. */
  function HilbertUnrank(k: nat, d: nat): (p: (nat, nat))
    requires d < TilesOnLevel(k)
    ensures p.0 < Pow2(k) && p.1 < Pow2(k)
    decreases k
  {
    if k == 0 then (0, 0)
    else
      var h := Split(TilesOnLevel(k - 1), d);
      var sub := HilbertUnrank(k - 1, h.1);
      Place(Pow2(k - 1), h.0, sub.0, sub.1)
  }

  /** Unranking inverts ranking. */
  lemma {:induction false} UnrankRank(k: nat, x: nat, y: nat)
    requires x < Pow2(k) && y < Pow2(k)
    ensures HilbertUnrank(k, HilbertRank(k, x, y)) == (x, y)
  {
    if k > 0 {
      var s, m := Pow2(k - 1), TilesOnLevel(k - 1);
      var c := Descend(s, x, y);
      SplitOffset(m, c.0, HilbertRank(k - 1, c.1, c.2));
      UnrankRank(k - 1, c.1, c.2);
      PlaceDescend(s, x, y);
    }
  }

  /** Ranking inverts unranking. */
  lemma {:induction false} RankUnrank(k: nat, d: nat)
    requires d < TilesOnLevel(k)
    ensures HilbertRank(k, HilbertUnrank(k, d).0, HilbertUnrank(k, d).1) == d
  {
    if k > 0 {
      var s, m := Pow2(k - 1), TilesOnLevel(k - 1);
      var h := Split(m, d);
      var sub := HilbertUnrank(k - 1, h.1);
      DescendPlace(s, h.0, sub.0, sub.1);
      RankUnrank(k - 1, h.1);
    }
  }

  /** The base-4 digits of pos from the i-th on: pos divided by 4^i. */
  function Shift(pos: nat, i: nat): nat
  {
    if i == 0 then pos else Shift(pos, i - 1) / 4
  }

  /** The i lowest base-4 digits of pos: pos modulo 4^i. */
  function Low(pos: nat, i: nat): (r: nat)
    ensures r < TilesOnLevel(i)
  {
    if i == 0 then 0
    else
      OffsetBelow(TilesOnLevel(i - 1), Shift(pos, i - 1) % 4, Low(pos, i - 1));
      Offset(TilesOnLevel(i - 1), Shift(pos, i - 1) % 4, Low(pos, i - 1))
  }

  /** pos is its high digits times 4^i plus its low digits. */
  lemma {:induction false} Decompose(pos: nat, i: nat)
    ensures pos == Offset(TilesOnLevel(i), Shift(pos, i), Low(pos, i))
  {
    if i > 0 {
      Decompose(pos, i - 1);
      var m, h, low := TilesOnLevel(i - 1), Shift(pos, i - 1), Low(pos, i - 1);
      assert Low(pos, i) == Offset(m, h % 4, low);
      assert Offset(m, h, low) == Offset(m, 4 * (h / 4), Offset(m, h % 4, low)) by {
        assert h == 4 * (h / 4) + h % 4;
        OffsetAdd(m, 4 * (h / 4), h % 4, low);
      }
      OffsetScale(m, h / 4, Low(pos, i));
      assert TilesOnLevel(i) == 4 * m && Shift(pos, i) == h / 4;
    } else {
      OffsetUnit(pos);
    }
  }

  /** A position of level z has no digits beyond its z lowest ones. */
  lemma LowOfPosition(pos: nat, z: nat)
    requires pos < TilesOnLevel(z)
    ensures Low(pos, z) == pos
  {
    Decompose(pos, z);
    OffsetGrows(TilesOnLevel(z), Shift(pos, z), Low(pos, z));
  }

  /** The identifier of tile (z, x, y), or the error the reader throws. */
  function TileIdOf(z: nat, x: nat, y: nat): (r: Result<nat, TileError>)
    ensures r.Ok? <==> ValidTile(Tile(z, x, y))
    ensures r == Err(ZoomTooLarge) <==> z > MaxZoom
    ensures r.Ok? ==> OnLevel(r.value, z)
  {
    if z > MaxZoom then Err(ZoomTooLarge)
    else if x > Pow2(z) - 1 || y > Pow2(z) - 1 then Err(OutsideZoomBounds)
    else Ok(ZoomBase(z) + HilbertRank(z, x, y))
  }

  /** The zoom level whose identifier range holds id, searched upwards from z. */
  function ZoomFrom(id: nat, z: nat): (r: nat)
    requires z <= MaxZoom && ZoomBase(z) <= id < IdLimit
    ensures z <= r <= MaxZoom && OnLevel(id, r)
    decreases MaxZoom - z
  {
    if id < ZoomBase(z) + TilesOnLevel(z) then z else ZoomFrom(id, z + 1)
  }

  /** An identifier lies in the range of exactly one zoom level. */
  lemma ZoomUnique(id: nat, z: nat, z': nat)
    requires OnLevel(id, z) && OnLevel(id, z')
    ensures z == z'
  {
    if z < z' {
      ZoomBaseMonotone(z, z');
    } else if z' < z {
      ZoomBaseMonotone(z', z);
    }
  }

  /** The tile at identifier id on zoom level z: the point of the level's curve at the identifier's offset. */
  function TileAt(id: nat, z: nat): (t: Tile)
    requires z <= MaxZoom && OnLevel(id, z)
    ensures ValidTile(t) && t.z == z
  {
    var p := HilbertUnrank(z, id - ZoomBase(z));
    Tile(z, p.0, p.1)
  }

  /** The tile an identifier names, or the error the reader throws. */
  function ZxyOf(id: nat): (r: Result<Tile, TileError>)
    ensures r.Err? <==> id >= IdLimit
    ensures r.Ok? ==> ValidTile(r.value)
  {
    if id >= IdLimit then Err(IdTooLarge) else Ok(TileAt(id, ZoomFrom(id, 0)))
  }

  /** An identifier in the range of zoom level z names the tile at its offset on level z. */
  lemma ZxyOfLevel(id: nat, z: nat)
    requires z <= MaxZoom && OnLevel(id, z)
    ensures ZxyOf(id) == Ok(TileAt(id, z))
  {
    ZoomBaseMonotone(z, MaxZoom + 1);
    ZoomUnique(id, z, ZoomFrom(id, 0));
  }

  /** A tile found on the level that holds id, at id's offset there, is the tile id names. */
  lemma ZxyOfFields(id: nat, z: nat, acc: nat, t: Tile)
    requires z <= MaxZoom && acc == ZoomBase(z) && acc <= id < acc + TilesOnLevel(z)
    requires t.z == z && t.x == HilbertUnrank(z, id - acc).0 && t.y == HilbertUnrank(z, id - acc).1
    ensures Ok(t) == ZxyOf(id)
  {
    ZxyOfLevel(id, z);
  }

  /** An identifier at or past the first one beyond zoom level 26 names no tile. */
  lemma IdBeyondLevels(id: nat, acc: nat)
    requires acc == ZoomBase(MaxZoom + 1) && acc <= id
    ensures Err(IdTooLarge) == ZxyOf(id)
  {
  }

  /** Every valid tile survives the trip through its identifier. */
  lemma TileRoundTrip(t: Tile)
    requires ValidTile(t)
    ensures TileIdOf(t.z, t.x, t.y).Ok?
    ensures ZxyOf(TileIdOf(t.z, t.x, t.y).value) == Ok(t)
  {
    var id := TileIdOf(t.z, t.x, t.y).value;
    assert id - ZoomBase(t.z) == HilbertRank(t.z, t.x, t.y);
    UnrankRank(t.z, t.x, t.y);
    ZxyOfFields(id, t.z, ZoomBase(t.z), t);
  }

  /** Every identifier below the limit survives the trip through its tile. */
  lemma IdRoundTrip(id: nat)
    requires id < IdLimit
    ensures ZxyOf(id).Ok?
    ensures var t := ZxyOf(id).value; TileIdOf(t.z, t.x, t.y) == Ok(id)
  {
    var z := ZoomFrom(id, 0);
    RankUnrank(z, id - ZoomBase(z));
  }

  /** Identifiers at a lower zoom level sort before identifiers at a higher one. */
  lemma ZoomOrder(a: Tile, b: Tile)
    requires ValidTile(a) && ValidTile(b) && a.z < b.z
    ensures TileIdOf(a.z, a.x, a.y).value < TileIdOf(b.z, b.x, b.y).value
  {
    ZoomBaseMonotone(a.z, b.z);
  }

  lemma Pow2Of27()
    ensures Pow2(27) == 134217728
  {
    assert Pow2(10) == 1024;
    assert Pow2(7) == 128;
    Pow2Add(10, 10);
    Pow2Add(20, 7);
  }

  /** The identifier limit, (4^27 - 1) / 3, lies below the largest safe integer 2^53 - 1. */
  lemma IdLimitValue()
    ensures IdLimit == 6004799503160661
  {
    Pow2Of27();
    TilesIsSquare(27);
    ZoomBaseClosedForm(27);
  }

  /** The largest safe integer 2^53 - 1 names no tile. */
  lemma MaxSafeIntegerRejected()
    ensures ZxyOf(9007199254740991) == Err(IdTooLarge)
  {
    IdLimitValue();
  }

  /** Zoom level 27 and a coordinate outside zoom level 0 are rejected. */
  lemma InvalidTilesRejected()
    ensures TileIdOf(27, 0, 0) == Err(ZoomTooLarge)
    ensures TileIdOf(0, 1, 1) == Err(OutsideZoomBounds)
  {
  }

  /** On the curve of order 1 a tile's rank is its quadrant position. */
  lemma LevelOneRank(x: nat, y: nat)
    requires x < 2 && y < 2
    ensures HilbertRank(1, x, y) == Quadrant(x, y)
  {
    assert Pow2(1) == 2;
    var c := Descend(1, x, y);
    assert c == (Quadrant(x, y), 0, 0);
    assert HilbertRank(0, 0, 0) == 0;
  }

  /** The top-left tile is the first on the curve of every order. */
  lemma {:induction false} OriginRank(k: nat)
    ensures HilbertRank(k, 0, 0) == 0
  {
    if k > 0 {
      OriginRank(k - 1);
      assert Descend(Pow2(k - 1), 0, 0) == (0, 0, 0);
    }
  }

  /** The top-left tile of each zoom level carries that level's first identifier. */
  lemma FirstOfLevel(z: nat)
    requires z <= MaxZoom
    ensures TileIdOf(z, 0, 0).Ok? && TileIdOf(z, 0, 0).value == ZoomBase(z)
  {
    OriginRank(z);
  }

  /** The first identifier of each zoom level names that level's top-left tile. */
  lemma FirstIdOfLevel(z: nat)
    requires z <= MaxZoom
    ensures ZxyOf(ZoomBase(z)) == Ok(Tile(z, 0, 0))
  {
    OriginRank(z);
    UnrankRank(z, 0, 0);
    ZxyOfLevel(ZoomBase(z), z);
  }

  /** The first identifiers of zoom levels 0, 1 and 2. */
  lemma ZoomBaseValues()
    ensures ZoomBase(0) == 0 && ZoomBase(1) == 1 && ZoomBase(2) == 5
  {
  }

  /** Zoom level 1 takes identifiers 1 to 4 in curve order: (0,0), (0,1), (1,1), (1,0). */
  lemma LevelOneIdentifiers(x: nat, y: nat)
    requires x < 2 && y < 2
    ensures TileIdOf(1, x, y) == Ok(1 + Quadrant(x, y))
    ensures ZxyOf(1 + Quadrant(x, y)) == Ok(Tile(1, x, y))
  {
    LevelOneRank(x, y);
    var id := 1 + Quadrant(x, y);
    assert ZoomBase(1) == 1 && TilesOnLevel(1) == 4;
    UnrankRank(1, x, y);
    ZxyOfFields(id, 1, 1, Tile(1, x, y));
  }

  /**
   * zxyToTileId: walks the curve from the top quadrant down, adding each level's
   * quadrant offset and rotating the remaining coordinates into that quadrant.
   */
  method ZxyToTileId(z: nat, x: nat, y: nat) returns (r: Result<nat, TileError>)
    // the same result as TileIdOf, stated field by field
    ensures r.Ok? == TileIdOf(z, x, y).Ok?
    ensures r.Ok? ==> r.value == TileIdOf(z, x, y).value
    ensures r.Err? ==> r.error == TileIdOf(z, x, y).error
  {
    if z > MaxZoom {
      RankRejected(z, x, y, Pow2(z));
      return Err(ZoomTooLarge);
    }
    var n := Pow2(z);
    if x > n - 1 || y > n - 1 {
      RankRejected(z, x, y, n);
      return Err(OutsideZoomBounds);
    }
    var acc := ZoomBase(z);
    var d: int := 0;
    var cx: nat, cy: nat := x, y;
    var s: nat := n / 2;
    ghost var j: nat := z;
    assert s == (if z == 0 then 0 else Pow2(z - 1));
    while s > 0
      invariant j <= z && s == (if j == 0 then 0 else Pow2(j - 1))
      invariant cx < Pow2(j) && cy < Pow2(j)
      invariant d + HilbertRank(j, cx, cy) == HilbertRank(z, x, y)
      decreases j
    {
      var rx := if cx >= s then 1 else 0;
      var ry := if cy >= s then 1 else 0;
      RankStep(j, s, cx, cy, rx, ry);
      d := d + s * s * Quadrant(rx, ry);
      var p := Rotate(s, if rx == 1 then cx - s else cx, if ry == 1 then cy - s else cy, rx, ry);
      cx, cy := p.0, p.1;
      s := s / 2;
      j := j - 1;
    }
    RankDone(z, x, y, j, cx, cy, acc, d);
    return Ok(acc + d);
  }

  /** When zxyToTileId's walk has reached single tiles, d is the tile's rank and its zoom base the rest of the identifier. */
  lemma RankDone(z: nat, x: nat, y: nat, j: nat, cx: nat, cy: nat, acc: nat, d: int)
    requires z <= MaxZoom && x < Pow2(z) && y < Pow2(z) && j == 0 && cx < 1 && cy < 1
    requires acc == ZoomBase(z) && d + HilbertRank(j, cx, cy) == HilbertRank(z, x, y)
    ensures acc + d >= 0 && TileIdOf(z, x, y).Ok? && TileIdOf(z, x, y).value == acc + d
  {
    assert HilbertRank(j, cx, cy) == 0;
    var h := HilbertRank(z, x, y);
    assert d == h;
    assert TileIdOf(z, x, y).value == acc + h;
  }

  /** zxyToTileId's two guards, on the zoom level and on the coordinates, are TileIdOf's errors. */
  lemma RankRejected(z: nat, x: nat, y: nat, n: nat)
    requires n == Pow2(z)
    ensures z > MaxZoom ==> TileIdOf(z, x, y).Err? && TileIdOf(z, x, y).error == ZoomTooLarge
    ensures z <= MaxZoom && (x > n - 1 || y > n - 1) ==>
              TileIdOf(z, x, y).Err? && TileIdOf(z, x, y).error == OutsideZoomBounds
  {
  }

  /** One level of zxyToTileId's walk, in the shape the walk computes it, agrees with the curve's definition. */
  lemma RankStep(j: nat, s: nat, x: nat, y: nat, rx: nat, ry: nat)
    requires s > 0 && s == (if j == 0 then 0 else Pow2(j - 1)) && x < Pow2(j) && y < Pow2(j)
    requires rx == (if x >= s then 1 else 0) && ry == (if y >= s then 1 else 0)
    ensures j > 0 && s / 2 == (if j == 1 then 0 else Pow2(j - 2))
    ensures var a := if rx == 1 then x - s else x;
            var b := if ry == 1 then y - s else y;
            && 0 <= a < s && 0 <= b < s
            && var p := Rotate(s, a, b, rx, ry);
               HilbertRank(j, x, y) == s * s * Quadrant(rx, ry) + HilbertRank(j - 1, p.0, p.1)
  {
    var c := Descend(s, x, y);
    assert TilesOnLevel(j - 1) == s * s by {
      TilesIsSquare(j - 1);
    }
    OffsetProduct(s * s, c.0, HilbertRank(j - 1, c.1, c.2));
  }

  /**
   * idOnLevel: rebuilds (x, y) from the curve position, two bits per level,
   * from the lowest level up.
   */
  method IdOnLevel(z: nat, pos: nat) returns (t: Tile)
    requires pos < TilesOnLevel(z)
    ensures t.z == z && t.x == HilbertUnrank(z, pos).0 && t.y == HilbertUnrank(z, pos).1
  {
    var n := Pow2(z);
    var cx: int, cy: int := 0, 0;
    var rest: int := pos;
    var s: int := 1;
    ghost var i: nat := 0;
    while s < n
      invariant i <= z && s == Pow2(i) && rest == Shift(pos, i)
      invariant cx == HilbertUnrank(i, Low(pos, i)).0 && cy == HilbertUnrank(i, Low(pos, i)).1
      decreases z - i
    {
      var rx := (rest / 2) % 2;
      var ry := (rest % 2 + rx) % 2;
      UnrankStep(z, i, s, pos, rest, cx, cy, rx, ry);
      var p := Rotate(s, cx, cy, rx, ry);
      cx, cy := p.0 + s * rx, p.1 + s * ry;
      rest := rest / 4;
      s := s * 2;
      i := i + 1;
    }
    UnrankDone(z, i, s, pos, cx, cy);
    t := Tile(z, cx, cy);
  }

  /** When idOnLevel's square has grown to the whole level, its point is the curve's point at pos. */
  lemma UnrankDone(z: nat, i: nat, s: nat, pos: nat, cx: nat, cy: nat)
    requires pos < TilesOnLevel(z) && i <= z && s == Pow2(i) && s >= Pow2(z)
    requires cx == HilbertUnrank(i, Low(pos, i)).0 && cy == HilbertUnrank(i, Low(pos, i)).1
    ensures cx == HilbertUnrank(z, pos).0 && cy == HilbertUnrank(z, pos).1
  {
    if i < z {
      Pow2StrictlyMonotone(i, z);
    }
    LowOfPosition(pos, z);
  }

  /** One level of idOnLevel's reconstruction, in the shape it computes it, agrees with the curve's definition. */
  lemma UnrankStep(z: nat, i: nat, s: nat, pos: nat, rest: nat, cx: nat, cy: nat, rx: nat, ry: nat)
    requires i <= z && s == Pow2(i) && s < Pow2(z) && rest == Shift(pos, i)
    requires cx == HilbertUnrank(i, Low(pos, i)).0 && cy == HilbertUnrank(i, Low(pos, i)).1
    requires rx == (rest / 2) % 2 && ry == (rest % 2 + rx) % 2
    ensures i < z && cx < s && cy < s && s * 2 == Pow2(i + 1) && rest / 4 == Shift(pos, i + 1)
    ensures var p := Rotate(s, cx, cy, rx, ry);
            && p.0 + s * rx == HilbertUnrank(i + 1, Low(pos, i + 1)).0
            && p.1 + s * ry == HilbertUnrank(i + 1, Low(pos, i + 1)).1
  {
    if i == z {
      assert false;
    }
    var q, low := rest % 4, Low(pos, i);
    var d := Low(pos, i + 1);
    assert d == Offset(TilesOnLevel(i), q, low);
    assert Split(TilesOnLevel(i), d) == (q, low) by {
      SplitOffset(TilesOnLevel(i), q, low);
    }
    assert HilbertUnrank(i + 1, d) == Place(s, q, cx, cy);
    assert QuadrantBits(q) == (rx, ry) by {
      QuadrantBitsOf(rest);
    }
    PlaceShifted(s, q, cx, cy);
  }

  /** The quadrant bits of the low two bits of t, as idOnLevel extracts them. */
  lemma QuadrantBitsOf(t: nat)
    ensures QuadrantBits(t % 4) == ((t / 2) % 2, (t % 2 + (t / 2) % 2) % 2)
  {
  }

  /** Placing into a quadrant, in the shape idOnLevel computes it: rotate, then shift by s per quadrant bit. */
  lemma PlaceShifted(s: nat, q: nat, a: nat, b: nat)
    requires q < 4 && a < s && b < s
    ensures var bits := QuadrantBits(q);
            var p := Rotate(s, a, b, bits.0, bits.1);
            Place(s, q, a, b) == (p.0 + s * bits.0, p.1 + s * bits.1)
  {
    var bits := QuadrantBits(q);
    assert s * bits.0 == (if bits.0 == 1 then s else 0);
    assert s * bits.1 == (if bits.1 == 1 then s else 0);
  }

  /**
   * tileIdToZxy: scans the zoom levels upwards, subtracting each level's tile
   * count, and places the remainder on the curve of the level that holds it.
   */
  method TileIdToZxy(id: nat) returns (r: Result<Tile, TileError>)
    // the same result as ZxyOf, stated field by field
    ensures r.Ok? == ZxyOf(id).Ok?
    ensures r.Ok? ==> r.value == ZxyOf(id).value
    ensures r.Err? ==> r.error == ZxyOf(id).error
  {
    var acc := 0;
    var z := 0;
    while z < MaxZoom + 1
      invariant z <= MaxZoom + 1
      invariant acc == ZoomBase(z) && acc <= id
      decreases MaxZoom + 1 - z
    {
      // (1 << z) * (1 << z), which TilesIsSquare shows to be 4^z
      var numTiles := TilesOnLevel(z);
      if acc + numTiles > id {
        break;
      }
      acc := acc + numTiles;
      z := z + 1;
    }
    if z == MaxZoom + 1 {
      IdBeyondLevels(id, acc);
      return Err(IdTooLarge);
    }
    var t := IdOnLevel(z, id - acc);
    ZxyOfFields(id, z, acc, t);
    return Ok(t);
  }
}
