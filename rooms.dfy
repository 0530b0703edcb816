/** Geometry of the rectangular rooms a dungeon is carved from
    (RectangularRoom in src/procgen.py). */
module Rooms {

  /** A grid cell: column x, row y (the map's tiles are indexed [x, y]). */
  datatype Point = Point(x: int, y: int)

  /** A room as the source stores it: the top-left corner and the far
      corner (x, y), which is the top-left corner moved by width and height. */
  datatype RectangularRoom = RectangularRoom(topLeftX: int, topLeftY: int, x: int, y: int)

  /** A Python slice with step 1: the indices start, start + 1, ..., stop - 1. */
  datatype Slice = Slice(start: int, stop: int)

  /** A 2D index made of a column slice and a row slice. */
  datatype Region = Region(cols: Slice, rows: Slice)

  predicate InSlice(s: Slice, i: int) {
    s.start <= i < s.stop
  }

  predicate InRegion(r: Region, p: Point) {
    InSlice(r.cols, p.x) && InSlice(r.rows, p.y)
  }

  /** The room built by RectangularRoom(top_left_x, top_left_y, width, height). */
  function NewRoom(topLeftX: int, topLeftY: int, width: int, height: int): (r: RectangularRoom)
    ensures r.topLeftX == topLeftX && r.topLeftY == topLeftY
    ensures r.x - r.topLeftX == width && r.y - r.topLeftY == height
  {
    RectangularRoom(topLeftX, topLeftY, topLeftX + width, topLeftY + height)
  }

  /** A room whose far corner is not before its top-left corner. */
  predicate Ordered(r: RectangularRoom) {
    r.topLeftX <= r.x && r.topLeftY <= r.y
  }

  /** The outer rectangle [topLeftX, x] x [topLeftY, y], walls included. */
  predicate InOuter(r: RectangularRoom, p: Point) {
    r.topLeftX <= p.x <= r.x && r.topLeftY <= p.y <= r.y
  }

  /** Python's int(n / 2): halve and truncate toward zero (not toward minus
      infinity, as Dafny's own division does for negative n). */
  function TruncDiv2(n: int): (h: int)
    ensures n >= 0 ==> 0 <= n - 2 * h <= 1
    ensures n < 0 ==> 0 <= 2 * h - n <= 1
  {
    if n >= 0 then n / 2 else -((-n) / 2)
  }

  /** The room's center: the truncated midpoint of the outer rectangle. */
  function Center(r: RectangularRoom): (c: Point)
    ensures Ordered(r) ==> InOuter(r, c)
    ensures r.topLeftX + r.x >= 0 ==> 0 <= (r.topLeftX + r.x) - 2 * c.x <= 1
    ensures r.topLeftY + r.y >= 0 ==> 0 <= (r.topLeftY + r.y) - 2 * c.y <= 1
  {
    Point(TruncDiv2(r.topLeftX + r.x), TruncDiv2(r.topLeftY + r.y))
  }

  /** The floor area inside the walls, as the pair of slices the source uses
      to index the tile array. The slices' ends are exclusive, so the region
      covers columns topLeftX + 1 .. x - 1 and rows topLeftY + 1 .. y - 1. */
  function Inner(r: RectangularRoom): (region: Region)
    ensures forall p :: InRegion(region, p) <==>
              r.topLeftX + 1 <= p.x <= r.x - 1 && r.topLeftY + 1 <= p.y <= r.y - 1
  {
    Region(Slice(r.topLeftX + 1, r.x), Slice(r.topLeftY + 1, r.y))
  }

  predicate InInner(r: RectangularRoom, p: Point) {
    InRegion(Inner(r), p)
  }

  /** The closed-interval overlap test: rooms that share a border row or
      column count as intersecting. */
  predicate Intersects(a: RectangularRoom, b: RectangularRoom) {
    && a.topLeftX <= b.x
    && a.x >= b.topLeftX
    && a.topLeftY <= b.y
    && a.y >= b.topLeftY
  }

  lemma IntersectsSymmetric(a: RectangularRoom, b: RectangularRoom)
    ensures Intersects(a, b) <==> Intersects(b, a)
  {
  }

  lemma IntersectsItself(a: RectangularRoom)
    requires Ordered(a)
    ensures Intersects(a, a)
  {
  }

  /** Rooms side by side, one's far column being the other's first column,
      with overlapping row ranges, intersect: a shared wall is rejected. */
  lemma SharedBorderIntersects(a: RectangularRoom, b: RectangularRoom)
    requires Ordered(a) && Ordered(b)
    requires a.x == b.topLeftX
    requires a.topLeftY <= b.y && b.topLeftY <= a.y
    ensures Intersects(a, b) && Intersects(b, a)
  {
  }

  /** Intersects is exactly "the outer rectangles have a cell in common". */
  lemma IntersectsIffCommonCell(a: RectangularRoom, b: RectangularRoom)
    requires Ordered(a) && Ordered(b)
    ensures Intersects(a, b) <==> exists p :: InOuter(a, p) && InOuter(b, p)
  {
    if Intersects(a, b) {
      var p := Point(if a.topLeftX < b.topLeftX then b.topLeftX else a.topLeftX,
                     if a.topLeftY < b.topLeftY then b.topLeftY else a.topLeftY);
      assert InOuter(a, p) && InOuter(b, p);
    }
  }

  /** A room that does not intersect another touches none of the other's
      floor: no cell of its outer rectangle, walls included, is inside the
      other's inner region. In particular their inner regions are disjoint. */
  lemma NonIntersectingKeepApart(a: RectangularRoom, b: RectangularRoom, p: Point)
    requires !Intersects(a, b)
    ensures !(InOuter(a, p) && InInner(b, p))
    ensures !(InInner(a, p) && InInner(b, p))
  {
  }
}
