/** The map the generator fills in: a grid of tiles indexed [x, y] and the
    entities standing on it. Only the parts the generator uses are modelled:
    the map's size, its tiles as wall or floor, rectangular and single-cell
    tile writes, and the entity collection. */
module DungeonMap {
  import opened Rooms
  import opened Entities

  datatype Tile = Wall | Floor

  class GameMap {
    const width: nat
    const height: nat
    const tiles: array2<Tile>
    var entities: seq<Entity>

    ghost predicate Valid()
      reads this
    {
      tiles.Length0 == width && tiles.Length1 == height
    }

    predicate InBounds(p: Point)
      reads this
    {
      0 <= p.x < width && 0 <= p.y < height
    }

    /** A new map of the given size, every tile wall, holding the given
        entities. */
    constructor (width: nat, height: nat, entities: seq<Entity>)
      ensures Valid() && fresh(tiles)
      ensures this.width == width && this.height == height && this.entities == entities
      ensures forall i, j :: 0 <= i < width && 0 <= j < height ==> tiles[i, j] == Wall
    {
      this.width := width;
      this.height := height;
      this.entities := entities;
      tiles := new Tile[width, height]((i, j) => Wall);
    }

    /** tiles[region] = t, a write through a pair of slices: every cell of
        the map inside the region becomes t, the slices being cut off at the
        map's edge; every other cell keeps its tile. */
    method FillRegion(region: Region, t: Tile)
      requires Valid()
      requires 0 <= region.cols.start && 0 <= region.rows.start
      modifies tiles
      ensures forall i, j :: 0 <= i < width && 0 <= j < height ==>
                tiles[i, j] == if InRegion(region, Point(i, j)) then t else old(tiles[i, j])
    {
      var colEnd := if region.cols.stop < width then region.cols.stop else width;
      var rowEnd := if region.rows.stop < height then region.rows.stop else height;
      var i := region.cols.start;
      while i < colEnd
        invariant region.cols.start <= i
        invariant forall a, b :: 0 <= a < width && 0 <= b < height ==>
                    tiles[a, b] == if InRegion(region, Point(a, b)) && a < i then t else old(tiles[a, b])
      {
        var j := region.rows.start;
        while j < rowEnd
          invariant region.rows.start <= j
          invariant forall a, b :: 0 <= a < width && 0 <= b < height ==>
                      tiles[a, b] == if InRegion(region, Point(a, b)) && (a < i || (a == i && b < j)) then t else old(tiles[a, b])
        {
          tiles[i, j] := t;
          j := j + 1;
        }
        i := i + 1;
      }
    }

    /** tiles[x, y] = t for each cell (x, y) of path, in order: the cells on
        the path become t and every other cell keeps its tile. */
    method FillCells(path: seq<Point>, t: Tile)
      requires Valid()
      requires forall p :: p in path ==> InBounds(p)
      modifies tiles
      ensures forall i, j :: 0 <= i < width && 0 <= j < height ==>
                tiles[i, j] == if Point(i, j) in path then t else old(tiles[i, j])
    {
      for k := 0 to |path|
        invariant forall i, j :: 0 <= i < width && 0 <= j < height ==>
                    tiles[i, j] == if Point(i, j) in path[..k] then t else old(tiles[i, j])
      {
        assert path[k] in path;
        tiles[path[k].x, path[k].y] := t;
        assert path[..k + 1] == path[..k] + [path[k]];
      }
      assert path[..|path|] == path;
    }

    /** Makes floor of a region and then of a path: a cell is floor afterwards
        exactly when it was floor before, lies in the region or lies on the
        path. */
    method Dig(region: Region, path: seq<Point>)
      requires Valid()
      requires 0 <= region.cols.start && 0 <= region.rows.start
      requires forall p :: p in path ==> InBounds(p)
      modifies tiles
      ensures forall i, j :: 0 <= i < width && 0 <= j < height ==>
                (tiles[i, j] == Floor <==>
                   old(tiles[i, j]) == Floor || InRegion(region, Point(i, j)) || Point(i, j) in path)
    {
      FillRegion(region, Floor);
      FillCells(path, Floor);
    }
  }
}
