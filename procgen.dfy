/** The generator itself (place_entities and generate_dungeon in
    src/procgen.py), working on a GameMap in place. The random draws arrive
    as arguments; each method is proved to produce what module Generation
    says of those draws. */
module Procgen {
  import opened Rooms
  import opened Tunnel
  import opened Entities
  import opened DungeonMap
  import opened Generation

  /** Makes the spawn attempts monsters in room: each drawn cell gets a
      monster of the drawn kind unless an entity already stands there. The
      tiles are left alone and the existing entities stay as they are. */
  method PlaceEntities(room: RectangularRoom, dungeon: GameMap, maximumMonsters: int, monsters: seq<MonsterDraw>)
    requires ValidMonsters(room, maximumMonsters, monsters)
    modifies dungeon
    ensures dungeon.entities == Placed(old(dungeon.entities), monsters)
    ensures |old(dungeon.entities)| <= |dungeon.entities| <= |old(dungeon.entities)| + maximumMonsters
    ensures dungeon.entities[..|old(dungeon.entities)|] == old(dungeon.entities)
    ensures forall i :: |old(dungeon.entities)| <= i < |dungeon.entities| ==>
              dungeon.entities[i].kind != Player && InInner(room, Position(dungeon.entities[i]))
    ensures DistinctPositions(old(dungeon.entities)) ==> DistinctPositions(dungeon.entities)
  {
    ghost var start := dungeon.entities;
    for i := 0 to |monsters|
      invariant dungeon.entities == Placed(start, monsters[..i])
    {
      var m := monsters[i];
      if !Occupied(dungeon.entities, m.x, m.y) {
        var kind := if m.orc then Orc else Troll;
        dungeon.entities := dungeon.entities + [Entity(kind, m.x, m.y)];
      }
      assert monsters[..i + 1][..i] == monsters[..i];
    }
    assert monsters[..|monsters|] == monsters;
    PlacedInsideRoom(room, maximumMonsters, start, monsters);
    if DistinctPositions(start) {
      PlacedKeepsDistinct(start, monsters);
    }
  }

  /** The tiles are floor exactly on the cells g has carved. */
  ghost predicate TilesMatch(dungeon: GameMap, g: Gen)
    reads dungeon, dungeon.tiles
    requires dungeon.Valid()
  {
    forall i, j :: 0 <= i < dungeon.width && 0 <= j < dungeon.height ==>
      (dungeon.tiles[i, j] == Floor <==> Carved(g, Point(i, j)))
  }

  /** One iteration of the room loop: build the candidate from the draws,
      and unless it intersects an accepted room, carve its inner area, place
      the player (first room) or carve the tunnel from the previous room's
      center (later rooms), spawn its monsters and append it to rooms. */
  method TryRoom(p: Params, dungeon: GameMap, rooms: seq<RectangularRoom>, ghost tunnels: seq<seq<Point>>, d: AttemptDraw)
    returns (rooms': seq<RectangularRoom>, ghost tunnels': seq<seq<Point>>)
    requires ValidParams(p) && ValidAttempt(p, d)
    requires dungeon.Valid() && dungeon.width == p.mapWidth && dungeon.height == p.mapHeight
    requires |dungeon.entities| > 0
    requires forall i :: 0 <= i < |rooms| ==> InMap(p, rooms[i])
    requires TilesMatch(dungeon, Gen(rooms, tunnels, dungeon.entities))
    modifies dungeon, dungeon.tiles
    ensures Gen(rooms', tunnels', dungeon.entities) == Attempt(Gen(rooms, tunnels, old(dungeon.entities)), d)
    ensures TilesMatch(dungeon, Gen(rooms', tunnels', dungeon.entities))
  {
    ghost var g := Gen(rooms, tunnels, dungeon.entities);
    var room := NewRoom(d.x, d.y, d.width, d.height);
    if AnyIntersects(room, rooms) {
      return rooms, tunnels;
    }
    AcceptedState(g, d);
    var path := CarveAccepted(p, dungeon, rooms, g, d);
    if |rooms| == 0 {
      // The first room: the player starts at its center.
      dungeon.entities := MovePlayer(dungeon.entities, Center(room));
      tunnels' := tunnels;
    } else {
      tunnels' := tunnels + [path];
    }
    PlaceEntities(room, dungeon, p.maxMonstersPerRoom, d.monsters);
    rooms' := rooms + [room];
    assert Gen(rooms', tunnels', dungeon.entities) == Attempt(g, d);
  }

  /** The carving half of an accepted attempt: the candidate's inner area
      becomes floor and, for every room after the first, so does the tunnel
      from the previous room's center to the candidate's, which is returned.
      Tiles that matched g then match the state after the attempt. */
  method CarveAccepted(p: Params, dungeon: GameMap, rooms: seq<RectangularRoom>, ghost g: Gen, d: AttemptDraw)
    returns (path: seq<Point>)
    requires ValidParams(p) && ValidAttempt(p, d)
    requires dungeon.Valid() && dungeon.width == p.mapWidth && dungeon.height == p.mapHeight
    requires rooms == g.rooms && |g.entities| > 0 && !AnyIntersects(Candidate(d), rooms)
    requires forall i :: 0 <= i < |rooms| ==> InMap(p, rooms[i])
    requires TilesMatch(dungeon, g)
    modifies dungeon.tiles
    ensures path == TunnelTo(g, d)
    ensures TilesMatch(dungeon, Attempt(g, d))
  {
    var room := NewRoom(d.x, d.y, d.width, d.height);
    assert InMap(p, room);
    path := [];
    if |rooms| > 0 {
      path := TunnelBetween(Center(rooms[|rooms| - 1]), Center(room), d.horizontalFirst);
      TunnelOnMap(p, rooms[|rooms| - 1], room, d.horizontalFirst);
    }
    dungeon.Dig(Inner(room), path);
    forall i, j | 0 <= i < dungeon.width && 0 <= j < dungeon.height
      ensures dungeon.tiles[i, j] == Floor <==> Carved(Attempt(g, d), Point(i, j))
    {
      CellAfterAccept(g, d, Point(i, j), old(dungeon.tiles[i, j]) == Floor, dungeon.tiles[i, j] == Floor);
    }
  }

  /** Carves rooms, tunnels and monsters into a new map, one attempt per
      element of draws. The returned map holds the entities Generate computes
      for these draws, and a cell is floor exactly when Generate carved it;
      every other cell is wall. */
  method GenerateDungeon(p: Params, player: Entity, draws: seq<AttemptDraw>) returns (dungeon: GameMap)
    requires ValidParams(p) && ValidDraws(p, draws)
    ensures fresh(dungeon) && dungeon.Valid()
    ensures dungeon.width == p.mapWidth && dungeon.height == p.mapHeight
    ensures dungeon.entities == Generate(player, draws).entities
    ensures forall i, j :: 0 <= i < dungeon.width && 0 <= j < dungeon.height ==>
              (dungeon.tiles[i, j] == Floor <==> Carved(Generate(player, draws), Point(i, j)))
  {
    dungeon := new GameMap(p.mapWidth, p.mapHeight, [player]);
    var rooms: seq<RectangularRoom> := [];
    ghost var tunnels: seq<seq<Point>> := [];
    for r := 0 to |draws|
      invariant fresh(dungeon) && fresh(dungeon.tiles) && dungeon.Valid()
      invariant dungeon.width == p.mapWidth && dungeon.height == p.mapHeight
      invariant Generate(player, draws[..r]) == Gen(rooms, tunnels, dungeon.entities)
      invariant TilesMatch(dungeon, Gen(rooms, tunnels, dungeon.entities))
    {
      GenerateWellFormed(p, player, draws[..r]);
      assert draws[..r + 1][..r] == draws[..r];
      rooms, tunnels := TryRoom(p, dungeon, rooms, tunnels, draws[r]);
    }
    assert draws[..|draws|] == draws;
  }

  /** On a map whose tiles are floor exactly on the carved cells, as the one
      GenerateDungeon returns, every cell of an accepted room's inner area
      and of a tunnel lies on the map and is floor. */
  lemma CarvedIsFloor(p: Params, player: Entity, draws: seq<AttemptDraw>, dungeon: GameMap)
    requires ValidParams(p) && ValidDraws(p, draws)
    requires dungeon.Valid() && dungeon.width == p.mapWidth && dungeon.height == p.mapHeight
    requires TilesMatch(dungeon, Generate(player, draws))
    ensures forall k, q :: 0 <= k < |Generate(player, draws).rooms| && InInner(Generate(player, draws).rooms[k], q) ==>
              0 <= q.x < dungeon.width && 0 <= q.y < dungeon.height && dungeon.tiles[q.x, q.y] == Floor
    ensures forall k, q :: 0 <= k < |Generate(player, draws).tunnels| && q in Generate(player, draws).tunnels[k] ==>
              0 <= q.x < dungeon.width && 0 <= q.y < dungeon.height && dungeon.tiles[q.x, q.y] == Floor
  {
    var g := Generate(player, draws);
    forall k, q | 0 <= k < |g.rooms| && InInner(g.rooms[k], q)
      ensures 0 <= q.x < dungeon.width && 0 <= q.y < dungeon.height && dungeon.tiles[q.x, q.y] == Floor
    {
      assert Carved(g, q);
      CarvedOnMap(p, player, draws, q);
    }
    forall k, q | 0 <= k < |g.tunnels| && q in g.tunnels[k]
      ensures 0 <= q.x < dungeon.width && 0 <= q.y < dungeon.height && dungeon.tiles[q.x, q.y] == Floor
    {
      assert Carved(g, q);
      CarvedOnMap(p, player, draws, q);
    }
  }
}
