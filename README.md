# Procedural dungeon generation, modelled in Dafny

This project models the dungeon generator of a turn-based roguelike
(`src/procgen.py`). The generator makes a fixed number of attempts to place
a rectangular room on a tile grid. It rejects any candidate that intersects
an already accepted room; touching along a wall counts as intersecting. For
each accepted room it carves the room's inner area to floor. It puts the
player at the center of the first room. From the second room on, it carves
an L-shaped tunnel from the previous room's center to the new one's. Then it
spawns monsters in the room, but only on cells where no entity already
stands.

Modules, one per part of the source:

- `Rooms` (`rooms.dfy`): `RectangularRoom` as a datatype holding the
  top-left corner and the far corner. It has the truncated-midpoint
  `Center`, the `Inner` region as a pair of half-open slices, and the
  closed-interval `Intersects` test.
- `Tunnel` (`tunnel.dfy`): `Line`, the line tracer for two cells that share
  a row or a column. It returns every cell between them, both ends
  included. `Corner` and `TunnelBetween` build the L-shaped tunnel. Their
  shapes are proved as lemmas (`LineShape`, `TunnelShape`).
- `Entities` (`entities.dfy`): an entity as its kind and position, and the
  occupancy test.
- `DungeonMap` (`gamemap.dfy`): the map as a class. Its tiles are an
  `array2<Tile>` indexed `[x, y]` and changed in place. Its entities are a
  sequence that the generator reassigns. It provides the rectangular write
  through slices, the cell-by-cell write of a tunnel, and `Dig`, which does
  both.
- `Generation` (`generation.dfy`): what `place_entities` and
  `generate_dungeon` compute, as functions of the random draws (`Placed`,
  `Attempt`, `Generate`). It also holds the loop invariant `WellFormed` and
  the lemmas about the generated dungeon.
- `Procgen` (`procgen.dfy`): the imperative generator. `PlaceEntities`
  loops over the spawn attempts. `GenerateDungeon` loops over the room
  attempts. One iteration is `TryRoom`, and its tile writes are in
  `CarveAccepted`. Both loops are proved to produce exactly what
  `Generation` specifies.
- `Scenarios` (`scenarios.dfy`): two fixed-parameter scenarios, each proved
  for every sequence of draws the random source could deliver.

Randomness is an input. Each room attempt gets an `AttemptDraw`: the room's
width and height, its top-left corner, the tunnel coin (`random() < 0.5`)
and the list of monster draws. The length of that list is the drawn monster
count. Each monster draw is a cell plus the orc flag (`random() < 0.8`). The
ranges of `random.randint` become preconditions (`ValidAttempt`,
`ValidMonsters`).

The overlap test compares closed intervals of the rooms' outer corners, so
two rooms that share a wall intersect and the second one is rejected.

## Model

| member | source | states |
|---|---|---|
| `Rooms.NewRoom` | src/procgen.py:18-22 | the room keeps the given top-left corner, and its far corner lies width and height beyond it |
| `Rooms.TruncDiv2` | src/procgen.py:26-27 | `int(n / 2)` truncates toward zero: for n >= 0 the result h has 0 <= n - 2h <= 1, and for n < 0 it has 0 <= 2h - n <= 1 |
| `Rooms.Center` | src/procgen.py:24-29 | the center lies in the room's outer rectangle `[top_left_x, x] x [top_left_y, y]`, and for non-negative coordinates it is the truncated midpoint of each axis |
| `Rooms.Inner` | src/procgen.py:31-34 | a cell is in the inner region exactly when its column is in `top_left_x+1 .. x-1` and its row is in `top_left_y+1 .. y-1`, both inclusive, because each slice's end is exclusive |
| `Rooms.Intersects` | src/procgen.py:36-43 | the four closed-interval comparisons of the outer corners; `IntersectsIffCommonCell` states what they mean |
| `Rooms.IntersectsSymmetric` | src/procgen.py:36-43 | `a.intersects(b)` holds exactly when `b.intersects(a)` does |
| `Rooms.IntersectsItself` | src/procgen.py:36-43 | every room intersects itself |
| `Rooms.SharedBorderIntersects` | src/procgen.py:36-43 | rooms where one's `x` equals the other's `top_left_x`, with overlapping row ranges, intersect both ways, so a shared wall is rejected |
| `Rooms.IntersectsIffCommonCell` | src/procgen.py:36-43 | two rooms intersect exactly when their outer rectangles, walls included, share a cell |
| `Rooms.NonIntersectingKeepApart` | src/procgen.py:32-43 | if a room does not intersect another, none of its cells, walls included, is in the other's inner area, so their inner areas are disjoint |
| `Tunnel.Line` | src/procgen.py:76-79 | the run of cells the line tracer returns between two cells on one row or column; its properties are stated by `LineShape` |
| `Tunnel.LineShape` | src/procgen.py:76-79 | the traced run between two cells on one row or column starts at the first cell and ends at the second, has distance + 1 cells, moves to a 4-neighbour at each step, and holds exactly the cells between its ends |
| `Tunnel.Corner` | src/procgen.py:68-73 | the corner is `(x2, y1)` when the coin says horizontal first and `(x1, y2)` otherwise, so it shares a row or column with each endpoint |
| `Tunnel.TunnelBetween` | src/procgen.py:62-79 | the run to the corner followed by the run from the corner; its properties are stated by `TunnelShape` |
| `Tunnel.TunnelShape` | src/procgen.py:62-79 | the tunnel starts at `start`, passes through the corner and ends at `end`; it has distance + 2 cells; each step repeats a cell (the corner) or moves to a 4-neighbour; its cells are exactly those of the two legs; every cell lies in the bounding box of `start` and `end` |
| `Entities.Occupied` | src/procgen.py:55 | true exactly when some entity stands on `(x, y)` |
| `Generation.Spawn` | src/procgen.py:55-59 | one spawn attempt appends the drawn monster exactly when no entity stands on its cell, keeps the old entities as a prefix, and leaves the cell occupied |
| `Generation.Placed` | src/procgen.py:50-59 | the spawn attempts only append: the old entities are a prefix, and at most one monster is added per attempt |
| `Generation.DrawnCellsOccupied` | src/procgen.py:51-59 | after the spawn attempts every drawn cell has an entity on it: one stood there already or the draw's monster was spawned there |
| `Generation.PlacedKeepsDistinct` | src/procgen.py:55-59 | a monster is spawned only where no entity stands, so positions that were distinct stay distinct |
| `Generation.PlacedFromDraws` | src/procgen.py:51-59 | every added entity is the monster of one of the draws: its cell, and an orc or a troll as the flag says |
| `Generation.PlacedInsideRoom` | src/procgen.py:49-59 | with draws in randint's ranges, at most `maximun_monsters` monsters are added, and each is a monster standing in the room's inner area |
| `Generation.PlacedKeepsEntitiesInRooms` | src/procgen.py:46-59 | after placing into a new room the first entity is unchanged, positions stay distinct, every later entity is a monster inside one of the rooms, and the count grows by at most the maximum |
| `Generation.MovePlayer` | src/procgen.py:116 | only the first entity changes: it keeps its kind and now stands at the given cell |
| `Generation.AnyIntersects` | src/procgen.py:107 | true exactly when the candidate intersects some accepted room |
| `Generation.Attempt` | src/procgen.py:97-125 | one loop iteration; `AttemptCarved` states which cells it carves and `AttemptKeepsWellFormed` the invariant it keeps |
| `Generation.TunnelTo` | src/procgen.py:113-120 | no tunnel for the first room; for later rooms an L-shaped tunnel from the previous room's center to the candidate's |
| `Generation.Generate` | src/procgen.py:92-125 | starting from a map holding only the player, the attempts accept at most one room each and leave at least one entity; `GeneratedEntities` states that it is the player |
| `Generation.AttemptCarved` | src/procgen.py:107-120 | a rejected candidate changes nothing; an accepted one turns to floor exactly its inner area and, from the second room on, the cells of the tunnel from the previous room's center |
| `Generation.AcceptedEntities` | src/procgen.py:114-122 | accepting a room keeps the entity invariant: the player is first and stands at the first room's center, positions are distinct, monsters are inside rooms, and there are at most 1 + rooms * `max_monsters_per_room` entities in total |
| `Generation.CountInside` | src/procgen.py:49-59 | the number of entities in a room's inner area is at most their number, and it is zero exactly when none of them stands there |
| `Generation.PlacedCounts` | src/procgen.py:46-59 | spawning into a room that intersects no accepted room keeps at most `maximun_monsters` monsters in each room's inner area, the new room included |
| `Generation.AcceptedCounts` | src/procgen.py:107-122 | accepting a room keeps at most `max_monsters_per_room` monsters in the inner area of each accepted room |
| `Generation.AcceptedRooms` | src/procgen.py:96-125 | accepting a room keeps the room invariant: every room is on the map with its size in range, no two rooms intersect, and each tunnel links consecutive rooms' centers |
| `Generation.AttemptKeepsWellFormed` | src/procgen.py:96-125 | one attempt with draws in randint's ranges keeps the loop invariant |
| `Generation.GenerateWellFormed` | src/procgen.py:92-127 | the loop invariant holds after any number of attempts |
| `Generation.TunnelOnMap` | src/procgen.py:119-120 | a tunnel between the centers of two rooms on the map stays on the map |
| `Generation.GeneratedRooms` | src/procgen.py:96-108 | at most `max_rooms` rooms are accepted, no two of them intersect, and each has 0 <= corner and corner + size <= map size - 1 on both axes, with its size in `[room_min_size, room_max_size]` |
| `Generation.CarvedOnMap` | src/procgen.py:100-120 | every cell the generator carves, in a room or in a tunnel, is on the map, so every write is in bounds |
| `Generation.RoomsAndTunnelsCarved` | src/procgen.py:111-120 | every inner cell of every accepted room is carved; there is one tunnel per pair of consecutive accepted rooms, L-shaped between their centers, and its cells are carved |
| `Generation.BorderStaysWall` | src/procgen.py:107-120 | a wall cell of an accepted room that no tunnel passes through is not carved |
| `Generation.GeneratedEntities` | src/procgen.py:92-122 | the player is `entities[0]`; it stands at the first accepted room's center, or where it was if no room was accepted; positions are pairwise distinct; the others are monsters inside accepted rooms; at most `max_monsters_per_room` of them stand in each room's inner area, and at most 1 + rooms * `max_monsters_per_room` entities exist in total |
| `DungeonMap.GameMap.constructor` | src/procgen.py:92 | the new map has the given size and entities, and every tile is wall |
| `DungeonMap.GameMap.FillRegion` | src/procgen.py:112 | the write through the two slices sets every on-map cell of the region, and only those cells |
| `DungeonMap.GameMap.FillCells` | src/procgen.py:119-120 | the tunnel write sets the cells on the path, and only those cells |
| `DungeonMap.GameMap.Dig` | src/procgen.py:112-120 | after the room write and the tunnel write, a cell is floor exactly when it was floor before, is in the region, or is on the path |
| `Procgen.PlaceEntities` | src/procgen.py:46-59 | the entities become `Placed` of the old ones; the old ones stay as a prefix; at most `maximun_monsters` are added, each a monster in the room's inner area; distinct positions stay distinct; tiles are untouched |
| `Procgen.CarveAccepted` | src/procgen.py:111-120 | for an accepted candidate, the tunnel dug is the one `Attempt` records (none for the first room), and the tiles end up floor exactly on the cells carved after the attempt |
| `Procgen.TryRoom` | src/procgen.py:97-125 | one loop iteration moves the rooms, the tunnels and the entities to `Attempt` of the old state, and keeps the tiles floor exactly on the carved cells |
| `Procgen.CarvedIsFloor` | src/procgen.py:111-120 | on a map whose floor is exactly the carved cells, every inner cell of every accepted room and every tunnel cell lies on the map and is floor |
| `Procgen.GenerateDungeon` | src/procgen.py:82-127 | the returned map has the requested size; its entities are those `Generate` gives for the draws; a tile is floor exactly when `Generate` carved it, and wall otherwise |
| `Scenarios.SingleRoomScenario` | src/procgen.py:92-125 | with `max_rooms=1`, size 4, a 20 x 20 map and no monsters: exactly one room, no tunnel, and the player alone at its center, which lies inside the room's inner area |
| `Scenarios.CrowdedMapAcceptsOneRoom` | src/procgen.py:96-108 | on a 6 x 6 map with rooms of size 4, every attempt after the first is rejected, so any number of attempts accepts exactly one room |
| `Scenarios.CrowdedScenario` | src/procgen.py:96-108 | on that map, `max_rooms=5` makes five attempts and accepts exactly one room |

## Left out

- The global `random` module is not modelled. The draws are arguments, one `AttemptDraw` per room attempt, with `randint`'s ranges as preconditions. The order in which one shared stream would be consumed is not modelled: a rejected room leaves its coin and monster draws unused, and so does a spawn attempt on an occupied cell with its kind flag.
- `random.random() < 0.5` and `random.random() < 0.8` become booleans. No floating point is modelled.
- `randint` raises on an empty range. The model instead requires draws within randint's ranges, so inputs on which the source would raise are excluded. Examples: `room_max_size >= map_width`, or a monster count above zero in a room too narrow to have an inner area.
- `ValidParams` also requires `room_min_size >= 0` and non-negative map sizes. With a negative room size the source would write outside the map.
- `tcod.los.bresenham` is an external call. Only the straight row or column runs that `tunnel_between` requests are modelled. A general line is not.
- `GameMap`, `tile_types` and `entity_factories` are not part of this model. A new map is assumed to be all wall, because the fill value is not visible. Tiles are `Wall` or `Floor`. Spawning a monster appends an entity of kind `Orc` or `Troll` at the cell; the other attributes of the factory's clone are not modelled.
- `DungeonMap.GameMap.FillRegion` does not model numpy's wrap-around for negative slice starts; it requires non-negative starts. Single-cell writes are proved to be on the map, so negative indices never arise.
- The player is passed as a value. The model holds the player as `entities[0]` and moves it there. It does not model the caller's own reference to the same player object.
- `int(a / 2)` goes through floating-point division. It is modelled as exact truncation toward zero, which is what the float computation gives for coordinates below 2^53.
- The rooms list is not returned, as in the source. The model's `Gen` also records the carved tunnels (`Gen.tunnels`), so that the carved cells can be stated; the source does not keep them.
- `src/components/base_component.py` has no logic: it only reads `entity.gamemap.engine`.
- Rendering, the engine, combat and AI are outside the generator.
- `Generate` is a function of its draws, so equal draws give equal dungeons; no separate lemma states this.
- `FillRegion`'s postcondition fixes the new tiles from the region and the fill value alone, so writing the same region twice leaves the same tiles as writing it once; no separate lemma states this.
