/** What generate_dungeon and place_entities compute, as functions of the
    generator's random draws, and the properties of the result. The methods
    in module Procgen are proved to do exactly this. */
module Generation {
  import opened Rooms
  import opened Tunnel
  import opened Entities

  /** The arguments of generate_dungeon other than the player. */
  datatype Params = Params(
    maxRooms: int,
    roomMinSize: int,
    roomMaxSize: int,
    mapWidth: int,
    mapHeight: int,
    maxMonstersPerRoom: int)

  /** The draws of one spawn attempt in place_entities: the cell, and the
      kind flag (random() < 0.8, which spawns an orc). */
  datatype MonsterDraw = MonsterDraw(x: int, y: int, orc: bool)

  /** The draws of one room attempt: the room's size and top-left corner,
      the tunnel's coin (random() < 0.5, horizontal first) and the monster
      attempts, as many as the drawn monster count. A rejected room uses
      only the first four; the first accepted room does not use the coin. */
  datatype AttemptDraw = AttemptDraw(
    width: int,
    height: int,
    x: int,
    y: int,
    horizontalFirst: bool,
    monsters: seq<MonsterDraw>)

  /** The number of iterations of range(max_rooms). */
  function Attempts(p: Params): nat {
    if p.maxRooms < 0 then 0 else p.maxRooms
  }

  /** Sizes for which every write of the generator stays on the map. */
  predicate ValidParams(p: Params) {
    0 <= p.roomMinSize && 0 <= p.mapWidth && 0 <= p.mapHeight
  }

  function Candidate(d: AttemptDraw): RectangularRoom {
    NewRoom(d.x, d.y, d.width, d.height)
  }

  /** The monster draws randint can deliver for this room: a count in
      [0, maximumMonsters] and cells with x in [topLeftX + 1, x - 1] and y in
      [topLeftY + 1, y - 1]. */
  predicate ValidMonsters(room: RectangularRoom, maximumMonsters: int, ms: seq<MonsterDraw>) {
    && |ms| <= maximumMonsters
    && forall k :: 0 <= k < |ms| ==>
         room.topLeftX + 1 <= ms[k].x <= room.x - 1 && room.topLeftY + 1 <= ms[k].y <= room.y - 1
  }

  /** The draws randint can deliver for one room attempt. */
  predicate ValidAttempt(p: Params, d: AttemptDraw) {
    && p.roomMinSize <= d.width <= p.roomMaxSize
    && p.roomMinSize <= d.height <= p.roomMaxSize
    && 0 <= d.x <= p.mapWidth - d.width - 1
    && 0 <= d.y <= p.mapHeight - d.height - 1
    && ValidMonsters(Candidate(d), p.maxMonstersPerRoom, d.monsters)
  }

  predicate ValidDraws(p: Params, draws: seq<AttemptDraw>) {
    |draws| == Attempts(p) && forall k :: 0 <= k < |draws| ==> ValidAttempt(p, draws[k])
  }

  // ---------------------------------------------------------------------
  // place_entities

  function KindOf(m: MonsterDraw): Kind {
    if m.orc then Orc else Troll
  }

  /** The monster a draw spawns. */
  function Spawned(m: MonsterDraw): Entity {
    Entity(KindOf(m), m.x, m.y)
  }

  /** One spawn attempt: the drawn monster is appended exactly when no
      entity stands on its cell, and afterwards some entity stands there. */
  function Spawn(es: seq<Entity>, m: MonsterDraw): (r: seq<Entity>)
    ensures |es| <= |r| <= |es| + 1 && r[..|es|] == es
    ensures |r| == |es| + 1 <==> !Occupied(es, m.x, m.y)
    ensures |r| == |es| + 1 ==> r[|es|] == Spawned(m)
    ensures Occupied(r, m.x, m.y)
  {
    if Occupied(es, m.x, m.y) then es else es + [Spawned(m)]
  }

  /** The entities after the spawn attempts ms, made in order. */
  function Placed(es: seq<Entity>, ms: seq<MonsterDraw>): (r: seq<Entity>)
    ensures |es| <= |r| <= |es| + |ms|
    ensures r[..|es|] == es
    decreases |ms|
  {
    if ms == [] then es else Spawn(Placed(es, ms[..|ms| - 1]), ms[|ms| - 1])
  }

  /** Positions that were distinct stay distinct. */
  lemma {:induction false} PlacedKeepsDistinct(es: seq<Entity>, ms: seq<MonsterDraw>)
    requires DistinctPositions(es)
    ensures DistinctPositions(Placed(es, ms))
    decreases |ms|
  {
    if ms != [] {
      var before := Placed(es, ms[..|ms| - 1]);
      PlacedKeepsDistinct(es, ms[..|ms| - 1]);
      var m := ms[|ms| - 1];
      if !Occupied(before, m.x, m.y) {
        var after := before + [Spawned(m)];
        forall i, j | 0 <= i < j < |after| ensures Position(after[i]) != Position(after[j]) {
          if j < |before| {
            assert after[i] == before[i] && after[j] == before[j];
          } else {
            assert after[i] == before[i];
          }
        }
      }
    }
  }

  /** Every entity added is the monster of one of the draws. */
  lemma {:induction false} PlacedFromDraws(es: seq<Entity>, ms: seq<MonsterDraw>)
    ensures forall i :: |es| <= i < |Placed(es, ms)| ==>
              exists k :: 0 <= k < |ms| && Placed(es, ms)[i] == Spawned(ms[k])
    decreases |ms|
  {
    if ms != [] {
      var init := ms[..|ms| - 1];
      var before := Placed(es, init);
      PlacedFromDraws(es, init);
      var r := Placed(es, ms);
      forall i | |es| <= i < |r| ensures exists k :: 0 <= k < |ms| && r[i] == Spawned(ms[k]) {
        if i < |before| {
          assert r[i] == before[i];
          var k :| 0 <= k < |init| && before[i] == Spawned(init[k]);
          assert init[k] == ms[k];
        } else {
          assert r[i] == Spawned(ms[|ms| - 1]);
        }
      }
    } else {
      assert Placed(es, ms) == es;
    }
  }

  /** After the spawn attempts, every drawn cell has an entity on it: either
      one stood there already or the draw's monster was spawned there. */
  lemma {:induction false} DrawnCellsOccupied(es: seq<Entity>, ms: seq<MonsterDraw>)
    ensures forall k :: 0 <= k < |ms| ==> Occupied(Placed(es, ms), ms[k].x, ms[k].y)
    decreases |ms|
  {
    if ms != [] {
      var init := ms[..|ms| - 1];
      DrawnCellsOccupied(es, init);
      var before := Placed(es, init);
      var r := Placed(es, ms);
      assert r == Spawn(before, ms[|ms| - 1]);
      forall k | 0 <= k < |ms| ensures Occupied(r, ms[k].x, ms[k].y) {
        if k < |init| {
          assert init[k] == ms[k];
          var i :| 0 <= i < |before| && before[i].x == ms[k].x && before[i].y == ms[k].y;
          assert r[..|before|][i] == before[i];
        }
      }
    }
  }

  /** With draws randint can deliver: at most maximumMonsters monsters are
      added, each a monster standing in the room's inner area. */
  lemma PlacedInsideRoom(room: RectangularRoom, maximumMonsters: int, es: seq<Entity>, ms: seq<MonsterDraw>)
    requires ValidMonsters(room, maximumMonsters, ms)
    ensures |Placed(es, ms)| <= |es| + maximumMonsters
    ensures forall i :: |es| <= i < |Placed(es, ms)| ==>
              Placed(es, ms)[i].kind != Player && InInner(room, Position(Placed(es, ms)[i]))
  {
    PlacedFromDraws(es, ms);
    var r := Placed(es, ms);
    forall i | |es| <= i < |r| ensures r[i].kind != Player && InInner(room, Position(r[i])) {
      var k :| 0 <= k < |ms| && r[i] == Spawned(ms[k]);
    }
  }

  // ---------------------------------------------------------------------
  // generate_dungeon

  /** The generator's state after some attempts: the accepted rooms, the
      tunnels carved so far (tunnels[k] links rooms[k] to rooms[k + 1]) and
      the map's entities. */
  datatype Gen = Gen(rooms: seq<RectangularRoom>, tunnels: seq<seq<Point>>, entities: seq<Entity>)

  /** The player, held as the first entity, moves to the cell c. */
  function MovePlayer(es: seq<Entity>, c: Point): (r: seq<Entity>)
    requires |es| > 0
    ensures |r| == |es| && r[1..] == es[1..]
    ensures r[0].kind == es[0].kind && Position(r[0]) == c
  {
    es[0 := es[0].(x := c.x, y := c.y)]
  }

  /** The candidate intersects at least one of the accepted rooms. */
  function AnyIntersects(room: RectangularRoom, rooms: seq<RectangularRoom>): (r: bool)
    ensures r <==> exists i :: 0 <= i < |rooms| && Intersects(room, rooms[i])
    decreases |rooms|
  {
    if rooms == [] then false
    else Intersects(room, rooms[|rooms| - 1]) || AnyIntersects(room, rooms[..|rooms| - 1])
  }

  /** One iteration of the room loop. */
  function Attempt(g: Gen, d: AttemptDraw): Gen
    requires |g.entities| > 0
  {
    var room := Candidate(d);
    if AnyIntersects(room, g.rooms) then g
    else if |g.rooms| == 0 then
      Gen([room], g.tunnels, Placed(MovePlayer(g.entities, Center(room)), d.monsters))
    else
      Gen(g.rooms + [room], g.tunnels + [TunnelTo(g, d)], Placed(g.entities, d.monsters))
  }

  /** The state after the attempts draws, starting from a map whose only
      entity is the player. */
  function Generate(player: Entity, draws: seq<AttemptDraw>): (g: Gen)
    ensures |g.rooms| <= |draws|
    ensures |g.entities| >= 1
    decreases |draws|
  {
    if draws == [] then Gen([], [], [player])
    else Attempt(Generate(player, draws[..|draws| - 1]), draws[|draws| - 1])
  }

  /** q is inside the inner area of one of the rooms. */
  predicate InSomeRoom(rooms: seq<RectangularRoom>, q: Point) {
    exists j :: 0 <= j < |rooms| && InInner(rooms[j], q)
  }

  /** q is a cell of one of the tunnels. */
  predicate OnSomeTunnel(tunnels: seq<seq<Point>>, q: Point) {
    exists k :: 0 <= k < |tunnels| && q in tunnels[k]
  }

  /** The cells the generator has turned to floor: the inner areas of the
      accepted rooms and the cells of the tunnels. */
  predicate Carved(g: Gen, q: Point) {
    InSomeRoom(g.rooms, q) || OnSomeTunnel(g.tunnels, q)
  }

  lemma InSomeRoomAppend(rooms: seq<RectangularRoom>, room: RectangularRoom, q: Point)
    ensures InSomeRoom(rooms + [room], q) <==> InSomeRoom(rooms, q) || InInner(room, q)
  {
    var all := rooms + [room];
    if InInner(room, q) {
      assert all[|rooms|] == room;
    }
    if j :| 0 <= j < |rooms| && InInner(rooms[j], q) {
      assert all[j] == rooms[j];
    }
    if j :| 0 <= j < |all| && InInner(all[j], q) {
      if j < |rooms| {
        assert all[j] == rooms[j];
      }
    }
  }

  lemma OnSomeTunnelAppend(tunnels: seq<seq<Point>>, t: seq<Point>, q: Point)
    ensures OnSomeTunnel(tunnels + [t], q) <==> OnSomeTunnel(tunnels, q) || q in t
  {
    var all := tunnels + [t];
    if q in t {
      assert all[|tunnels|] == t;
    }
    if k :| 0 <= k < |tunnels| && q in tunnels[k] {
      assert all[k] == tunnels[k];
    }
    if k :| 0 <= k < |all| && q in all[k] {
      if k < |tunnels| {
        assert all[k] == tunnels[k];
      }
    }
  }

  /** The room lies on the map with its walls: 0 <= topLeftX <= x <= width - 1,
      and likewise for y. */
  predicate InMap(p: Params, room: RectangularRoom) {
    && 0 <= room.topLeftX <= room.x <= p.mapWidth - 1
    && 0 <= room.topLeftY <= room.y <= p.mapHeight - 1
  }

  /** The room's width and height lie in [roomMinSize, roomMaxSize]. */
  predicate SizeInRange(p: Params, room: RectangularRoom) {
    && p.roomMinSize <= room.x - room.topLeftX <= p.roomMaxSize
    && p.roomMinSize <= room.y - room.topLeftY <= p.roomMaxSize
  }

  predicate OnMap(p: Params, q: Point) {
    0 <= q.x < p.mapWidth && 0 <= q.y < p.mapHeight
  }

  /** No two accepted rooms intersect. */
  predicate RoomsDisjoint(rooms: seq<RectangularRoom>) {
    forall i, j :: 0 <= i < |rooms| && 0 <= j < |rooms| && i != j ==> !Intersects(rooms[i], rooms[j])
  }

  /** t is an L-shaped tunnel from a's center to b's center. */
  predicate Links(t: seq<Point>, a: RectangularRoom, b: RectangularRoom) {
    t == TunnelBetween(Center(a), Center(b), true) || t == TunnelBetween(Center(a), Center(b), false)
  }

  /** The room half of the loop invariant: every accepted room lies on the
      map and has a size in range, no two intersect, and tunnels[k] links
      rooms[k] to rooms[k + 1]. */
  ghost predicate RoomsOk(p: Params, g: Gen) {
    && (|g.rooms| == 0 ==> g.tunnels == [])
    && (|g.rooms| > 0 ==> |g.tunnels| == |g.rooms| - 1)
    && (forall i :: 0 <= i < |g.rooms| ==> InMap(p, g.rooms[i]) && SizeInRange(p, g.rooms[i]))
    && RoomsDisjoint(g.rooms)
    && (forall k :: 0 <= k < |g.tunnels| ==> Links(g.tunnels[k], g.rooms[k], g.rooms[k + 1]))
  }

  /** The entity half of the loop invariant: the player is first, at the
      first room's center once there is a room; positions are distinct; the
      others are monsters inside rooms, at most maxMonstersPerRoom per room. */
  ghost predicate EntitiesOk(p: Params, player: Entity, g: Gen) {
    && |g.entities| >= 1
    && (|g.rooms| == 0 ==> g.entities == [player])
    && (|g.rooms| > 0 ==> g.entities[0] == player.(x := Center(g.rooms[0]).x, y := Center(g.rooms[0]).y))
    && DistinctPositions(g.entities)
    && (forall i :: 1 <= i < |g.entities| ==>
          g.entities[i].kind != Player && InSomeRoom(g.rooms, Position(g.entities[i])))
    && |g.entities| <= 1 + |g.rooms| * p.maxMonstersPerRoom
  }

  /** The number of entities of es standing in the room's inner area. */
  function CountInside(es: seq<Entity>, room: RectangularRoom): (n: nat)
    ensures n <= |es|
    ensures n == 0 <==> forall i :: 0 <= i < |es| ==> !InInner(room, Position(es[i]))
    decreases |es|
  {
    if es == [] then 0
    else CountInside(es[..|es| - 1], room) + (if InInner(room, Position(es[|es| - 1])) then 1 else 0)
  }

  /** Counting over a concatenation adds the counts of the two parts. */
  lemma {:induction false} CountAppend(a: seq<Entity>, b: seq<Entity>, room: RectangularRoom)
    ensures CountInside(a + b, room) == CountInside(a, room) + CountInside(b, room)
    decreases |b|
  {
    if b == [] {
      assert a + b == a;
    } else {
      var init := b[..|b| - 1];
      CountAppend(a, init, room);
      assert (a + b)[..|a + b| - 1] == a + init;
      assert (a + b)[|a + b| - 1] == b[|b| - 1];
    }
  }

  /** At most maxMonstersPerRoom entities other than the player stand in
      the inner area of each accepted room. */
  predicate MonstersPerRoom(p: Params, g: Gen) {
    && |g.entities| >= 1
    && forall j :: 0 <= j < |g.rooms| ==> CountInside(g.entities[1..], g.rooms[j]) <= p.maxMonstersPerRoom
  }

  /** The invariant of the room loop. */
  ghost predicate WellFormed(p: Params, player: Entity, g: Gen) {
    RoomsOk(p, g) && EntitiesOk(p, player, g) && MonstersPerRoom(p, g)
  }

  /** The tunnel an accepted candidate gets: none for the first room, else
      the L from the previous room's center to the candidate's. */
  function TunnelTo(g: Gen, d: AttemptDraw): (t: seq<Point>)
    ensures |g.rooms| == 0 ==> t == []
    ensures |g.rooms| > 0 ==> Links(t, g.rooms[|g.rooms| - 1], Candidate(d))
  {
    if |g.rooms| == 0 then []
    else TunnelBetween(Center(g.rooms[|g.rooms| - 1]), Center(Candidate(d)), d.horizontalFirst)
  }

  /** The state after an accepted room, spelled out. */
  lemma AcceptedState(g: Gen, d: AttemptDraw)
    requires |g.entities| > 0
    requires !AnyIntersects(Candidate(d), g.rooms)
    ensures Attempt(g, d).rooms == g.rooms + [Candidate(d)]
    ensures |g.rooms| == 0 ==> Attempt(g, d).tunnels == g.tunnels
    ensures |g.rooms| > 0 ==> Attempt(g, d).tunnels == g.tunnels + [TunnelTo(g, d)]
    ensures Attempt(g, d).entities ==
              Placed(if |g.rooms| == 0 then MovePlayer(g.entities, Center(Candidate(d))) else g.entities, d.monsters)
  {
  }

  /** The cells an accepted candidate turns to floor: its inner area and its
      tunnel; a rejected candidate changes nothing. */
  lemma AttemptCarved(g: Gen, d: AttemptDraw)
    requires |g.entities| > 0
    ensures AnyIntersects(Candidate(d), g.rooms) ==> Attempt(g, d) == g
    ensures !AnyIntersects(Candidate(d), g.rooms) ==>
              forall q :: Carved(Attempt(g, d), q) <==> Carved(g, q) || InInner(Candidate(d), q) || q in TunnelTo(g, d)
  {
    var room := Candidate(d);
    if !AnyIntersects(room, g.rooms) {
      var g' := Attempt(g, d);
      AcceptedState(g, d);
      var t := TunnelTo(g, d);
      forall q ensures Carved(g', q) <==> Carved(g, q) || InInner(room, q) || q in t {
        InSomeRoomAppend(g.rooms, room, q);
        if |g.rooms| > 0 {
          OnSomeTunnelAppend(g.tunnels, t, q);
        }
      }
    }
  }

  /** AttemptCarved for a single cell, stated about whether it was floor
      before the candidate was dug and whether it is floor afterwards. */
  lemma CellAfterAccept(g: Gen, d: AttemptDraw, q: Point, was: bool, now: bool)
    requires |g.entities| > 0 && !AnyIntersects(Candidate(d), g.rooms)
    requires was <==> Carved(g, q)
    requires now <==> was || InInner(Candidate(d), q) || q in TunnelTo(g, d)
    ensures now <==> Carved(Attempt(g, d), q)
  {
    AttemptCarved(g, d);
  }

  /** Spawning into a new room keeps the entity invariant, now relative to
      the rooms including the new one. */
  lemma PlacedKeepsEntitiesInRooms(
    rooms: seq<RectangularRoom>, room: RectangularRoom, maximumMonsters: int,
    es: seq<Entity>, ms: seq<MonsterDraw>)
    requires |es| >= 1 && DistinctPositions(es)
    requires forall i :: 1 <= i < |es| ==> es[i].kind != Player && InSomeRoom(rooms, Position(es[i]))
    requires ValidMonsters(room, maximumMonsters, ms)
    ensures Placed(es, ms)[0] == es[0]
    ensures DistinctPositions(Placed(es, ms))
    ensures forall i :: 1 <= i < |Placed(es, ms)| ==>
              Placed(es, ms)[i].kind != Player && InSomeRoom(rooms + [room], Position(Placed(es, ms)[i]))
    ensures |Placed(es, ms)| <= |es| + maximumMonsters
  {
    var r := Placed(es, ms);
    var all := rooms + [room];
    PlacedKeepsDistinct(es, ms);
    PlacedInsideRoom(room, maximumMonsters, es, ms);
    assert r[..|es|] == es;
    assert r[0] == es[0];
    forall i | 1 <= i < |r| ensures r[i].kind != Player && InSomeRoom(all, Position(r[i])) {
      if i < |es| {
        assert r[i] == es[i];
        var j :| 0 <= j < |rooms| && InInner(rooms[j], Position(es[i]));
        assert all[j] == rooms[j];
      } else {
        assert all[|rooms|] == room;
      }
    }
  }

  /** The monster bound grows by maxMonstersPerRoom per accepted room. */
  lemma CountStep(rooms: nat, perRoom: int, before: int, after: int)
    requires before <= 1 + rooms * perRoom
    requires after <= before + perRoom
    ensures after <= 1 + (rooms + 1) * perRoom
  {
    assert (rooms + 1) * perRoom == rooms * perRoom + perRoom;
  }

  /** An accepted room keeps the entity invariant. */
  lemma AcceptedEntities(p: Params, player: Entity, g: Gen, d: AttemptDraw)
    requires EntitiesOk(p, player, g) && ValidAttempt(p, d)
    requires !AnyIntersects(Candidate(d), g.rooms)
    ensures EntitiesOk(p, player, Attempt(g, d))
  {
    var room := Candidate(d);
    var g' := Attempt(g, d);
    AcceptedState(g, d);
    var es := if |g.rooms| == 0 then MovePlayer(g.entities, Center(room)) else g.entities;
    var r := Placed(es, d.monsters);
    assert g'.entities == r && g'.rooms == g.rooms + [room];
    assert g'.rooms[0] == if |g.rooms| == 0 then room else g.rooms[0];
    if |g.rooms| == 0 {
      assert es == [player.(x := Center(room).x, y := Center(room).y)];
    }
    PlacedKeepsEntitiesInRooms(g.rooms, room, p.maxMonstersPerRoom, es, d.monsters);
    CountStep(|g.rooms|, p.maxMonstersPerRoom, |es|, |r|);
  }

  /** Entities inside a room's inner area stand outside the inner area of
      any room it does not intersect. */
  lemma CountOutside(room: RectangularRoom, other: RectangularRoom, es: seq<Entity>)
    requires !Intersects(room, other)
    requires forall i :: 0 <= i < |es| ==> InInner(room, Position(es[i]))
    ensures CountInside(es, other) == 0
  {
    forall i | 0 <= i < |es| ensures !InInner(other, Position(es[i])) {
      NonIntersectingKeepApart(room, other, Position(es[i]));
    }
  }

  /** Entities inside accepted rooms stand outside the inner area of a
      candidate that intersects none of them. */
  lemma CountInNewRoom(rooms: seq<RectangularRoom>, room: RectangularRoom, es: seq<Entity>)
    requires forall i :: 0 <= i < |es| ==> InSomeRoom(rooms, Position(es[i]))
    requires !AnyIntersects(room, rooms)
    ensures CountInside(es, room) == 0
  {
    forall i | 0 <= i < |es| ensures !InInner(room, Position(es[i])) {
      var k :| 0 <= k < |rooms| && InInner(rooms[k], Position(es[i]));
      NonIntersectingKeepApart(room, rooms[k], Position(es[i]));
    }
  }

  /** Spawning into a room that intersects none of the rooms keeps the
      per-room bound of the entities after the first, the new room included:
      its own monsters are the ones just spawned, since no earlier entity
      stands in its inner area, and none of those stands in an earlier
      room's inner area. */
  lemma PlacedCounts(
    rooms: seq<RectangularRoom>, room: RectangularRoom, maximumMonsters: int,
    es: seq<Entity>, ms: seq<MonsterDraw>)
    requires |es| >= 1
    requires forall i :: 1 <= i < |es| ==> InSomeRoom(rooms, Position(es[i]))
    requires forall j :: 0 <= j < |rooms| ==> CountInside(es[1..], rooms[j]) <= maximumMonsters
    requires ValidMonsters(room, maximumMonsters, ms) && !AnyIntersects(room, rooms)
    ensures forall j :: 0 <= j < |rooms + [room]| ==>
              CountInside(Placed(es, ms)[1..], (rooms + [room])[j]) <= maximumMonsters
  {
    PlacedInsideRoom(room, maximumMonsters, es, ms);
    AppendedCounts(rooms, room, maximumMonsters, es, Placed(es, ms));
  }

  /** PlacedCounts for any extension r of es by at most maximumMonsters
      entities standing in room's inner area. */
  lemma AppendedCounts(
    rooms: seq<RectangularRoom>, room: RectangularRoom, maximumMonsters: int,
    es: seq<Entity>, r: seq<Entity>)
    requires 1 <= |es| <= |r| <= |es| + maximumMonsters && r[..|es|] == es
    requires forall i :: 1 <= i < |es| ==> InSomeRoom(rooms, Position(es[i]))
    requires forall j :: 0 <= j < |rooms| ==> CountInside(es[1..], rooms[j]) <= maximumMonsters
    requires forall i :: |es| <= i < |r| ==> InInner(room, Position(r[i]))
    requires !AnyIntersects(room, rooms)
    ensures forall j :: 0 <= j < |rooms + [room]| ==> CountInside(r[1..], (rooms + [room])[j]) <= maximumMonsters
  {
    var before, added := es[1..], r[|es|..];
    assert r == r[..|es|] + added;
    assert r[1..] == before + added;
    assert forall i :: 0 <= i < |added| ==> InInner(room, Position(added[i])) by {
      forall i | 0 <= i < |added| ensures InInner(room, Position(added[i])) {
        assert added[i] == r[|es| + i];
      }
    }
    assert forall i :: 0 <= i < |before| ==> InSomeRoom(rooms, Position(before[i])) by {
      forall i | 0 <= i < |before| ensures InSomeRoom(rooms, Position(before[i])) {
        assert before[i] == es[i + 1];
      }
    }
    var all := rooms + [room];
    forall j | 0 <= j < |all| ensures CountInside(r[1..], all[j]) <= maximumMonsters {
      CountAppend(before, added, all[j]);
      if j < |rooms| {
        assert all[j] == rooms[j];
        CountOutside(room, rooms[j], added);
      } else {
        assert all[j] == room;
        CountInNewRoom(rooms, room, before);
        assert CountInside(added, room) <= |added| <= maximumMonsters;
      }
    }
  }

  /** An accepted room keeps the per-room monster bound. */
  lemma AcceptedCounts(p: Params, g: Gen, d: AttemptDraw)
    requires forall i :: 1 <= i < |g.entities| ==> InSomeRoom(g.rooms, Position(g.entities[i]))
    requires MonstersPerRoom(p, g) && ValidAttempt(p, d)
    requires !AnyIntersects(Candidate(d), g.rooms)
    ensures MonstersPerRoom(p, Attempt(g, d))
  {
    var room := Candidate(d);
    AcceptedState(g, d);
    var base := if |g.rooms| == 0 then MovePlayer(g.entities, Center(room)) else g.entities;
    assert base[1..] == g.entities[1..];
    assert forall i :: 1 <= i < |base| ==> base[i] == g.entities[i];
    PlacedCounts(g.rooms, room, p.maxMonstersPerRoom, base, d.monsters);
  }

  /** Appending a room that lies on the map, has a size in range and
      intersects none of the rooms keeps those three facts for all rooms. */
  lemma RoomAppendKeepsRooms(p: Params, rooms: seq<RectangularRoom>, room: RectangularRoom)
    requires forall i :: 0 <= i < |rooms| ==> InMap(p, rooms[i]) && SizeInRange(p, rooms[i])
    requires RoomsDisjoint(rooms)
    requires InMap(p, room) && SizeInRange(p, room)
    requires forall i :: 0 <= i < |rooms| ==> !Intersects(room, rooms[i])
    ensures forall i :: 0 <= i < |rooms + [room]| ==> InMap(p, (rooms + [room])[i]) && SizeInRange(p, (rooms + [room])[i])
    ensures RoomsDisjoint(rooms + [room])
  {
    var all, n := rooms + [room], |rooms|;
    forall i | 0 <= i < |all| ensures InMap(p, all[i]) && SizeInRange(p, all[i]) {
      if i < n {
        assert all[i] == rooms[i];
      }
    }
    forall i, j | 0 <= i < |all| && 0 <= j < |all| && i != j
      ensures !Intersects(all[i], all[j])
    {
      if i < n && j < n {
        assert all[i] == rooms[i] && all[j] == rooms[j];
      } else if i == n {
        assert all[j] == rooms[j];
      } else {
        assert all[i] == rooms[i];
        IntersectsSymmetric(room, rooms[i]);
      }
    }
  }

  /** Appending the tunnel from the last room to a new room keeps every
      tunnel linking consecutive rooms. */
  lemma TunnelAppendKeepsLinks(rooms: seq<RectangularRoom>, tunnels: seq<seq<Point>>, room: RectangularRoom, t: seq<Point>)
    requires |rooms| > 0 && |tunnels| == |rooms| - 1
    requires forall k :: 0 <= k < |tunnels| ==> Links(tunnels[k], rooms[k], rooms[k + 1])
    requires Links(t, rooms[|rooms| - 1], room)
    ensures forall k :: 0 <= k < |tunnels + [t]| ==> Links((tunnels + [t])[k], (rooms + [room])[k], (rooms + [room])[k + 1])
  {
    var all, ts := rooms + [room], tunnels + [t];
    forall k | 0 <= k < |ts| ensures Links(ts[k], all[k], all[k + 1]) {
      if k < |tunnels| {
        assert ts[k] == tunnels[k] && all[k] == rooms[k] && all[k + 1] == rooms[k + 1];
      } else {
        assert ts[k] == t && all[k] == rooms[|rooms| - 1] && all[k + 1] == room;
      }
    }
  }

  /** An accepted room keeps the room invariant. */
  lemma AcceptedRooms(p: Params, g: Gen, d: AttemptDraw)
    requires |g.entities| > 0
    requires ValidParams(p) && RoomsOk(p, g) && ValidAttempt(p, d)
    requires !AnyIntersects(Candidate(d), g.rooms)
    ensures RoomsOk(p, Attempt(g, d))
  {
    var room := Candidate(d);
    AcceptedState(g, d);
    RoomAppendKeepsRooms(p, g.rooms, room);
    if |g.rooms| > 0 {
      TunnelAppendKeepsLinks(g.rooms, g.tunnels, room, TunnelTo(g, d));
    }
  }

  /** One attempt with draws randint can deliver keeps the invariant. */
  lemma AttemptKeepsWellFormed(p: Params, player: Entity, g: Gen, d: AttemptDraw)
    requires ValidParams(p)
    requires WellFormed(p, player, g) && ValidAttempt(p, d)
    ensures WellFormed(p, player, Attempt(g, d))
  {
    if !AnyIntersects(Candidate(d), g.rooms) {
      AcceptedRooms(p, g, d);
      AcceptedEntities(p, player, g, d);
      AcceptedCounts(p, g, d);
    }
  }

  /** The invariant holds after any number of attempts. */
  lemma {:induction false} GenerateWellFormed(p: Params, player: Entity, draws: seq<AttemptDraw>)
    requires ValidParams(p)
    requires forall k :: 0 <= k < |draws| ==> ValidAttempt(p, draws[k])
    ensures WellFormed(p, player, Generate(player, draws))
    decreases |draws|
  {
    if draws != [] {
      var init := draws[..|draws| - 1];
      assert forall k :: 0 <= k < |init| ==> init[k] == draws[k];
      GenerateWellFormed(p, player, init);
      AttemptKeepsWellFormed(p, player, Generate(player, init), draws[|draws| - 1]);
    }
  }

  /** A tunnel between the centers of two rooms on the map stays on the map. */
  lemma TunnelOnMap(p: Params, a: RectangularRoom, b: RectangularRoom, horizontalFirst: bool)
    requires InMap(p, a) && InMap(p, b)
    ensures forall q :: q in TunnelBetween(Center(a), Center(b), horizontalFirst) ==> OnMap(p, q)
  {
    var ca, cb := Center(a), Center(b);
    assert InOuter(a, ca) && InOuter(b, cb);
    TunnelShape(ca, cb, horizontalFirst);
  }

  // ---------------------------------------------------------------------
  // Properties of the generated dungeon

  /** At most max_rooms rooms are accepted, no two of them intersect, and
      each lies on the map with a size in [room_min_size, room_max_size]. */
  lemma GeneratedRooms(p: Params, player: Entity, draws: seq<AttemptDraw>)
    requires ValidParams(p) && ValidDraws(p, draws)
    ensures |Generate(player, draws).rooms| <= Attempts(p)
    ensures RoomsDisjoint(Generate(player, draws).rooms)
    ensures forall i :: 0 <= i < |Generate(player, draws).rooms| ==>
              InMap(p, Generate(player, draws).rooms[i]) && SizeInRange(p, Generate(player, draws).rooms[i])
  {
    GenerateWellFormed(p, player, draws);
  }

  /** Every carved cell is on the map: 0 <= x < map_width, 0 <= y < map_height. */
  lemma CarvedOnMap(p: Params, player: Entity, draws: seq<AttemptDraw>, q: Point)
    requires ValidParams(p) && ValidDraws(p, draws)
    requires Carved(Generate(player, draws), q)
    ensures OnMap(p, q)
  {
    GenerateWellFormed(p, player, draws);
    var g := Generate(player, draws);
    if k :| 0 <= k < |g.tunnels| && q in g.tunnels[k] {
      TunnelOnMap(p, g.rooms[k], g.rooms[k + 1], true);
      TunnelOnMap(p, g.rooms[k], g.rooms[k + 1], false);
    }
  }

  /** The inner area of every accepted room is carved, and so is every cell
      of an L-shaped tunnel between the centers of each two consecutive
      accepted rooms. */
  lemma RoomsAndTunnelsCarved(p: Params, player: Entity, draws: seq<AttemptDraw>)
    requires ValidParams(p) && ValidDraws(p, draws)
    ensures var g := Generate(player, draws);
      && (forall i, q :: 0 <= i < |g.rooms| && InInner(g.rooms[i], q) ==> Carved(g, q))
      && (|g.rooms| > 0 ==> |g.tunnels| == |g.rooms| - 1)
      && (forall k :: 0 <= k < |g.tunnels| ==> Links(g.tunnels[k], g.rooms[k], g.rooms[k + 1]))
      && (forall k, q :: 0 <= k < |g.tunnels| && q in g.tunnels[k] ==> Carved(g, q))
  {
    GenerateWellFormed(p, player, draws);
  }

  /** A cell of a room's walls that no tunnel passes through stays uncarved:
      no other room's floor reaches it. */
  lemma BorderStaysWall(p: Params, player: Entity, draws: seq<AttemptDraw>, i: int, q: Point)
    requires ValidParams(p) && ValidDraws(p, draws)
    requires 0 <= i < |Generate(player, draws).rooms|
    requires InOuter(Generate(player, draws).rooms[i], q) && !InInner(Generate(player, draws).rooms[i], q)
    requires forall k :: 0 <= k < |Generate(player, draws).tunnels| ==> q !in Generate(player, draws).tunnels[k]
    ensures !Carved(Generate(player, draws), q)
  {
    GenerateWellFormed(p, player, draws);
    var g := Generate(player, draws);
    forall j | 0 <= j < |g.rooms| ensures !InInner(g.rooms[j], q) {
      if j != i {
        NonIntersectingKeepApart(g.rooms[i], g.rooms[j], q);
      }
    }
  }

  /** The player is the first entity; it stands at the first accepted room's
      center, or where it stood before when no room was accepted. All
      entities stand on distinct cells, every other entity is a monster
      inside some accepted room. At most max_monsters_per_room monsters
      stand in the inner area of each accepted room, so at most
      1 + rooms * max_monsters_per_room entities exist in total. */
  lemma GeneratedEntities(p: Params, player: Entity, draws: seq<AttemptDraw>)
    requires ValidParams(p) && ValidDraws(p, draws)
    ensures var g := Generate(player, draws);
      && |g.entities| >= 1
      && (|g.rooms| == 0 ==> g.entities == [player])
      && (|g.rooms| > 0 ==> g.entities[0] == player.(x := Center(g.rooms[0]).x, y := Center(g.rooms[0]).y))
      && DistinctPositions(g.entities)
      && (forall i :: 1 <= i < |g.entities| ==>
            g.entities[i].kind != Player && InSomeRoom(g.rooms, Position(g.entities[i])))
      && (forall j :: 0 <= j < |g.rooms| ==> CountInside(g.entities[1..], g.rooms[j]) <= p.maxMonstersPerRoom)
      && |g.entities| <= 1 + |g.rooms| * p.maxMonstersPerRoom
  {
    GenerateWellFormed(p, player, draws);
  }
}
