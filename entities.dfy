/** The entities standing on a map: the player and the monsters the
    generator spawns. Only what the generator reads or writes of an entity
    is modelled: its kind and its position. */
module Entities {
  import opened Rooms

  /** The player, or one of the two monster kinds the factory spawns. */
  datatype Kind = Player | Orc | Troll

  datatype Entity = Entity(kind: Kind, x: int, y: int)

  function Position(e: Entity): Point {
    Point(e.x, e.y)
  }

  /** Some entity of es stands on the cell (x, y). */
  function Occupied(es: seq<Entity>, x: int, y: int): (r: bool)
    ensures r <==> exists i :: 0 <= i < |es| && es[i].x == x && es[i].y == y
    decreases |es|
  {
    if es == [] then false
    else if es[|es| - 1].x == x && es[|es| - 1].y == y then true
    else Occupied(es[..|es| - 1], x, y)
  }

  /** No two entities share a cell. */
  predicate DistinctPositions(es: seq<Entity>) {
    forall i, j :: 0 <= i < j < |es| ==> Position(es[i]) != Position(es[j])
  }
}
