/** Two generation scenarios, stated for every draw sequence randint could
    deliver under the given parameters. */
module Scenarios {
  import opened Rooms
  import opened Entities
  import opened Generation

  /** max_rooms = 1, rooms of size 4 on a 20 x 20 map, no monsters: exactly
      one room, the player alone at its center, no tunnel. */
  lemma SingleRoomScenario(player: Entity, draws: seq<AttemptDraw>)
    requires ValidDraws(Params(1, 4, 4, 20, 20, 0), draws)
    ensures var g := Generate(player, draws);
      && |g.rooms| == 1
      && g.tunnels == []
      && g.entities == [player.(x := Center(g.rooms[0]).x, y := Center(g.rooms[0]).y)]
      && InInner(g.rooms[0], Position(g.entities[0]))
  {
    assert draws[..0] == [];
    assert draws[0].monsters == [];
  }

  /** The parameters of a map so small that any two rooms intersect: rooms
      of size 4 whose top-left corner can only be 0 or 1 on each axis. */
  function CrowdedParams(): Params {
    Params(5, 4, 4, 6, 6, 0)
  }

  /** Every attempt after the first is rejected on the crowded map: however
      many attempts are made, exactly one room is accepted. */
  lemma {:induction false} CrowdedMapAcceptsOneRoom(player: Entity, draws: seq<AttemptDraw>)
    requires |draws| >= 1
    requires forall k :: 0 <= k < |draws| ==> ValidAttempt(CrowdedParams(), draws[k])
    ensures |Generate(player, draws).rooms| == 1
    decreases |draws|
  {
    var init, d := draws[..|draws| - 1], draws[|draws| - 1];
    assert forall k :: 0 <= k < |init| ==> init[k] == draws[k];
    if |init| == 0 {
      assert Generate(player, init) == Gen([], [], [player]);
    } else {
      CrowdedMapAcceptsOneRoom(player, init);
      GenerateWellFormed(CrowdedParams(), player, init);
      var g := Generate(player, init);
      assert InMap(CrowdedParams(), g.rooms[0]) && SizeInRange(CrowdedParams(), g.rooms[0]);
      assert Intersects(Candidate(d), g.rooms[0]);
    }
  }

  /** Five attempts on the crowded map give a dungeon of one room. */
  lemma CrowdedScenario(player: Entity, draws: seq<AttemptDraw>)
    requires ValidDraws(CrowdedParams(), draws)
    ensures |draws| == 5
    ensures |Generate(player, draws).rooms| == 1
  {
    CrowdedMapAcceptsOneRoom(player, draws);
  }
}
