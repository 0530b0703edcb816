/** L-shaped tunnels between two points (tunnel_between in src/procgen.py).
    The line tracer is only ever asked for runs along one row or one
    column, so it is modelled for that case alone. */
module Tunnel {
  import opened Rooms

  function Abs(n: int): nat {
    if n < 0 then -n else n
  }

  function Min(a: int, b: int): int {
    if a < b then a else b
  }

  function Max(a: int, b: int): int {
    if a < b then b else a
  }

  /** Manhattan distance. */
  function Distance(a: Point, b: Point): nat {
    Abs(b.x - a.x) + Abs(b.y - a.y)
  }

  /** a and b share a column or a row. */
  predicate Aligned(a: Point, b: Point) {
    a.x == b.x || a.y == b.y
  }

  /** p lies in the bounding box of a and b, both edges included. */
  predicate InBox(p: Point, a: Point, b: Point) {
    Min(a.x, b.x) <= p.x <= Max(a.x, b.x) && Min(a.y, b.y) <= p.y <= Max(a.y, b.y)
  }

  /** p and q are 4-neighbours. */
  predicate Adjacent(p: Point, q: Point) {
    Distance(p, q) == 1
  }

  /** One cell from a toward b along their common row or column. */
  function StepToward(a: Point, b: Point): (s: Point)
    requires Aligned(a, b) && a != b
    ensures Adjacent(a, s) && Aligned(s, b) && Distance(s, b) == Distance(a, b) - 1
    ensures InBox(s, a, b)
  {
    if a.x < b.x then Point(a.x + 1, a.y)
    else if a.x > b.x then Point(a.x - 1, a.y)
    else if a.y < b.y then Point(a.x, a.y + 1)
    else Point(a.x, a.y - 1)
  }

  /** The cells the line tracer returns from a to b when they share a row or
      a column, in order from a. */
  function Line(a: Point, b: Point): seq<Point>
    requires Aligned(a, b)
    decreases Distance(a, b)
  {
    if a == b then [a] else [a] + Line(StepToward(a, b), b)
  }

  /** The run from a to b holds every cell between them, both ends
      included, each cell a 4-neighbour of the one before it. */
  lemma {:induction false} LineShape(a: Point, b: Point)
    requires Aligned(a, b)
    ensures |Line(a, b)| == Distance(a, b) + 1
    ensures Line(a, b)[0] == a && Line(a, b)[|Line(a, b)| - 1] == b
    ensures forall k :: 0 <= k < |Line(a, b)| - 1 ==> Adjacent(Line(a, b)[k], Line(a, b)[k + 1])
    ensures forall p :: p in Line(a, b) <==> InBox(p, a, b)
    decreases Distance(a, b)
  {
    if a != b {
      var s := StepToward(a, b);
      LineShape(s, b);
      var rest := Line(s, b);
      assert Line(a, b) == [a] + rest;
      forall k | 0 <= k < |Line(a, b)| - 1
        ensures Adjacent(Line(a, b)[k], Line(a, b)[k + 1])
      {
        if k > 0 {
          assert Line(a, b)[k] == rest[k - 1] && Line(a, b)[k + 1] == rest[k];
        }
      }
      forall p ensures p in Line(a, b) <==> InBox(p, a, b) {
        assert p in Line(a, b) <==> p == a || p in rest;
      }
    }
  }

  /** The corner of the L: (end.x, start.y) when the tunnel goes horizontally
      first, (start.x, end.y) otherwise. */
  function Corner(start: Point, end: Point, horizontalFirst: bool): (c: Point)
    ensures Aligned(start, c) && Aligned(c, end)
    ensures horizontalFirst ==> c.x == end.x && c.y == start.y
    ensures !horizontalFirst ==> c.x == start.x && c.y == end.y
  {
    if horizontalFirst then Point(end.x, start.y) else Point(start.x, end.y)
  }

  /** Two paths of 4-neighbour steps joined where the first ends and the
      second begins: each step of the result repeats a cell or moves to a
      4-neighbour. */
  lemma JoinSteps(first: seq<Point>, second: seq<Point>)
    requires |first| > 0 && |second| > 0 && first[|first| - 1] == second[0]
    requires forall k :: 0 <= k < |first| - 1 ==> Adjacent(first[k], first[k + 1])
    requires forall k :: 0 <= k < |second| - 1 ==> Adjacent(second[k], second[k + 1])
    ensures forall k :: 0 <= k < |first + second| - 1 ==>
              (first + second)[k] == (first + second)[k + 1] || Adjacent((first + second)[k], (first + second)[k + 1])
  {
    var path := first + second;
    forall k | 0 <= k < |path| - 1
      ensures path[k] == path[k + 1] || Adjacent(path[k], path[k + 1])
    {
      if k < |first| - 1 {
        assert path[k] == first[k] && path[k + 1] == first[k + 1];
      } else if k == |first| - 1 {
        assert path[k] == first[k] && path[k + 1] == second[0];
      } else {
        assert path[k] == second[k - |first|] && path[k + 1] == second[k - |first| + 1];
      }
    }
  }

  /** Both legs of the L stay inside the bounding box of its two ends. */
  lemma LegsInBox(start: Point, end: Point, horizontalFirst: bool, p: Point)
    requires InBox(p, start, Corner(start, end, horizontalFirst)) || InBox(p, Corner(start, end, horizontalFirst), end)
    ensures InBox(p, start, end)
  {
  }

  /** The tunnel's cells: the run from start to the corner followed by the
      run from the corner to end, so the corner appears twice. */
  function TunnelBetween(start: Point, end: Point, horizontalFirst: bool): seq<Point> {
    var c := Corner(start, end, horizontalFirst);
    Line(start, c) + Line(c, end)
  }

  /** The tunnel runs from start to end through the corner in 4-neighbour
      steps (repeating the corner once), covers exactly the two legs of the
      L, and stays inside the bounding box of its ends. */
  lemma TunnelShape(start: Point, end: Point, horizontalFirst: bool)
    ensures var path := TunnelBetween(start, end, horizontalFirst);
      && |path| == Distance(start, end) + 2
      && path[0] == start && path[|path| - 1] == end
      && Corner(start, end, horizontalFirst) in path
      && (forall k :: 0 <= k < |path| - 1 ==> path[k] == path[k + 1] || Adjacent(path[k], path[k + 1]))
      && (forall p :: p in path <==>
            InBox(p, start, Corner(start, end, horizontalFirst)) || InBox(p, Corner(start, end, horizontalFirst), end))
      && (forall p :: p in path ==> InBox(p, start, end))
  {
    var c := Corner(start, end, horizontalFirst);
    var first, second := Line(start, c), Line(c, end);
    LineShape(start, c);
    LineShape(c, end);
    JoinSteps(first, second);
    assert forall p :: p in first + second <==> p in first || p in second;
    forall p | p in first + second ensures InBox(p, start, end) {
      LegsInBox(start, end, horizontalFirst, p);
    }
  }
}
