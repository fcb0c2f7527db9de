/** Search nodes: a parent link, a clamped location, the direct cost and the A* total cost. */
module PathNodes {
  import opened Grid

  /** The heuristic distance between two locations (Euclidean in path-finder.js), left abstract. */
  type Heuristic = (Loc, Loc) -> real

  /**
   * A search node. Parent links are indices into the arena of expanded nodes
   * (`None` for a node built without a parent: the start and the goal reference).
   */
  datatype Node = Node(parent: Option<nat>, loc: Loc, directCost: int, totalCost: real)

  /**
   * Builds a node: its location is the clamped `raw`, and its total cost is the
   * direct cost plus the heuristic distance from the goal when a goal is given, 0 otherwise.
   */
  function PathNode(m: TileMap, parent: Option<nat>, goal: Option<Loc>, raw: Loc, cost: int, dist: Heuristic): (n: Node)
    ensures n.parent == parent && n.directCost == cost
    ensures n.loc == MakeGridLocation(m, raw)
    ensures m.Valid() ==> InBox(m, n.loc)
    ensures InBox(m, raw) ==> n.loc == raw
    ensures goal.Some? ==> n.totalCost == cost as real + dist(goal.value, n.loc)
    ensures goal.None? ==> n.totalCost == 0.0
  {
    var loc := MakeGridLocation(m, raw);
    Node(parent, loc, cost, if goal.Some? then cost as real + dist(goal.value, loc) else 0.0)
  }

  /** Two nodes are equal for the search when their coordinates agree. */
  function IsEq(a: Node, b: Node): (r: bool)
    ensures r <==> a.loc == b.loc
  {
    a.loc.x == b.loc.x && a.loc.y == b.loc.y
  }
}
