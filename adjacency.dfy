/**
 * Neighbour expansion: up to four orthogonal moves (cost 10) and four diagonal
 * moves (cost 15), where a diagonal is refused unless both orthogonal moves that
 * flank it are open, so that a move never cuts a wall corner.
 */
module Adjacency {
  import opened Grid
  import opened PathNodes

  const CostStraight: int := 10
  const CostDiagonal: int := 15

  /** The last index that expansion moves towards on either axis, fixed regardless of the map size. */
  const ExpansionLimit: int := 49

  /** A move by `dx` columns and `dy` rows. */
  datatype Dir = Dir(dx: int, dy: int)

  /**
   * The eight moves in the order they are tried: left, right, up, down, then
   * up-left, up-right, down-left and down-right.
   */
  const Directions: seq<Dir> :=
    [Dir(-1, 0), Dir(1, 0), Dir(0, -1), Dir(0, 1), Dir(-1, -1), Dir(1, -1), Dir(-1, 1), Dir(1, 1)]

  predicate IsDiagonal(d: Dir) {
    d.dx != 0 && d.dy != 0
  }

  function StepCost(d: Dir): int {
    if IsDiagonal(d) then CostDiagonal else CostStraight
  }

  function Shift(p: Loc, d: Dir): Loc {
    Loc(p.x + d.dx, p.y + d.dy)
  }

  /** The bound test of a move: `x > 0` to go left, `x < 49` to go right, and likewise for y. */
  predicate WithinExpansionBounds(p: Loc, d: Dir) {
    && (d.dx < 0 ==> p.x > 0)
    && (d.dx > 0 ==> p.x < ExpansionLimit)
    && (d.dy < 0 ==> p.y > 0)
    && (d.dy > 0 ==> p.y < ExpansionLimit)
  }

  /** An orthogonal move is open when it is within the bounds and does not land on a wall. */
  predicate OrthogonalOpen(m: TileMap, p: Loc, d: Dir)
    requires m.Valid()
  {
    WithinExpansionBounds(p, d) && !IsWallTile(m, Shift(p, d).x, Shift(p, d).y)
  }

  /**
   * Whether the move `d` from `p` is generated: an orthogonal move when it is open;
   * a diagonal move when both flanking orthogonal moves are open and the diagonal
   * cell is not a wall.
   */
  predicate Allowed(m: TileMap, p: Loc, d: Dir)
    requires m.Valid()
  {
    if IsDiagonal(d) then
      OrthogonalOpen(m, p, Dir(d.dx, 0)) && OrthogonalOpen(m, p, Dir(0, d.dy))
      && !IsWallTile(m, Shift(p, d).x, Shift(p, d).y)
    else
      OrthogonalOpen(m, p, d)
  }

  /** `[d]` when the move is generated, `[]` otherwise. */
  function Keep(m: TileMap, p: Loc, d: Dir): seq<Dir>
    requires m.Valid()
  {
    if Allowed(m, p, d) then [d] else []
  }

  /** The moves among the first `k` of `ds` that are generated from `p`, in the order of `ds`. */
  function KeptUpTo(m: TileMap, p: Loc, ds: seq<Dir>, k: nat): (r: seq<Dir>)
    requires m.Valid() && k <= |ds|
    ensures |r| <= k
  {
    if k == 0 then [] else KeptUpTo(m, p, ds, k - 1) + Keep(m, p, ds[k - 1])
  }

  /** The moves generated from `p`, in the order they are tried. */
  function AllowedDirs(m: TileMap, p: Loc): (r: seq<Dir>)
    requires m.Valid()
    ensures |r| <= 8
  {
    KeptUpTo(m, p, Directions, |Directions|)
  }

  /** The filter keeps exactly the generated moves of the prefix `ds[..k]`. */
  lemma {:induction false} KeptUpToMembers(m: TileMap, p: Loc, ds: seq<Dir>, k: nat)
    requires m.Valid() && k <= |ds|
    ensures forall d :: d in KeptUpTo(m, p, ds, k) <==> d in ds[..k] && Allowed(m, p, d)
  {
    if k > 0 {
      KeptUpToMembers(m, p, ds, k - 1);
      assert ds[..k] == ds[..k - 1] + [ds[k - 1]];
    }
  }

  /** One of the eight moves: each axis changes by at most one, and not both by zero. */
  predicate IsMove(d: Dir) {
    -1 <= d.dx <= 1 && -1 <= d.dy <= 1 && (d.dx != 0 || d.dy != 0)
  }

  /** The direction table lists exactly the eight moves. */
  lemma DirectionsAreMoves(d: Dir)
    ensures d in Directions <==> IsMove(d)
  {
    if IsMove(d) {
      if d.dx == -1 && d.dy == 0 { assert Directions[0] == d; }
      else if d.dx == 1 && d.dy == 0 { assert Directions[1] == d; }
      else if d.dx == 0 && d.dy == -1 { assert Directions[2] == d; }
      else if d.dx == 0 && d.dy == 1 { assert Directions[3] == d; }
      else if d.dx == -1 && d.dy == -1 { assert Directions[4] == d; }
      else if d.dx == 1 && d.dy == -1 { assert Directions[5] == d; }
      else if d.dx == -1 && d.dy == 1 { assert Directions[6] == d; }
      else { assert Directions[7] == d; }
    }
  }

  /** Every generated move is one of the eight and is allowed. */
  lemma GeneratedIsAllowed(m: TileMap, p: Loc, d: Dir)
    requires m.Valid() && d in AllowedDirs(m, p)
    ensures IsMove(d) && Allowed(m, p, d)
  {
    KeptUpToMembers(m, p, Directions, |Directions|);
    assert Directions[..|Directions|] == Directions;
    DirectionsAreMoves(d);
  }

  /** Every allowed move among the eight is generated. */
  lemma AllowedIsGenerated(m: TileMap, p: Loc, d: Dir)
    requires m.Valid() && IsMove(d) && Allowed(m, p, d)
    ensures d in AllowedDirs(m, p)
  {
    KeptUpToMembers(m, p, Directions, |Directions|);
    assert Directions[..|Directions|] == Directions;
    DirectionsAreMoves(d);
  }

  /** The locations reached by the generated moves, each clamped to the map. */
  function Targets(m: TileMap, p: Loc): (r: seq<Loc>)
    requires m.Valid()
    ensures |r| == |AllowedDirs(m, p)|
    ensures forall i :: 0 <= i < |r| ==> r[i] == MakeGridLocation(m, Shift(p, AllowedDirs(m, p)[i]))
  {
    var ds := AllowedDirs(m, p);
    seq(|ds|, i requires 0 <= i < |ds| => MakeGridLocation(m, Shift(p, ds[i])))
  }

  /** The node generated by the move `d` from the node `current`, stored at arena index `currentIndex`. */
  function Neighbour(m: TileMap, current: Node, currentIndex: nat, goal: Loc, dist: Heuristic, d: Dir): Node {
    PathNode(m, Some(currentIndex), Some(goal), Shift(current.loc, d), StepCost(d) + current.directCost, dist)
  }

  /** The nodes generated from `current`, one per generated move, in the same order. */
  function Candidates(m: TileMap, current: Node, currentIndex: nat, goal: Loc, dist: Heuristic): (r: seq<Node>)
    requires m.Valid()
    ensures |r| == |AllowedDirs(m, current.loc)|
    ensures forall i :: 0 <= i < |r| ==> r[i] == Neighbour(m, current, currentIndex, goal, dist, AllowedDirs(m, current.loc)[i])
  {
    var ds := AllowedDirs(m, current.loc);
    seq(|ds|, i requires 0 <= i < |ds| => Neighbour(m, current, currentIndex, goal, dist, ds[i]))
  }

  /**
   * Expansion with the four corner flags of `findAdjacentNodes`: each orthogonal move that is
   * blocked clears the flags of the two diagonals beside it, and each diagonal
   * move is tried only under its flag. Its result is exactly the generated moves'
   * nodes, in the order of the direction table.
   */
  method FindAdjacentNodes(m: TileMap, current: Node, currentIndex: nat, goal: Loc, dist: Heuristic)
    returns (adjacent: seq<Node>)
    requires m.Valid()
    ensures adjacent == Candidates(m, current, currentIndex, goal, dist)
  {
    var upLeft, upRight, downLeft, downRight;
    adjacent, upLeft, upRight, downLeft, downRight := OrthogonalMoves(m, current, currentIndex, goal, dist);
    adjacent := DiagonalMoves(m, current, currentIndex, goal, dist, adjacent, upLeft, upRight, downLeft, downRight);
    CandidatesInPushOrder(m, current, currentIndex, goal, dist);
  }

  /**
   * The second half of the expansion: each diagonal move pushed when its corner
   * flag is still set and the diagonal cell is not a wall.
   */
  method DiagonalMoves(m: TileMap, current: Node, currentIndex: nat, goal: Loc, dist: Heuristic,
                       pushed: seq<Node>, upLeft: bool, upRight: bool, downLeft: bool, downRight: bool)
    returns (adjacent: seq<Node>)
    requires m.Valid()
    requires var x, y := current.loc.x, current.loc.y;
             && upLeft == (LeftOpen(m, x, y) && UpOpen(m, x, y))
             && upRight == (RightOpen(m, x, y) && UpOpen(m, x, y))
             && downLeft == (LeftOpen(m, x, y) && DownOpen(m, x, y))
             && downRight == (RightOpen(m, x, y) && DownOpen(m, x, y))
    ensures adjacent == DiagonalPushes(m, current, currentIndex, goal, dist, pushed)
  {
    var x := current.loc.x;
    var y := current.loc.y;
    var upLeftNode := PathNode(m, Some(currentIndex), Some(goal), Loc(x - 1, y - 1), CostDiagonal + current.directCost, dist);
    var upRightNode := PathNode(m, Some(currentIndex), Some(goal), Loc(x + 1, y - 1), CostDiagonal + current.directCost, dist);
    var downLeftNode := PathNode(m, Some(currentIndex), Some(goal), Loc(x - 1, y + 1), CostDiagonal + current.directCost, dist);
    var downRightNode := PathNode(m, Some(currentIndex), Some(goal), Loc(x + 1, y + 1), CostDiagonal + current.directCost, dist);
    ghost var before: seq<Node>;
    adjacent := pushed;

    before := adjacent;
    if upLeft && !IsWallTile(m, x - 1, y - 1) {
      adjacent := adjacent + [upLeftNode];
    }
    assert adjacent == before + Pushed(upLeft && !IsWallTile(m, x - 1, y - 1), upLeftNode);

    before := adjacent;
    if upRight && !IsWallTile(m, x + 1, y - 1) {
      adjacent := adjacent + [upRightNode];
    }
    assert adjacent == before + Pushed(upRight && !IsWallTile(m, x + 1, y - 1), upRightNode);

    before := adjacent;
    if downLeft && !IsWallTile(m, x - 1, y + 1) {
      adjacent := adjacent + [downLeftNode];
    }
    assert adjacent == before + Pushed(downLeft && !IsWallTile(m, x - 1, y + 1), downLeftNode);

    before := adjacent;
    if downRight && !IsWallTile(m, x + 1, y + 1) {
      adjacent := adjacent + [downRightNode];
    }
    assert adjacent == before + Pushed(downRight && !IsWallTile(m, x + 1, y + 1), downRightNode);
  }

  /**
   * The first half of the expansion: the four orthogonal moves, each pushed when
   * its bound and wall test passes, and the corner flags those tests leave.
   */
  method OrthogonalMoves(m: TileMap, current: Node, currentIndex: nat, goal: Loc, dist: Heuristic)
    returns (adjacent: seq<Node>, upLeft: bool, upRight: bool, downLeft: bool, downRight: bool)
    requires m.Valid()
    ensures var x, y := current.loc.x, current.loc.y;
            && adjacent == OrthogonalPushes(m, current, currentIndex, goal, dist)
            && upLeft == (LeftOpen(m, x, y) && UpOpen(m, x, y))
            && upRight == (RightOpen(m, x, y) && UpOpen(m, x, y))
            && downLeft == (LeftOpen(m, x, y) && DownOpen(m, x, y))
            && downRight == (RightOpen(m, x, y) && DownOpen(m, x, y))
  {
    var x := current.loc.x;
    var y := current.loc.y;
    ghost var before: seq<Node>;
    adjacent := [];
    upLeft, upRight, downLeft, downRight := true, true, true, true;

    before := adjacent;
    if x > 0 && !IsWallTile(m, x - 1, y) {
      adjacent := adjacent + [PathNode(m, Some(currentIndex), Some(goal), Loc(x - 1, y), CostStraight + current.directCost, dist)];
    } else {
      upLeft := false;
      downLeft := false;
    }
    assert adjacent == before + Pushed(LeftOpen(m, x, y), PathNode(m, Some(currentIndex), Some(goal), Loc(x - 1, y), CostStraight + current.directCost, dist));

    before := adjacent;
    if x < ExpansionLimit && !IsWallTile(m, x + 1, y) {
      adjacent := adjacent + [PathNode(m, Some(currentIndex), Some(goal), Loc(x + 1, y), CostStraight + current.directCost, dist)];
    } else {
      upRight := false;
      downRight := false;
    }
    assert adjacent == before + Pushed(RightOpen(m, x, y), PathNode(m, Some(currentIndex), Some(goal), Loc(x + 1, y), CostStraight + current.directCost, dist));

    before := adjacent;
    if y > 0 && !IsWallTile(m, x, y - 1) {
      adjacent := adjacent + [PathNode(m, Some(currentIndex), Some(goal), Loc(x, y - 1), CostStraight + current.directCost, dist)];
    } else {
      upLeft := false;
      upRight := false;
    }
    assert adjacent == before + Pushed(UpOpen(m, x, y), PathNode(m, Some(currentIndex), Some(goal), Loc(x, y - 1), CostStraight + current.directCost, dist));

    before := adjacent;
    if y < ExpansionLimit && !IsWallTile(m, x, y + 1) {
      adjacent := adjacent + [PathNode(m, Some(currentIndex), Some(goal), Loc(x, y + 1), CostStraight + current.directCost, dist)];
    } else {
      downLeft := false;
      downRight := false;
    }
    assert adjacent == before + Pushed(DownOpen(m, x, y), PathNode(m, Some(currentIndex), Some(goal), Loc(x, y + 1), CostStraight + current.directCost, dist));
  }

  /** The test `findAdjacentNodes` makes for the move left: not on the first column, and the cell to the left is not a wall. */
  predicate LeftOpen(m: TileMap, x: int, y: int)
    requires m.Valid()
  {
    x > 0 && !IsWallTile(m, x - 1, y)
  }

  /** The test for the move right: left of the expansion limit, and the cell to the right is not a wall. */
  predicate RightOpen(m: TileMap, x: int, y: int)
    requires m.Valid()
  {
    x < ExpansionLimit && !IsWallTile(m, x + 1, y)
  }

  /** The test for the move up: not on the first row, and the cell above is not a wall. */
  predicate UpOpen(m: TileMap, x: int, y: int)
    requires m.Valid()
  {
    y > 0 && !IsWallTile(m, x, y - 1)
  }

  /** The test for the move down: above the expansion limit, and the cell below is not a wall. */
  predicate DownOpen(m: TileMap, x: int, y: int)
    requires m.Valid()
  {
    y < ExpansionLimit && !IsWallTile(m, x, y + 1)
  }

  /** `[n]` when `cond` holds, `[]` otherwise: what one guarded push contributes. */
  function Pushed(cond: bool, n: Node): seq<Node> {
    if cond then [n] else []
  }

  /** What the four orthogonal tests push from `current`, in the order `findAdjacentNodes` tries them. */
  function OrthogonalPushes(m: TileMap, current: Node, currentIndex: nat, goal: Loc, dist: Heuristic): seq<Node>
    requires m.Valid()
  {
    var x, y := current.loc.x, current.loc.y;
    []
      + Pushed(LeftOpen(m, x, y), PathNode(m, Some(currentIndex), Some(goal), Loc(x - 1, y), CostStraight + current.directCost, dist))
      + Pushed(RightOpen(m, x, y), PathNode(m, Some(currentIndex), Some(goal), Loc(x + 1, y), CostStraight + current.directCost, dist))
      + Pushed(UpOpen(m, x, y), PathNode(m, Some(currentIndex), Some(goal), Loc(x, y - 1), CostStraight + current.directCost, dist))
      + Pushed(DownOpen(m, x, y), PathNode(m, Some(currentIndex), Some(goal), Loc(x, y + 1), CostStraight + current.directCost, dist))
  }

  /**
   * `prefix` followed by what the four diagonal tests push from `current`: each
   * diagonal under both flanking orthogonal tests and its own wall test.
   */
  function DiagonalPushes(m: TileMap, current: Node, currentIndex: nat, goal: Loc, dist: Heuristic, prefix: seq<Node>): seq<Node>
    requires m.Valid()
  {
    var x, y := current.loc.x, current.loc.y;
    prefix
      + Pushed(LeftOpen(m, x, y) && UpOpen(m, x, y) && !IsWallTile(m, x - 1, y - 1), PathNode(m, Some(currentIndex), Some(goal), Loc(x - 1, y - 1), CostDiagonal + current.directCost, dist))
      + Pushed(RightOpen(m, x, y) && UpOpen(m, x, y) && !IsWallTile(m, x + 1, y - 1), PathNode(m, Some(currentIndex), Some(goal), Loc(x + 1, y - 1), CostDiagonal + current.directCost, dist))
      + Pushed(LeftOpen(m, x, y) && DownOpen(m, x, y) && !IsWallTile(m, x - 1, y + 1), PathNode(m, Some(currentIndex), Some(goal), Loc(x - 1, y + 1), CostDiagonal + current.directCost, dist))
      + Pushed(RightOpen(m, x, y) && DownOpen(m, x, y) && !IsWallTile(m, x + 1, y + 1), PathNode(m, Some(currentIndex), Some(goal), Loc(x + 1, y + 1), CostDiagonal + current.directCost, dist))
  }

  /**
   * The generated nodes are what `findAdjacentNodes` pushes, in the order and under the
   * tests it performs them: the four orthogonal bound and wall tests, then each
   * diagonal under both flanking tests and its own wall test.
   */
  lemma CandidatesInPushOrder(m: TileMap, current: Node, currentIndex: nat, goal: Loc, dist: Heuristic)
    requires m.Valid()
    ensures Candidates(m, current, currentIndex, goal, dist)
         == DiagonalPushes(m, current, currentIndex, goal, dist, OrthogonalPushes(m, current, currentIndex, goal, dist))
  {
    CandidatesUnrolled(m, current, currentIndex, goal, dist);
    OrthogonalPushesPerMove(m, current, currentIndex, goal, dist);
    DiagonalPushesPerMove(m, current, currentIndex, goal, dist, OrthogonalPushes(m, current, currentIndex, goal, dist));
  }

  /** The orthogonal pushes are the generated orthogonal moves' nodes, move by move. */
  lemma OrthogonalPushesPerMove(m: TileMap, current: Node, currentIndex: nat, goal: Loc, dist: Heuristic)
    requires m.Valid()
    ensures OrthogonalPushes(m, current, currentIndex, goal, dist)
         == [] + PushedFor(m, current, currentIndex, goal, dist, Dir(-1, 0))
          + PushedFor(m, current, currentIndex, goal, dist, Dir(1, 0))
          + PushedFor(m, current, currentIndex, goal, dist, Dir(0, -1))
          + PushedFor(m, current, currentIndex, goal, dist, Dir(0, 1))
  {
    var x, y := current.loc.x, current.loc.y;
    assert PushedFor(m, current, currentIndex, goal, dist, Dir(-1, 0)) == Pushed(LeftOpen(m, x, y), PathNode(m, Some(currentIndex), Some(goal), Loc(x - 1, y), CostStraight + current.directCost, dist)) by {
      OrthogonalTests(m, current.loc);
      NeighbourOfEachMove(m, current, currentIndex, goal, dist);
    }
    assert PushedFor(m, current, currentIndex, goal, dist, Dir(1, 0)) == Pushed(RightOpen(m, x, y), PathNode(m, Some(currentIndex), Some(goal), Loc(x + 1, y), CostStraight + current.directCost, dist)) by {
      OrthogonalTests(m, current.loc);
      NeighbourOfEachMove(m, current, currentIndex, goal, dist);
    }
    assert PushedFor(m, current, currentIndex, goal, dist, Dir(0, -1)) == Pushed(UpOpen(m, x, y), PathNode(m, Some(currentIndex), Some(goal), Loc(x, y - 1), CostStraight + current.directCost, dist)) by {
      OrthogonalTests(m, current.loc);
      NeighbourOfEachMove(m, current, currentIndex, goal, dist);
    }
    assert PushedFor(m, current, currentIndex, goal, dist, Dir(0, 1)) == Pushed(DownOpen(m, x, y), PathNode(m, Some(currentIndex), Some(goal), Loc(x, y + 1), CostStraight + current.directCost, dist)) by {
      OrthogonalTests(m, current.loc);
      NeighbourOfEachMove(m, current, currentIndex, goal, dist);
    }
  }

  /** The diagonal pushes are the generated diagonal moves' nodes, move by move. */
  lemma DiagonalPushesPerMove(m: TileMap, current: Node, currentIndex: nat, goal: Loc, dist: Heuristic, prefix: seq<Node>)
    requires m.Valid()
    ensures DiagonalPushes(m, current, currentIndex, goal, dist, prefix)
         == prefix + PushedFor(m, current, currentIndex, goal, dist, Dir(-1, -1))
          + PushedFor(m, current, currentIndex, goal, dist, Dir(1, -1))
          + PushedFor(m, current, currentIndex, goal, dist, Dir(-1, 1))
          + PushedFor(m, current, currentIndex, goal, dist, Dir(1, 1))
  {
    DiagonalTests(m, current.loc);
    NeighbourOfEachMove(m, current, currentIndex, goal, dist);
  }

  /** Each orthogonal move is generated exactly when the bound and wall test `findAdjacentNodes` makes for it passes. */
  lemma OrthogonalTests(m: TileMap, p: Loc)
    requires m.Valid()
    ensures Allowed(m, p, Dir(-1, 0)) == LeftOpen(m, p.x, p.y)
    ensures Allowed(m, p, Dir(1, 0)) == RightOpen(m, p.x, p.y)
    ensures Allowed(m, p, Dir(0, -1)) == UpOpen(m, p.x, p.y)
    ensures Allowed(m, p, Dir(0, 1)) == DownOpen(m, p.x, p.y)
  {
    assert Shift(p, Dir(-1, 0)) == Loc(p.x - 1, p.y);
    assert Shift(p, Dir(1, 0)) == Loc(p.x + 1, p.y);
    assert Shift(p, Dir(0, -1)) == Loc(p.x, p.y - 1);
    assert Shift(p, Dir(0, 1)) == Loc(p.x, p.y + 1);
  }

  /**
   * Each diagonal move is generated exactly when the tests of both flanking
   * orthogonal moves pass and the diagonal cell is not a wall.
   */
  lemma DiagonalTests(m: TileMap, p: Loc)
    requires m.Valid()
    ensures Allowed(m, p, Dir(-1, -1)) == (LeftOpen(m, p.x, p.y) && UpOpen(m, p.x, p.y) && !IsWallTile(m, p.x - 1, p.y - 1))
    ensures Allowed(m, p, Dir(1, -1)) == (RightOpen(m, p.x, p.y) && UpOpen(m, p.x, p.y) && !IsWallTile(m, p.x + 1, p.y - 1))
    ensures Allowed(m, p, Dir(-1, 1)) == (LeftOpen(m, p.x, p.y) && DownOpen(m, p.x, p.y) && !IsWallTile(m, p.x - 1, p.y + 1))
    ensures Allowed(m, p, Dir(1, 1)) == (RightOpen(m, p.x, p.y) && DownOpen(m, p.x, p.y) && !IsWallTile(m, p.x + 1, p.y + 1))
  {
    OrthogonalTests(m, p);
    assert Shift(p, Dir(-1, -1)) == Loc(p.x - 1, p.y - 1);
    assert Shift(p, Dir(1, -1)) == Loc(p.x + 1, p.y - 1);
    assert Shift(p, Dir(-1, 1)) == Loc(p.x - 1, p.y + 1);
    assert Shift(p, Dir(1, 1)) == Loc(p.x + 1, p.y + 1);
  }

  /** The node of each move is built on the shifted location with the move's step cost. */
  lemma NeighbourOfEachMove(m: TileMap, current: Node, currentIndex: nat, goal: Loc, dist: Heuristic)
    ensures var p := current.loc;
            && Neighbour(m, current, currentIndex, goal, dist, Dir(-1, 0)) == PathNode(m, Some(currentIndex), Some(goal), Loc(p.x - 1, p.y), CostStraight + current.directCost, dist)
            && Neighbour(m, current, currentIndex, goal, dist, Dir(1, 0)) == PathNode(m, Some(currentIndex), Some(goal), Loc(p.x + 1, p.y), CostStraight + current.directCost, dist)
            && Neighbour(m, current, currentIndex, goal, dist, Dir(0, -1)) == PathNode(m, Some(currentIndex), Some(goal), Loc(p.x, p.y - 1), CostStraight + current.directCost, dist)
            && Neighbour(m, current, currentIndex, goal, dist, Dir(0, 1)) == PathNode(m, Some(currentIndex), Some(goal), Loc(p.x, p.y + 1), CostStraight + current.directCost, dist)
            && Neighbour(m, current, currentIndex, goal, dist, Dir(-1, -1)) == PathNode(m, Some(currentIndex), Some(goal), Loc(p.x - 1, p.y - 1), CostDiagonal + current.directCost, dist)
            && Neighbour(m, current, currentIndex, goal, dist, Dir(1, -1)) == PathNode(m, Some(currentIndex), Some(goal), Loc(p.x + 1, p.y - 1), CostDiagonal + current.directCost, dist)
            && Neighbour(m, current, currentIndex, goal, dist, Dir(-1, 1)) == PathNode(m, Some(currentIndex), Some(goal), Loc(p.x - 1, p.y + 1), CostDiagonal + current.directCost, dist)
            && Neighbour(m, current, currentIndex, goal, dist, Dir(1, 1)) == PathNode(m, Some(currentIndex), Some(goal), Loc(p.x + 1, p.y + 1), CostDiagonal + current.directCost, dist)
  {
    var p := current.loc;
    assert Shift(p, Dir(-1, 0)) == Loc(p.x - 1, p.y);
    assert Shift(p, Dir(1, 0)) == Loc(p.x + 1, p.y);
    assert Shift(p, Dir(0, -1)) == Loc(p.x, p.y - 1);
    assert Shift(p, Dir(0, 1)) == Loc(p.x, p.y + 1);
    assert Shift(p, Dir(-1, -1)) == Loc(p.x - 1, p.y - 1);
    assert Shift(p, Dir(1, -1)) == Loc(p.x + 1, p.y - 1);
    assert Shift(p, Dir(-1, 1)) == Loc(p.x - 1, p.y + 1);
    assert Shift(p, Dir(1, 1)) == Loc(p.x + 1, p.y + 1);
  }

  /** The candidates, written out move by move in the order the moves are tried. */
  lemma CandidatesUnrolled(m: TileMap, current: Node, currentIndex: nat, goal: Loc, dist: Heuristic)
    requires m.Valid()
    ensures Candidates(m, current, currentIndex, goal, dist)
         == [] + PushedFor(m, current, currentIndex, goal, dist, Dir(-1, 0))
          + PushedFor(m, current, currentIndex, goal, dist, Dir(1, 0))
          + PushedFor(m, current, currentIndex, goal, dist, Dir(0, -1))
          + PushedFor(m, current, currentIndex, goal, dist, Dir(0, 1))
          + PushedFor(m, current, currentIndex, goal, dist, Dir(-1, -1))
          + PushedFor(m, current, currentIndex, goal, dist, Dir(1, -1))
          + PushedFor(m, current, currentIndex, goal, dist, Dir(-1, 1))
          + PushedFor(m, current, currentIndex, goal, dist, Dir(1, 1))
  {
    var p := current.loc;
    var ds: seq<Dir> := [];
    var adjacent: seq<Node> := [];
    PushStep(m, current, currentIndex, goal, dist, adjacent, ds, Dir(-1, 0));
    adjacent := adjacent + PushedFor(m, current, currentIndex, goal, dist, Dir(-1, 0));
    ds := ds + Keep(m, p, Dir(-1, 0));
    PushStep(m, current, currentIndex, goal, dist, adjacent, ds, Dir(1, 0));
    adjacent := adjacent + PushedFor(m, current, currentIndex, goal, dist, Dir(1, 0));
    ds := ds + Keep(m, p, Dir(1, 0));
    PushStep(m, current, currentIndex, goal, dist, adjacent, ds, Dir(0, -1));
    adjacent := adjacent + PushedFor(m, current, currentIndex, goal, dist, Dir(0, -1));
    ds := ds + Keep(m, p, Dir(0, -1));
    PushStep(m, current, currentIndex, goal, dist, adjacent, ds, Dir(0, 1));
    adjacent := adjacent + PushedFor(m, current, currentIndex, goal, dist, Dir(0, 1));
    ds := ds + Keep(m, p, Dir(0, 1));
    PushStep(m, current, currentIndex, goal, dist, adjacent, ds, Dir(-1, -1));
    adjacent := adjacent + PushedFor(m, current, currentIndex, goal, dist, Dir(-1, -1));
    ds := ds + Keep(m, p, Dir(-1, -1));
    PushStep(m, current, currentIndex, goal, dist, adjacent, ds, Dir(1, -1));
    adjacent := adjacent + PushedFor(m, current, currentIndex, goal, dist, Dir(1, -1));
    ds := ds + Keep(m, p, Dir(1, -1));
    PushStep(m, current, currentIndex, goal, dist, adjacent, ds, Dir(-1, 1));
    adjacent := adjacent + PushedFor(m, current, currentIndex, goal, dist, Dir(-1, 1));
    ds := ds + Keep(m, p, Dir(-1, 1));
    PushStep(m, current, currentIndex, goal, dist, adjacent, ds, Dir(1, 1));
    adjacent := adjacent + PushedFor(m, current, currentIndex, goal, dist, Dir(1, 1));
    ds := ds + Keep(m, p, Dir(1, 1));
    AllowedDirsUnrolled(m, p);
    assert ds == AllowedDirs(m, p);
    NodesOfAllowedMoves(m, current, currentIndex, goal, dist, adjacent);
  }

  /** The node a move contributes to the expansion: one when the move is generated, none otherwise. */
  function PushedFor(m: TileMap, current: Node, currentIndex: nat, goal: Loc, dist: Heuristic, d: Dir): seq<Node>
    requires m.Valid()
  {
    Pushed(Allowed(m, current.loc, d), Neighbour(m, current, currentIndex, goal, dist, d))
  }

  /** `adjacent` holds, in order, the nodes of the moves `ds`. */
  ghost predicate NodesOfMoves(m: TileMap, current: Node, currentIndex: nat, goal: Loc, dist: Heuristic, adjacent: seq<Node>, ds: seq<Dir>) {
    |adjacent| == |ds| && forall k :: 0 <= k < |ds| ==> adjacent[k] == Neighbour(m, current, currentIndex, goal, dist, ds[k])
  }

  /** The nodes of exactly the generated moves are the candidates. */
  lemma NodesOfAllowedMoves(m: TileMap, current: Node, currentIndex: nat, goal: Loc, dist: Heuristic, adjacent: seq<Node>)
    requires m.Valid()
    requires NodesOfMoves(m, current, currentIndex, goal, dist, adjacent, AllowedDirs(m, current.loc))
    ensures adjacent == Candidates(m, current, currentIndex, goal, dist)
  {
  }

  /** Trying one more move extends the nodes and the moves alike. */
  lemma PushStep(m: TileMap, current: Node, currentIndex: nat, goal: Loc, dist: Heuristic, adjacent: seq<Node>, ds: seq<Dir>, d: Dir)
    requires m.Valid()
    requires NodesOfMoves(m, current, currentIndex, goal, dist, adjacent, ds)
    ensures NodesOfMoves(m, current, currentIndex, goal, dist,
                         adjacent + PushedFor(m, current, currentIndex, goal, dist, d), ds + Keep(m, current.loc, d))
  {
  }

  /** The generated moves, written out direction by direction in the order they are tried. */
  lemma AllowedDirsUnrolled(m: TileMap, p: Loc)
    requires m.Valid()
    ensures AllowedDirs(m, p)
         == [] + Keep(m, p, Dir(-1, 0)) + Keep(m, p, Dir(1, 0)) + Keep(m, p, Dir(0, -1)) + Keep(m, p, Dir(0, 1))
          + Keep(m, p, Dir(-1, -1)) + Keep(m, p, Dir(1, -1)) + Keep(m, p, Dir(-1, 1)) + Keep(m, p, Dir(1, 1))
  {
    var ds := Directions;
    assert KeptUpTo(m, p, ds, 1) == [] + Keep(m, p, Dir(-1, 0));
    assert KeptUpTo(m, p, ds, 2) == KeptUpTo(m, p, ds, 1) + Keep(m, p, Dir(1, 0));
    assert KeptUpTo(m, p, ds, 3) == KeptUpTo(m, p, ds, 2) + Keep(m, p, Dir(0, -1));
    assert KeptUpTo(m, p, ds, 4) == KeptUpTo(m, p, ds, 3) + Keep(m, p, Dir(0, 1));
    assert KeptUpTo(m, p, ds, 5) == KeptUpTo(m, p, ds, 4) + Keep(m, p, Dir(-1, -1));
    assert KeptUpTo(m, p, ds, 6) == KeptUpTo(m, p, ds, 5) + Keep(m, p, Dir(1, -1));
    assert KeptUpTo(m, p, ds, 7) == KeptUpTo(m, p, ds, 6) + Keep(m, p, Dir(-1, 1));
    assert KeptUpTo(m, p, ds, 8) == KeptUpTo(m, p, ds, 7) + Keep(m, p, Dir(1, 1));
  }

  /**
   * No corner cutting: a diagonal move is generated only if both orthogonal moves
   * that flank it are generated too.
   */
  lemma NoCornerCutting(m: TileMap, p: Loc, d: Dir)
    requires m.Valid()
    requires d in AllowedDirs(m, p) && IsDiagonal(d)
    ensures Dir(d.dx, 0) in AllowedDirs(m, p) && Dir(0, d.dy) in AllowedDirs(m, p)
    ensures !IsWallTile(m, p.x + d.dx, p.y + d.dy)
  {
    GeneratedIsAllowed(m, p, d);
    assert Shift(p, d) == Loc(p.x + d.dx, p.y + d.dy);
    assert OrthogonalOpen(m, p, Dir(d.dx, 0)) && OrthogonalOpen(m, p, Dir(0, d.dy));
    AllowedIsGenerated(m, p, Dir(d.dx, 0));
    AllowedIsGenerated(m, p, Dir(0, d.dy));
  }

  /**
   * The clamped target of an allowed move from a location inside the clamping box
   * is inside the box, one step away on each axis, and not a wall.
   */
  lemma TargetOfAllowedMove(m: TileMap, p: Loc, d: Dir)
    requires m.Valid() && InBox(m, p) && IsMove(d) && Allowed(m, p, d)
    ensures var t := MakeGridLocation(m, Shift(p, d));
            && InBox(m, t)
            && !IsWallTile(m, t.x, t.y)
            && Gap(t.x, p.x) <= 1 && Gap(t.y, p.y) <= 1
  {
    var raw := Shift(p, d);
    var t := MakeGridLocation(m, raw);
    assert d.dx < 0 ==> p.x > 0;
    assert d.dy < 0 ==> p.y > 0;
    if InTiles(m, t.x, t.y) {
      assert t == raw;
    }
  }

  /**
   * Every generated location is one step away on each axis, inside the map's
   * clamping box and not a wall, when the expanded location is inside the box.
   */
  lemma TargetsAreOpen(m: TileMap, p: Loc)
    requires m.Valid() && InBox(m, p)
    ensures forall t :: t in Targets(m, p) ==>
              && InBox(m, t)
              && !IsWallTile(m, t.x, t.y)
              && Gap(t.x, p.x) <= 1 && Gap(t.y, p.y) <= 1
  {
    var ts := Targets(m, p);
    var ds := AllowedDirs(m, p);
    forall i | 0 <= i < |ts|
      ensures InBox(m, ts[i]) && !IsWallTile(m, ts[i].x, ts[i].y)
      ensures Gap(ts[i].x, p.x) <= 1 && Gap(ts[i].y, p.y) <= 1
    {
      GeneratedIsAllowed(m, p, ds[i]);
      TargetOfAllowedMove(m, p, ds[i]);
    }
  }

  /**
   * The shape of each generated node: the expanded node is its parent, it costs
   * 10 more for an orthogonal move and 15 more for a diagonal one, its location
   * is the clamped move target, and its total cost adds the heuristic from the goal.
   */
  lemma CandidateShape(m: TileMap, current: Node, currentIndex: nat, goal: Loc, dist: Heuristic, i: nat)
    requires m.Valid()
    requires i < |Candidates(m, current, currentIndex, goal, dist)|
    ensures var c := Candidates(m, current, currentIndex, goal, dist)[i];
            var d := AllowedDirs(m, current.loc)[i];
            && IsMove(d)
            && c.parent == Some(currentIndex)
            && c.directCost == current.directCost + (if IsDiagonal(d) then CostDiagonal else CostStraight)
            && c.loc == Targets(m, current.loc)[i]
            && c.totalCost == c.directCost as real + dist(goal, c.loc)
  {
    var ds := AllowedDirs(m, current.loc);
    GeneratedIsAllowed(m, current.loc, ds[i]);
  }

  /** At most eight nodes are generated. */
  lemma AtMostEight(m: TileMap, current: Node, currentIndex: nat, goal: Loc, dist: Heuristic)
    requires m.Valid()
    ensures |Candidates(m, current, currentIndex, goal, dist)| <= 8
  {
  }

  /** A walk: consecutive locations are related by a generated move. */
  ghost predicate IsWalk(m: TileMap, w: seq<Loc>)
    requires m.Valid()
    decreases |w|
  {
    |w| <= 1 || (w[1] in Targets(m, w[0]) && IsWalk(m, w[1..]))
  }

  /** A walk that starts at `a` and ends at `b`. */
  ghost predicate WalkBetween(m: TileMap, w: seq<Loc>, a: Loc, b: Loc)
    requires m.Valid()
  {
    |w| > 0 && w[0] == a && w[|w| - 1] == b && IsWalk(m, w)
  }

}
