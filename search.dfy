/**
 * The search loop: an open list of frontier nodes ordered by total cost, a cost
 * table and an open/closed status table keyed by location, and the expanded
 * nodes, along whose parent links the first step of a found path is read back.
 */
module Search {
  import opened Grid
  import opened PathNodes
  import opened SparseGrid
  import opened OpenList
  import opened Adjacency

  /** The marks of the status table: waiting in the open list, or already expanded. */
  datatype Status = Closed | Open

  /** A recorded total cost, or the cleared entry left behind when its location is expanded. */
  datatype CostEntry = Cost(value: real) | Cleared

  /**
   * The outcome of a search: the first step towards the end; no path, because the
   * start or the end is a wall; the open list running dry, where the original
   * program dereferences an absent node; or the step budget spent.
   */
  datatype PathResult = FirstStep(step: Loc) | NoPath | Exhausted | OutOfFuel

  /** The three tables a search updates: the open list, the cost table and the status table. */
  datatype Frontier = Frontier(openList: seq<Node>, nodeCosts: Table<CostEntry>, nodeStatus: Table<Status>)

  /**
   * The comparison `cost >= recorded` on a cost-table entry: an absent entry
   * compares false, and a cleared entry compares like zero.
   */
  predicate NotCheaper(cost: real, recorded: Option<CostEntry>) {
    match recorded
    case None => false
    case Some(Cleared) => cost >= 0.0
    case Some(Cost(c)) => cost >= c
  }

  /**
   * Whether a generated node is queued: never on a closed location, always on an
   * undiscovered one, and on an open one only when it is strictly cheaper than
   * the cost recorded there.
   */
  function ShouldInsert(status: Option<Status>, recorded: Option<CostEntry>, cost: real): (r: bool)
    ensures status == Some(Closed) ==> !r
    ensures status == None ==> r
    ensures status == Some(Open) && recorded.Some? && recorded.value.Cost? ==> (r <==> cost < recorded.value.value)
    ensures status == Some(Open) && recorded == Some(Cleared) ==> (r <==> cost < 0.0)
  {
    match status
    case None => true
    case Some(Closed) => false
    case Some(Open) => !NotCheaper(cost, recorded)
  }

  /** The tables after queueing `n`: spliced into the open list, its cost recorded, its location open. */
  function Opened(f: Frontier, n: Node): Frontier {
    Frontier(Insert(f.openList, n), HsSet(f.nodeCosts, n.loc, Cost(n.totalCost)), HsSet(f.nodeStatus, n.loc, Open))
  }

  /** One generated node: queued when `ShouldInsert` allows it, dropped otherwise. */
  function Relax(f: Frontier, n: Node): Frontier {
    if ShouldInsert(HsGet(f.nodeStatus, n.loc), HsGet(f.nodeCosts, n.loc), n.totalCost) then Opened(f, n) else f
  }

  /** The first `k` generated nodes of `cs`, relaxed in order. */
  function RelaxUpTo(f: Frontier, cs: seq<Node>, k: nat): Frontier
    requires k <= |cs|
  {
    if k == 0 then f else Relax(RelaxUpTo(f, cs, k - 1), cs[k - 1])
  }

  /**
   * The tables after expanding `current`, which has already been popped from `f`:
   * its cost entry cleared, every generated node relaxed in order, and its
   * location closed.
   */
  function AfterExpand(m: TileMap, goal: Loc, dist: Heuristic, f: Frontier, current: Node, index: nat): Frontier
    requires m.Valid()
  {
    var cs := Candidates(m, current, index, goal, dist);
    var r := RelaxUpTo(Frontier(f.openList, HsSet(f.nodeCosts, current.loc, Cleared), f.nodeStatus), cs, |cs|);
    Frontier(r.openList, r.nodeCosts, HsSet(r.nodeStatus, current.loc, Closed))
  }

  /** Every parent link of the arena points to an earlier node. */
  predicate ParentsPrecede(arena: seq<Node>) {
    forall i :: 0 <= i < |arena| && arena[i].parent.Some? ==> arena[i].parent.value < i
  }

  /** The parent of `n`, if any, is among the first `bound` nodes of the arena. */
  predicate ParentBelow(n: Node, bound: nat) {
    n.parent.Some? ==> n.parent.value < bound
  }

  /**
   * The location the parent chain of `n` reaches just before its root: `n`'s own
   * location when `n` is the root, otherwise that of the chain node whose parent
   * is the root.
   */
  function ChainFirst(arena: seq<Node>, n: Node): (r: Loc)
    requires ParentsPrecede(arena) && ParentBelow(n, |arena|)
    decreases if n.parent.Some? then n.parent.value + 1 else 0
  {
    match n.parent
    case None => n.loc
    case Some(j) => if arena[j].parent.None? then n.loc else ChainFirst(arena, arena[j])
  }

  /** The locations of the parent chain of `n`, from its root to `n`. */
  ghost function PathTo(arena: seq<Node>, n: Node): (r: seq<Loc>)
    requires ParentsPrecede(arena) && ParentBelow(n, |arena|)
    decreases if n.parent.Some? then n.parent.value + 1 else 0
  {
    match n.parent
    case None => [n.loc]
    case Some(j) => PathTo(arena, arena[j]) + [n.loc]
  }

  /**
   * `n` is linked into the search tree rooted at the start `s`: a node without a
   * parent stands at `s`, and any other node stands on a location generated from
   * its parent, which is one of the first `bound` expanded nodes.
   */
  ghost predicate Linked(m: TileMap, s: Loc, arena: seq<Node>, n: Node, bound: nat)
    requires m.Valid()
  {
    && bound <= |arena|
    && match n.parent
       case None => n.loc == s
       case Some(j) => j < bound && n.loc in Targets(m, arena[j].loc)
  }

  /** Every expanded node is linked to an earlier one. */
  ghost predicate ArenaLinked(m: TileMap, s: Loc, arena: seq<Node>)
    requires m.Valid()
  {
    forall i :: 0 <= i < |arena| ==> Linked(m, s, arena, arena[i], i)
  }

  /** Every node of the open list is linked to an expanded node. */
  ghost predicate ListLinked(m: TileMap, s: Loc, arena: seq<Node>, l: seq<Node>)
    requires m.Valid()
  {
    forall n :: n in l ==> Linked(m, s, arena, n, |arena|)
  }

  /** A location carries a status: it has been queued at least once. */
  ghost predicate Discovered(f: Frontier, p: Loc) {
    HsGet(f.nodeStatus, p).Some?
  }

  /** Every open location other than `skip` still has a node in the open list. */
  ghost predicate OpenListed(f: Frontier, skip: Option<Loc>) {
    forall p :: HsGet(f.nodeStatus, p) == Some(Open) && Some(p) != skip ==> p in Locs(f.openList)
  }

  /** Every location generated from a closed location has been discovered. */
  ghost predicate ClosedSpread(m: TileMap, f: Frontier)
    requires m.Valid()
  {
    forall p {:trigger Targets(m, p)} :: HsGet(f.nodeStatus, p) == Some(Closed) ==> forall t :: t in Targets(m, p) ==> Discovered(f, t)
  }

  /** The bookkeeping facts the loop keeps about the start `s` and the goal `g`. */
  ghost predicate Explored(m: TileMap, s: Loc, g: Loc, f: Frontier, skip: Option<Loc>)
    requires m.Valid()
  {
    && Discovered(f, s)
    && HsGet(f.nodeStatus, g) != Some(Closed)
    && OpenListed(f, skip)
    && ClosedSpread(m, f)
  }

  /** The invariant of the main loop of a search from `s` to `g`. */
  ghost predicate SearchInvariant(m: TileMap, s: Loc, g: Loc, f: Frontier, arena: seq<Node>)
    requires m.Valid()
  {
    && SortedDesc(f.openList)
    && ArenaLinked(m, s, arena)
    && ListLinked(m, s, arena, f.openList)
    && Explored(m, s, g, f, None)
  }

  /** A linked arena has its parent links pointing backwards. */
  lemma ArenaParentsPrecede(m: TileMap, s: Loc, arena: seq<Node>)
    requires m.Valid() && ArenaLinked(m, s, arena)
    ensures ParentsPrecede(arena)
  {
    forall i | 0 <= i < |arena| && arena[i].parent.Some?
      ensures arena[i].parent.value < i
    {
      assert Linked(m, s, arena, arena[i], i);
    }
  }

  /** Growing the arena at its end, or raising the bound, keeps a node linked. */
  lemma LinkedExtend(m: TileMap, s: Loc, arena: seq<Node>, n: Node, bound: nat, x: Node, bound': nat)
    requires m.Valid() && Linked(m, s, arena, n, bound) && bound <= bound' <= |arena| + 1
    ensures Linked(m, s, arena + [x], n, bound')
  {
    if n.parent.Some? {
      assert (arena + [x])[n.parent.value] == arena[n.parent.value];
    }
  }

  /** A walk followed by a step from its last location is a walk. */
  lemma {:induction false} WalkAppend(m: TileMap, w: seq<Loc>, x: Loc)
    requires m.Valid() && |w| > 0 && IsWalk(m, w) && x in Targets(m, w[|w| - 1])
    ensures IsWalk(m, w + [x])
  {
    var w' := w + [x];
    if |w| == 1 {
      assert w'[1..] == [x];
    } else {
      var tail := w[1..];
      assert tail[|tail| - 1] == w[|w| - 1];
      WalkAppend(m, tail, x);
      assert w'[1..] == tail + [x];
      assert w'[0] == w[0] && w'[1] == w[1];
    }
  }

  /** Raising the bound keeps a node linked. */
  lemma LinkedRaise(m: TileMap, s: Loc, arena: seq<Node>, n: Node, bound: nat, bound': nat)
    requires m.Valid() && Linked(m, s, arena, n, bound) && bound <= bound' <= |arena|
    ensures Linked(m, s, arena, n, bound')
  {
  }

  /** The parent chain of a linked node is a walk from the start to the node. */
  lemma {:induction false} PathToIsWalk(m: TileMap, s: Loc, arena: seq<Node>, n: Node)
    requires m.Valid() && ArenaLinked(m, s, arena) && Linked(m, s, arena, n, |arena|)
    ensures ParentsPrecede(arena)
    ensures WalkBetween(m, PathTo(arena, n), s, n.loc)
    decreases if n.parent.Some? then n.parent.value + 1 else 0
  {
    ArenaParentsPrecede(m, s, arena);
    if n.parent.Some? {
      var j := n.parent.value;
      var p := arena[j];
      assert Linked(m, s, arena, p, j);
      LinkedRaise(m, s, arena, p, j, |arena|);
      PathToIsWalk(m, s, arena, p);
      var w := PathTo(arena, p);
      WalkAppend(m, w, n.loc);
      assert PathTo(arena, n) == w + [n.loc];
    }
  }

  /** Below its root, the second location of a parent chain is the one `ChainFirst` reads back. */
  lemma {:induction false} PathToSecond(arena: seq<Node>, n: Node)
    requires ParentsPrecede(arena) && ParentBelow(n, |arena|) && n.parent.Some?
    ensures |PathTo(arena, n)| >= 2 && PathTo(arena, n)[1] == ChainFirst(arena, n)
    decreases n.parent.value
  {
    var p := arena[n.parent.value];
    if p.parent.Some? {
      PathToSecond(arena, p);
    }
  }

  /**
   * When the goal node popped has a parent, the location read back along its chain
   * is generated from the start and is the second location of a walk from the
   * start to the goal.
   */
  lemma FirstStepOnWalk(m: TileMap, s: Loc, arena: seq<Node>, n: Node)
    requires m.Valid() && ArenaLinked(m, s, arena) && Linked(m, s, arena, n, |arena|) && n.parent.Some?
    ensures ParentsPrecede(arena)
    ensures ChainFirst(arena, n) in Targets(m, s)
    ensures exists w :: WalkBetween(m, w, s, n.loc) && |w| > 1 && w[1] == ChainFirst(arena, n)
  {
    PathToIsWalk(m, s, arena, n);
    PathToSecond(arena, n);
    var w := PathTo(arena, n);
    assert WalkBetween(m, w, s, n.loc) && |w| > 1 && w[1] == ChainFirst(arena, n);
  }

  /** The bookkeeping a relaxation keeps: a sorted, linked open list and the `Explored` facts. */
  ghost predicate Kept(m: TileMap, s: Loc, g: Loc, arena: seq<Node>, f: Frontier, skip: Option<Loc>)
    requires m.Valid()
  {
    SortedDesc(f.openList) && ListLinked(m, s, arena, f.openList) && Explored(m, s, g, f, skip)
  }

  /**
   * When the goal is popped, the location read back along its parent chain is
   * the start itself when the goal node is the start node, and otherwise a
   * location generated from the start that begins a walk to the goal.
   */
  lemma GoalReached(m: TileMap, s: Loc, g: Loc, f: Frontier, arena: seq<Node>)
    requires m.Valid() && SearchInvariant(m, s, g, f, arena)
    requires |f.openList| > 0 && f.openList[|f.openList| - 1].loc == g
    ensures var n := f.openList[|f.openList| - 1];
            && ParentsPrecede(arena) && ParentBelow(n, |arena|)
            && (n.parent.None? ==> s == g && ChainFirst(arena, n) == s)
            && (n.parent.Some? ==>
                  && ChainFirst(arena, n) in Targets(m, s)
                  && exists w :: WalkBetween(m, w, s, g) && |w| > 1 && w[1] == ChainFirst(arena, n))
  {
    var n := f.openList[|f.openList| - 1];
    assert n in f.openList;
    ArenaParentsPrecede(m, s, arena);
    if n.parent.Some? {
      FirstStepOnWalk(m, s, arena, n);
    }
  }

  /** One relaxation keeps the list sorted and linked and keeps the bookkeeping. */
  lemma RelaxKeeps(m: TileMap, s: Loc, g: Loc, arena: seq<Node>, f: Frontier, n: Node, skip: Option<Loc>)
    requires m.Valid() && Kept(m, s, g, arena, f, skip) && Linked(m, s, arena, n, |arena|)
    ensures Kept(m, s, g, arena, Relax(f, n), skip)
  {
    var r := Relax(f, n);
    if r != f {
      InsertPreservesSorted(f.openList, n);
      InsertLocs(f.openList, n);
      forall x | x in r.openList
        ensures Linked(m, s, arena, x, |arena|)
      {
        assert x in multiset(r.openList);
      }
      forall p | HsGet(r.nodeStatus, p) == Some(Closed)
        ensures forall t :: t in Targets(m, p) ==> Discovered(r, t)
      {
        assert HsGet(f.nodeStatus, p) == Some(Closed);
        RelaxDiscovers(f, n);
      }
    }
  }

  /** One relaxation never forgets a discovered location and discovers the relaxed node's location. */
  lemma RelaxDiscovers(f: Frontier, n: Node)
    ensures Discovered(Relax(f, n), n.loc)
    ensures forall p :: Discovered(f, p) ==> Discovered(Relax(f, n), p)
  {
  }

  /** Relaxing a prefix of linked nodes keeps what `RelaxKeeps` keeps. */
  lemma {:induction false} RelaxUpToKeeps(m: TileMap, s: Loc, g: Loc, arena: seq<Node>, f: Frontier,
                                          cs: seq<Node>, k: nat, skip: Option<Loc>)
    requires m.Valid() && k <= |cs| && Kept(m, s, g, arena, f, skip)
    requires forall i :: 0 <= i < |cs| ==> Linked(m, s, arena, cs[i], |arena|)
    ensures Kept(m, s, g, arena, RelaxUpTo(f, cs, k), skip)
  {
    if k > 0 {
      RelaxUpToKeeps(m, s, g, arena, f, cs, k - 1, skip);
      RelaxKeeps(m, s, g, arena, RelaxUpTo(f, cs, k - 1), cs[k - 1], skip);
    }
  }

  /** Relaxing a prefix discovers every relaxed location and forgets none. */
  lemma {:induction false} RelaxUpToDiscovers(f: Frontier, cs: seq<Node>, k: nat)
    requires k <= |cs|
    ensures forall i :: 0 <= i < k ==> Discovered(RelaxUpTo(f, cs, k), cs[i].loc)
    ensures forall p :: Discovered(f, p) ==> Discovered(RelaxUpTo(f, cs, k), p)
  {
    if k > 0 {
      var r0 := RelaxUpTo(f, cs, k - 1);
      RelaxUpToDiscovers(f, cs, k - 1);
      RelaxDiscovers(r0, cs[k - 1]);
      var r := RelaxUpTo(f, cs, k);
      forall i | 0 <= i < k
        ensures Discovered(r, cs[i].loc)
      {
        if i < k - 1 {
          assert Discovered(r0, cs[i].loc);
        }
      }
    }
  }

  /** A relaxation never reopens a closed location: closed locations are never queued again. */
  lemma {:induction false} ClosedStaysClosed(f: Frontier, cs: seq<Node>, k: nat, p: Loc)
    requires k <= |cs| && HsGet(f.nodeStatus, p) == Some(Closed)
    ensures HsGet(RelaxUpTo(f, cs, k).nodeStatus, p) == Some(Closed)
    ensures forall x :: x in RelaxUpTo(f, cs, k).openList && x.loc == p ==> x in f.openList
  {
    if k > 0 {
      ClosedStaysClosed(f, cs, k - 1, p);
      var before := RelaxUpTo(f, cs, k - 1);
      var n := cs[k - 1];
      if ShouldInsert(HsGet(before.nodeStatus, n.loc), HsGet(before.nodeCosts, n.loc), n.totalCost) {
        assert n.loc != p;
        forall x | x in Insert(before.openList, n) && x.loc == p
          ensures x in before.openList
        {
          assert x in multiset(Insert(before.openList, n));
        }
      }
    }
  }

  /** An expansion closes the expanded location and keeps every closed location closed. */
  lemma ExpandCloses(m: TileMap, goal: Loc, dist: Heuristic, f: Frontier, current: Node, index: nat)
    requires m.Valid()
    ensures HsGet(AfterExpand(m, goal, dist, f, current, index).nodeStatus, current.loc) == Some(Closed)
    ensures forall p :: HsGet(f.nodeStatus, p) == Some(Closed) ==>
              HsGet(AfterExpand(m, goal, dist, f, current, index).nodeStatus, p) == Some(Closed)
  {
    var cs := Candidates(m, current, index, goal, dist);
    var cleared := Frontier(f.openList, HsSet(f.nodeCosts, current.loc, Cleared), f.nodeStatus);
    forall p | HsGet(f.nodeStatus, p) == Some(Closed)
      ensures HsGet(AfterExpand(m, goal, dist, f, current, index).nodeStatus, p) == Some(Closed)
    {
      ClosedStaysClosed(cleared, cs, |cs|, p);
    }
  }

  /** Appending a linked node to a linked arena keeps it linked. */
  lemma ArenaGrows(m: TileMap, s: Loc, arena: seq<Node>, current: Node)
    requires m.Valid() && ArenaLinked(m, s, arena) && Linked(m, s, arena, current, |arena|)
    ensures ArenaLinked(m, s, arena + [current])
  {
    var arena' := arena + [current];
    forall i | 0 <= i < |arena'|
      ensures Linked(m, s, arena', arena'[i], i)
    {
      if i < |arena| {
        LinkedExtend(m, s, arena, arena[i], i, current, i);
      } else {
        LinkedExtend(m, s, arena, current, |arena|, current, |arena|);
      }
    }
  }

  /**
   * Popping the last node and clearing its cost entry keeps the bookkeeping, except
   * that its own location may now be open without being listed.
   */
  lemma PopKeeps(m: TileMap, s: Loc, g: Loc, f: Frontier, arena: seq<Node>)
    requires m.Valid() && SearchInvariant(m, s, g, f, arena) && |f.openList| > 0
    ensures var k := |f.openList| - 1;
            var current := f.openList[k];
            Kept(m, s, g, arena + [current],
                 Frontier(f.openList[..k], HsSet(f.nodeCosts, current.loc, Cleared), f.nodeStatus), Some(current.loc))
  {
    var k := |f.openList| - 1;
    var current := f.openList[k];
    var cleared := Frontier(f.openList[..k], HsSet(f.nodeCosts, current.loc, Cleared), f.nodeStatus);
    forall x | x in cleared.openList
      ensures Linked(m, s, arena + [current], x, |arena| + 1)
    {
      assert x in f.openList;
      LinkedExtend(m, s, arena, x, |arena|, current, |arena| + 1);
    }
    DropLastLocs(f.openList);
  }

  /** Every node generated from the newest expanded node is linked to it. */
  lemma CandidatesLinked(m: TileMap, s: Loc, g: Loc, dist: Heuristic, arena: seq<Node>, current: Node)
    requires m.Valid()
    ensures var cs := Candidates(m, current, |arena|, g, dist);
            forall i :: 0 <= i < |cs| ==> Linked(m, s, arena + [current], cs[i], |arena| + 1)
  {
    var cs := Candidates(m, current, |arena|, g, dist);
    forall i | 0 <= i < |cs|
      ensures Linked(m, s, arena + [current], cs[i], |arena| + 1)
    {
      CandidateShape(m, current, |arena|, g, dist, i);
      assert (arena + [current])[|arena|] == current;
    }
  }

  /**
   * Closing a location whose generated locations are all discovered, and which is
   * the only one that may be open without being listed, restores the bookkeeping.
   */
  lemma CloseKeeps(m: TileMap, s: Loc, g: Loc, arena: seq<Node>, r: Frontier, l: Loc)
    requires m.Valid() && Kept(m, s, g, arena, r, Some(l)) && l != g
    requires forall t :: t in Targets(m, l) ==> Discovered(r, t)
    ensures Kept(m, s, g, arena, Frontier(r.openList, r.nodeCosts, HsSet(r.nodeStatus, l, Closed)), None)
  {
    var result := Frontier(r.openList, r.nodeCosts, HsSet(r.nodeStatus, l, Closed));
    forall p | HsGet(result.nodeStatus, p) == Some(Closed)
      ensures forall t :: t in Targets(m, p) ==> Discovered(result, t)
    {
      if p != l {
        assert HsGet(r.nodeStatus, p) == Some(Closed);
      }
    }
  }

  /**
   * Relaxing the nodes generated from the popped node and closing its location
   * restores the bookkeeping.
   */
  lemma RelaxAndClose(m: TileMap, s: Loc, g: Loc, dist: Heuristic, arena: seq<Node>, current: Node, cleared: Frontier)
    requires m.Valid() && current.loc != g
    requires Kept(m, s, g, arena + [current], cleared, Some(current.loc))
    ensures var cs := Candidates(m, current, |arena|, g, dist);
            var r := RelaxUpTo(cleared, cs, |cs|);
            Kept(m, s, g, arena + [current], Frontier(r.openList, r.nodeCosts, HsSet(r.nodeStatus, current.loc, Closed)), None)
  {
    var cs := Candidates(m, current, |arena|, g, dist);
    var r := RelaxUpTo(cleared, cs, |cs|);
    CandidatesLinked(m, s, g, dist, arena, current);
    RelaxUpToKeeps(m, s, g, arena + [current], cleared, cs, |cs|, Some(current.loc));
    RelaxUpToDiscovers(cleared, cs, |cs|);
    GeneratedDiscovered(m, dist, arena, current, g, r);
    CloseKeeps(m, s, g, arena + [current], r, current.loc);
  }

  /** Once every generated node is discovered, every location generated from the popped node is. */
  lemma GeneratedDiscovered(m: TileMap, dist: Heuristic, arena: seq<Node>, current: Node, g: Loc, r: Frontier)
    requires m.Valid()
    requires var cs := Candidates(m, current, |arena|, g, dist);
             forall i :: 0 <= i < |cs| ==> Discovered(r, cs[i].loc)
    ensures forall t :: t in Targets(m, current.loc) ==> Discovered(r, t)
  {
    forall t | t in Targets(m, current.loc)
      ensures Discovered(r, t)
    {
      var i :| 0 <= i < |Targets(m, current.loc)| && Targets(m, current.loc)[i] == t;
      CandidateShape(m, current, |arena|, g, dist, i);
    }
  }

  /** Expanding the last node of the open list, when it is not the goal, keeps the loop invariant. */
  lemma ExpandPreserves(m: TileMap, s: Loc, g: Loc, dist: Heuristic, f: Frontier, arena: seq<Node>)
    requires m.Valid() && SearchInvariant(m, s, g, f, arena)
    requires |f.openList| > 0 && f.openList[|f.openList| - 1].loc != g
    ensures var k := |f.openList| - 1;
            var popped := Frontier(f.openList[..k], f.nodeCosts, f.nodeStatus);
            SearchInvariant(m, s, g, AfterExpand(m, g, dist, popped, f.openList[k], |arena|), arena + [f.openList[k]])
  {
    var k := |f.openList| - 1;
    var current := f.openList[k];
    var popped := Frontier(f.openList[..k], f.nodeCosts, f.nodeStatus);
    var cleared := Frontier(popped.openList, HsSet(popped.nodeCosts, current.loc, Cleared), popped.nodeStatus);
    assert current in f.openList;
    ArenaGrows(m, s, arena, current);
    PopKeeps(m, s, g, f, arena);
    RelaxAndClose(m, s, g, dist, arena, current, cleared);
  }

  /**
   * With the open list empty, every discovered location is closed, so the
   * discovered locations are closed under moves; the start is among them and the
   * goal is not, hence no walk joins them.
   */
  lemma NoWalkWhenExhausted(m: TileMap, s: Loc, g: Loc, f: Frontier)
    requires m.Valid() && Explored(m, s, g, f, None) && f.openList == []
    ensures forall w :: !WalkBetween(m, w, s, g)
  {
    forall w | WalkBetween(m, w, s, g)
      ensures false
    {
      DiscoveredAlongWalk(m, s, g, f, w);
      NothingOpen(m, s, g, f, g);
    }
  }

  /** With the open list empty, every discovered location is closed. */
  lemma NothingOpen(m: TileMap, s: Loc, g: Loc, f: Frontier, p: Loc)
    requires m.Valid() && Explored(m, s, g, f, None) && f.openList == [] && Discovered(f, p)
    ensures HsGet(f.nodeStatus, p) == Some(Closed)
  {
    var st := HsGet(f.nodeStatus, p);
    assert st.Some?;
    assert st.value != Open;
  }

  /** Along a walk that leaves a discovered location, every location is discovered when nothing is open. */
  lemma {:induction false} DiscoveredAlongWalk(m: TileMap, s: Loc, g: Loc, f: Frontier, w: seq<Loc>)
    requires m.Valid() && Explored(m, s, g, f, None) && f.openList == []
    requires |w| > 0 && IsWalk(m, w) && Discovered(f, w[0])
    ensures Discovered(f, w[|w| - 1])
  {
    if |w| > 1 {
      NothingOpen(m, s, g, f, w[0]);
      assert w[1] in Targets(m, w[0]);
      DiscoveredAlongWalk(m, s, g, f, w[1..]);
    }
  }

  /** The tables right after the start node is queued satisfy the loop invariant. */
  lemma InitialInvariant(m: TileMap, s: Loc, g: Loc, n: Node)
    requires m.Valid() && n.parent == None && n.loc == s
    ensures SearchInvariant(m, s, g, Opened(Frontier([], map[], map[]), n), [])
  {
    var f := Opened(Frontier([], map[], map[]), n);
    assert f.openList == [n];
    assert Locs(f.openList)[0] == s;
  }

  /** The state of one search: the module-level tables of the original program, plus the expanded nodes. */
  class SearchState {
    const tileMap: TileMap
    const dist: Heuristic
    /** The location of the end node. */
    const goal: Loc
    var openList: seq<Node>
    var nodeCosts: Table<CostEntry>
    var nodeStatus: Table<Status>
    /** The popped nodes that were expanded, in order; parent links index into it. */
    var expanded: seq<Node>

    ghost function State(): Frontier
      reads this
    {
      Frontier(openList, nodeCosts, nodeStatus)
    }

    /** A search over `m` towards `goal` with empty tables. */
    constructor (m: TileMap, dist: Heuristic, goal: Loc)
      ensures tileMap == m && this.dist == dist && this.goal == goal
      ensures State() == Frontier([], map[], map[]) && expanded == []
    {
      tileMap := m;
      this.dist := dist;
      this.goal := goal;
      openList := [];
      nodeCosts := map[];
      nodeStatus := map[];
      expanded := [];
    }

    /**
     * Scans past every entry that costs strictly more, splices the node in there,
     * and records its cost and its open status.
     */
    method AddNodeToOpenList(node: Node)
      modifies this`openList, this`nodeCosts, this`nodeStatus
      ensures State() == Opened(old(State()), node)
    {
      var index := 0;
      var cost := node.totalCost;
      while index < |openList| && cost < openList[index].totalCost
        invariant index <= |openList|
        invariant forall j :: 0 <= j < index ==> cost < openList[j].totalCost
      {
        index := index + 1;
      }
      ScanStopsAtInsertIndex(openList, cost, index);
      openList := openList[..index] + [node] + openList[index..];
      nodeCosts := HsSet(nodeCosts, node.loc, Cost(node.totalCost));
      nodeStatus := HsSet(nodeStatus, node.loc, Open);
    }

    /** Takes the last, cheapest node of the open list; `None` when the list is empty. */
    method Pop() returns (popped: Option<Node>)
      modifies this`openList
      ensures old(openList) == [] ==> popped == None && openList == []
      ensures old(openList) != [] ==>
                && popped == Some(old(openList)[|old(openList)| - 1])
                && openList == old(openList)[..|old(openList)| - 1]
    {
      if openList == [] {
        popped := None;
      } else {
        popped := Some(openList[|openList| - 1]);
        openList := openList[..|openList| - 1];
      }
    }

    /** Follows the parent links from `n` to the root and returns the location just before it. */
    method WalkBack(n: Node) returns (loc: Loc)
      requires ParentsPrecede(expanded) && ParentBelow(n, |expanded|)
      ensures loc == ChainFirst(expanded, n)
    {
      var current := n;
      var prev := n;
      while current.parent.Some?
        invariant ParentBelow(current, |expanded|)
        invariant current.parent.Some? ==> ChainFirst(expanded, current) == ChainFirst(expanded, n)
        invariant current.parent.None? ==> prev.loc == ChainFirst(expanded, n)
        decreases if current.parent.Some? then current.parent.value + 1 else 0
      {
        prev := current;
        current := expanded[current.parent.value];
      }
      loc := prev.loc;
    }

    /**
     * Expands a popped node: clears its cost entry, queues each generated node
     * that `ShouldInsert` allows, and closes its location.
     */
    method Expand(current: Node)
      requires tileMap.Valid()
      modifies this
      ensures expanded == old(expanded) + [current]
      ensures State() == AfterExpand(tileMap, goal, dist, old(State()), current, |old(expanded)|)
    {
      var index := |expanded|;
      expanded := expanded + [current];
      nodeCosts := HsSet(nodeCosts, current.loc, Cleared);
      var adjacent := FindAdjacentNodes(tileMap, current, index, goal, dist);
      QueueAdjacent(adjacent);
      nodeStatus := HsSet(nodeStatus, current.loc, Closed);
    }

    /**
     * The loop over the generated nodes of an expansion: a closed location is
     * skipped, an open one is skipped unless the node is strictly cheaper than the
     * cost recorded there, and every other node is queued.
     */
    method QueueAdjacent(adjacent: seq<Node>)
      modifies this`openList, this`nodeCosts, this`nodeStatus
      ensures State() == RelaxUpTo(old(State()), adjacent, |adjacent|)
    {
      for i := 0 to |adjacent|
        invariant State() == RelaxUpTo(old(State()), adjacent, i)
      {
        var possible := adjacent[i];
        var status := HsGet(nodeStatus, possible.loc);
        if status.Some? {
          if status.value == Closed {
            continue;
          }
          if status.value == Open && NotCheaper(possible.totalCost, HsGet(nodeCosts, possible.loc)) {
            continue;
          }
        }
        AddNodeToOpenList(possible);
      }
    }
  }

  /**
   * Searches from `startTile` to `endTile` over `m` for at most `fuel` expansions
   * and returns the first step of the path found.
   */
  method FindPath(m: TileMap, startTile: Loc, endTile: Loc, dist: Heuristic, fuel: nat) returns (r: PathResult)
    requires m.Valid()
    ensures r == NoPath <==> IsWallTile(m, startTile.x, startTile.y) || IsWallTile(m, endTile.x, endTile.y)
    ensures var s, g := MakeGridLocation(m, startTile), MakeGridLocation(m, endTile);
            r.FirstStep? ==>
              || (s == g && r.step == s)
              || (r.step in Targets(m, s) && exists w :: WalkBetween(m, w, s, g) && |w| > 1 && w[1] == r.step)
    ensures var s, g := MakeGridLocation(m, startTile), MakeGridLocation(m, endTile);
            s == g && r != NoPath ==> r == if fuel > 0 then FirstStep(s) else OutOfFuel
    ensures var s, g := MakeGridLocation(m, startTile), MakeGridLocation(m, endTile);
            r == Exhausted ==> forall w :: !WalkBetween(m, w, s, g)
  {
    if IsWallTile(m, startTile.x, startTile.y) || IsWallTile(m, endTile.x, endTile.y) {
      return NoPath;
    }
    var endNode := PathNode(m, None, None, endTile, 0, dist);
    var startNode := PathNode(m, None, Some(endNode.loc), startTile, 0, dist);
    ghost var s, g := startNode.loc, endNode.loc;
    var state := new SearchState(m, dist, endNode.loc);
    state.AddNodeToOpenList(startNode);
    InitialInvariant(m, s, g, startNode);
    var remaining := fuel;
    while remaining > 0
      invariant remaining <= fuel
      invariant SearchInvariant(m, s, g, state.State(), state.expanded)
      invariant remaining == fuel ==> state.openList == [startNode]
      invariant remaining < fuel ==> s != g
    {
      ghost var before := state.State();
      var popped := state.Pop();
      if popped.None? {
        NoWalkWhenExhausted(m, s, g, state.State());
        return Exhausted;
      }
      var current := popped.value;
      if IsEq(current, endNode) {
        GoalReached(m, s, g, before, state.expanded);
        var step := state.WalkBack(current);
        return FirstStep(step);
      }
      ghost var afterPop, arena := state.State(), state.expanded;
      assert afterPop == Frontier(before.openList[..|before.openList| - 1], before.nodeCosts, before.nodeStatus);
      ExpandPreserves(m, s, g, dist, before, arena);
      state.Expand(current);
      assert state.State() == AfterExpand(m, g, dist, afterPop, current, |arena|);
      remaining := remaining - 1;
    }
    return OutOfFuel;
  }
}
