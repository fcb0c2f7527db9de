/**
 * The open list: frontier nodes kept in non-increasing total-cost order, so
 * that taking the last element takes a cheapest node.
 */
module OpenList {
  import opened Grid
  import opened PathNodes

  /** Total costs never increase from the front of the list to its back. */
  ghost predicate SortedDesc(l: seq<Node>) {
    forall i, j :: 0 <= i < j < |l| ==> l[i].totalCost >= l[j].totalCost
  }

  /**
   * The position where a node of cost `c` is spliced in: past every entry that
   * costs strictly more, and in front of the first one that does not.
   */
  function InsertIndex(l: seq<Node>, c: real): (i: nat)
    ensures i <= |l|
    ensures forall j :: 0 <= j < i ==> c < l[j].totalCost
    ensures i < |l| ==> l[i].totalCost <= c
  {
    if |l| == 0 || !(c < l[0].totalCost) then 0 else 1 + InsertIndex(l[1..], c)
  }

  /** The list with `n` spliced in at its insertion index. */
  function Insert(l: seq<Node>, n: Node): (r: seq<Node>)
    ensures |r| == |l| + 1
    ensures r[InsertIndex(l, n.totalCost)] == n
    ensures multiset(r) == multiset(l) + multiset{n}
  {
    var i := InsertIndex(l, n.totalCost);
    assert l == l[..i] + l[i..];
    l[..i] + [n] + l[i..]
  }

  /** The locations of the nodes of a list, in list order. */
  function Locs(l: seq<Node>): (r: seq<Loc>)
    ensures |r| == |l|
    ensures forall i :: 0 <= i < |l| ==> r[i] == l[i].loc
  {
    seq(|l|, i requires 0 <= i < |l| => l[i].loc)
  }

  /**
   * A scan that stops at the first entry not costing more than `c` stops at the
   * insertion index: the loop of addNodeToOpenList computes `InsertIndex`.
   */
  lemma {:induction false} ScanStopsAtInsertIndex(l: seq<Node>, c: real, i: nat)
    requires i <= |l|
    requires forall j :: 0 <= j < i ==> c < l[j].totalCost
    requires i < |l| ==> !(c < l[i].totalCost)
    ensures i == InsertIndex(l, c)
  {
    if i > 0 {
      assert c < l[0].totalCost;
      ScanStopsAtInsertIndex(l[1..], c, i - 1);
    }
  }

  /**
   * Inserting keeps the list sorted, grows it by exactly the new node, and leaves
   * the other entries in their relative order.
   */
  lemma InsertPreservesSorted(l: seq<Node>, n: Node)
    requires SortedDesc(l)
    ensures SortedDesc(Insert(l, n))
  {
    var i := InsertIndex(l, n.totalCost);
    var r := Insert(l, n);
    forall p, q | 0 <= p < q < |r|
      ensures r[p].totalCost >= r[q].totalCost
    {
      if q < i {
        assert r[p] == l[p] && r[q] == l[q];
      } else if q == i {
        assert r[p] == l[p];
      } else if p < i {
        assert r[p] == l[p] && r[q] == l[q - 1];
      } else if p == i {
        assert r[q] == l[q - 1];
        assert l[i].totalCost <= n.totalCost;
        assert l[q - 1].totalCost <= l[i].totalCost;
      } else {
        assert r[p] == l[p - 1] && r[q] == l[q - 1];
      }
    }
  }

  /** Removing the new node from the result gives back the old list. */
  lemma InsertKeepsOthers(l: seq<Node>, n: Node)
    ensures var i := InsertIndex(l, n.totalCost);
            Insert(l, n)[..i] + Insert(l, n)[i + 1..] == l
  {
    var i := InsertIndex(l, n.totalCost);
    var r := l[..i] + [n] + l[i..];
    assert r == Insert(l, n);
    assert r[..i] == l[..i];
    assert r[i + 1..] == l[i..];
    assert l[..i] + l[i..] == l;
  }

  /**
   * The new node goes in front of every entry of equal cost, so those older
   * entries lie nearer the back and are popped before it.
   */
  lemma InsertAheadOfTies(l: seq<Node>, n: Node)
    ensures var i := InsertIndex(l, n.totalCost);
            forall j :: 0 <= j < |l| && l[j].totalCost == n.totalCost ==> i <= j
  {
  }

  /** Every location listed before an insertion is still listed, and so is the new node's. */
  lemma InsertLocs(l: seq<Node>, n: Node)
    ensures n.loc in Locs(Insert(l, n))
    ensures forall p :: p in Locs(l) ==> p in Locs(Insert(l, n))
  {
    var i := InsertIndex(l, n.totalCost);
    var r := Insert(l, n);
    assert Locs(r)[i] == n.loc;
    forall p | p in Locs(l)
      ensures p in Locs(r)
    {
      var j :| 0 <= j < |l| && Locs(l)[j] == p;
      if j < i {
        assert Locs(r)[j] == p;
      } else {
        assert Locs(r)[j + 1] == p;
      }
    }
  }

  /** Popping the last node delists only that node's location. */
  lemma DropLastLocs(l: seq<Node>)
    requires |l| > 0
    ensures forall p :: p in Locs(l) && p != l[|l| - 1].loc ==> p in Locs(l[..|l| - 1])
  {
    var k := |l| - 1;
    forall p | p in Locs(l) && p != l[k].loc
      ensures p in Locs(l[..k])
    {
      var j :| 0 <= j < |l| && Locs(l)[j] == p;
      assert Locs(l[..k])[j] == p;
    }
  }
}
