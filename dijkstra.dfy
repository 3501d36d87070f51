/** The flood fill of dijkstra.h / dijkstra.cpp: from a source tile, every
    reachable walkable tile gets a node holding its distance in orthogonal
    steps, the tile it was reached from, and its occupant. */
module Dijkstra {
  import opened Wrappers
  import opened GeoMath
  import opened Grids

  datatype DijkstraNode = DijkstraNode(prev: IVec2, dist: nat, entity: nat)
  datatype QueNode = QueNode(pos: IVec2, prev: IVec2, dist: nat)

  type Nodes = map<IVec2, DijkstraNode>

  predicate Walkable(tiles: map<IVec2, Tile>, p: IVec2) {
    p in tiles && tiles[p].walkable
  }

  predicate Adjacent(p: IVec2, q: IVec2) {
    ManhDist(p, q) == 1
  }

  /** At p: only the source has distance 0, and any other node was reached
      from an adjacent node one step closer. */
  ghost predicate LinkedAt(nodes: Nodes, source: IVec2, p: IVec2) {
    p in nodes ==>
      && (nodes[p].dist == 0 ==> p == source)
      && (nodes[p].dist > 0 ==>
            nodes[p].prev in nodes && Adjacent(nodes[p].prev, p) && nodes[nodes[p].prev].dist == nodes[p].dist - 1)
  }

  ghost predicate Linked(nodes: Nodes, source: IVec2) {
    forall p :: LinkedAt(nodes, source, p)
  }

  /** For a node p and a tile q next to it: a walkable q is a node at most
      one step further. */
  ghost predicate Settled(nodes: Nodes, tiles: map<IVec2, Tile>, p: IVec2, q: IVec2) {
    p in nodes && Walkable(tiles, q) ==> q in nodes && nodes[q].dist <= nodes[p].dist + 1
  }

  ghost predicate Closed(nodes: Nodes, tiles: map<IVec2, Tile>) {
    forall p, q :: Adjacent(p, q) ==> Settled(nodes, tiles, p, q)
  }

  ghost predicate OnlyWalkable(nodes: Nodes, tiles: map<IVec2, Tile>) {
    forall p :: p in nodes ==> Walkable(tiles, p)
  }

  /** What generate leaves behind. */
  ghost predicate Generated(nodes: Nodes, source: IVec2, tiles: map<IVec2, Tile>) {
    && Linked(nodes, source)
    && Closed(nodes, tiles)
    && OnlyWalkable(nodes, tiles)
    && (Walkable(tiles, source) ==> source in nodes && nodes[source].dist == 0)
  }

  /** A walk from the source over walkable tiles, one orthogonal step at a
      time. */
  ghost predicate Walk(w: seq<IVec2>, source: IVec2, tiles: map<IVec2, Tile>) {
    && |w| >= 1 && w[0] == source
    && (forall i :: 0 <= i < |w| ==> Walkable(tiles, w[i]))
    && (forall i :: 0 < i < |w| ==> Adjacent(w[i - 1], w[i]))
  }

  /** The prev links from pos back to the source, source first: the path
      ipath_to builds. */
  ghost function ChainFrom(nodes: Nodes, source: IVec2, pos: IVec2): (c: seq<IVec2>)
    requires Linked(nodes, source) && pos in nodes
    ensures |c| == nodes[pos].dist + 1 && c[|c| - 1] == pos
    decreases nodes[pos].dist
  {
    assert LinkedAt(nodes, source, pos);
    if nodes[pos].dist == 0 then [pos]
    else ChainFrom(nodes, source, nodes[pos].prev) + [pos]
  }

  /** Element k of the chain is a node at distance k, reached from element
      k - 1; element 0 is the source. */
  lemma {:induction false} ChainAt(nodes: Nodes, source: IVec2, pos: IVec2, k: nat)
    requires Linked(nodes, source) && pos in nodes && k <= nodes[pos].dist
    ensures var c := ChainFrom(nodes, source, pos);
      && c[k] in nodes && nodes[c[k]].dist == k
      && (k == 0 ==> c[k] == source)
      && (k > 0 ==> c[k - 1] == nodes[c[k]].prev && Adjacent(c[k - 1], c[k]))
    decreases nodes[pos].dist
  {
    var c := ChainFrom(nodes, source, pos);
    assert LinkedAt(nodes, source, pos);
    if k < nodes[pos].dist {
      var prev := nodes[pos].prev;
      var c' := ChainFrom(nodes, source, prev);
      assert c == c' + [pos];
      assert c[k] == c'[k];
      if k > 0 {
        assert c[k - 1] == c'[k - 1];
      }
      ChainAt(nodes, source, prev, k);
    } else if k > 0 {
      var c' := ChainFrom(nodes, source, nodes[pos].prev);
      assert c[k - 1] == c'[|c'| - 1];
    }
  }

  /** One step back along the chain follows a prev link. */
  lemma ChainBack(nodes: Nodes, source: IVec2, pos: IVec2, k: nat)
    requires Linked(nodes, source) && pos in nodes && 0 < k <= nodes[pos].dist
    ensures var c := ChainFrom(nodes, source, pos);
      && c[k] in nodes && c[k - 1] == nodes[c[k]].prev
      && c[k - 1] in nodes && nodes[c[k - 1]].dist == k - 1
  {
    ChainAt(nodes, source, pos, k);
    ChainAt(nodes, source, pos, k - 1);
  }

  /** Every walk from the source reaches a node no further than the walk's
      length. */
  lemma {:induction false} WalkBoundsDist(nodes: Nodes, source: IVec2, tiles: map<IVec2, Tile>, w: seq<IVec2>)
    requires Generated(nodes, source, tiles) && Walk(w, source, tiles)
    ensures w[|w| - 1] in nodes && nodes[w[|w| - 1]].dist <= |w| - 1
  {
    if |w| > 1 {
      var w' := w[..|w| - 1];
      assert Walk(w', source, tiles) by {
        assert forall i :: 0 <= i < |w'| ==> w'[i] == w[i];
      }
      WalkBoundsDist(nodes, source, tiles, w');
      var p, q := w'[|w'| - 1], w[|w| - 1];
      assert Adjacent(p, q) && Walkable(tiles, q);
      assert Settled(nodes, tiles, p, q);
    }
  }

  /** A node's distance is that of the shortest walk to it: the chain of
      prev links is a walk of that length and no walk is shorter. */
  lemma ShortestWalk(nodes: Nodes, source: IVec2, tiles: map<IVec2, Tile>, pos: IVec2, w: seq<IVec2>)
    requires Generated(nodes, source, tiles) && pos in nodes
    ensures Walk(ChainFrom(nodes, source, pos), source, tiles)
    ensures Walk(w, source, tiles) && w[|w| - 1] == pos ==> |w| >= nodes[pos].dist + 1
  {
    var c := ChainFrom(nodes, source, pos);
    forall k | 0 <= k < |c| ensures Walkable(tiles, c[k]) && (k > 0 ==> Adjacent(c[k - 1], c[k])) {
      ChainAt(nodes, source, pos, k);
    }
    ChainAt(nodes, source, pos, 0);
    if Walk(w, source, tiles) && w[|w| - 1] == pos {
      WalkBoundsDist(nodes, source, tiles, w);
    }
  }

  /** Any node leads back to the source, so a non-empty map holds it. */
  lemma SourceInNonEmpty(nodes: Nodes, source: IVec2)
    requires Linked(nodes, source)
    ensures nodes != map[] ==> source in nodes && nodes[source].dist == 0
  {
    if p :| p in nodes {
      ChainAt(nodes, source, p, 0);
    }
  }

  /** Without a walkable source nothing is reached. */
  lemma NoSourceNoNodes(nodes: Nodes, source: IVec2, tiles: map<IVec2, Tile>)
    requires Linked(nodes, source) && OnlyWalkable(nodes, tiles) && !Walkable(tiles, source)
    ensures nodes == map[]
  {
    SourceInNonEmpty(nodes, source);
  }

  // ---------------------------------------------------------------------
  // generate

  /** A queued entry: the source at distance 0, or a neighbour of a node one
      step further than it. */
  ghost predicate EntryOk(e: QueNode, nodes: Nodes, source: IVec2) {
    && (e.dist == 0 ==> e.pos == source)
    && (e.dist > 0 ==> e.prev in nodes && Adjacent(e.prev, e.pos) && nodes[e.prev].dist == e.dist - 1)
  }

  /** The four entries node p pushed, as kept in the ghost history. */
  ghost predicate PushedFor(all: seq<QueNode>, pushedAt: map<IVec2, nat>, nodes: Nodes, p: IVec2) {
    p in nodes ==>
      p in pushedAt && pushedAt[p] + 4 <= |all| &&
      all[pushedAt[p]] == QueNode(Neighbours(p)[0], p, nodes[p].dist + 1) &&
      all[pushedAt[p] + 1] == QueNode(Neighbours(p)[1], p, nodes[p].dist + 1) &&
      all[pushedAt[p] + 2] == QueNode(Neighbours(p)[2], p, nodes[p].dist + 1) &&
      all[pushedAt[p] + 3] == QueNode(Neighbours(p)[3], p, nodes[p].dist + 1)
  }

  ghost predicate PushedOk(all: seq<QueNode>, pushedAt: map<IVec2, nat>, nodes: Nodes) {
    forall p :: PushedFor(all, pushedAt, nodes, p)
  }

  /** Closure so far at node p: a neighbour entry already taken off the
      queue left its tile settled. */
  ghost predicate ClosedFor(nodes: Nodes, tiles: map<IVec2, Tile>, pushedAt: map<IVec2, nat>, popped: nat, p: IVec2) {
    p in nodes && p in pushedAt ==>
      && (pushedAt[p] < popped ==> Settled(nodes, tiles, p, Neighbours(p)[0]))
      && (pushedAt[p] + 1 < popped ==> Settled(nodes, tiles, p, Neighbours(p)[1]))
      && (pushedAt[p] + 2 < popped ==> Settled(nodes, tiles, p, Neighbours(p)[2]))
      && (pushedAt[p] + 3 < popped ==> Settled(nodes, tiles, p, Neighbours(p)[3]))
  }

  ghost predicate ClosedUpTo(nodes: Nodes, tiles: map<IVec2, Tile>, pushedAt: map<IVec2, nat>, popped: nat) {
    forall p :: ClosedFor(nodes, tiles, pushedAt, popped, p)
  }

  /** The queue (the history from `popped` on) holds distance level up to
      index mid and level + 1 from there, and every node is at most at
      level. */
  ghost predicate Layered(all: seq<QueNode>, popped: nat, mid: nat, nodes: Nodes, level: nat) {
    && mid <= |all|
    && (forall j :: popped <= j < |all| ==> all[j].dist == if j < mid then level else level + 1)
    && (forall p :: p in nodes ==> nodes[p].dist <= level)
  }

  /** Where level + 1 starts once the entry at `popped` is taken off. */
  function NextMid(all: seq<QueNode>, popped: nat, mid: nat, level: nat): nat
    requires popped < |all|
  {
    if all[popped].dist == level then mid else |all|
  }

  lemma ClosedAtEnd(nodes: Nodes, tiles: map<IVec2, Tile>, all: seq<QueNode>, pushedAt: map<IVec2, nat>)
    requires PushedOk(all, pushedAt, nodes) && ClosedUpTo(nodes, tiles, pushedAt, |all|)
    ensures Closed(nodes, tiles)
  {
    forall p, q | Adjacent(p, q) ensures Settled(nodes, tiles, p, q) {
      if p in nodes {
        assert PushedFor(all, pushedAt, nodes, p);
        assert ClosedFor(nodes, tiles, pushedAt, |all|, p);
        NeighboursExact(p);
        assert q in Neighbours(p);
      }
    }
  }

  class DijkstraGrid {
    var nodes: Nodes
    var source: IVec2

    constructor ()
      ensures nodes == map[]
    {
      nodes := map[];
    }

    /** source(): on linked nodes, the one node at distance 0. */
    function Source(): (r: IVec2)
      reads this
      ensures Linked(nodes, source) ==> forall p :: p in nodes && nodes[p].dist == 0 ==> p == r
    {
      assert Linked(nodes, source) ==> forall p :: p in nodes && nodes[p].dist == 0 ==> p == source by {
        if Linked(nodes, source) {
          forall p | p in nodes && nodes[p].dist == 0
            ensures p == source
          {
            assert LinkedAt(nodes, source, p);
          }
        }
      }
      source
    }

    /** at(pos): the node; a missing position throws, so callers must
        ask for present ones. */
    function At(pos: IVec2): (n: DijkstraNode)
      reads this
      requires pos in nodes
      ensures Linked(nodes, source) && n.dist == 0 ==> pos == source
      ensures Linked(nodes, source) && n.dist > 0 ==>
        n.prev in nodes && Adjacent(n.prev, pos) && nodes[n.prev].dist == n.dist - 1
    {
      assert Linked(nodes, source) ==> LinkedAt(nodes, source, pos);
      nodes[pos]
    }

    function Contains(p: IVec2): (b: bool)
      reads this
      ensures b <==> p in nodes
    {
      p in nodes
    }

    /** generate(source): a FIFO flood fill from the source. A tile is
        given a node the first time it is taken off the queue, if it exists,
        is walkable and has none yet; occupied tiles are expanded like any
        other. `occupant` stands for actor_at. */
    method Generate(grid: Grid, source: IVec2, occupant: IVec2 -> nat)
      modifies this
      ensures this.source == source
      ensures Generated(nodes, source, grid.data)
      ensures Walkable(grid.data, source) ==> nodes[source] == DijkstraNode(IVec2(0, 0), 0, occupant(source))
      ensures !Walkable(grid.data, source) ==> nodes == map[]
      ensures forall p :: p in nodes ==> nodes[p].entity == occupant(p)
    {
      var found: Nodes := map[];
      var q := [QueNode(source, IVec2(0, 0), 0)];
      ghost var all := q;
      ghost var popped := 0;
      ghost var pushedAt: map<IVec2, nat> := map[];
      ghost var level := 0;
      ghost var mid := 1;
      GenStart(grid.data, source, occupant);
      while |q| > 0
        invariant GenInv(grid.data, source, occupant, found, q, all, popped, pushedAt, mid, level)
        invariant |found| <= |grid.data|
        decreases |grid.data| - |found|, |q|
      {
        found, q, all, popped, pushedAt, mid, level :=
          GenStep(grid, source, occupant, found, q, all, popped, pushedAt, mid, level);
      }
      GenEnd(grid.data, source, occupant, found, all, popped, pushedAt, mid, level);
      this.source := source;
      nodes := found;
    }
  }

  /** Each node added uses up one of the finitely many tiles, which
      bounds the number of iterations. */
  lemma FewerLeft(tiles: map<IVec2, Tile>, found: Nodes, x: IVec2, node: DijkstraNode)
    requires OnlyWalkable(found, tiles) && Walkable(tiles, x) && x !in found
    ensures |found[x := node]| == |found| + 1 <= |tiles|
  {
    var keys := found[x := node].Keys;
    assert keys <= tiles.Keys;
    SubsetSize(keys, tiles.Keys);
  }

  lemma SubsetSize<T>(a: set<T>, b: set<T>)
    requires a <= b
    ensures |a| <= |b|
  {
    if a != {} {
      var x :| x in a;
      SubsetSize(a - {x}, b - {x});
    }
  }

  /** One turn of generate's loop: the front entry is taken off; a tile
      that exists, is walkable and has no node yet gets one, and its four
      neighbours are queued one step further. */
  method GenStep(grid: Grid, source: IVec2, occupant: IVec2 -> nat, found: Nodes, q: seq<QueNode>,
                 ghost all: seq<QueNode>, ghost popped: nat, ghost pushedAt: map<IVec2, nat>, ghost mid: nat, ghost level: nat)
    returns (found': Nodes, q': seq<QueNode>, ghost all': seq<QueNode>, ghost popped': nat,
             ghost pushedAt': map<IVec2, nat>, ghost mid': nat, ghost level': nat)
    requires q != [] && GenInv(grid.data, source, occupant, found, q, all, popped, pushedAt, mid, level)
    requires |found| <= |grid.data|
    ensures GenInv(grid.data, source, occupant, found', q', all', popped', pushedAt', mid', level')
    ensures (found' == found && |q'| < |q|) || |found| < |found'| <= |grid.data|
  {
    var e := q[0];
    var (tile, exists_) := grid.Get(e.pos);
    if !exists_ || !tile.walkable || e.pos in found {
      GenDiscard(grid.data, source, occupant, found, q, all, popped, pushedAt, mid, level);
      return found, q[1..], all, popped + 1, pushedAt, NextMid(all, popped, mid, level), e.dist;
    }
    var adj := AdjacentPositions(e.pos);
    var pushed := [QueNode(adj[0], e.pos, e.dist + 1), QueNode(adj[1], e.pos, e.dist + 1),
                   QueNode(adj[2], e.pos, e.dist + 1), QueNode(adj[3], e.pos, e.dist + 1)];
    var node := DijkstraNode(e.prev, e.dist, occupant(e.pos));
    GenInsert(grid.data, source, occupant, found, q, all, popped, pushedAt, mid, level, pushed);
    FewerLeft(grid.data, found, e.pos, node);
    found' := found[e.pos := node];
    q' := q[1..] + pushed;
    all' := all + pushed;
    popped' := popped + 1;
    pushedAt' := pushedAt[e.pos := |all|];
    mid' := NextMid(all, popped, mid, level);
    level' := e.dist;
  }

  /** The loop invariant of generate, over the ghost history `all` of every
      entry ever queued, of which the first `popped` have been taken off. */
  ghost predicate GenInv(tiles: map<IVec2, Tile>, source: IVec2, occupant: IVec2 -> nat, found: Nodes,
                         q: seq<QueNode>, all: seq<QueNode>, popped: nat, pushedAt: map<IVec2, nat>, mid: nat, level: nat) {
    && QueueInv(source, found, q, all, popped)
    && NodesInv(tiles, source, occupant, found, all, popped)
    && HistoryInv(tiles, found, all, popped, pushedAt, mid, level)
  }

  /** The queue is the unpopped part of the history, and each entry in it
      is sound. */
  ghost predicate QueueInv(source: IVec2, found: Nodes, q: seq<QueNode>, all: seq<QueNode>, popped: nat) {
    && popped <= |all| && q == all[popped..]
    && (forall j :: popped <= j < |all| ==> EntryOk(all[j], found, source))
  }

  /** The nodes so far: walkable, with their occupants, linked back to the
      source; until the source has its node there are none. */
  ghost predicate NodesInv(tiles: map<IVec2, Tile>, source: IVec2, occupant: IVec2 -> nat, found: Nodes,
                           all: seq<QueNode>, popped: nat) {
    && OnlyWalkable(found, tiles)
    && (forall p :: p in found ==> found[p].entity == occupant(p))
    && Linked(found, source)
    && (source in found ==> found[source] == DijkstraNode(IVec2(0, 0), 0, occupant(source)))
    && (found == map[] ==> all == [QueNode(source, IVec2(0, 0), 0)])
    && (source !in found ==> found == map[] && (popped == 0 || !Walkable(tiles, source)))
  }

  /** The distances in the history and the closure reached so far. */
  ghost predicate HistoryInv(tiles: map<IVec2, Tile>, found: Nodes, all: seq<QueNode>, popped: nat,
                             pushedAt: map<IVec2, nat>, mid: nat, level: nat) {
    && Layered(all, popped, mid, found, level)
    && PushedOk(all, pushedAt, found)
    && ClosedUpTo(found, tiles, pushedAt, popped)
  }

  lemma GenStart(tiles: map<IVec2, Tile>, source: IVec2, occupant: IVec2 -> nat)
    ensures var q := [QueNode(source, IVec2(0, 0), 0)];
      GenInv(tiles, source, occupant, map[], q, q, 0, map[], 1, 0)
  {
    var q := [QueNode(source, IVec2(0, 0), 0)];
    assert q[0..] == q;
    forall p ensures LinkedAt(map[], source, p) && PushedFor(q, map[], map[], p) && ClosedFor(map[], tiles, map[], 0, p) {
    }
  }

  /** Taking the front entry off without adding a node. */
  lemma GenDiscard(tiles: map<IVec2, Tile>, source: IVec2, occupant: IVec2 -> nat, found: Nodes,
                   q: seq<QueNode>, all: seq<QueNode>, popped: nat, pushedAt: map<IVec2, nat>, mid: nat, level: nat)
    requires GenInv(tiles, source, occupant, found, q, all, popped, pushedAt, mid, level)
    requires q != [] && (!Walkable(tiles, q[0].pos) || q[0].pos in found)
    ensures GenInv(tiles, source, occupant, found, q[1..], all, popped + 1, pushedAt, NextMid(all, popped, mid, level), q[0].dist)
  {
    assert q[0] == all[popped];
    assert q[1..] == all[popped + 1..];
    Discard(found, tiles, all, pushedAt, popped, mid, level, q[0]);
  }

  /** Taking the front entry off, giving it a node and queueing its four
      neighbours. */
  lemma GenInsert(tiles: map<IVec2, Tile>, source: IVec2, occupant: IVec2 -> nat, found: Nodes,
                  q: seq<QueNode>, all: seq<QueNode>, popped: nat, pushedAt: map<IVec2, nat>, mid: nat, level: nat,
                  pushed: seq<QueNode>)
    requires GenInv(tiles, source, occupant, found, q, all, popped, pushedAt, mid, level)
    requires q != [] && Walkable(tiles, q[0].pos) && q[0].pos !in found
    requires var e := q[0]; var n := Neighbours(e.pos);
      pushed == [QueNode(n[0], e.pos, e.dist + 1), QueNode(n[1], e.pos, e.dist + 1),
                 QueNode(n[2], e.pos, e.dist + 1), QueNode(n[3], e.pos, e.dist + 1)]
    ensures var e := q[0];
      GenInv(tiles, source, occupant, found[e.pos := DijkstraNode(e.prev, e.dist, occupant(e.pos))],
             q[1..] + pushed, all + pushed, popped + 1, pushedAt[e.pos := |all|], NextMid(all, popped, mid, level), e.dist)
  {
    var e := q[0];
    var node := DijkstraNode(e.prev, e.dist, occupant(e.pos));
    assert e == all[popped];
    assert q[1..] + pushed == (all + pushed)[popped + 1..];
    InsertLinked(found, source, all, popped, e, node, pushed);
    InsertLayered(found, all, popped, mid, level, e, node, pushed);
    InsertPushed(found, all, pushedAt, e, node, pushed);
    InsertClosed(found, tiles, all, pushedAt, popped, e, node);
  }

  /** With the queue empty, the invariant gives what generate promises. */
  lemma GenEnd(tiles: map<IVec2, Tile>, source: IVec2, occupant: IVec2 -> nat, found: Nodes,
               all: seq<QueNode>, popped: nat, pushedAt: map<IVec2, nat>, mid: nat, level: nat)
    requires GenInv(tiles, source, occupant, found, [], all, popped, pushedAt, mid, level)
    ensures Generated(found, source, tiles)
    ensures Walkable(tiles, source) ==> found[source] == DijkstraNode(IVec2(0, 0), 0, occupant(source))
    ensures !Walkable(tiles, source) ==> found == map[]
    ensures forall p :: p in found ==> found[p].entity == occupant(p)
  {
    assert popped == |all|;
    ClosedAtEnd(found, tiles, all, pushedAt);
    if !Walkable(tiles, source) {
      NoSourceNoNodes(found, source, tiles);
    }
  }

  /** Taking an entry off without adding a node keeps the invariants. */
  lemma Discard(found: Nodes, tiles: map<IVec2, Tile>, all: seq<QueNode>, pushedAt: map<IVec2, nat>,
                popped: nat, mid: nat, level: nat, e: QueNode)
    requires popped < |all| && e == all[popped]
    requires !Walkable(tiles, e.pos) || e.pos in found
    requires Layered(all, popped, mid, found, level)
    requires PushedOk(all, pushedAt, found)
    requires ClosedUpTo(found, tiles, pushedAt, popped)
    ensures Layered(all, popped + 1, NextMid(all, popped, mid, level), found, e.dist)
    ensures ClosedUpTo(found, tiles, pushedAt, popped + 1)
  {
    var next := popped + 1;
    forall p ensures ClosedFor(found, tiles, pushedAt, next, p) {
      assert PushedFor(all, pushedAt, found, p);
      assert ClosedFor(found, tiles, pushedAt, popped, p);
    }
  }

  /** The new node and the entries it pushes keep every link sound. */
  lemma InsertLinked(found: Nodes, source: IVec2, all: seq<QueNode>, popped: nat,
                     e: QueNode, node: DijkstraNode, pushed: seq<QueNode>)
    requires popped < |all| && e == all[popped] && e.pos !in found
    requires node.prev == e.prev && node.dist == e.dist
    requires pushed == [QueNode(Neighbours(e.pos)[0], e.pos, e.dist + 1), QueNode(Neighbours(e.pos)[1], e.pos, e.dist + 1),
                        QueNode(Neighbours(e.pos)[2], e.pos, e.dist + 1), QueNode(Neighbours(e.pos)[3], e.pos, e.dist + 1)]
    requires Linked(found, source)
    requires forall j :: popped <= j < |all| ==> EntryOk(all[j], found, source)
    ensures Linked(found[e.pos := node], source)
    ensures forall j :: popped + 1 <= j < |all + pushed| ==> EntryOk((all + pushed)[j], found[e.pos := node], source)
  {
    var found' := found[e.pos := node];
    assert EntryOk(e, found, source);
    forall p ensures LinkedAt(found', source, p) {
      assert LinkedAt(found, source, p);
    }
  }

  lemma InsertLayered(found: Nodes, all: seq<QueNode>, popped: nat, mid: nat, level: nat,
                      e: QueNode, node: DijkstraNode, pushed: seq<QueNode>)
    requires popped < |all| && e == all[popped]
    requires node.dist == e.dist
    requires |pushed| == 4 && forall j :: 0 <= j < 4 ==> pushed[j].dist == e.dist + 1
    requires Layered(all, popped, mid, found, level)
    ensures Layered(all + pushed, popped + 1, NextMid(all, popped, mid, level), found[e.pos := node], e.dist)
  {
  }

  lemma InsertPushed(found: Nodes, all: seq<QueNode>, pushedAt: map<IVec2, nat>,
                     e: QueNode, node: DijkstraNode, pushed: seq<QueNode>)
    requires e.pos !in found && node.dist == e.dist
    requires pushed == [QueNode(Neighbours(e.pos)[0], e.pos, e.dist + 1), QueNode(Neighbours(e.pos)[1], e.pos, e.dist + 1),
                        QueNode(Neighbours(e.pos)[2], e.pos, e.dist + 1), QueNode(Neighbours(e.pos)[3], e.pos, e.dist + 1)]
    requires PushedOk(all, pushedAt, found)
    ensures PushedOk(all + pushed, pushedAt[e.pos := |all|], found[e.pos := node])
  {
    var found', all', pushedAt' := found[e.pos := node], all + pushed, pushedAt[e.pos := |all|];
    forall p ensures PushedFor(all', pushedAt', found', p) {
      if p != e.pos {
        assert PushedFor(all, pushedAt, found, p);
      }
    }
  }

  lemma InsertClosed(found: Nodes, tiles: map<IVec2, Tile>, all: seq<QueNode>, pushedAt: map<IVec2, nat>,
                     popped: nat, e: QueNode, node: DijkstraNode)
    requires popped < |all| && e == all[popped] && e.pos !in found
    requires node.dist == e.dist
    requires PushedOk(all, pushedAt, found)
    requires ClosedUpTo(found, tiles, pushedAt, popped)
    ensures ClosedUpTo(found[e.pos := node], tiles, pushedAt[e.pos := |all|], popped + 1)
  {
    var found', pushedAt' := found[e.pos := node], pushedAt[e.pos := |all|];
    var next := popped + 1;
    forall p ensures ClosedFor(found', tiles, pushedAt', next, p) {
      if p != e.pos {
        assert PushedFor(all, pushedAt, found, p);
        assert ClosedFor(found, tiles, pushedAt, popped, p);
      }
    }
  }

  // ---------------------------------------------------------------------
  // Following prev links

  /** ipath_to(pos): fills a vector of dist + 1 positions from the back,
      following prev links; it is the chain from the source to pos. */
  method IPathTo(nodes: Nodes, ghost source: IVec2, pos: IVec2) returns (path: seq<IVec2>)
    requires Linked(nodes, source) && pos in nodes
    ensures path == ChainFrom(nodes, source, pos)
  {
    ghost var chain := ChainFrom(nodes, source, pos);
    var node := nodes[pos];
    var buffer := new IVec2[node.dist + 1](_ => IVec2(0, 0));
    buffer[node.dist] := pos;
    var p := pos;
    while node.dist > 0
      invariant p in nodes && node == nodes[p] && node.dist < buffer.Length == |chain|
      invariant p == chain[node.dist]
      invariant forall k :: node.dist <= k < buffer.Length ==> buffer[k] == chain[k]
      decreases node.dist
    {
      ChainBack(nodes, source, pos, node.dist);
      p := node.prev;
      node := nodes[p];
      buffer[node.dist] := p;
    }
    path := buffer[..];
  }

  /** rewind(pos, n) as written: the loop tests n but never decrements it,
      so any n > 0 walks all the way back to the source. */
  method Rewind(nodes: Nodes, ghost source: IVec2, pos: IVec2, n: nat) returns (r: IVec2)
    requires Linked(nodes, source) && pos in nodes
    ensures n == 0 ==> r == pos
    ensures n > 0 ==> r == source
  {
    ghost var chain := ChainFrom(nodes, source, pos);
    r := pos;
    var node := nodes[pos];
    while n != 0 && node.dist > 0
      invariant r in nodes && node == nodes[r] && node.dist < |chain|
      invariant r == chain[node.dist]
      invariant n == 0 ==> r == pos
      decreases node.dist
    {
      ChainBack(nodes, source, pos, node.dist);
      r := node.prev;
      node := nodes[r];
    }
    ChainAt(nodes, source, pos, node.dist);
  }

  /** rewind as its documentation describes it: n steps back along the
      chain, or the source when n is at least the distance. */
  method RewindBy(nodes: Nodes, ghost source: IVec2, pos: IVec2, n: nat) returns (r: IVec2)
    requires Linked(nodes, source) && pos in nodes
    ensures var d := nodes[pos].dist;
      r == ChainFrom(nodes, source, pos)[if n <= d then d - n else 0]
    ensures n >= nodes[pos].dist ==> r == source
  {
    ghost var chain := ChainFrom(nodes, source, pos);
    r := pos;
    var node := nodes[pos];
    var left := n;
    while left != 0 && node.dist > 0
      invariant r in nodes && node == nodes[r] && node.dist < |chain|
      invariant r == chain[node.dist]
      invariant 0 <= left <= n && node.dist + (n - left) == nodes[pos].dist
      decreases node.dist
    {
      ChainBack(nodes, source, pos, node.dist);
      r := node.prev;
      node := nodes[r];
      left := left - 1;
    }
    ChainAt(nodes, source, pos, node.dist);
  }

  /** Rewinding n steps with 0 < n < dist should stop short of the source,
      which rewind as written never does. */
  lemma RewindOvershoots(nodes: Nodes, source: IVec2, pos: IVec2, n: nat)
    requires Linked(nodes, source) && pos in nodes && 0 < n < nodes[pos].dist
    ensures ChainFrom(nodes, source, pos)[nodes[pos].dist - n] != source
  {
    var d := nodes[pos].dist;
    ChainAt(nodes, source, pos, d - n);
    ChainAt(nodes, source, pos, 0);
  }

  /** A straight corridor from (0, 0): rewinding (2, 0) by one step should
      give (1, 0). */
  lemma RewindOvershootsExample()
    ensures var nodes := map[IVec2(0, 0) := DijkstraNode(IVec2(0, 0), 0, 0),
                             IVec2(1, 0) := DijkstraNode(IVec2(0, 0), 1, 0),
                             IVec2(2, 0) := DijkstraNode(IVec2(1, 0), 2, 0)];
      && Linked(nodes, IVec2(0, 0))
      && ChainFrom(nodes, IVec2(0, 0), IVec2(2, 0))[1] == IVec2(1, 0)
  {
    var nodes := map[IVec2(0, 0) := DijkstraNode(IVec2(0, 0), 0, 0),
                     IVec2(1, 0) := DijkstraNode(IVec2(0, 0), 1, 0),
                     IVec2(2, 0) := DijkstraNode(IVec2(1, 0), 2, 0)];
    assert forall p :: p in nodes <==> p == IVec2(0, 0) || p == IVec2(1, 0) || p == IVec2(2, 0);
    assert Linked(nodes, IVec2(0, 0));
    ChainAt(nodes, IVec2(0, 0), IVec2(2, 0), 2);
  }

  /** rewind_until(pos, n): the first position on the way back whose
      distance is at most n. */
  method RewindUntilDist(nodes: Nodes, ghost source: IVec2, pos: IVec2, n: nat) returns (r: IVec2)
    requires Linked(nodes, source) && pos in nodes
    ensures var d := nodes[pos].dist;
      r == ChainFrom(nodes, source, pos)[if d <= n then d else n]
    ensures r in nodes && nodes[r].dist <= n
  {
    ghost var chain := ChainFrom(nodes, source, pos);
    r := pos;
    var node := nodes[pos];
    while node.dist > n
      invariant r in nodes && node == nodes[r] && node.dist < |chain|
      invariant r == chain[node.dist]
      invariant node.dist == nodes[pos].dist || node.dist >= n
      decreases node.dist
    {
      ChainBack(nodes, source, pos, node.dist);
      r := node.prev;
      node := nodes[r];
    }
  }

  /** rewind_until(pos, pred): walks back from pos and stops at the first
      position where pred holds or the distance is 0. The distance of the
      position returned is its place on the chain back to the source. */
  method RewindUntil(nodes: Nodes, ghost source: IVec2, pos: IVec2, pred: (IVec2, DijkstraNode) -> bool)
    returns (r: IVec2)
    requires Linked(nodes, source) && pos in nodes
    ensures r in nodes && nodes[r].dist <= nodes[pos].dist
    ensures r == ChainFrom(nodes, source, pos)[nodes[r].dist]
    ensures nodes[r].dist == 0 ==> r == source
    ensures nodes[r].dist == 0 || pred(r, nodes[r])
    ensures var c := ChainFrom(nodes, source, pos);
      forall j :: nodes[r].dist < j <= nodes[pos].dist ==> c[j] in nodes && !pred(c[j], nodes[c[j]])
  {
    ghost var chain := ChainFrom(nodes, source, pos);
    r := pos;
    var node := nodes[pos];
    while node.dist > 0 && !pred(r, node)
      invariant r in nodes && node == nodes[r] && node.dist < |chain|
      invariant r == chain[node.dist]
      invariant forall j :: node.dist < j <= nodes[pos].dist ==> chain[j] in nodes && !pred(chain[j], nodes[chain[j]])
      decreases node.dist
    {
      ChainBack(nodes, source, pos, node.dist);
      r := node.prev;
      node := nodes[r];
    }
    ChainAt(nodes, source, pos, node.dist);
  }

  // ---------------------------------------------------------------------
  // nearest_enemy_location

  /** One entry of the GridPos/Agent join, in ascending id order. */
  datatype AgentEntry = AgentEntry(id: nat, pos: IVec2, team: nat)

  predicate Candidate(a: AgentEntry, myId: nat, myTeam: nat, source: IVec2) {
    a.id != myId && a.team != myTeam && a.pos != source
  }

  /** The answer, or the position whose at() lookup would throw. */
  datatype Nearest = NoEnemy | Found(node: DijkstraNode, pos: IVec2) | Missing(pos: IVec2)

  /** nearest_enemy_location: the first candidate of least distance.
      `which` is the index of the entry found or missing. */
  method NearestEnemyLocation(nodes: Nodes, source: IVec2, agents: seq<AgentEntry>, myId: nat, myTeam: nat)
    returns (r: Nearest, ghost which: nat)
    ensures r.Missing? ==>
      && which < |agents| && Candidate(agents[which], myId, myTeam, source)
      && r.pos == agents[which].pos && r.pos !in nodes
      && (forall j :: 0 <= j < which && Candidate(agents[j], myId, myTeam, source) ==> agents[j].pos in nodes)
    ensures !r.Missing? ==> forall j :: 0 <= j < |agents| && Candidate(agents[j], myId, myTeam, source) ==> agents[j].pos in nodes
    ensures r.NoEnemy? <==> forall j :: 0 <= j < |agents| ==> !Candidate(agents[j], myId, myTeam, source)
    ensures r.Found? ==>
      && which < |agents| && Candidate(agents[which], myId, myTeam, source)
      && r.pos == agents[which].pos && r.pos in nodes && r.node == nodes[r.pos]
      && (forall j :: 0 <= j < |agents| && Candidate(agents[j], myId, myTeam, source) ==> r.node.dist <= nodes[agents[j].pos].dist)
      && (forall j :: 0 <= j < which && Candidate(agents[j], myId, myTeam, source) ==> r.node.dist < nodes[agents[j].pos].dist)
  {
    r := NoEnemy;
    which := 0;
    for i := 0 to |agents|
      invariant r.NoEnemy? || r.Found?
      invariant forall j :: 0 <= j < i && Candidate(agents[j], myId, myTeam, source) ==> agents[j].pos in nodes
      invariant r.NoEnemy? <==> forall j :: 0 <= j < i ==> !Candidate(agents[j], myId, myTeam, source)
      invariant r.Found? ==>
        && which < i && Candidate(agents[which], myId, myTeam, source)
        && r.pos == agents[which].pos && r.pos in nodes && r.node == nodes[r.pos]
        && (forall j :: 0 <= j < i && Candidate(agents[j], myId, myTeam, source) ==> r.node.dist <= nodes[agents[j].pos].dist)
        && (forall j :: 0 <= j < which && Candidate(agents[j], myId, myTeam, source) ==> r.node.dist < nodes[agents[j].pos].dist)
    {
      var a := agents[i];
      if a.id != myId && a.team != myTeam && a.pos != source {
        if a.pos !in nodes {
          return Missing(a.pos), i;
        }
        var node := nodes[a.pos];
        if r.NoEnemy? || node.dist < r.node.dist {
          r := Found(node, a.pos);
          which := i;
        }
      }
    }
  }
}
