/** Construction of the shortcut-bridging arena: a regular hexagon of object
    nodes walked out from the origin, then particles dropped at random on
    free nodes strictly inside it.

    The side length, which the original derives from the particle count with
    floating-point rounding, is a parameter here, and every random draw of the
    placement loop is an input. */
module Arena {
  import opened Lattice
  import opened Seqs

  /** A node of a solid object, with its two flags. */
  datatype Object = Object(node: Node, isTraversable: bool, anchor: bool)

  /** A particle placed at setup: contracted at `head`, with a compass
      orientation. */
  datatype Placed = Placed(head: Node, orientation: int)

  /** The random draws of one placement iteration: the two `randInt` results
      and the `randDir` used when a particle is placed. */
  datatype Draw = Draw(x: int, y: int, orientation: int)

  // ---------------------------------------------------------------------
  // The boundary walk

  /** The corner where side d of the hexagon starts; side 6 is the origin
      again. */
  function SideStart(s: int, d: int): Node
    requires 0 <= d <= 6
  {
    if d == 0 then Node(0, 0)
    else if d == 1 then Node(s, 0)
    else if d == 2 then Node(s, s)
    else if d == 3 then Node(0, 2 * s)
    else if d == 4 then Node(-s, 2 * s)
    else if d == 5 then Node(-s, s)
    else Node(0, 0)
  }

  /** The node i steps along side d, which runs in direction d. */
  function BoundaryAt(s: int, d: int, i: int): Node
    requires IsDir(d)
  {
    var c := SideStart(s, d);
    if d == 0 then Node(c.x + i, c.y)
    else if d == 1 then Node(c.x, c.y + i)
    else if d == 2 then Node(c.x - i, c.y + i)
    else if d == 3 then Node(c.x - i, c.y)
    else if d == 4 then Node(c.x, c.y - i)
    else Node(c.x + i, c.y - i)
  }

  /** One step in direction d moves one place along side d, and a side of
      length s ends at the start of the next one. */
  lemma StepAlongSide(s: int, d: int, i: int)
    requires IsDir(d)
    ensures NodeInDir(BoundaryAt(s, d, i), d) == BoundaryAt(s, d, i + 1)
    ensures BoundaryAt(s, d, 0) == SideStart(s, d)
    ensures BoundaryAt(s, d, s) == SideStart(s, d + 1)
  {
  }

  /** The nodes the inner loop visits on side d, in order. */
  function Side(s: nat, d: int): seq<Node>
    requires IsDir(d)
  {
    seq(s, i requires 0 <= i < s => BoundaryAt(s, d, i))
  }

  /** The nodes of the first n sides, in walk order. */
  function Sides(s: nat, n: nat): seq<Node>
    requires n <= 6
  {
    if n == 0 then [] else Sides(s, n - 1) + Side(s, n - 1)
  }

  lemma {:induction false} SidesLength(s: nat, n: nat)
    requires n <= 6
    ensures |Sides(s, n)| == n * s
  {
    if n > 0 {
      SidesLength(s, n - 1);
      assert n * s == (n - 1) * s + s;
    }
  }

  /** Every object node of the hexagon, in the order they are inserted: the
      walk inserts six sides of `sideLen` objects each. */
  function Boundary(s: nat): (r: seq<Node>)
    ensures |r| == 6 * s
  {
    SidesLength(s, 6);
    Sides(s, 6)
  }

  /** The line segment side d lies on, without its end corner. */
  predicate OnSide(s: int, d: int, p: Node) {
    if d == 0 then p.y == 0 && 0 <= p.x < s
    else if d == 1 then p.x == s && 0 <= p.y < s
    else if d == 2 then p.x + p.y == 2 * s && s <= p.y < 2 * s
    else if d == 3 then p.y == 2 * s && -s < p.x <= 0
    else if d == 4 then p.x == -s && s < p.y <= 2 * s
    else d == 5 && p.x + p.y == 0 && 0 < p.y <= s
  }

  /** A node strictly inside the hexagon of side s. */
  predicate Interior(s: int, p: Node) {
    -s < p.x < s && 0 < p.y < 2 * s && 0 < p.x + p.y < 2 * s
  }

  lemma SideIsOnSide(s: nat, d: int, i: int)
    requires IsDir(d) && 0 <= i < s
    ensures OnSide(s, d, BoundaryAt(s, d, i))
  {
  }

  /** For a hexagon of positive size, no node lies on two sides. */
  lemma SidesDisjoint(s: int, d: int, e: int, p: Node)
    requires s >= 1 && IsDir(d) && IsDir(e)
    requires OnSide(s, d, p) && OnSide(s, e, p)
    ensures d == e
  {
  }

  lemma OnSideNotInterior(s: int, d: int, p: Node)
    requires OnSide(s, d, p)
    ensures !Interior(s, p)
  {
  }

  /** Each node of the first n sides lies on the side that produced it. */
  lemma {:induction false} SidesOnSides(s: nat, n: nat, k: int) returns (d: int)
    requires n <= 6 && 0 <= k < |Sides(s, n)|
    ensures 0 <= d < n && OnSide(s, d, Sides(s, n)[k])
  {
    var prev := Sides(s, n - 1);
    if k < |prev| {
      d := SidesOnSides(s, n - 1, k);
    } else {
      d := n - 1;
      SideIsOnSide(s, d, k - |prev|);
    }
  }

  lemma {:induction false} SidesDistinct(s: nat, n: nat)
    requires n <= 6
    ensures Distinct(Sides(s, n))
  {
    if n > 0 {
      SidesDistinct(s, n - 1);
      var all := Sides(s, n);
      var prev := Sides(s, n - 1);
      forall j, k | 0 <= j < k < |all|
        ensures all[j] != all[k]
      {
        if k >= |prev| && j < |prev| {
          var e := SidesOnSides(s, n, k);
          var d := SidesOnSides(s, n, j);
          assert d < n - 1 by {
            assert all[j] == prev[j];
            var d' := SidesOnSides(s, n - 1, j);
            if s >= 1 { SidesDisjoint(s, d, d', all[j]); }
          }
          if s >= 1 && all[j] == all[k] {
            SidesDisjoint(s, d, e, all[j]);
          }
        }
      }
    }
  }

  /** The 6 * sideLen object nodes are pairwise distinct. */
  lemma BoundaryDistinct(s: nat)
    ensures Distinct(Boundary(s))
  {
    SidesDistinct(s, 6);
  }

  /** No object node passes the interior test. */
  lemma BoundaryNotInterior(s: nat)
    ensures forall k :: 0 <= k < |Boundary(s)| ==> !Interior(s, Boundary(s)[k])
  {
    forall k | 0 <= k < |Boundary(s)|
      ensures !Interior(s, Boundary(s)[k])
    {
      var d := SidesOnSides(s, 6, k);
      OnSideNotInterior(s, d, Boundary(s)[k]);
    }
  }

  /** Consecutive object nodes are adjacent, and the last is adjacent to the
      first: the boundary is a closed walk. */
  lemma BoundaryIsClosedWalk(s: nat)
    requires s >= 1
    ensures forall k :: 0 <= k < |Boundary(s)| - 1 ==> Adjacent(Boundary(s)[k], Boundary(s)[k + 1])
    ensures NodeInDir(Boundary(s)[|Boundary(s)| - 1], 5) == Boundary(s)[0]
  {
    SidesWalk(s, 6);
  }

  lemma {:induction false} SidesWalk(s: nat, n: nat)
    requires s >= 1 && 1 <= n <= 6
    ensures |Sides(s, n)| > 0 && Sides(s, n)[0] == Origin
    ensures NodeInDir(Sides(s, n)[|Sides(s, n)| - 1], n - 1) == SideStart(s, n)
    ensures forall k :: 0 <= k < |Sides(s, n)| - 1 ==> Adjacent(Sides(s, n)[k], Sides(s, n)[k + 1])
  {
    SidesEnds(s, n);
    var all := Sides(s, n);
    var prev := Sides(s, n - 1);
    var side := Side(s, n - 1);
    assert all == prev + side;
    if n > 1 {
      SidesWalk(s, n - 1);
      SidesEnds(s, n - 1);
    }
    forall k | 0 <= k < |all| - 1
      ensures Adjacent(all[k], all[k + 1])
    {
      if k + 1 < |prev| {
        assert all[k] == prev[k] && all[k + 1] == prev[k + 1];
      } else if k + 1 == |prev| {
        JunctionStep(s, n, prev, side, all);
      } else {
        WithinSideStep(s, n, prev, side, all, k);
      }
    }
  }

  /** The first n sides start at the origin and end one step short of the
      start of side n. */
  lemma {:induction false} SidesEnds(s: nat, n: nat)
    requires s >= 1 && 1 <= n <= 6
    ensures |Sides(s, n)| > 0 && Sides(s, n)[0] == Origin
    ensures NodeInDir(Sides(s, n)[|Sides(s, n)| - 1], n - 1) == SideStart(s, n)
  {
    var all := Sides(s, n);
    var prev := Sides(s, n - 1);
    var side := Side(s, n - 1);
    assert all == prev + side;
    assert all[|all| - 1] == side[s - 1];
    StepAlongSide(s, n - 1, s - 1);
    if n > 1 {
      SidesEnds(s, n - 1);
      assert all[0] == prev[0];
    } else {
      assert all[0] == side[0];
      StepAlongSide(s, 0, 0);
    }
  }

  lemma WithinSideStep(s: nat, n: nat, prev: seq<Node>, side: seq<Node>, all: seq<Node>, k: int)
    requires s >= 1 && 1 <= n <= 6
    requires side == Side(s, n - 1) && all == prev + side
    requires |prev| <= k < |all| - 1
    ensures Adjacent(all[k], all[k + 1])
  {
    SideStep(s, n - 1, k - |prev|);
    assert all[k] == side[k - |prev|] && all[k + 1] == side[k + 1 - |prev|];
  }

  lemma SideStep(s: nat, d: int, i: int)
    requires IsDir(d) && 0 <= i < s - 1
    ensures Side(s, d)[i + 1] == NodeInDir(Side(s, d)[i], d)
  {
    StepAlongSide(s, d, i);
  }

  lemma JunctionStep(s: nat, n: nat, prev: seq<Node>, side: seq<Node>, all: seq<Node>)
    requires s >= 1 && 2 <= n <= 6
    requires prev == Sides(s, n - 1) && side == Side(s, n - 1) && all == prev + side
    requires NodeInDir(prev[|prev| - 1], n - 2) == SideStart(s, n - 1)
    ensures |prev| > 0 && Adjacent(all[|prev| - 1], all[|prev|])
  {
    SidesLength(s, n - 1);
    StepAlongSide(s, n - 1, 0);
    assert all[|prev|] == side[0] == SideStart(s, n - 1);
    assert all[|prev| - 1] == prev[|prev| - 1];
  }

  // ---------------------------------------------------------------------
  // The placement loop

  function Heads(placed: seq<Placed>): set<Node> {
    set p | p in placed :: p.head
  }

  predicate DistinctHeads(placed: seq<Placed>) {
    forall j, k :: 0 <= j < k < |placed| ==> placed[j].head != placed[k].head
  }

  /** The particles the placement loop ends up with, having placed `placed`
      so far and with `draws` still to come: it stops once `n` are placed or
      the draws run out, and places a particle only at a node passing test
      (iii) that holds none yet. */
  function Placements(s: int, n: nat, draws: seq<Draw>, placed: seq<Placed>): (r: seq<Placed>)
    ensures placed <= r
    ensures |r| <= |placed| + |draws|
    decreases |draws|
  {
    if |placed| >= n || draws == [] then placed
    else
      var d := draws[0];
      var node := Node(d.x, d.y);
      if 0 < d.x + d.y < 2 * s && node !in Heads(placed) then
        Placements(s, n, draws[1..], placed + [Placed(node, d.orientation)])
      else
        Placements(s, n, draws[1..], placed)
  }

  /** What `randInt` and `randDir` can return: x in [-s+1, s), y in [1, 2s),
      and a direction. */
  predicate DrawInRange(s: int, d: Draw) {
    -s < d.x < s && 0 < d.y < 2 * s && IsDir(d.orientation)
  }

  /** Every particle stands on an interior node, no node receives two, and
      no more than n are placed. */
  lemma {:induction false} PlacementsSound(s: int, n: nat, draws: seq<Draw>, placed: seq<Placed>)
    requires forall d :: d in draws ==> DrawInRange(s, d)
    requires forall p :: p in placed ==> Interior(s, p.head)
    requires DistinctHeads(placed) && |placed| <= n
    ensures var r := Placements(s, n, draws, placed);
      && |placed| <= |r| <= n && r[..|placed|] == placed
      && DistinctHeads(r)
      && forall p :: p in r ==> Interior(s, p.head)
    decreases |draws|
  {
    if |placed| < n && draws != [] {
      var d := draws[0];
      var node := Node(d.x, d.y);
      assert d in draws;
      if 0 < d.x + d.y < 2 * s && node !in Heads(placed) {
        var next := placed + [Placed(node, d.orientation)];
        forall j | 0 <= j < |placed|
          ensures placed[j].head != node
        {
          assert placed[j] in placed;
        }
        PlacementsSound(s, n, draws[1..], next);
        var r := Placements(s, n, draws[1..], next);
        assert r[..|placed|] == r[..|next|][..|placed|];
      } else {
        PlacementsSound(s, n, draws[1..], placed);
      }
    }
  }

  lemma {:induction false} DistinctHeadsCount(placed: seq<Placed>)
    requires DistinctHeads(placed)
    ensures |Heads(placed)| == |placed|
  {
    if placed != [] {
      var prev := placed[..|placed| - 1];
      var last := placed[|placed| - 1];
      DistinctHeadsCount(prev);
      assert placed == prev + [last];
      assert Heads(placed) == Heads(prev) + {last.head};
      assert last.head !in Heads(prev);
    }
  }

  /** The nodes strictly inside the hexagon of side s. */
  function InteriorNodes(s: int): set<Node> {
    set x: int, y: int | -s < x < s && 0 < y < 2 * s && 0 < x + y < 2 * s :: Node(x, y)
  }

  lemma InteriorNodesMembers(s: int)
    ensures forall p :: p in InteriorNodes(s) <==> Interior(s, p)
  {
    forall p | Interior(s, p)
      ensures p in InteriorNodes(s)
    {
      assert p == Node(p.x, p.y);
    }
  }

  /** The nodes of row y with lo <= x < hi. */
  function RowNodes(y: int, lo: int, hi: int): set<Node> {
    set x: int | lo <= x < hi :: Node(x, y)
  }

  lemma {:induction false} RowNodesSize(y: int, lo: int, hi: int)
    requires lo <= hi
    ensures |RowNodes(y, lo, hi)| == hi - lo
    decreases hi - lo
  {
    if lo < hi {
      RowNodesSize(y, lo, hi - 1);
      assert RowNodes(y, lo, hi) == RowNodes(y, lo, hi - 1) + {Node(hi - 1, y)};
    } else {
      assert RowNodes(y, lo, hi) == {};
    }
  }

  /** The number of interior nodes in row y: the row widens by one per row
      up to the middle row y = s and narrows by one per row after it. */
  function RowWidth(s: int, y: int): int {
    if y <= s then s - 1 + y else 3 * s - 1 - y
  }

  /** The interior nodes of row y, for 0 < y < 2s. */
  lemma RowIsInterval(s: int, y: int)
    requires 0 < y < 2 * s
    ensures var lo := if y <= s then 1 - y else 1 - s;
            forall p :: p in InteriorNodes(s) && p.y == y <==> p in RowNodes(y, lo, lo + RowWidth(s, y))
  {
    InteriorNodesMembers(s);
    var lo := if y <= s then 1 - y else 1 - s;
    forall p: Node | p.y == y && lo <= p.x < lo + RowWidth(s, y)
      ensures p in RowNodes(y, lo, lo + RowWidth(s, y))
    {
      assert p == Node(p.x, y);
    }
  }

  /** Interior nodes in the rows below row k. */
  function Band(s: int, k: int): set<Node> {
    set p | p in InteriorNodes(s) && p.y < k
  }

  /** Sum of the row widths of rows 1 .. k-1. */
  function RowsTotal(s: int, k: int): int
    decreases k
  {
    if k <= 1 then 0 else RowsTotal(s, k - 1) + RowWidth(s, k - 1)
  }

  lemma {:induction false} BandSize(s: int, k: int)
    requires 1 <= k <= 2 * s
    ensures |Band(s, k)| == RowsTotal(s, k)
  {
    InteriorNodesMembers(s);
    if k == 1 {
      assert Band(s, k) == {};
    } else {
      BandSize(s, k - 1);
      var y := k - 1;
      var lo := if y <= s then 1 - y else 1 - s;
      var row := RowNodes(y, lo, lo + RowWidth(s, y));
      RowIsInterval(s, y);
      RowNodesSize(y, lo, lo + RowWidth(s, y));
      assert Band(s, k) == Band(s, k - 1) + row;
      assert Band(s, k - 1) * row == {};
    }
  }

  /** Rows up to the middle one: twice the total is 2(k-1)(s-1) + (k-1)k. */
  lemma {:induction false} RowsTotalLow(s: int, k: int)
    requires 1 <= k <= s + 1
    ensures 2 * RowsTotal(s, k) == 2 * (k - 1) * (s - 1) + (k - 1) * k
  {
    if k > 1 {
      RowsTotalLow(s, k - 1);
      assert 2 * (k - 1) * (s - 1) == 2 * (k - 2) * (s - 1) + 2 * (s - 1);
      assert (k - 1) * k == (k - 2) * (k - 1) + 2 * (k - 1);
    }
  }

  /** Rows past the middle one, with m = k - s - 1 narrowing rows. */
  lemma {:induction false} RowsTotalHigh(s: int, k: int)
    requires s + 1 <= k <= 2 * s
    ensures 2 * RowsTotal(s, k)
         == 2 * s * (s - 1) + s * (s + 1) + 2 * (k - s - 1) * (2 * s - 1) - (k - s - 1) * (k - s)
  {
    if k == s + 1 {
      RowsTotalLow(s, k);
    } else {
      RowsTotalHigh(s, k - 1);
      var m := k - s - 1;
      assert 2 * m * (2 * s - 1) == 2 * (m - 1) * (2 * s - 1) + 2 * (2 * s - 1);
      assert m * (m + 1) == (m - 1) * m + 2 * m;
    }
  }

  /** The hexagon of side s (s >= 1) has the centred hexagonal number
      3s^2 - 3s + 1 of interior nodes, and none when s is zero. */
  lemma InteriorCount(s: nat)
    ensures |InteriorNodes(s)| == if s == 0 then 0 else 3 * s * s - 3 * s + 1
  {
    InteriorNodesMembers(s);
    if s == 0 {
      assert InteriorNodes(s) == {};
    } else {
      BandSize(s, 2 * s);
      RowsTotalHigh(s, 2 * s);
      assert Band(s, 2 * s) == InteriorNodes(s);
      assert 2 * (s - 1) * (2 * s - 1) == 4 * s * s - 6 * s + 2;
      assert (s - 1) * s == s * s - s;
      assert s * (s + 1) == s * s + s;
    }
  }

  /** The loop can place at most as many particles as there are interior
      nodes, so it can only finish when numParticles does not exceed that. */
  lemma PlacementCapacity(s: nat, n: nat, draws: seq<Draw>)
    requires forall d :: d in draws ==> DrawInRange(s, d)
    ensures |Placements(s, n, draws, [])| <= |InteriorNodes(s)|
    ensures |Placements(s, n, draws, [])| <= if s == 0 then 0 else 3 * s * s - 3 * s + 1
  {
    InteriorCount(s);
    var r := Placements(s, n, draws, []);
    PlacementsSound(s, n, draws, []);
    DistinctHeadsCount(r);
    var inside := InteriorNodes(s);
    assert Heads(r) <= inside by {
      forall p | p in r
        ensures p.head in InteriorNodes(s)
      {
        var h := p.head;
        assert Interior(s, h);
        assert h == Node(h.x, h.y);
      }
    }
    assert inside == Heads(r) + (inside - Heads(r));
  }

  /** Particles never share a node with the boundary objects. */
  lemma PlacementsAvoidObjects(s: nat, n: nat, draws: seq<Draw>)
    requires forall d :: d in draws ==> DrawInRange(s, d)
    ensures forall p, k :: p in Placements(s, n, draws, []) && 0 <= k < |Boundary(s)| ==>
      p.head != Boundary(s)[k]
  {
    PlacementsSound(s, n, draws, []);
    BoundaryNotInterior(s);
  }

  class ShortcutBridgingSystem {
    var objects: seq<Object>
    var particles: seq<Placed>

    /** Builds the hexagon of `sideLen` objects per side, then places
        particles from `draws` until `numParticles` stand in the arena or
        the draws are used up. */
    constructor (numParticles: nat, sideLen: nat, draws: seq<Draw>)
      requires forall d :: d in draws ==> DrawInRange(sideLen, d)
      ensures |objects| == |Boundary(sideLen)| == 6 * sideLen
      ensures forall k :: 0 <= k < |objects| ==> objects[k] == Object(Boundary(sideLen)[k], false, false)
      ensures particles == Placements(sideLen, numParticles, draws, [])
      ensures |particles| <= numParticles && DistinctHeads(particles)
      ensures forall p :: p in particles ==> Interior(sideLen, p.head)
      ensures forall p, o :: p in particles && o in objects ==> p.head != o.node
    {
      objects := [];
      particles := [];
      new;
      InsertBoundary(sideLen);
      PlaceParticles(numParticles, sideLen, draws);
      PlacementsAvoidObjects(sideLen, numParticles, draws);
      forall p, o | p in particles && o in objects
        ensures p.head != o.node
      {
        var j :| 0 <= j < |objects| && objects[j] == o;
      }
    }

    /** The boundary walk: six sides of `sideLen` steps, inserting an object
        at each node before stepping on in that side's direction. */
    method InsertBoundary(sideLen: nat)
      requires objects == []
      modifies this
      ensures particles == old(particles)
      ensures |objects| == |Boundary(sideLen)| == 6 * sideLen
      ensures forall k :: 0 <= k < |objects| ==> objects[k] == Object(Boundary(sideLen)[k], false, false)
    {
      var boundNode := Origin;
      for dir := 0 to 6
        invariant boundNode == SideStart(sideLen, dir)
        invariant |objects| == |Sides(sideLen, dir)|
        invariant forall k :: 0 <= k < |objects| ==> objects[k] == Object(Sides(sideLen, dir)[k], false, false)
        invariant particles == old(particles)
      {
        ghost var done := Sides(sideLen, dir);
        for i := 0 to sideLen
          invariant boundNode == BoundaryAt(sideLen, dir, i)
          invariant |objects| == |done| + i
          invariant forall k :: 0 <= k < |objects| ==> objects[k] == Object((done + Side(sideLen, dir))[k], false, false)
          invariant particles == old(particles)
        {
          objects := objects + [Object(boundNode, false, false)];
          StepAlongSide(sideLen, dir, i);
          boundNode := NodeInDir(boundNode, dir);
        }
        StepAlongSide(sideLen, dir, sideLen);
      }
      assert boundNode == Origin;
    }

    /** The placement loop: a particle goes to the drawn node when it passes
        test (iii) and is not yet occupied. */
    method PlaceParticles(numParticles: nat, sideLen: nat, draws: seq<Draw>)
      requires particles == []
      requires forall d :: d in draws ==> DrawInRange(sideLen, d)
      modifies this
      ensures objects == old(objects)
      ensures particles == Placements(sideLen, numParticles, draws, [])
      ensures |particles| <= numParticles && DistinctHeads(particles)
      ensures forall p :: p in particles ==> Interior(sideLen, p.head)
    {
      var occupied: set<Node> := {};
      var k := 0;
      while |occupied| < numParticles && k < |draws|
        invariant 0 <= k <= |draws|
        invariant objects == old(objects)
        invariant occupied == Heads(particles) && DistinctHeads(particles)
        invariant |occupied| == |particles|
        invariant Placements(sideLen, numParticles, draws, []) == Placements(sideLen, numParticles, draws[k..], particles)
      {
        var x := draws[k].x;
        var y := draws[k].y;
        var node := Node(x, y);
        assert draws[k..][1..] == draws[k + 1..];
        if 0 < x + y && x + y < 2 * sideLen && node !in occupied {
          forall j | 0 <= j < |particles|
            ensures particles[j].head != node
          {
            assert particles[j] in particles;
          }
          particles := particles + [Placed(node, draws[k].orientation)];
          occupied := occupied + {node};
          assert occupied == Heads(particles);
        }
        k := k + 1;
      }
      PlacementsSound(sideLen, numParticles, draws, []);
    }
  }
}
