/** Nodes of the triangular lattice, addressed by two integer coordinates,
    and the direction algebra on them. A direction is an index 0..5 into the
    offset tables below: direction d adds (XOffset[d], YOffset[d]) to a node,
    direction 0 adds one to x, and direction d + 3 undoes direction d.
    Coordinates are unbounded integers: the 32-bit `int` of the original never
    overflows on lattices whose extent is bounded by the particle count. */
module Lattice {

  datatype Node = Node(x: int, y: int)

  /** The node built by the default constructor. */
  const Origin: Node := Node(0, 0)

  /** Offset tables indexed by global direction. */
  const XOffset: seq<int> := [1, 0, -1, -1, 0, 1]
  const YOffset: seq<int> := [0, 1, 1, 0, -1, -1]

  predicate IsDir(dir: int) {
    0 <= dir <= 5
  }

  function Abs(n: int): nat {
    if n < 0 then -n else n
  }

  function Min(a: int, b: int): int {
    if a < b then a else b
  }

  /** Minimum number of lattice hops between a and b. */
  function HexDistance(a: Node, b: Node): nat {
    var dx, dy := b.x - a.x, b.y - a.y;
    (Abs(dx) + Abs(dy) + Abs(dx + dy)) / 2
  }

  predicate Adjacent(a: Node, b: Node) {
    HexDistance(a, b) == 1
  }

  /** `operator==`: coordinate-wise comparison, which is value equality. */
  function Eq(a: Node, b: Node): (r: bool)
    ensures r <==> a == b
  {
    a.x == b.x && a.y == b.y
  }

  /** `operator!=`. */
  function Ne(a: Node, b: Node): (r: bool)
    ensures r <==> a != b
    ensures r == !Eq(a, b)
  {
    !Eq(a, b)
  }

  /** `operator<`: lexicographic on (x, y), so x decides first. */
  function Less(a: Node, b: Node): (r: bool)
    ensures r ==> a != b && a.x <= b.x
    ensures a.x < b.x ==> r
    ensures a.x == b.x ==> (r <==> a.y < b.y)
  {
    a.x < b.x || (a.x == b.x && a.y < b.y)
  }

  lemma LessIsStrictTotalOrder(a: Node, b: Node, c: Node)
    ensures !Less(a, a)
    ensures Less(a, b) && Less(b, c) ==> Less(a, c)
    ensures (Less(a, b) && a != b && !Less(b, a))
         || (!Less(a, b) && a == b && !Less(b, a))
         || (!Less(a, b) && a != b && Less(b, a))
  {
  }

  /** `nodeInDir`: the neighbour of n in global direction dir. */
  function NodeInDir(n: Node, dir: int): (r: Node)
    requires IsDir(dir)
    ensures Adjacent(n, r)
    ensures r.x - n.x == XOffset[dir] && r.y - n.y == YOffset[dir]
  {
    Node(n.x + XOffset[dir], n.y + YOffset[dir])
  }

  /** The offset at direction d + 3 is the negation of the one at d, so
      stepping out and back returns to the start. */
  lemma OppositeCancels(a: Node, d: int)
    requires IsDir(d)
    ensures NodeInDir(NodeInDir(a, d), (d + 3) % 6) == a
  {
  }

  /** Every node at hop distance one is the neighbour in some direction. */
  lemma {:induction false} AdjacentIsNodeInDir(a: Node, b: Node) returns (d: int)
    requires Adjacent(a, b)
    ensures IsDir(d) && b == NodeInDir(a, d)
  {
    var dx, dy := b.x - a.x, b.y - a.y;
    if dx == 1 && dy == 0 { d := 0; }
    else if dx == 0 && dy == 1 { d := 1; }
    else if dx == -1 && dy == 1 { d := 2; }
    else if dx == -1 && dy == 0 { d := 3; }
    else if dx == 0 && dy == -1 { d := 4; }
    else {
      assert dx == 1 && dy == -1;
      d := 5;
    }
  }

  /** `nodeTowardsNode`: one greedy step from `from` toward `to`, choosing
      between the three lattice axes by comparing coordinate differences. */
  function NodeTowardsNode(from: Node, to: Node): (r: Node)
    ensures Adjacent(from, r)
    ensures from == to ==> r == NodeInDir(from, 4)
  {
    var xDiff := to.x - from.x;
    var yDiff := to.y - from.y;
    var zDiff :=
      if xDiff > 0 && yDiff < 0 then Min(xDiff, -yDiff)
      else if xDiff < 0 && yDiff > 0 then -Min(-xDiff, yDiff)
      else 0;
    if Abs(zDiff) > Abs(xDiff) / 2 && Abs(zDiff) > Abs(yDiff) / 2 then
      (if zDiff > 0 then Node(from.x + 1, from.y - 1) else Node(from.x - 1, from.y + 1))
    else if Abs(xDiff) > Abs(yDiff) && Abs(xDiff) > Abs(zDiff) then
      (if xDiff > 0 then Node(from.x + 1, from.y) else Node(from.x - 1, from.y))
    else
      (if yDiff > 0 then Node(from.x, from.y + 1) else Node(from.x, from.y - 1))
  }

  /** Each step toward a distinct node brings it exactly one hop closer. */
  lemma TowardsShortensDistance(from: Node, to: Node)
    requires from != to
    ensures HexDistance(NodeTowardsNode(from, to), to) == HexDistance(from, to) - 1
  {
  }

  /** Stepping toward a neighbour lands on it. */
  lemma TowardsNeighbourLandsOnIt(a: Node, d: int)
    requires IsDir(d)
    ensures NodeTowardsNode(a, NodeInDir(a, d)) == NodeInDir(a, d)
  {
  }

  lemma DistanceZeroIffEqual(a: Node, b: Node)
    ensures HexDistance(a, b) == 0 <==> a == b
  {
  }

  lemma DistanceSymmetric(a: Node, b: Node)
    ensures HexDistance(a, b) == HexDistance(b, a)
  {
  }

  /** `distanceBetween`: walks `other` toward this node one greedy step at a
      time and counts the steps. */
  method DistanceBetween(self: Node, other: Node) returns (distance: int)
    ensures distance == HexDistance(self, other)
  {
    distance := 0;
    var cur := other;
    while Ne(self, cur)
      invariant distance + HexDistance(cur, self) == HexDistance(other, self)
      decreases HexDistance(cur, self)
    {
      TowardsShortensDistance(cur, self);
      cur := NodeTowardsNode(cur, self);
      distance := distance + 1;
    }
    DistanceSymmetric(self, other);
  }
}
