/**
The consistent-hash ring (internal/ring/ring.go): a sorted array of virtual points,
searched by bisection and walked with wrap-around.

The hash is a parameter of the ring; nothing is assumed about it. Where two points of
different nodes share a hash, the sort leaves their order open.
*/
module Ring {
  import opened Sorting

  const VNODES := 150

  type uint32 = x: int | 0 <= x < 0x1_0000_0000

  type Hash = string -> uint32

  datatype Point = Point(hash: uint32, node: string)

  // ----- what is stored -----

  function Decimal(n: nat): string {
    (if n < 10 then "" else Decimal(n / 10)) + ["0123456789"[n % 10]]
  }

  /** The points of one node, in the order they are generated. */
  function PointsOf(hash: Hash, node: string): seq<Point> {
    seq(VNODES, i requires 0 <= i < VNODES => Point(hash(node + "#" + Decimal(i)), node))
  }

  predicate HashLe(p: Point, q: Point) {
    p.hash <= q.hash
  }

  /** Go's element-wise string order. */
  predicate StringLe(a: string, b: string) {
    a == [] || (b != [] && (a[0] < b[0] || (a[0] == b[0] && StringLe(a[1..], b[1..]))))
  }

  function Members(nodes: seq<string>): set<string> {
    set n | n in nodes
  }

  /** Each of the nodes has exactly its own points in the array, and no other node has any. */
  ghost predicate HoldsPointsOf(hash: Hash, nodes: set<string>, points: seq<Point>) {
    forall p :: multiset(points)[p] == if p.node in nodes then multiset(PointsOf(hash, p.node))[p] else 0
  }

  /** The two arrays of a ring fit together. */
  ghost predicate IsRing(hash: Hash, nodes: seq<string>, points: seq<Point>) {
    && Distinct(nodes) && Sorted(StringLe, nodes)
    && Sorted(HashLe, points)
    && HoldsPointsOf(hash, Members(nodes), points)
  }

  /** Points with one hash belong to one node. */
  ghost predicate TieFree(points: seq<Point>) {
    forall p, q :: p in points && q in points && p.hash == q.hash ==> p.node == q.node
  }

  // ----- what is looked up -----

  /** The first point at or past `h`, or the end. */
  function LowerBound(points: seq<Point>, h: int): nat
    ensures LowerBound(points, h) <= |points|
    ensures forall i :: 0 <= i < LowerBound(points, h) ==> points[i].hash < h
    ensures LowerBound(points, h) < |points| ==> points[LowerBound(points, h)].hash >= h
  {
    if points == [] || points[0].hash >= h then 0 else 1 + LowerBound(points[1..], h)
  }

  /** One lap around the ring from the position of `h`. */
  function Lap(points: seq<Point>, h: int): seq<Point> {
    points[LowerBound(points, h)..] + points[..LowerBound(points, h)]
  }

  /** The nodes of a stretch of points, each where it first appears. */
  function FirstSeen(points: seq<Point>): seq<string> {
    if points == [] then []
    else
      var before := FirstSeen(points[..|points| - 1]);
      var n := points[|points| - 1].node;
      if n in before then before else before + [n]
  }

  /** All nodes in the order a key prefers them. */
  function Preference(points: seq<Point>, h: int): seq<string> {
    FirstSeen(Lap(points, h))
  }

  function Front(names: seq<string>, rf: int): seq<string> {
    if rf <= 0 then [] else if rf < |names| then names[..rf] else names
  }

  /** The replicas of a key: the front of its preference list. */
  function ReplicaList(points: seq<Point>, h: int, rf: int): seq<string> {
    Front(Preference(points, h), rf)
  }

  function OwnerOf(points: seq<Point>, h: int): string {
    if points == [] then "" else points[LowerBound(points, h) % |points|].node
  }

  // ----- without one node -----

  function Without(points: seq<Point>, node: string): seq<Point> {
    if points == [] then []
    else
      var before := Without(points[..|points| - 1], node);
      if points[|points| - 1].node == node then before else before + [points[|points| - 1]]
  }

  function NamesWithout(names: seq<string>, node: string): seq<string> {
    if names == [] then []
    else
      var before := NamesWithout(names[..|names| - 1], node);
      if names[|names| - 1] == node then before else before + [names[|names| - 1]]
  }
}
