/**
The labels of virtual points: decimal numerals read back, labels are never shared, and a
hash that keeps them apart gives every node its full number of points.
*/
module RingLabels {
  import opened Sorting
  import opened Ring

  predicate IsDigit(c: char) {
    '0' <= c <= '9'
  }

  /** The number a numeral stands for. */
  function Numeral(s: string): int {
    if s == [] then 0 else 10 * Numeral(s[..|s| - 1]) + (s[|s| - 1] as int - '0' as int)
  }

  lemma {:induction false} LastDigit(n: nat)
    ensures Decimal(n) != []
    ensures IsDigit(Decimal(n)[|Decimal(n)| - 1])
    ensures Decimal(n)[|Decimal(n)| - 1] as int - '0' as int == n % 10
    ensures Decimal(n)[..|Decimal(n)| - 1] == if n < 10 then [] else Decimal(n / 10)
  {
    var d := "0123456789"[n % 10];
    assert d as int - '0' as int == n % 10;
  }

  /** Reading a decimal back gives the number. */
  lemma {:induction false} DecimalReadsBack(n: nat)
    ensures Numeral(Decimal(n)) == n
    ensures forall k :: 0 <= k < |Decimal(n)| ==> IsDigit(Decimal(n)[k])
  {
    LastDigit(n);
    if n >= 10 {
      DecimalReadsBack(n / 10);
      forall k | 0 <= k < |Decimal(n)| - 1 ensures IsDigit(Decimal(n)[k]) {
        assert Decimal(n)[k] == Decimal(n / 10)[k];
      }
    }
  }

  /** A decimal starts with a zero only if it is that of zero. */
  lemma {:induction false} NoLeadingZero(n: nat)
    ensures Decimal(n)[0] == '0' <==> n == 0
    ensures n == 0 ==> Decimal(n) == "0"
  {
    LastDigit(n);
    if n >= 10 {
      NoLeadingZero(n / 10);
      LastDigit(n / 10);
      assert Decimal(n)[0] == Decimal(n / 10)[0];
    }
  }

  /** The label of the i-th virtual point of a node. */
  function Label(node: string, i: nat): string {
    node + "#" + Decimal(i)
  }

  /** The end of a label that starts inside its numeral is digits only. */
  lemma LabelEnd(node: string, i: nat, k: nat)
    requires k < |Label(node, i)|
    ensures |node| < k ==> IsDigit(Label(node, i)[k])
    ensures k == |node| ==> Label(node, i)[k] == '#'
  {
    DecimalReadsBack(i);
  }

  /** No two points share a label, of one node or of two. */
  lemma {:induction false} LabelsApart(m: string, i: nat, n: string, j: nat)
    requires Label(m, i) == Label(n, j)
    ensures m == n && i == j
  {
    if |m| < |n| {
      LabelEnd(m, i, |n|);
      LabelEnd(n, j, |n|);
    } else if |n| < |m| {
      LabelEnd(n, j, |m|);
      LabelEnd(m, i, |m|);
    } else {
      assert m == Label(m, i)[..|m|] && n == Label(n, j)[..|n|];
      assert Decimal(i) == Label(m, i)[|m| + 1..] && Decimal(j) == Label(n, j)[|n| + 1..];
      DecimalReadsBack(i);
      DecimalReadsBack(j);
    }
  }

  /** The labels of a set of nodes. */
  ghost predicate IsLabel(names: set<string>, x: string) {
    exists n, i :: n in names && 0 <= i < 150 && x == Label(n, i)
  }

  /** The hash has no collision among the labels of these nodes. */
  ghost predicate KeepsApart(hash: Hash, names: set<string>) {
    forall x, y :: IsLabel(names, x) && IsLabel(names, y) && hash(x) == hash(y) ==> x == y
  }

  /** The points of one node in an array, in the order in which they stand there. */
  function OwnPoints(points: seq<Point>, node: string): seq<Point> {
    if points == [] then []
    else
      var before, p := OwnPoints(points[..|points| - 1], node), points[|points| - 1];
      if p.node == node then before + [p] else before
  }

  lemma {:induction false} OwnPointsCount(points: seq<Point>, node: string, p: Point)
    ensures multiset(OwnPoints(points, node))[p] == if p.node == node then multiset(points)[p] else 0
  {
    if points != [] {
      var n := |points| - 1;
      OwnPointsCount(points[..n], node, p);
      assert points == points[..n] + [points[n]];
    }
  }

  lemma {:induction false} OwnPointsAreGenerated(hash: Hash, nodes: seq<string>, points: seq<Point>, node: string)
    requires IsRing(hash, nodes, points) && node in nodes
    ensures multiset(OwnPoints(points, node)) == multiset(PointsOf(hash, node))
  {
    forall p ensures multiset(OwnPoints(points, node))[p] == multiset(PointsOf(hash, node))[p] {
      OwnPointsCount(points, node, p);
      if p.node != node {
        assert p !in PointsOf(hash, node);
      }
    }
  }

  /** A node has 150 points, ... */
  lemma {:induction false} PointsPerNode(hash: Hash, nodes: seq<string>, points: seq<Point>, node: string)
    requires IsRing(hash, nodes, points) && node in nodes
    ensures |OwnPoints(points, node)| == 150
  {
    OwnPointsAreGenerated(hash, nodes, points, node);
    assert |multiset(PointsOf(hash, node))| == 150;
    assert |multiset(OwnPoints(points, node))| == |OwnPoints(points, node)|;
  }

  /** ... at the hashes of its labels and nowhere else. */
  lemma PointsHaveLabels(hash: Hash, nodes: seq<string>, points: seq<Point>, node: string, h: uint32)
    requires IsRing(hash, nodes, points) && node in nodes
    ensures Point(h, node) in points <==> exists i :: 0 <= i < 150 && h == hash(node + "#" + Decimal(i))
  {
    var own, p := PointsOf(hash, node), Point(h, node);
    assert multiset(points)[p] == multiset(own)[p];
    assert p in points <==> p in own by {
      assert p in points <==> multiset(points)[p] > 0;
      assert p in own <==> multiset(own)[p] > 0;
    }
    LabelledPoint(hash, node, h);
  }

  lemma LabelledPoint(hash: Hash, node: string, h: uint32)
    ensures Point(h, node) in PointsOf(hash, node) <==> exists i :: 0 <= i < 150 && h == hash(node + "#" + Decimal(i))
  {
    var own, p := PointsOf(hash, node), Point(h, node);
    forall i | 0 <= i < 150 ensures own[i] == Point(hash(node + "#" + Decimal(i)), node) {}
    if p in own {
      var i :| 0 <= i < |own| && own[i] == p;
      assert own[i] == Point(hash(node + "#" + Decimal(i)), node);
    } else {
      forall i | 0 <= i < 150 ensures h != hash(node + "#" + Decimal(i)) {
        assert own[i] in own;
      }
    }
  }

  lemma OwnLabelsApart(hash: Hash, names: set<string>, node: string, i: nat, j: nat)
    requires KeepsApart(hash, names) && node in names && i < 150 && j < 150
    requires hash(Label(node, i)) == hash(Label(node, j))
    ensures i == j
  {
    assert IsLabel(names, Label(node, i)) && IsLabel(names, Label(node, j));
    LabelsApart(node, i, node, j);
  }

  /**
  In a ring whose labels the hash keeps apart, every node has exactly 150 points, and
  they have 150 different hashes.
  */
  lemma {:induction false} FullNumberOfPoints(hash: Hash, nodes: seq<string>, points: seq<Point>, node: string)
    requires IsRing(hash, nodes, points) && node in nodes && KeepsApart(hash, Members(nodes))
    ensures var own := OwnPoints(points, node);
            |own| == 150 && forall k, m :: 0 <= k < m < |own| ==> own[k].hash != own[m].hash
  {
    var generated, own := PointsOf(hash, node), OwnPoints(points, node);
    PointsPerNode(hash, nodes, points, node);
    OwnPointsAreGenerated(hash, nodes, points, node);
    forall i, j | 0 <= i < j < |generated| ensures generated[i].hash != generated[j].hash {
      if generated[i].hash == generated[j].hash {
        OwnLabelsApart(hash, Members(nodes), node, i, j);
      }
    }
    PermutationDistinct(generated, own);
    PermutationMembers(generated, own);
    forall k, m | 0 <= k < m < |own| ensures own[k].hash != own[m].hash {
      assert own[k] in own && own[m] in own;
      var i :| 0 <= i < |generated| && generated[i] == own[k];
      var j :| 0 <= j < |generated| && generated[j] == own[m];
      assert i != j;
    }
  }

  /** Then no two nodes share a hash either, and the node set determines the ring. */
  lemma {:induction false} KeepsApartIsTieFree(hash: Hash, nodes: seq<string>, points: seq<Point>)
    requires IsRing(hash, nodes, points) && KeepsApart(hash, Members(nodes))
    ensures TieFree(points)
  {
    forall p, q | p in points && q in points && p.hash == q.hash ensures p.node == q.node {
      PointIsNodes(hash, nodes, points, p);
      PointIsNodes(hash, nodes, points, q);
      PointsHaveLabels(hash, nodes, points, p.node, p.hash);
      PointsHaveLabels(hash, nodes, points, q.node, q.hash);
      var i :| 0 <= i < 150 && p.hash == hash(p.node + "#" + Decimal(i));
      var j :| 0 <= j < 150 && q.hash == hash(q.node + "#" + Decimal(j));
      assert IsLabel(Members(nodes), Label(p.node, i)) && IsLabel(Members(nodes), Label(q.node, j));
      LabelsApart(p.node, i, q.node, j);
    }
  }

  lemma PointIsNodes(hash: Hash, nodes: seq<string>, points: seq<Point>, p: Point)
    requires IsRing(hash, nodes, points) && p in points
    ensures p.node in nodes && p == Point(p.hash, p.node)
  {
    assert multiset(points)[p] > 0;
    assert p.node in Members(nodes);
  }
}
