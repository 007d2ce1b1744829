/** Facts about the stored arrays, the walk, and what removing or adding a node does to both. */
module RingProperties {
  import opened Sorting
  import opened Ring

  // ----- the string order -----

  lemma {:induction false} StringLeTotal(a: string, b: string)
    ensures StringLe(a, b) || StringLe(b, a)
    ensures StringLe(a, b) && StringLe(b, a) ==> a == b
  {
    if a != [] && b != [] && a[0] == b[0] {
      StringLeTotal(a[1..], b[1..]);
      assert a == [a[0]] + a[1..] && b == [b[0]] + b[1..];
    }
  }

  lemma {:induction false} StringLeTransitive(a: string, b: string, c: string)
    requires StringLe(a, b) && StringLe(b, c)
    ensures StringLe(a, c)
  {
    if a != [] && b != [] && c != [] && a[0] == b[0] == c[0] {
      StringLeTransitive(a[1..], b[1..], c[1..]);
    }
  }

  lemma {:induction false} StringLePreorder()
    ensures TotalPreorder(StringLe)
  {
    forall a, b ensures StringLe(a, b) || StringLe(b, a) {
      StringLeTotal(a, b);
    }
    forall a, b, c | StringLe(a, b) && StringLe(b, c) ensures StringLe(a, c) {
      StringLeTransitive(a, b, c);
    }
  }

  // ----- the walk -----

  lemma {:induction false} LowerBoundIs(points: seq<Point>, h: int, i: nat)
    requires i <= |points|
    requires forall j :: 0 <= j < i ==> points[j].hash < h
    requires i < |points| ==> points[i].hash >= h
    ensures LowerBound(points, h) == i
  {
    if i > 0 {
      LowerBoundIs(points[1..], h, i - 1);
    }
  }

  lemma WrappedOnce(x: nat, n: nat)
    requires x < 2 * n
    ensures x % n == if x < n then x else x - n
  {
    if x >= n {
      assert x == n + (x - n);
    }
  }

  /** The walk's wrapped index visits the lap in order. */
  lemma {:induction false} LapAt(points: seq<Point>, h: int, k: nat)
    requires k < |points|
    ensures |Lap(points, h)| == |points|
    ensures Lap(points, h)[k] == points[(LowerBound(points, h) + k) % |points|]
  {
    WrappedOnce(LowerBound(points, h) + k, |points|);
  }

  lemma {:induction false} FirstSeenMembers(points: seq<Point>, x: string)
    ensures x in FirstSeen(points) <==> exists i :: 0 <= i < |points| && points[i].node == x
  {
    if points != [] {
      var n := |points| - 1;
      FirstSeenMembers(points[..n], x);
      if i :| 0 <= i < n && points[i].node == x {
        assert points[..n][i].node == x;
      }
    }
  }

  lemma {:induction false} FirstSeenDistinct(points: seq<Point>)
    ensures Distinct(FirstSeen(points))
  {
    if points != [] {
      FirstSeenDistinct(points[..|points| - 1]);
    }
  }

  /** Walking on only appends to what has been seen. */
  lemma {:induction false} FirstSeenGrows(points: seq<Point>, k: nat)
    requires k <= |points|
    ensures FirstSeen(points[..k]) <= FirstSeen(points)
    decreases |points|
  {
    if k == |points| {
      assert points[..k] == points;
    } else {
      var before := points[..|points| - 1];
      FirstSeenGrows(before, k);
      assert before[..k] == points[..k];
    }
  }

  lemma LapPermutes(points: seq<Point>, h: int)
    ensures multiset(Lap(points, h)) == multiset(points)
  {
    var i := LowerBound(points, h);
    assert points == points[..i] + points[i..];
  }

  /** A permutation of the points meets exactly the ring's nodes. */
  lemma {:induction false} MeetsAllNodes(hash: Hash, nodes: seq<string>, points: seq<Point>, lap: seq<Point>, n: string)
    requires HoldsPointsOf(hash, Members(nodes), points) && multiset(lap) == multiset(points)
    ensures n in FirstSeen(lap) <==> n in nodes
  {
    FirstSeenMembers(lap, n);
    PermutationMembers(lap, points);
    if n in nodes {
      NodeHasPoint(hash, nodes, points, n);
      var i :| 0 <= i < |lap| && lap[i] == PointsOf(hash, n)[0];
    }
    if i :| 0 <= i < |lap| && lap[i].node == n {
      assert lap[i] in points;
      assert multiset(points)[lap[i]] > 0;
    }
  }

  /** Every ring node has a point, so the walk sees all nodes within one lap. */
  lemma LapSeesAllNodes(hash: Hash, nodes: seq<string>, points: seq<Point>, h: int)
    requires IsRing(hash, nodes, points)
    ensures Distinct(Preference(points, h)) && |Preference(points, h)| == |nodes|
    ensures forall n :: n in Preference(points, h) <==> n in nodes
    ensures nodes != [] ==> points != []
  {
    LapPermutes(points, h);
    FirstSeenDistinct(Lap(points, h));
    forall n ensures n in Preference(points, h) <==> n in nodes {
      MeetsAllNodes(hash, nodes, points, Lap(points, h), n);
    }
    SameMembersSameSize(Preference(points, h), nodes);
    if nodes != [] {
      NodeHasPoint(hash, nodes, points, nodes[0]);
    }
  }

  /** As long as the walk has not met enough nodes, it is still inside its first lap. */
  lemma {:induction false} StillInsideLap(lap: seq<Point>, k: nat, want: int)
    requires k <= |lap| && |FirstSeen(lap[..k])| < want <= |FirstSeen(lap)|
    ensures k < |lap|
  {
    assert lap[..|lap|] == lap;
  }

  /** One step of the walk. */
  lemma WalkStep(lap: seq<Point>, k: nat)
    requires k < |lap|
    ensures var before, n := FirstSeen(lap[..k]), lap[k].node;
            FirstSeen(lap[..k + 1]) == if n in before then before else before + [n]
  {
    assert lap[..k + 1][..k] == lap[..k];
  }

  /** `lap` is what a wrap-around walk from `start` meets in one round. */
  ghost predicate Rounds(points: seq<Point>, start: nat, lap: seq<Point>) {
    |lap| == |points| && forall k :: 0 <= k < |lap| ==> lap[k] == points[(start + k) % |points|]
  }

  lemma {:induction false} LapInOrder(points: seq<Point>, h: int)
    ensures Rounds(points, LowerBound(points, h), Lap(points, h))
  {
    forall k | 0 <= k < |points|
      ensures Lap(points, h)[k] == points[(LowerBound(points, h) + k) % |points|]
    {
      LapAt(points, h, k);
    }
  }

  lemma NodeHasPoint(hash: Hash, nodes: seq<string>, points: seq<Point>, n: string)
    requires HoldsPointsOf(hash, Members(nodes), points) && n in nodes
    ensures PointsOf(hash, n)[0] in points
  {
    var p := PointsOf(hash, n)[0];
    assert p in multiset(PointsOf(hash, n));
    assert multiset(points)[p] > 0;
  }

  lemma {:induction false} FirstSeenFirst(points: seq<Point>)
    requires points != []
    ensures FirstSeen(points) != [] && FirstSeen(points)[0] == points[0].node
  {
    if |points| > 1 {
      FirstSeenFirst(points[..|points| - 1]);
    } else {
      assert FirstSeen(points[..0]) == [];
    }
  }

  /** The owner of a key is the first node it prefers. */
  lemma OwnerIsFirst(points: seq<Point>, h: int)
    requires points != []
    ensures Preference(points, h) != [] && OwnerOf(points, h) == Preference(points, h)[0]
  {
    LapAt(points, h, 0);
    FirstSeenFirst(Lap(points, h));
  }

  /**
  Replica lists are correct: as many distinct ring nodes as asked for or as there are,
  the owner first, and a smaller factor gives a front part of a larger one.
  */
  lemma {:induction false} ReplicasCorrect(hash: Hash, nodes: seq<string>, points: seq<Point>, h: int,
                                           rf: int, more: int)
    requires IsRing(hash, nodes, points) && 0 <= rf <= more
    ensures var r := ReplicaList(points, h, rf);
            && |r| == (if rf < |nodes| then rf else |nodes|)
            && Distinct(r)
            && (forall n :: n in r ==> n in nodes)
            && (r != [] ==> r[0] == OwnerOf(points, h))
            && r <= ReplicaList(points, h, more)
  {
    LapSeesAllNodes(hash, nodes, points, h);
    FrontOf(Preference(points, h), rf, more);
    if points != [] {
      OwnerIsFirst(points, h);
    }
  }

  lemma FrontOf(names: seq<string>, rf: int, more: int)
    requires Distinct(names) && 0 <= rf <= more
    ensures var r := Front(names, rf);
            && |r| == (if rf < |names| then rf else |names|)
            && Distinct(r)
            && (forall n :: n in r ==> n in names)
            && (r != [] ==> r[0] == names[0])
            && r <= Front(names, more)
  {
  }

  // ----- removing a node -----

  lemma {:induction false} WithoutConcat(a: seq<Point>, b: seq<Point>, n: string)
    ensures Without(a + b, n) == Without(a, n) + Without(b, n)
  {
    if b == [] {
      assert a + b == a;
    } else {
      var last := |b| - 1;
      assert (a + b)[..|a + b| - 1] == a + b[..last];
      WithoutConcat(a, b[..last], n);
    }
  }

  lemma {:induction false} WithoutCounts(points: seq<Point>, n: string, p: Point)
    ensures multiset(Without(points, n))[p] == if p.node == n then 0 else multiset(points)[p]
  {
    if points != [] {
      var last := |points| - 1;
      WithoutCounts(points[..last], n, p);
      assert points == points[..last] + [points[last]];
    }
  }

  lemma {:induction false} WithoutMembers(points: seq<Point>, n: string, p: Point)
    ensures p in Without(points, n) <==> p in points && p.node != n
  {
    WithoutCounts(points, n, p);
    assert p in Without(points, n) <==> p in multiset(Without(points, n));
    assert p in points <==> p in multiset(points);
  }

  lemma {:induction false} WithoutSorted(points: seq<Point>, n: string)
    requires Sorted(HashLe, points)
    ensures Sorted(HashLe, Without(points, n))
  {
    if points != [] {
      var last := |points| - 1;
      var kept := Without(points[..last], n);
      WithoutSorted(points[..last], n);
      forall i | 0 <= i < |kept| ensures HashLe(kept[i], points[last]) {
        WithoutMembers(points[..last], n, kept[i]);
        var j :| 0 <= j < last && points[..last][j] == kept[i];
        assert HashLe(points[j], points[last]);
      }
    }
  }

  lemma {:induction false} SortedSplit(points: seq<Point>, h: int)
    requires Sorted(HashLe, points)
    ensures forall p :: p in points[..LowerBound(points, h)] ==> p.hash < h
    ensures forall p :: p in points[LowerBound(points, h)..] ==> p.hash >= h
  {
    var i := LowerBound(points, h);
    forall j | i <= j < |points| ensures points[j].hash >= h {
      assert i == j || HashLe(points[i], points[j]);
    }
  }

  /** Searching and wrapping on the filtered array is filtering the lap. */
  lemma {:induction false} LapWithout(points: seq<Point>, h: int, n: string)
    requires Sorted(HashLe, points)
    ensures Lap(Without(points, n), h) == Without(Lap(points, h), n)
  {
    var i := LowerBound(points, h);
    var a, b := points[..i], points[i..];
    SortedSplit(points, h);
    assert points == a + b;
    WithoutConcat(a, b, n);
    WithoutConcat(b, a, n);
    BoundBetween(a, b, h, n);
    var a', b' := Without(a, n), Without(b, n);
    assert (a' + b')[|a'|..] == b' && (a' + b')[..|a'|] == a';
  }

  lemma {:induction false} BoundBetween(a: seq<Point>, b: seq<Point>, h: int, n: string)
    requires forall p :: p in a ==> p.hash < h
    requires forall p :: p in b ==> p.hash >= h
    ensures LowerBound(Without(a, n) + Without(b, n), h) == |Without(a, n)|
  {
    var a', b' := Without(a, n), Without(b, n);
    forall j | 0 <= j < |a'| ensures a'[j].hash < h {
      WithoutMembers(a, n, a'[j]);
    }
    if b' != [] {
      WithoutMembers(b, n, b'[0]);
    }
    LowerBoundIs(a' + b', h, |a'|);
  }

  lemma {:induction false} NamesWithoutMembers(names: seq<string>, n: string)
    ensures forall x :: x in NamesWithout(names, n) <==> x in names && x != n
  {
    if names != [] {
      var last := |names| - 1;
      NamesWithoutMembers(names[..last], n);
      assert names == names[..last] + [names[last]];
    }
  }

  lemma {:induction false} FirstSeenWithout(points: seq<Point>, n: string)
    ensures FirstSeen(Without(points, n)) == NamesWithout(FirstSeen(points), n)
  {
    if points != [] {
      var last := |points| - 1;
      var before, p := points[..last], points[last];
      FirstSeenWithout(before, n);
      NamesWithoutMembers(FirstSeen(before), n);
      var kept := Without(before, n);
      assert (kept + [p])[..|kept|] == kept;
      var seen := FirstSeen(before);
      assert (seen + [p.node])[..|seen|] == seen;
    }
  }

  /**
  Minimal disruption: after a node is removed, every key prefers the remaining nodes
  in the order it did before. No assumption is made about hash ties.
  */
  lemma {:induction false} PreferenceWithout(points: seq<Point>, h: int, n: string)
    requires Sorted(HashLe, points)
    ensures Preference(Without(points, n), h) == NamesWithout(Preference(points, h), n)
  {
    LapWithout(points, h, n);
    FirstSeenWithout(Lap(points, h), n);
  }

  lemma {:induction false} NamesWithoutConcat(a: seq<string>, b: seq<string>, n: string)
    ensures NamesWithout(a + b, n) == NamesWithout(a, n) + NamesWithout(b, n)
  {
    if b == [] {
      assert a + b == a;
    } else {
      var last := |b| - 1;
      assert (a + b)[..|a + b| - 1] == a + b[..last];
      NamesWithoutConcat(a, b[..last], n);
    }
  }

  lemma {:induction false} NamesWithoutSize(names: seq<string>, n: string)
    requires Distinct(names)
    ensures |NamesWithout(names, n)| == |names| - (if n in names then 1 else 0)
    ensures n !in names ==> NamesWithout(names, n) == names
  {
    if names != [] {
      var last := |names| - 1;
      NamesWithoutSize(names[..last], n);
      assert names == names[..last] + [names[last]];
    }
  }

  /**
  The replica lists after a removal: the surviving replicas keep their order and stay
  in front, so a list without the node is unchanged.
  */
  lemma {:induction false} ReplicasAfterRemove(points: seq<Point>, h: int, rf: int, n: string)
    requires Sorted(HashLe, points)
    ensures var r, r' := ReplicaList(points, h, rf), ReplicaList(Without(points, n), h, rf);
            && NamesWithout(r, n) <= r'
            && (n !in r ==> r' == r)
  {
    FirstSeenDistinct(Lap(points, h));
    PreferenceWithout(points, h, n);
    FrontWithout(Preference(points, h), rf, n);
  }

  lemma {:induction false} FrontWithout(names: seq<string>, rf: int, n: string)
    requires Distinct(names)
    ensures var r, r' := Front(names, rf), Front(NamesWithout(names, n), rf);
            NamesWithout(r, n) <= r' && (n !in r ==> r' == r)
  {
    var r := Front(names, rf);
    var rest := names[|r|..];
    assert names == r + rest;
    NamesWithoutConcat(r, rest, n);
    NamesWithoutSize(r, n);
    NamesWithoutSize(rest, n);
  }

  lemma {:induction false} NamesWithoutSorted(names: seq<string>, n: string)
    requires Distinct(names) && Sorted(StringLe, names)
    ensures Distinct(NamesWithout(names, n)) && Sorted(StringLe, NamesWithout(names, n))
  {
    if names != [] {
      var last := |names| - 1;
      var kept := NamesWithout(names[..last], n);
      NamesWithoutSorted(names[..last], n);
      forall i | 0 <= i < |kept| ensures kept[i] != names[last] && StringLe(kept[i], names[last]) {
        NamesWithoutMembers(names[..last], n);
        assert kept[i] in kept && kept[i] in names[..last];
        var j :| 0 <= j < last && names[j] == kept[i];
      }
    }
  }

  /** Removing a node leaves a ring of the other nodes. */
  lemma {:induction false} WithoutIsRing(hash: Hash, nodes: seq<string>, points: seq<Point>, n: string)
    requires IsRing(hash, nodes, points)
    ensures IsRing(hash, NamesWithout(nodes, n), Without(points, n))
    ensures Members(NamesWithout(nodes, n)) == Members(nodes) - {n}
  {
    NamesWithoutSorted(nodes, n);
    NamesWithoutMembers(nodes, n);
    WithoutSorted(points, n);
    WithoutHolds(hash, Members(nodes), points, n);
  }

  lemma {:induction false} WithoutHolds(hash: Hash, names: set<string>, points: seq<Point>, n: string)
    requires HoldsPointsOf(hash, names, points)
    ensures HoldsPointsOf(hash, names - {n}, Without(points, n))
  {
    forall p
      ensures multiset(Without(points, n))[p] ==
              if p.node in names - {n} then multiset(PointsOf(hash, p.node))[p] else 0
    {
      WithoutCounts(points, n, p);
    }
  }

  // ----- adding a node -----

  /** Without hash ties between nodes, the arrays are determined by the node set. */
  lemma {:induction false} RingDetermined(hash: Hash, nodes: seq<string>, points: seq<Point>, nodes': seq<string>,
                                          points': seq<Point>)
    requires IsRing(hash, nodes, points) && IsRing(hash, nodes', points')
    requires Members(nodes) == Members(nodes') && TieFree(points)
    ensures nodes == nodes' && points == points'
  {
    assert multiset(points) == multiset(points') by {
      assert forall p :: multiset(points)[p] == multiset(points')[p];
    }
    SortedUnique(HashLe, points, points');
    assert multiset(nodes) == multiset(nodes') by {
      forall n ensures multiset(nodes)[n] == multiset(nodes')[n] {
        CountOfDistinct(nodes, n);
        CountOfDistinct(nodes', n);
        assert n in nodes <==> n in Members(nodes);
        assert n in nodes' <==> n in Members(nodes');
      }
    }
    forall a, b | StringLe(a, b) && StringLe(b, a) ensures a == b {
      StringLeTotal(a, b);
    }
    SortedUnique(StringLe, nodes, nodes');
  }

  /** Two neighbours of one hash and different nodes, somewhere between two such points. */
  lemma {:induction false} NeighbourTie(points: seq<Point>, i: nat, j: nat) returns (k: nat)
    requires Sorted(HashLe, points) && i < j < |points|
    requires points[i].hash == points[j].hash && points[i].node != points[j].node
    ensures k + 1 < |points|
    ensures points[k].hash == points[k + 1].hash && points[k].node != points[k + 1].node
    decreases j - i
  {
    if j == i + 1 {
      k := i;
    } else {
      assert HashLe(points[i], points[i + 1]) && HashLe(points[i + 1], points[j]);
      if points[i].node != points[i + 1].node {
        k := i;
      } else {
        k := NeighbourTie(points, i + 1, j);
      }
    }
  }

  /** ... and exactly then: on a tie between nodes the sort may return another array. */
  lemma {:induction false} ArrangementUnique(points: seq<Point>)
    requires Sorted(HashLe, points)
    ensures TieFree(points) <==>
              forall other :: Sorted(HashLe, other) && multiset(other) == multiset(points) ==> other == points
  {
    if TieFree(points) {
      forall other | Sorted(HashLe, other) && multiset(other) == multiset(points) ensures other == points {
        SortedUnique(HashLe, points, other);
      }
    } else {
      var p, q :| p in points && q in points && p.hash == q.hash && p.node != q.node;
      var i :| 0 <= i < |points| && points[i] == p;
      var j :| 0 <= j < |points| && points[j] == q;
      var k := NeighbourTie(points, if i < j then i else j, if i < j then j else i);
      var other := OtherArrangement(points, k);
    }
  }

  lemma OtherArrangement(points: seq<Point>, k: nat) returns (other: seq<Point>)
    requires Sorted(HashLe, points) && k + 1 < |points|
    requires points[k].hash == points[k + 1].hash && points[k].node != points[k + 1].node
    ensures Sorted(HashLe, other) && multiset(other) == multiset(points) && other != points
  {
    var a, x, y, b := points[..k], points[k], points[k + 1], points[k + 2..];
    other := a + [y, x] + b;
    assert points == a + [x, y] + b;
    forall i, j | 0 <= i < j < |other| ensures HashLe(other[i], other[j]) {
      assert other[i].hash == points[i].hash && other[j].hash == points[j].hash;
      assert HashLe(points[i], points[j]);
    }
    assert other[k] != points[k];
  }

  /** Removing a node that was added restores both arrays. */
  lemma {:induction false} RemoveUndoesAdd(hash: Hash, nodes: seq<string>, points: seq<Point>,
                        nodes': seq<string>, points': seq<Point>, n: string)
    requires IsRing(hash, nodes, points) && IsRing(hash, nodes', points')
    requires n !in nodes && Members(nodes') == Members(nodes) + {n} && TieFree(points)
    ensures NamesWithout(nodes', n) == nodes && Without(points', n) == points
  {
    WithoutIsRing(hash, nodes', points', n);
    assert Members(nodes) == Members(nodes') - {n};
    RingDetermined(hash, nodes, points, NamesWithout(nodes', n), Without(points', n));
  }

  /**
  Adding a node only inserts it into the preference list of a key; so the owner of a
  key stays what it was or becomes the new node.
  */
  lemma {:induction false} AddOnlyInserts(hash: Hash, nodes: seq<string>, points: seq<Point>,
                       nodes': seq<string>, points': seq<Point>, n: string, h: int)
    requires IsRing(hash, nodes, points) && IsRing(hash, nodes', points')
    requires n !in nodes && Members(nodes') == Members(nodes) + {n} && TieFree(points)
    ensures NamesWithout(Preference(points', h), n) == Preference(points, h)
    ensures OwnerOf(points', h) == n || OwnerOf(points', h) == OwnerOf(points, h)
  {
    RemoveUndoesAdd(hash, nodes, points, nodes', points', n);
    PreferenceWithout(points', h, n);
    assert n in Members(nodes');
    LapSeesAllNodes(hash, nodes', points', h);
    OwnerIsFirst(points', h);
    FirstWithout(Preference(points', h), n);
    assert points == [] ==> Preference(points, h) == [];
    if points != [] {
      OwnerIsFirst(points, h);
    }
  }

  lemma {:induction false} FirstWithout(names: seq<string>, n: string)
    requires names != []
    ensures names[0] == n || (NamesWithout(names, n) != [] && NamesWithout(names, n)[0] == names[0])
  {
    assert names == [names[0]] + names[1..];
    NamesWithoutConcat([names[0]], names[1..], n);
    assert NamesWithout([names[0]][..0], n) == [];
  }
}
