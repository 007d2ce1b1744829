/** The ring object of internal/ring/ring.go; its arrays are reassigned by `Add` and `Remove`. */
module HashRing {
  import opened Sorting
  import opened Ring
  import opened RingProperties

  class HashRing {
    const hash: Hash
    var points: seq<Point>
    var nodes: seq<string>

    ghost predicate Valid()
      reads this
    {
      IsRing(hash, nodes, points)
    }

    constructor (hash: Hash, names: seq<string>)
      ensures Valid() && this.hash == hash && Members(nodes) == Members(names)
    {
      this.hash := hash;
      var unique := DropRepeats(names);
      unique := SortNames(unique);
      nodes := unique;
      var generated := Generate(hash, unique);
      var sorted := Sort(HashLe, generated);
      points := sorted;
    }

    method Add(node: string)
      requires Valid()
      modifies this
      ensures Valid() && Members(nodes) == old(Members(nodes)) + {node}
      ensures node in old(nodes) ==> nodes == old(nodes) && points == old(points)
    {
      if node in nodes {
        return;
      }
      ghost var names := Members(nodes);
      assert Members(nodes + [node]) == names + {node};
      nodes := SortNames(nodes + [node]);
      var more := AppendPoints(hash, points, node, names);
      points := Sort(HashLe, more);
    }

    method Remove(node: string)
      requires Valid()
      modifies this
      ensures Valid()
      ensures nodes == NamesWithout(old(nodes), node) && points == Without(old(points), node)
    {
      WithoutIsRing(hash, nodes, points, node);
      nodes := KeepNames(nodes, node);
      points := KeepPoints(points, node);
    }

    method Owner(key: string) returns (node: string)
      requires Valid()
      ensures node == OwnerOf(points, hash(key))
    {
      if |points| == 0 {
        return "";
      }
      var i := Search(points, hash(key));
      node := points[i % |points|].node;
    }

    method Replicas(key: string, rf: int) returns (result: seq<string>)
      requires Valid()
      ensures result == ReplicaList(points, hash(key), rf)
    {
      LapSeesAllNodes(hash, nodes, points, hash(key));
      if |nodes| == 0 {
        return [];
      }
      var want := if rf > |nodes| then |nodes| else rf;
      var start := Search(points, hash(key));
      LapInOrder(points, hash(key));
      result := Walk(points, start, want, Lap(points, hash(key)));
    }

    method Nodes() returns (out: seq<string>)
      ensures out == nodes
    {
      out := nodes;
    }
  }

  /** The first loop of `New`. */
  method DropRepeats(names: seq<string>) returns (unique: seq<string>)
    ensures Distinct(unique) && Members(unique) == Members(names)
  {
    unique := [];
    for i := 0 to |names|
      invariant Distinct(unique) && Members(unique) == Members(names[..i])
    {
      MembersSnoc(names[..i], names[i]);
      assert names[..i + 1] == names[..i] + [names[i]];
      if names[i] !in unique {
        MembersSnoc(unique, names[i]);
        unique := unique + [names[i]];
      }
    }
    assert names[..|names|] == names;
  }

  lemma MembersSnoc(names: seq<string>, n: string)
    ensures Members(names + [n]) == Members(names) + {n}
  {
  }

  method SortNames(names: seq<string>) returns (sorted: seq<string>)
    requires Distinct(names)
    ensures Distinct(sorted) && Sorted(StringLe, sorted) && Members(sorted) == Members(names)
  {
    StringLePreorder();
    sorted := Sort(StringLe, names);
    PermutationDistinct(names, sorted);
    PermutationMembers(names, sorted);
  }

  /** Generates the virtual points of one more node. */
  method AppendPoints(hash: Hash, points: seq<Point>, node: string, ghost names: set<string>)
    returns (more: seq<Point>)
    requires HoldsPointsOf(hash, names, points) && node !in names
    ensures HoldsPointsOf(hash, names + {node}, more)
  {
    more := points;
    ghost var own := PointsOf(hash, node);
    for i := 0 to VNODES
      invariant more == points + own[..i]
    {
      more := more + [Point(hash(node + "#" + Decimal(i)), node)];
    }
    assert own[..VNODES] == own;
    assert forall p :: p in multiset(own) ==> p.node == node;
  }

  method Generate(hash: Hash, names: seq<string>) returns (points: seq<Point>)
    requires Distinct(names)
    ensures HoldsPointsOf(hash, Members(names), points)
  {
    points := [];
    for i := 0 to |names|
      invariant HoldsPointsOf(hash, Members(names[..i]), points)
    {
      MembersSnoc(names[..i], names[i]);
      assert names[..i + 1] == names[..i] + [names[i]];
      points := AppendPoints(hash, points, names[i], Members(names[..i]));
    }
    assert names[..|names|] == names;
  }

  method KeepNames(names: seq<string>, node: string) returns (kept: seq<string>)
    ensures kept == NamesWithout(names, node)
  {
    kept := [];
    for i := 0 to |names|
      invariant kept == NamesWithout(names[..i], node)
    {
      assert names[..i + 1][..i] == names[..i];
      if names[i] != node {
        kept := kept + [names[i]];
      }
    }
    assert names[..|names|] == names;
  }

  method KeepPoints(points: seq<Point>, node: string) returns (kept: seq<Point>)
    ensures kept == Without(points, node)
  {
    kept := [];
    for i := 0 to |points|
      invariant kept == Without(points[..i], node)
    {
      assert points[..i + 1][..i] == points[..i];
      if points[i].node != node {
        kept := kept + [points[i]];
      }
    }
    assert points[..|points|] == points;
  }

  /** The bisection of `sort.Search`. */
  method Search(points: seq<Point>, h: uint32) returns (i: nat)
    requires Sorted(HashLe, points)
    ensures i == LowerBound(points, h)
  {
    i := 0;
    var j := |points|;
    while i < j
      invariant 0 <= i <= j <= |points|
      invariant forall k :: 0 <= k < i ==> points[k].hash < h
      invariant j < |points| ==> points[j].hash >= h
    {
      var mid := (i + j) / 2;
      if points[mid].hash >= h {
        j := mid;
      } else {
        forall k | 0 <= k < mid ensures points[k].hash < h {
          assert HashLe(points[k], points[mid]);
        }
        i := mid + 1;
      }
    }
    LowerBoundIs(points, h, i);
  }

  lemma WalkMeets(points: seq<Point>, start: nat, lap: seq<Point>, k: nat)
    requires Rounds(points, start, lap) && k < |lap|
    ensures points != [] && points[(start + k) % |points|] == lap[k]
  {
  }

  /**
  The wrap-around walk from a position of the array; `lap` is what the walk meets in one
  round. It ends within that round, because the round meets enough nodes.
  */
  method Walk(points: seq<Point>, start: nat, want: int, ghost lap: seq<Point>) returns (result: seq<string>)
    requires Rounds(points, start, lap)
    requires want <= |FirstSeen(lap)|
    ensures result == Front(FirstSeen(lap), want)
  {
    var i := start;
    var seen: set<string> := {};
    result := [];
    ghost var k := 0;
    while |result| < want
      invariant 0 <= k <= |lap| && i == start + k
      invariant result == FirstSeen(lap[..k]) && seen == Members(result)
      invariant result == [] || |result| <= want
      decreases |lap| - k
    {
      StillInsideLap(lap, k, want);
      WalkStep(lap, k);
      WalkMeets(points, start, lap, k);
      var n := points[i % |points|].node;
      if n !in seen {
        MembersSnoc(result, n);
        seen := seen + {n};
        result := result + [n];
      }
      i, k := i + 1, k + 1;
    }
    FirstSeenGrows(lap, k);
  }
}
