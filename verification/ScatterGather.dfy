/**
Scatter-gather reads (cmd/gateway/main.go): every node reports counts, replicas included,
and the merge takes each key from its owner only.
*/
module ScatterGather {
  import Aggregate
  import opened Wrappers
  import opened Sorting
  import opened Ring
  import opened HashRing

  type Counts = map<string, nat>

  /** A node that did not answer has no report; one with an unreadable body reports nothing. */
  type Report = Option<Counts>

  /** What one node contributes: the keys it owns. */
  function OwnPart(hash: Hash, points: seq<Point>, node: string, counts: Counts): Counts {
    map k | k in counts && OwnerOf(points, hash(k)) == node :: counts[k]
  }

  /** The contributions of all nodes that answered. */
  function MergedCounts(hash: Hash, points: seq<Point>, nodes: seq<string>, reports: seq<Report>): Counts
    requires |nodes| == |reports|
  {
    if nodes == [] then map[]
    else
      var n := |nodes| - 1;
      MergedCounts(hash, points, nodes[..n], reports[..n]) +
      (if reports[n].Some? then OwnPart(hash, points, nodes[n], reports[n].value) else map[])
  }

  /** The merge loop of `handleAggregates`. */
  method Merge(ring: HashRing, nodes: seq<string>, reports: seq<Report>) returns (merged: Counts)
    requires ring.Valid() && |nodes| == |reports| && Distinct(nodes)
    ensures merged == MergedCounts(ring.hash, ring.points, nodes, reports)
  {
    merged := map[];
    for i := 0 to |nodes|
      invariant merged == MergedCounts(ring.hash, ring.points, nodes[..i], reports[..i])
    {
      assert nodes[..i + 1][..i] == nodes[..i] && reports[..i + 1][..i] == reports[..i];
      if reports[i].None? {
        continue;
      }
      assert nodes[i] !in nodes[..i];
      OwnersOnly(ring.hash, ring.points, nodes[..i], reports[..i]);
      assert merged.Keys !! Owned(ring.hash, ring.points, nodes[i], reports[i].value);
      merged := AddReport(ring, nodes[i], reports[i].value, merged);
    }
    assert nodes[..|nodes|] == nodes && reports[..|nodes|] == reports;
  }

  lemma {:induction false} OwnersOnly(hash: Hash, points: seq<Point>, nodes: seq<string>, reports: seq<Report>)
    requires |nodes| == |reports|
    ensures forall k :: k in MergedCounts(hash, points, nodes, reports) ==> OwnerOf(points, hash(k)) in nodes
  {
    if nodes != [] {
      OwnersOnly(hash, points, nodes[..|nodes| - 1], reports[..|nodes| - 1]);
    }
  }

  /** The keys of a report that its node owns. */
  ghost function Owned(hash: Hash, points: seq<Point>, node: string, counts: Counts): set<string> {
    set k | k in counts && OwnerOf(points, hash(k)) == node
  }

  /** What a node has contributed when the keys `todo` are still to visit. */
  ghost function Visited(counts: Counts, owned: set<string>, todo: set<string>): Counts {
    map k | k in counts && k in owned && k !in todo :: counts[k]
  }

  lemma {:induction false} VisitEnds(hash: Hash, points: seq<Point>, node: string, counts: Counts)
    ensures Visited(counts, Owned(hash, points, node, counts), counts.Keys) == map[]
    ensures Visited(counts, Owned(hash, points, node, counts), {}) == OwnPart(hash, points, node, counts)
  {
  }

  lemma VisitKey(counts: Counts, owned: set<string>, todo: set<string>, start: Counts, k: string)
    requires k in todo && k in counts && start.Keys !! owned
    ensures var merged := start + Visited(counts, owned, todo);
            start + Visited(counts, owned, todo - {k}) ==
            if k in owned then merged[k := Aggregate.Count(merged, k) + counts[k]] else merged
  {
    assert k in owned ==> k !in start;
  }

  /** The body of the inner loop. */
  method AddKey(ring: HashRing, addr: string, counts: Counts, k: string, before: Counts,
                ghost start: Counts, ghost todo: set<string>) returns (merged: Counts)
    requires ring.Valid() && k in counts && k in todo
    requires start.Keys !! Owned(ring.hash, ring.points, addr, counts)
    requires before == start + Visited(counts, Owned(ring.hash, ring.points, addr, counts), todo)
    ensures merged == start + Visited(counts, Owned(ring.hash, ring.points, addr, counts), todo - {k})
  {
    VisitKey(counts, Owned(ring.hash, ring.points, addr, counts), todo, start, k);
    merged := before;
    var owner := ring.Owner(k);
    if owner == addr {
      merged := merged[k := Aggregate.Count(merged, k) + counts[k]];
    }
  }

  /** The inner loop over the keys of one report, in any order. */
  method AddReport(ring: HashRing, addr: string, counts: Counts, start: Counts) returns (merged: Counts)
    requires ring.Valid() && start.Keys !! Owned(ring.hash, ring.points, addr, counts)
    ensures merged == start + OwnPart(ring.hash, ring.points, addr, counts)
  {
    merged := start;
    VisitEnds(ring.hash, ring.points, addr, counts);
    var todo := counts.Keys;
    while todo != {}
      invariant todo <= counts.Keys
      invariant merged == start + Visited(counts, Owned(ring.hash, ring.points, addr, counts), todo)
      decreases todo
    {
      var k := Pick(todo);
      merged := AddKey(ring, addr, counts, k, merged, start, todo);
      todo := todo - {k};
    }
  }

  /**
  Each key is counted once: the merged map holds it exactly when its owner was asked,
  answered and reported it, and then gives exactly the owner's count.
  */
  lemma {:induction false} CountedOnce(hash: Hash, points: seq<Point>, nodes: seq<string>, reports: seq<Report>,
                                       i: nat, k: string)
    requires |nodes| == |reports| && Distinct(nodes)
    requires i < |nodes| && nodes[i] == OwnerOf(points, hash(k))
    ensures var merged := MergedCounts(hash, points, nodes, reports);
            && (k in merged <==> reports[i].Some? && k in reports[i].value)
            && (k in merged ==> merged[k] == reports[i].value[k])
  {
    var n := |nodes| - 1;
    OwnersOnly(hash, points, nodes[..n], reports[..n]);
    if i < n {
      CountedOnce(hash, points, nodes[..n], reports[..n], i, k);
    } else {
      assert nodes[n] !in nodes[..n];
    }
  }

  /** A key whose owner is not among the nodes asked is not in the result. */
  lemma {:induction false} UnownedNotCounted(hash: Hash, points: seq<Point>, nodes: seq<string>,
                                             reports: seq<Report>, k: string)
    requires |nodes| == |reports| && OwnerOf(points, hash(k)) !in nodes
    ensures k !in MergedCounts(hash, points, nodes, reports)
  {
    OwnersOnly(hash, points, nodes, reports);
  }

  /**
  Only owners matter: two rounds over the same ring in which every owner reports the
  same give the same result, whatever the order of the nodes and whatever copies the
  other nodes report.
  */
  lemma {:induction false} OnlyOwnersMatter(hash: Hash, points: seq<Point>, nodes: seq<string>, reports: seq<Report>,
                         nodes': seq<string>, reports': seq<Report>, k: string)
    requires |nodes| == |reports| && Distinct(nodes) && |nodes'| == |reports'| && Distinct(nodes')
    requires forall n :: n in nodes <==> n in nodes'
    requires forall i, j | 0 <= i < |nodes| && 0 <= j < |nodes'| && nodes[i] == nodes'[j] == OwnerOf(points, hash(k)) ::
               reports[i] == reports'[j]
    ensures var m, m' := MergedCounts(hash, points, nodes, reports), MergedCounts(hash, points, nodes', reports');
            (k in m) == (k in m') && (k in m ==> m[k] == m'[k])
  {
    var owner := OwnerOf(points, hash(k));
    if owner in nodes {
      var i :| 0 <= i < |nodes| && nodes[i] == owner;
      var j :| 0 <= j < |nodes'| && nodes'[j] == owner;
      CountedOnce(hash, points, nodes, reports, i, k);
      CountedOnce(hash, points, nodes', reports', j, k);
    } else {
      UnownedNotCounted(hash, points, nodes, reports, k);
      UnownedNotCounted(hash, points, nodes', reports', k);
    }
  }
}
