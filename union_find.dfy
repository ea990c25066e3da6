/** Weighted quick-union with path halving over the nodes 0 .. n-1 (QuickUnion.java).
    Node 0 is special: it is the virtual top of the percolation grid and always
    stays a root. */
module UnionFind {
  import opened Errors

  // ---------------------------------------------------------------------------
  // Forests of parent links, and the partition they stand for
  // ---------------------------------------------------------------------------

  /** Every link of `parent` stays inside 0 .. |parent|-1, and every link that is not
      a self-loop climbs strictly in `rank`: so following links always ends at a root. */
  ghost predicate Ranked(parent: seq<int>, rank: seq<nat>)
  {
    && |rank| == |parent|
    && (forall k :: 0 <= k < |parent| ==> 0 <= parent[k] < |parent|)
    && (forall k :: 0 <= k < |parent| && parent[k] != k ==> rank[k] < rank[parent[k]])
  }

  /** `part[k]` is the root that the links from `k` lead to: the abstract partition,
      one class per root. */
  ghost predicate Labels(parent: seq<int>, rank: seq<nat>, part: seq<int>)
    requires Ranked(parent, rank)
  {
    && |part| == |parent|
    && (forall k :: 0 <= k < |part| ==>
          0 <= part[k] < |parent| && parent[part[k]] == part[k] && rank[k] <= rank[part[k]])
    && (forall k :: 0 <= k < |part| ==> part[parent[k]] == part[k])
    && (forall k :: 0 <= k < |part| && parent[k] == k ==> part[k] == k)
  }

  /** The partition `part` after the classes whose roots are in `merged` are fused
      into one class with root `w`. */
  function Relabel(part: seq<int>, merged: set<int>, w: int): seq<int>
  {
    seq(|part|, k requires 0 <= k < |part| => if part[k] in merged then w else part[k])
  }

  /** The ranking after root `l` is linked under root `w`: `w` is raised above `l`
      when it does not already outrank it. */
  function Raise(rank: seq<nat>, l: int, w: int): seq<nat>
    requires 0 <= l < |rank| && 0 <= w < |rank|
  {
    if rank[l] < rank[w] then rank else rank[w := rank[l] + 1]
  }

  /** The labelling of a forest is unique: whatever ranking witnesses that the links
      are acyclic, two labellings agree at every node. So the ghost partition is a
      function of the parent links alone. */
  lemma {:induction false} LabelsUniqueAt(parent: seq<int>, rank1: seq<nat>, rank2: seq<nat>,
                                          part1: seq<int>, part2: seq<int>, k: int)
    requires Ranked(parent, rank1) && Labels(parent, rank1, part1)
    requires Ranked(parent, rank2) && Labels(parent, rank2, part2)
    requires 0 <= k < |parent|
    ensures part1[k] == part2[k]
    decreases rank1[part1[k]] - rank1[k]
  {
    if parent[k] != k {
      LabelsUniqueAt(parent, rank1, rank2, part1, part2, parent[k]);
    }
  }

  lemma LabelsUnique(parent: seq<int>, rank1: seq<nat>, rank2: seq<nat>,
                     part1: seq<int>, part2: seq<int>)
    requires Ranked(parent, rank1) && Labels(parent, rank1, part1)
    requires Ranked(parent, rank2) && Labels(parent, rank2, part2)
    ensures part1 == part2
  {
    forall k | 0 <= k < |parent| ensures part1[k] == part2[k] {
      LabelsUniqueAt(parent, rank1, rank2, part1, part2, k);
    }
  }

  /** Path halving: redirecting a non-root `i` to its grandparent keeps the forest
      ranked, keeps `i` a non-root, and leaves the root of every node unchanged. */
  lemma HalvingKeepsPartition(parent: seq<int>, rank: seq<nat>, part: seq<int>, i: int)
    requires Ranked(parent, rank) && Labels(parent, rank, part)
    requires 0 <= i < |parent| && parent[i] != i
    ensures parent[i := parent[parent[i]]][i] != i
    ensures Ranked(parent[i := parent[parent[i]]], rank)
    ensures Labels(parent[i := parent[parent[i]]], rank, part)
  {
    var g := parent[parent[i]];
    if parent[g] != g {
      assert parent[parent[i]] != parent[i];
    }
    var parent' := parent[i := g];
    forall k | 0 <= k < |parent'| && parent'[k] != k
      ensures rank[k] < rank[parent'[k]]
    {
      if k == i && parent[parent[i]] != parent[i] {
        assert rank[i] < rank[parent[i]] < rank[g];
      }
    }
  }

  /** Linking root `l` under root `w` keeps the forest ranked (after raising `w`)
      and fuses exactly the classes of `l` and `w`, under `w`. */
  lemma LinkKeepsPartition(parent: seq<int>, rank: seq<nat>, part: seq<int>, l: int, w: int)
    requires Ranked(parent, rank) && Labels(parent, rank, part)
    requires 0 <= l < |parent| && 0 <= w < |parent| && l != w
    requires parent[l] == l && parent[w] == w
    ensures Ranked(parent[l := w], Raise(rank, l, w))
    ensures Labels(parent[l := w], Raise(rank, l, w), Relabel(part, {l, w}, w))
  {
    var parent', rank', part' := parent[l := w], Raise(rank, l, w), Relabel(part, {l, w}, w);
    forall k | 0 <= k < |parent'| && parent'[k] != k
      ensures rank'[k] < rank'[parent'[k]]
    {
      if k != l {
        assert parent[k] != k && k != w;
      }
    }
    forall k | 0 <= k < |part'|
      ensures part'[parent'[k]] == part'[k]
    {
      if k != l {
        assert part[parent[k]] == part[k];
      }
    }
    forall k | 0 <= k < |part'|
      ensures 0 <= part'[k] < |parent'| && parent'[part'[k]] == part'[k] && rank'[k] <= rank'[part'[k]]
    {
      if part[k] != l && part[k] != w {
        assert part[k] != l;
      }
    }
  }

  // ---------------------------------------------------------------------------
  // What the weights mean
  // ---------------------------------------------------------------------------

  /** The sum of the indices of the nodes below `k` that `part` places in the class
      of root `r`. Because each weight starts as the node's own index, a root's
      weight is this sum, not the number of nodes in its tree. */
  ghost function Weight(part: seq<int>, r: int, k: nat): int
    requires k <= |part|
  {
    if k == 0 then 0 else Weight(part, r, k - 1) + (if part[k - 1] == r then k - 1 else 0)
  }

  /** In the initial partition, where every node is its own root, the weight of
      root `r` is `r` itself. */
  lemma {:induction false} WeightOfSingleton(part: seq<int>, r: int, k: nat)
    requires k <= |part|
    requires forall m :: 0 <= m < |part| ==> part[m] == m
    ensures Weight(part, r, k) == if 0 <= r < k then r else 0
  {
    if k > 0 {
      WeightOfSingleton(part, r, k - 1);
    }
  }

  /** Fusing the classes of `l` and `w` under `w` adds their weights. */
  lemma {:induction false} WeightOfMerge(part: seq<int>, l: int, w: int, k: nat)
    requires k <= |part| && l != w
    ensures Weight(Relabel(part, {l, w}, w), w, k) == Weight(part, w, k) + Weight(part, l, k)
  {
    if k > 0 {
      WeightOfMerge(part, l, w, k - 1);
    }
  }

  /** A class that takes no part in a merge keeps its weight. */
  lemma {:induction false} WeightOfBystander(part: seq<int>, merged: set<int>, w: int, c: int, k: nat)
    requires k <= |part| && c !in merged && c != w
    ensures Weight(Relabel(part, merged, w), c, k) == Weight(part, c, k)
  {
    if k > 0 {
      WeightOfBystander(part, merged, w, c, k - 1);
    }
  }

  /** Linking root `l` under root `w` keeps every root's weight equal to the weight
      of its class: under node 0 no weight changes, otherwise `w` takes the sum. */
  lemma LinkKeepsWeights(parent: seq<int>, part: seq<int>, sizes: seq<int>, l: int, w: int)
    requires |parent| == |part| == |sizes|
    requires 0 < l < |parent| && 0 <= w < |parent| && l != w && parent[l] == l && parent[w] == w
    requires forall r {:trigger Weight(part, r, |part|)} :: 0 < r < |parent| && parent[r] == r ==> sizes[r] == Weight(part, r, |part|)
    ensures var sizes' := if w == 0 then sizes else sizes[w := sizes[w] + sizes[l]];
            forall r {:trigger Weight(Relabel(part, {l, w}, w), r, |part|)} :: 0 < r < |parent| && parent[l := w][r] == r ==>
              sizes'[r] == Weight(Relabel(part, {l, w}, w), r, |part|)
  {
    var sizes' := if w == 0 then sizes else sizes[w := sizes[w] + sizes[l]];
    forall r | 0 < r < |parent| && parent[l := w][r] == r
      ensures sizes'[r] == Weight(Relabel(part, {l, w}, w), r, |part|)
    {
      if r == w {
        WeightOfMerge(part, l, w, |part|);
      } else {
        WeightOfBystander(part, {l, w}, w, r, |part|);
      }
    }
  }

  // ---------------------------------------------------------------------------
  // The decision that union takes
  // ---------------------------------------------------------------------------

  /** The root that stays a root when roots `a` and `b` are linked: node 0 whenever it
      is one of them, otherwise the root of larger weight, `a` on a tie. */
  function Survivor(weight: seq<int>, a: int, b: int): (w: int)
    requires 0 <= a < |weight| && 0 <= b < |weight|
    ensures w == a || w == b
    ensures (a == 0 || b == 0) ==> w == 0
    ensures a != 0 && b != 0 && a != b ==>
              (w == b <==> weight[a] < weight[b])
  {
    if a == 0 then a
    else if b == 0 then b
    else if weight[a] < weight[b] then b
    else a
  }

  /** Fusing the classes in `merged` under a root `w` taken from them, as the
      partition sees it: afterwards x and y share a class exactly when they did
      before, or both were in fused classes. */
  lemma RelabelConnectivity(part: seq<int>, merged: set<int>, w: int, x: int, y: int)
    requires 0 <= x < |part| && 0 <= y < |part| && w in merged
    ensures var part' := Relabel(part, merged, w);
            part'[x] == part'[y] <==> part[x] == part[y] || (part[x] in merged && part[y] in merged)
  {
  }

  /** `after` is `before` with the classes of x and y fused and no other change of
      connectivity: two nodes share a class afterwards exactly when they did
      before, or each was with x or with y. */
  ghost predicate MergedExactly(before: seq<int>, after: seq<int>, x: int, y: int)
    requires 0 <= x < |before| && 0 <= y < |before|
  {
    && |after| == |before|
    && after[x] == after[y]
    && forall u, v :: 0 <= u < |before| && 0 <= v < |before| ==>
         (after[u] == after[v] <==>
            before[u] == before[v] || (before[u] in {before[x], before[y]} && before[v] in {before[x], before[y]}))
  }

  /** Fusing the classes of x and y under one of their two roots merges exactly
      those two classes. */
  lemma RelabelMerges(part: seq<int>, x: int, y: int, w: int)
    requires 0 <= x < |part| && 0 <= y < |part| && (w == part[x] || w == part[y])
    ensures MergedExactly(part, Relabel(part, {part[x], part[y]}, w), x, y)
  {
    var merged := {part[x], part[y]};
    forall u, v | 0 <= u < |part| && 0 <= v < |part|
      ensures var part' := Relabel(part, merged, w);
              part'[u] == part'[v] <==> part[u] == part[v] || (part[u] in merged && part[v] in merged)
    {
      RelabelConnectivity(part, merged, w, u, v);
    }
  }

  /** Two successive fusions are one: after the classes in `merged` were fused
      under `w`, fusing the class of `a` (one of them) with the class of `b` fuses
      the classes in `merged` and the original class of `b`. */
  lemma RelabelStep(part: seq<int>, merged: set<int>, w: int, a: int, b: int, w': int)
    requires 0 <= a < |part| && 0 <= b < |part| && w in merged && part[a] in merged
    requires var p := Relabel(part, merged, w); w' == p[a] || w' == p[b]
    ensures var p := Relabel(part, merged, w);
            Relabel(p, {p[a], p[b]}, w') == Relabel(part, merged + {part[b]}, w')
    ensures w' in merged + {part[b]}
  {
    var p := Relabel(part, merged, w);
    forall k | 0 <= k < |part|
      ensures Relabel(p, {p[a], p[b]}, w')[k] == Relabel(part, merged + {part[b]}, w')[k]
    {
      if part[k] !in merged && part[k] == w {
        assert false;
      }
    }
  }

  // ---------------------------------------------------------------------------
  // Consistent states
  // ---------------------------------------------------------------------------

  /** A consistent quick-union state: ranked links, the partition they stand for,
      node 0 a root of weight 0, and every other root weighing the sum of the
      indices in its class. */
  ghost predicate Consistent(parent: seq<int>, rank: seq<nat>, part: seq<int>, sizes: seq<int>)
  {
    && 0 < |parent| == |sizes|
    && Ranked(parent, rank)
    && Labels(parent, rank, part)
    && parent[0] == 0
    && sizes[0] == 0
    && (forall r {:trigger Weight(part, r, |part|)} :: 0 < r < |parent| && parent[r] == r ==> sizes[r] == Weight(part, r, |part|))
  }


  /** Linking root `l` (never node 0) under root `w` keeps the state consistent, with
      the weights updated as union does: unchanged under node 0, summed otherwise. */
  lemma LinkKeepsConsistent(parent: seq<int>, rank: seq<nat>, part: seq<int>, sizes: seq<int>, l: int, w: int)
    requires Consistent(parent, rank, part, sizes)
    requires 0 < l < |parent| && 0 <= w < |parent| && l != w && parent[l] == l && parent[w] == w
    ensures Consistent(parent[l := w], Raise(rank, l, w), Relabel(part, {l, w}, w),
                       if w == 0 then sizes else sizes[w := sizes[w] + sizes[l]])
  {
    LinkKeepsPartition(parent, rank, part, l, w);
    LinkKeepsWeights(parent, part, sizes, l, w);
  }

  /** `after` is `before` with some links moved up to the grandparent. */
  ghost predicate Halved(before: seq<int>, after: seq<int>)
  {
    && |after| == |before|
    && forall k :: 0 <= k < |after| ==>
         after[k] == before[k] || (0 <= before[k] < |before| && after[k] == before[before[k]])
  }

  /** The links of the nodes ranked at least `floor` are the same in `before` and `after`. */
  ghost predicate Untouched(before: seq<int>, after: seq<int>, rank: seq<nat>, floor: int)
    requires |before| == |after| == |rank|
  {
    forall k {:trigger before[k]} :: 0 <= k < |after| && rank[k] >= floor ==> after[k] == before[k]
  }

  /** One step of the root loop: halving at the current node `i` keeps the state
      consistent, keeps the links a halving of the original ones `orig`, and leaves
      untouched every link ranked at least as high as the grandparent, where the
      loop goes next. */
  lemma HalvingStep(orig: seq<int>, parent: seq<int>, rank: seq<nat>, part: seq<int>, sizes: seq<int>, i: int)
    requires Consistent(parent, rank, part, sizes) && |orig| == |parent|
    requires 0 <= i < |parent| && parent[i] != i
    requires Halved(orig, parent) && Untouched(orig, parent, rank, rank[i])
    ensures Consistent(parent[i := parent[parent[i]]], rank, part, sizes)
    ensures Halved(orig, parent[i := parent[parent[i]]])
    ensures Untouched(orig, parent[i := parent[parent[i]]], rank, rank[parent[parent[i]]])
  {
    HalvingKeepsPartition(parent, rank, part, i);
    var g := parent[parent[i]];
    assert rank[i] < rank[parent[i]] <= rank[g];
  }

  // ---------------------------------------------------------------------------
  // The structure
  // ---------------------------------------------------------------------------


  class QuickUnion {
    /** Parent links: `id[k] == k` marks a root. */
    const id: array<int>
    /** Union weights, seeded with each node's own index. */
    const treeSize: array<int>
    /** The abstract partition: the root of every node. */
    ghost var Partition: seq<int>
    /** A ranking that witnesses that the parent links are acyclic. */
    ghost var rank: seq<nat>

    ghost predicate Valid()
      reads this, id, treeSize
    {
      && id != treeSize
      && Consistent(id[..], rank, Partition, treeSize[..])
    }

    /** n singleton classes: every node its own parent, every weight its own index. */
    constructor Init(n: int)
      requires n > 0
      ensures Valid() && fresh(id) && fresh(treeSize)
      ensures id.Length == n
      ensures forall k :: 0 <= k < n ==> id[k] == k && treeSize[k] == k
      ensures Partition == seq(n, k => k)
    {
      var ids := new int[n];
      var sizes := new int[n];
      var i := 0;
      while i < n
        invariant 0 <= i <= n
        invariant forall k :: 0 <= k < i ==> ids[k] == k && sizes[k] == k
      {
        ids[i] := i;
        sizes[i] := i;
        i := i + 1;
      }
      ghost var part := seq(n, k => k);
      forall r | 0 < r < n ensures Weight(part, r, n) == r {
        WeightOfSingleton(part, r, n);
      }
      id := ids;
      treeSize := sizes;
      Partition := part;
      rank := seq(n, k => 0);
    }

    /** The constructor with its argument check: a size that is not positive is
        refused before anything is allocated. */
    static method New(n: int) returns (r: Result<QuickUnion>)
      ensures r.Err? <==> n <= 0
      ensures r.Err? ==> r.error == IllegalArgument
      ensures r.Ok? ==> fresh(r.value) && fresh(r.value.id) && fresh(r.value.treeSize)
      ensures r.Ok? ==> r.value.Valid() && r.value.id.Length == n
      ensures r.Ok? ==> forall k :: 0 <= k < n ==> r.value.id[k] == k && r.value.treeSize[k] == k
    {
      if n <= 0 {
        return Err(IllegalArgument);
      }
      var qu := new QuickUnion.Init(n);
      return Ok(qu);
    }

    /** The index check: a node index outside 0 .. n-1 is refused. */
    function CheckIndex(i: int): (o: Outcome)
      ensures o.Pass? <==> 0 <= i < id.Length
      ensures o.Fail? ==> o.error == IndexOutOfBounds("i", i)
    {
      if i < 0 || i > id.Length - 1 then Fail(IndexOutOfBounds("i", i)) else Pass
    }

    /** Follows the links from `i` to its root, halving the path on the way: each
        visited node is redirected to its grandparent. No node changes class. */
    method Root(i: int) returns (r: int)
      requires Valid() && 0 <= i < id.Length
      modifies id
      ensures Valid() && Partition == old(Partition)
      ensures r == Partition[i] && id[r] == r
      ensures Halved(old(id[..]), id[..])
    {
      var node := i;
      while node != id[node]
        invariant 0 <= node < id.Length
        invariant Valid()
        invariant Partition[node] == Partition[i]
        invariant Untouched(old(id[..]), id[..], rank, rank[node])
        invariant Halved(old(id[..]), id[..])
        decreases rank[Partition[node]] - rank[node]
      {
        ghost var before := id[..];
        HalvingStep(old(id[..]), before, rank, Partition, treeSize[..], node);
        id[node] := id[id[node]];
        assert id[..] == before[node := before[before[node]]];
        node := id[node];
      }
      return node;
    }

    /** Whether p and q are in one class; either index out of range is refused
        before any link is touched. */
    method Connected(p: int, q: int) returns (r: Result<bool>)
      requires Valid()
      modifies id
      ensures Valid()
      ensures r.Ok? <==> 0 <= p < id.Length && 0 <= q < id.Length
      ensures r.Err? ==> r.error == (if CheckIndex(p).Fail? then CheckIndex(p) else CheckIndex(q)).error
      ensures r.Err? ==> unchanged(id)
      ensures r.Ok? ==> (r.value <==> Partition[p] == Partition[q])
    {
      var c := CheckIndex(p);
      if c.Fail? {
        return Err(c.error);
      }
      c := CheckIndex(q);
      if c.Fail? {
        return Err(c.error);
      }
      var rp := Root(p);
      var rq := Root(q);
      return Ok(rp == rq);
    }

    /** Merges the classes of p and q. When they are already one class only the
        paths are halved; otherwise the two roots are linked. */
    method Union(p: int, q: int) returns (o: Outcome)
      requires Valid()
      modifies this, id, treeSize
      ensures Valid() && id[0] == 0 && Partition[0] == 0
      ensures o == (if CheckIndex(p).Fail? then CheckIndex(p) else CheckIndex(q))
      ensures o.Fail? ==> unchanged(this, id, treeSize)
      ensures o.Pass? ==>
        var a, b := old(Partition[p]), old(Partition[q]);
        var w := Survivor(old(treeSize[..]), a, b);
        && Partition == Relabel(old(Partition), {a, b}, w)
        && (a == b ==> Partition == old(Partition))
        && (a != b ==> id[if w == a then b else a] == w)
        && (a != b && w != 0 ==> treeSize[w] == old(treeSize[a]) + old(treeSize[b]))
        && (forall k :: 0 <= k < treeSize.Length && (a == b || k != w || w == 0) ==>
              treeSize[k] == old(treeSize[k]))
      ensures o.Pass? ==> MergedExactly(old(Partition), Partition, p, q)
    {
      var c := CheckIndex(p);
      if c.Fail? {
        return c;
      }
      c := CheckIndex(q);
      if c.Fail? {
        return c;
      }
      ghost var sizes0 := treeSize[..];
      var i := Root(p);
      var j := Root(q);
      assert treeSize[..] == sizes0;
      ghost var part0 := Partition;
      if i == j {
        assert Partition == Relabel(Partition, {i, j}, i);
        RelabelMerges(part0, p, q, i);
        return Pass;
      }
      Link(i, j);
      RelabelMerges(part0, p, q, Survivor(sizes0, i, j));
      return Pass;
    }

    /** The linking step of union, for two distinct roots: node 0 adopts the other
        root; otherwise the root of smaller weight goes under the other one (the
        second root on a tie) and the survivor's weight becomes the sum of both. */
    method Link(i: int, j: int)
      requires Valid()
      requires 0 <= i < id.Length && 0 <= j < id.Length && i != j && id[i] == i && id[j] == j
      modifies this, id, treeSize
      ensures Valid()
      ensures var w := Survivor(old(treeSize[..]), i, j);
        var l := if w == i then j else i;
        && Partition == Relabel(old(Partition), {i, j}, w)
        && id[l] == w
        && (forall k :: 0 <= k < id.Length && k != l ==> id[k] == old(id[k]))
        && (w != 0 ==> treeSize[w] == old(treeSize[i]) + old(treeSize[j]))
        && (forall k :: 0 <= k < treeSize.Length && (k != w || w == 0) ==> treeSize[k] == old(treeSize[k]))
    {
      ghost var parent, part, sizes := id[..], Partition, treeSize[..];
      ghost var w := Survivor(sizes, i, j);
      ghost var l := if w == i then j else i;
      LinkKeepsConsistent(parent, rank, part, sizes, l, w);
      if i == 0 {
        id[j] := i;
      } else if j == 0 {
        id[i] := j;
      } else if treeSize[i] < treeSize[j] {
        id[i] := j;
        assert treeSize[..] == sizes;
        treeSize[j] := treeSize[j] + treeSize[i];
        assert treeSize[..] == sizes[j := sizes[j] + sizes[i]];
      } else {
        id[j] := i;
        assert treeSize[..] == sizes;
        treeSize[i] := treeSize[i] + treeSize[j];
        assert treeSize[..] == sizes[i := sizes[i] + sizes[j]];
      }
      assert id[..] == parent[l := w];
      assert {l, w} == {i, j};
      Partition := Relabel(part, {i, j}, w);
      rank := Raise(rank, l, w);
    }
  }
}
