/** One-hop weighted neighbours, in the two forms the repository has: the default trait method
    walks the edges of each seed (`src/graph/backend.rs`); the databases answer with GROUP BY
    queries over at most 100 seeds (`src/graph/traversal.rs`, `src/graph/pg.rs`). */
module Neighbors {
  import opened Wrappers
  import opened Sorting
  import opened Sequences
  import opened GraphEdges

  const MAX_SEED_IDS := 100

  predicate HeavierFirst(a: Row, b: Row) { a.weight >= b.weight }

  /** The list holds the tally, each node once, heaviest first. */
  ghost predicate Ranks(rows: seq<Row>, t: Tally) {
    && (forall i, j :: 0 <= i < j < |rows| ==> rows[i].node != rows[j].node)
    && (forall r :: r in rows <==> r.node in t && t[r.node] == r.weight)
    && SortedBy(HeavierFirst, rows)
  }

  method Rank(t: Tally) returns (result: seq<Row>)
    ensures Ranks(result, t)
  {
    var rows := ToRows(t);
    result := Sort(HeavierFirst, rows);
    SortSorts(HeavierFirst, rows);
    SortPermutes(HeavierFirst, rows);
    SameElements(rows, result);
    assert Distinct(rows);
    DistinctPermutation(rows, result);
    forall i, j | 0 <= i < j < |result| ensures result[i].node != result[j].node {
      assert result[i] in rows && result[j] in rows && result[i] != result[j];
    }
  }

  // ── The walk over the seeds ────────────

  function Other(e: Edge, seed: NodeId): NodeId { if e.source == seed then e.target else e.source }

  function SetOf(s: seq<NodeId>): set<NodeId> { set x | x in s }

  /** The addition made for one edge. */
  function WalkEdge(t: Tally, e: Edge, seed: NodeId, seeds: set<NodeId>): Tally {
    if Other(e, seed) in seeds then t else Add(t, Row(Other(e, seed), e.weight))
  }

  /** The additions made for one seed. */
  function WalkEdges(t: Tally, edges: seq<Edge>, seed: NodeId, seeds: set<NodeId>): Tally {
    if edges == [] then t
    else WalkEdge(WalkEdges(t, edges[..|edges| - 1], seed, seeds), edges[|edges| - 1], seed, seeds)
  }

  lemma WalkEdgeCommutes(t: Tally, a: Edge, b: Edge, seed: NodeId, seeds: set<NodeId>)
    ensures WalkEdge(WalkEdge(t, a, seed, seeds), b, seed, seeds)
         == WalkEdge(WalkEdge(t, b, seed, seeds), a, seed, seeds)
  {}

  lemma WalkLast(t: Tally, edges: seq<Edge>, e: Edge, seed: NodeId, seeds: set<NodeId>)
    ensures WalkEdges(t, edges + [e], seed, seeds) == WalkEdge(WalkEdges(t, edges, seed, seeds), e, seed, seeds)
  {
    assert (edges + [e])[..|edges|] == edges;
  }

  lemma {:induction false} WalkTakesOut(t: Tally, edges: seq<Edge>, j: nat, seed: NodeId, seeds: set<NodeId>)
    requires j < |edges|
    ensures WalkEdges(t, edges, seed, seeds)
         == WalkEdge(WalkEdges(t, RemoveAt(edges, j), seed, seeds), edges[j], seed, seeds)
  {
    var n := |edges| - 1;
    if j == n {
      assert RemoveAt(edges, j) == edges[..n];
    } else {
      var rest := RemoveAt(edges[..n], j);
      WalkTakesOut(t, edges[..n], j, seed, seeds);
      RemoveBeforeLast(edges, j);
      WalkLast(t, rest, edges[n], seed, seeds);
      WalkEdgeCommutes(WalkEdges(t, rest, seed, seeds), edges[j], edges[n], seed, seeds);
    }
  }

  /** The order in which a seed's edges come, by weight or otherwise, makes no difference. */
  lemma {:induction false} WalkIgnoresOrder(t: Tally, a: seq<Edge>, b: seq<Edge>, seed: NodeId, seeds: set<NodeId>)
    requires multiset(a) == multiset(b)
    ensures WalkEdges(t, a, seed, seeds) == WalkEdges(t, b, seed, seeds)
  {
    SameElements(a, b);
    if a != [] {
      var n := |a| - 1;
      assert a[n] in b;
      var j :| 0 <= j < |b| && b[j] == a[n];
      RemoveBoth(a, b, j);
      WalkIgnoresOrder(t, a[..n], RemoveAt(b, j), seed, seeds);
      WalkTakesOut(t, b, j, seed, seeds);
    }
  }

  /** The additions made while walking `walked`, a prefix of the seed list. */
  function WalkPrefix(table: seq<Edge>, walked: seq<NodeId>, seeds: set<NodeId>, dir: Direction,
                      relation: Option<string>): Tally {
    if walked == [] then map[]
    else
      var n := |walked| - 1;
      WalkEdges(WalkPrefix(table, walked[..n], seeds, dir, relation),
                EdgesForNodeDir(table, walked[n], dir, relation), walked[n], seeds)
  }

  function WalkTally(table: seq<Edge>, seedIds: seq<NodeId>, dir: Direction, relation: Option<string>): Tally {
    WalkPrefix(table, seedIds, SetOf(seedIds), dir, relation)
  }

  /** The inner loop: one seed's edges, seeds skipped. */
  method WalkSeed(weights: Tally, edges: seq<Edge>, seed: NodeId, seedSet: set<NodeId>) returns (r: Tally)
    ensures r == WalkEdges(weights, edges, seed, seedSet)
  {
    r := weights;
    for j := 0 to |edges|
      invariant r == WalkEdges(weights, edges[..j], seed, seedSet)
    {
      var other := if edges[j].source == seed then edges[j].target else edges[j].source;
      assert edges[..j + 1][..j] == edges[..j];
      if other !in seedSet {
        r := r[other := Count(r, other) + edges[j].weight];
      }
    }
    assert edges[..|edges|] == edges;
  }

  method NeighborsWeighted(table: seq<Edge>, seedIds: seq<NodeId>, dir: Direction, relation: Option<string>)
    returns (result: seq<Row>)
    ensures Ranks(result, WalkTally(table, seedIds, dir, relation))
  {
    var weights: Tally := map[];
    var seedSet := SetOf(seedIds);
    for i := 0 to |seedIds|
      invariant weights == WalkPrefix(table, seedIds[..i], seedSet, dir, relation)
    {
      weights := WalkSeed(weights, EdgesForNodeDir(table, seedIds[i], dir, relation), seedIds[i], seedSet);
      assert seedIds[..i + 1][..i] == seedIds[..i];
    }
    assert seedIds[..|seedIds|] == seedIds;
    result := Rank(weights);
  }

  // ── The GROUP BY queries ───────────────

  /** The row of one edge in one half, if it has one. */
  function HalfRow(e: Edge, seeds: set<NodeId>, relation: Option<string>, out: bool): seq<Row> {
    var here, there := if out then e.source else e.target, if out then e.target else e.source;
    if here in seeds && RelationOk(e, relation) then [Row(there, e.weight)] else []
  }

  /** Rows of one directional half before grouping: the opposite endpoint and the weight. */
  function HalfRows(table: seq<Edge>, seeds: set<NodeId>, relation: Option<string>, out: bool): seq<Row> {
    if table == [] then []
    else
      var n := |table| - 1;
      HalfRows(table[..n], seeds, relation, out) + HalfRow(table[n], seeds, relation, out)
  }

  /** `SELECT nb, SUM(w) ... GROUP BY nb`. */
  function GroupBy(rows: seq<Row>): Tally {
    map k | k in Nodes(rows) :: SumFor(rows, k)
  }

  function Half(table: seq<Edge>, seeds: set<NodeId>, dir: Direction, relation: Option<string>, out: bool): Tally {
    if dir == (if out then In else Out) then map[] else GroupBy(HalfRows(table, seeds, relation, out))
  }

  function Limited(seedIds: seq<NodeId>): seq<NodeId> {
    if |seedIds| > MAX_SEED_IDS then seedIds[..MAX_SEED_IDS] else seedIds
  }

  function GroupedTally(table: seq<Edge>, seedIds: seq<NodeId>, dir: Direction, relation: Option<string>): Tally {
    var seeds := SetOf(Limited(seedIds));
    Combine(Half(table, seeds, dir, relation, true), Half(table, seeds, dir, relation, false), seeds)
  }

  function Combine(a: Tally, b: Tally, seeds: set<NodeId>): Tally {
    map k | k in a.Keys + b.Keys - seeds :: Count(a, k) + Count(b, k)
  }

  /** Adds the grouped rows of one half, skipping seeds, in whatever order they arrive. */
  method Accumulate(weights: Tally, groups: Tally, seeds: set<NodeId>) returns (r: Tally)
    ensures r.Keys == weights.Keys + (groups.Keys - seeds)
    ensures forall k :: Count(r, k) == Count(weights, k) + if k in seeds then 0.0 else Count(groups, k)
  {
    r := weights;
    var rest := groups.Keys;
    while rest != {}
      invariant rest <= groups.Keys
      invariant r.Keys == weights.Keys + (groups.Keys - rest - seeds)
      invariant forall k :: Count(r, k) == Count(weights, k) + if k in seeds || k in rest then 0.0 else Count(groups, k)
      decreases |rest|
    {
      var nb :| nb in rest;
      rest := rest - {nb};
      if nb !in seeds {
        r := r[nb := Count(r, nb) + groups[nb]];
      }
    }
  }

  method NeighborsGrouped(table: seq<Edge>, seedIds: seq<NodeId>, dir: Direction, relation: Option<string>)
    returns (result: seq<Row>)
    ensures Ranks(result, GroupedTally(table, seedIds, dir, relation))
  {
    var seeds := SetOf(Limited(seedIds));
    var outHalf, inHalf := Half(table, seeds, dir, relation, true), Half(table, seeds, dir, relation, false);
    var first := Accumulate(map[], outHalf, seeds);
    var weights := Accumulate(first, inHalf, seeds);
    result := Rank(weights);
  }

  // ── The common meaning ─────────────────

  /** Edge `e` leads from one of the seeds to `k` in the given direction. */
  ghost predicate Links(e: Edge, seeds: set<NodeId>, dir: Direction, relation: Option<string>, k: NodeId) {
    && (relation.Some? ==> e.relation == relation.value)
    && ((dir != In && e.source in seeds && e.target == k) || (dir != Out && e.target in seeds && e.source == k))
  }

  ghost predicate Linked(table: seq<Edge>, seeds: set<NodeId>, dir: Direction, relation: Option<string>, k: NodeId) {
    exists e :: e in table && Links(e, seeds, dir, relation, k)
  }

  /** Weight that an edge adds to `k`, each seed counted as often as `m` says. */
  ghost function Share(e: Edge, m: multiset<NodeId>, dir: Direction, relation: Option<string>, k: NodeId): real {
    if relation.Some? && e.relation != relation.value then 0.0
    else
      (if dir != In && e.target == k then Times(m[e.source], e.weight) else 0.0)
        + (if dir != Out && e.source == k then Times(m[e.target], e.weight) else 0.0)
  }

  ghost function ShareSum(table: seq<Edge>, m: multiset<NodeId>, dir: Direction, relation: Option<string>,
                          k: NodeId): real {
    if table == [] then 0.0
    else
      var n := |table| - 1;
      ShareSum(table[..n], m, dir, relation, k) + Share(table[n], m, dir, relation, k)
  }

  lemma ShareAdds(e: Edge, m: multiset<NodeId>, s: NodeId, dir: Direction, relation: Option<string>, k: NodeId)
    ensures Share(e, m + multiset{s}, dir, relation, k)
         == Share(e, m, dir, relation, k) + Share(e, multiset{s}, dir, relation, k)
  {
    assert Times(1, e.weight) == Times(0, e.weight) + e.weight;
  }

  lemma {:induction false} ShareSumAdds(table: seq<Edge>, m: multiset<NodeId>, s: NodeId, dir: Direction,
                                        relation: Option<string>, k: NodeId)
    ensures ShareSum(table, m + multiset{s}, dir, relation, k)
         == ShareSum(table, m, dir, relation, k) + ShareSum(table, multiset{s}, dir, relation, k)
  {
    if table != [] {
      var n := |table| - 1;
      ShareSumAdds(table[..n], m, s, dir, relation, k);
      ShareAdds(table[n], m, s, dir, relation, k);
    }
  }

  /** One edge of a seed: it yields a row for `k` exactly when it links the seed to `k`. */
  lemma SeedEdge(e: Edge, seed: NodeId, seeds: set<NodeId>, dir: Direction, relation: Option<string>, k: NodeId)
    requires seed in seeds && k !in seeds
    ensures Touches(e, seed, dir) && RelationOk(e, relation) && Other(e, seed) == k
       <==> Links(e, {seed}, dir, relation, k)
    ensures Share(e, multiset{seed}, dir, relation, k) == if Links(e, {seed}, dir, relation, k) then e.weight else 0.0
  {
    assert Times(1, e.weight) == Times(0, e.weight) + e.weight;
  }

  lemma ShareSumAppend(rest: seq<Edge>, e: Edge, m: multiset<NodeId>, dir: Direction, relation: Option<string>,
                       k: NodeId)
    ensures ShareSum(rest + [e], m, dir, relation, k)
         == ShareSum(rest, m, dir, relation, k) + Share(e, m, dir, relation, k)
  {
    assert (rest + [e])[..|rest|] == rest;
  }

  lemma WhereAppend(rest: seq<Edge>, e: Edge, seed: NodeId, dir: Direction, relation: Option<string>)
    ensures EdgesWhere(rest + [e], seed, dir, relation)
         == EdgesWhere(rest, seed, dir, relation) + if Touches(e, seed, dir) && RelationOk(e, relation) then [e] else []
  {
    assert (rest + [e])[..|rest|] == rest;
  }

  lemma WalkEdgeCounts(w: Tally, e: Edge, seed: NodeId, seeds: set<NodeId>, k: NodeId)
    ensures var hit := k !in seeds && Other(e, seed) == k;
            && (k in WalkEdge(w, e, seed, seeds) <==> k in w || hit)
            && Count(WalkEdge(w, e, seed, seeds), k) == Count(w, k) + if hit then e.weight else 0.0
  {}

  lemma WalkSeedStep(t: Tally, rest: seq<Edge>, e: Edge, seed: NodeId, seeds: set<NodeId>, dir: Direction,
                     relation: Option<string>, k: NodeId)
    requires seed in seeds
    ensures var w := WalkEdges(t, EdgesWhere(rest, seed, dir, relation), seed, seeds);
            var w' := WalkEdges(t, EdgesWhere(rest + [e], seed, dir, relation), seed, seeds);
            var hit := k !in seeds && Links(e, {seed}, dir, relation, k);
            && (k in w' <==> k in w || hit)
            && Count(w', k) == Count(w, k) + if hit then e.weight else 0.0
  {
    var edges := EdgesWhere(rest, seed, dir, relation);
    WhereAppend(rest, e, seed, dir, relation);
    if Touches(e, seed, dir) && RelationOk(e, relation) {
      WalkLast(t, edges, e, seed, seeds);
      WalkEdgeCounts(WalkEdges(t, edges, seed, seeds), e, seed, seeds, k);
    } else {
      assert edges + [] == edges;
    }
    if k !in seeds {
      SeedEdge(e, seed, seeds, dir, relation, k);
    }
  }

  lemma {:induction false} WalkSeedLinks(t: Tally, table: seq<Edge>, seed: NodeId, seeds: set<NodeId>, dir: Direction,
                                         relation: Option<string>, k: NodeId)
    requires seed in seeds
    ensures k in WalkEdges(t, EdgesWhere(table, seed, dir, relation), seed, seeds)
       <==> k in t || (k !in seeds && Linked(table, {seed}, dir, relation, k))
  {
    if table != [] {
      var rest, e := table[..|table| - 1], table[|table| - 1];
      WalkSeedLinks(t, rest, seed, seeds, dir, relation, k);
      WalkSeedStep(t, rest, e, seed, seeds, dir, relation, k);
      assert table == rest + [e];
    }
  }

  lemma WalkSeedCountStep(t: Tally, rest: seq<Edge>, e: Edge, seed: NodeId, seeds: set<NodeId>, dir: Direction,
                          relation: Option<string>, k: NodeId)
    requires seed in seeds && k !in seeds
    ensures Count(WalkEdges(t, EdgesWhere(rest + [e], seed, dir, relation), seed, seeds), k)
              - Count(WalkEdges(t, EdgesWhere(rest, seed, dir, relation), seed, seeds), k)
         == ShareSum(rest + [e], multiset{seed}, dir, relation, k) - ShareSum(rest, multiset{seed}, dir, relation, k)
  {
    WalkSeedStep(t, rest, e, seed, seeds, dir, relation, k);
    SeedEdge(e, seed, seeds, dir, relation, k);
    ShareSumAppend(rest, e, multiset{seed}, dir, relation, k);
  }

  lemma {:induction false} WalkSeedCounts(t: Tally, table: seq<Edge>, seed: NodeId, seeds: set<NodeId>, dir: Direction,
                                          relation: Option<string>, k: NodeId)
    requires seed in seeds && k !in seeds
    ensures Count(WalkEdges(t, EdgesWhere(table, seed, dir, relation), seed, seeds), k)
         == Count(t, k) + ShareSum(table, multiset{seed}, dir, relation, k)
  {
    if table != [] {
      var rest, e := table[..|table| - 1], table[|table| - 1];
      assert table == rest + [e];
      WalkSeedCounts(t, rest, seed, seeds, dir, relation, k);
      WalkSeedCountStep(t, rest, e, seed, seeds, dir, relation, k);
    }
  }

  lemma {:induction false} WalkPrefixMeaning(table: seq<Edge>, walked: seq<NodeId>, seeds: set<NodeId>, dir: Direction,
                                             relation: Option<string>, k: NodeId)
    requires SetOf(walked) <= seeds
    ensures var t := WalkPrefix(table, walked, seeds, dir, relation);
            && (k in t <==> k !in seeds && Linked(table, SetOf(walked), dir, relation, k))
            && (k !in seeds ==> Count(t, k) == ShareSum(table, multiset(walked), dir, relation, k))
  {
    if walked == [] {
      ShareSumNone(table, dir, relation, k);
    } else {
      var n := |walked| - 1;
      var s, rest := walked[n], walked[..n];
      assert walked == rest + [s];
      assert SetOf(walked) == SetOf(rest) + {s};
      WalkPrefixMeaning(table, rest, seeds, dir, relation, k);
      FilterChainIsWhere(table, s, dir, relation);
      WalkSeedLinks(WalkPrefix(table, rest, seeds, dir, relation), table, s, seeds, dir, relation, k);
      if k !in seeds {
        WalkSeedCounts(WalkPrefix(table, rest, seeds, dir, relation), table, s, seeds, dir, relation, k);
      }
      ShareSumAdds(table, multiset(rest), s, dir, relation, k);
      LinkedUnion(table, SetOf(rest), s, dir, relation, k);
    }
  }

  lemma LinkedUnion(table: seq<Edge>, seeds: set<NodeId>, s: NodeId, dir: Direction, relation: Option<string>,
                    k: NodeId)
    ensures Linked(table, seeds + {s}, dir, relation, k)
       <==> Linked(table, seeds, dir, relation, k) || Linked(table, {s}, dir, relation, k)
  {
    if Linked(table, seeds + {s}, dir, relation, k) {
      var e :| e in table && Links(e, seeds + {s}, dir, relation, k);
      assert Links(e, seeds, dir, relation, k) || Links(e, {s}, dir, relation, k);
    }
    if Linked(table, seeds, dir, relation, k) {
      var e :| e in table && Links(e, seeds, dir, relation, k);
      assert Links(e, seeds + {s}, dir, relation, k);
    }
    if Linked(table, {s}, dir, relation, k) {
      var e :| e in table && Links(e, {s}, dir, relation, k);
      assert Links(e, seeds + {s}, dir, relation, k);
    }
  }

  lemma {:induction false} ShareSumNone(table: seq<Edge>, dir: Direction, relation: Option<string>, k: NodeId)
    ensures ShareSum(table, multiset{}, dir, relation, k) == 0.0
  {
    if table != [] { ShareSumNone(table[..|table| - 1], dir, relation, k); }
  }

  /** What the walk computes: exactly the non-seeds one edge away, a seed listed twice
      counting twice. */
  lemma {:induction false} WalkMeaning(table: seq<Edge>, seedIds: seq<NodeId>, dir: Direction, relation: Option<string>,
                                       k: NodeId)
    ensures var t := WalkTally(table, seedIds, dir, relation);
            && (k in t <==> k !in seedIds && Linked(table, SetOf(seedIds), dir, relation, k))
            && (k !in seedIds ==> Count(t, k) == ShareSum(table, multiset(seedIds), dir, relation, k))
  {
    WalkPrefixMeaning(table, seedIds, SetOf(seedIds), dir, relation, k);
  }

  /** Field by field: the neighbours are the nodes outside the seeds at the other end of an edge
      of the relation, if one is given, that leaves (`Out`), enters (`In`) or meets a seed. */
  lemma NeighborIff(table: seq<Edge>, seedIds: seq<NodeId>, dir: Direction, relation: Option<string>, k: NodeId)
    ensures k in WalkTally(table, seedIds, dir, relation)
       <==> k !in seedIds && exists e ::
              && e in table && (relation.Some? ==> e.relation == relation.value)
              && (|| (dir != In && e.source in seedIds && e.target == k)
                  || (dir != Out && e.target in seedIds && e.source == k))
  {
    WalkMeaning(table, seedIds, dir, relation, k);
    var seeds := SetOf(seedIds);
    if Linked(table, seeds, dir, relation, k) {
      var e :| e in table && Links(e, seeds, dir, relation, k);
    }
    if e :| e in table && (relation.Some? ==> e.relation == relation.value)
            && (|| (dir != In && e.source in seedIds && e.target == k)
                || (dir != Out && e.target in seedIds && e.source == k))
    {
      assert Links(e, seeds, dir, relation, k);
    }
  }

  lemma SetShare(e: Edge, seeds: set<NodeId>, dir: Direction, relation: Option<string>, k: NodeId)
    requires dir != Both || k !in seeds
    ensures Share(e, multiset(seeds), dir, relation, k) == if Links(e, seeds, dir, relation, k) then e.weight else 0.0
  {
    assert Times(1, e.weight) == Times(0, e.weight) + e.weight;
  }

  lemma HalfRowsLast(rest: seq<Edge>, e: Edge, seeds: set<NodeId>, relation: Option<string>, out: bool)
    ensures HalfRows(rest + [e], seeds, relation, out)
         == HalfRows(rest, seeds, relation, out) + HalfRow(e, seeds, relation, out)
  {
    assert (rest + [e])[..|rest|] == rest;
  }

  lemma RowsAppend(rows: seq<Row>, row: Row, k: NodeId)
    ensures k in Nodes(rows + [row]) <==> k in Nodes(rows) || row.node == k
    ensures SumFor(rows + [row], k) == SumFor(rows, k) + if row.node == k then row.weight else 0.0
  {
    assert (rows + [row])[..|rows|] == rows;
  }

  lemma HalfRowsAppend(rest: seq<Edge>, e: Edge, seeds: set<NodeId>, relation: Option<string>, out: bool, k: NodeId)
    ensures var rows, rows' := HalfRows(rest, seeds, relation, out), HalfRows(rest + [e], seeds, relation, out);
            var dir := if out then Out else In;
            && (k in Nodes(rows') <==> k in Nodes(rows) || Links(e, seeds, dir, relation, k))
            && SumFor(rows', k) == SumFor(rows, k) + Share(e, multiset(seeds), dir, relation, k)
  {
    var rows := HalfRows(rest, seeds, relation, out);
    HalfRowsLast(rest, e, seeds, relation, out);
    SetShare(e, seeds, if out then Out else In, relation, k);
    if HalfRow(e, seeds, relation, out) == [] {
      assert rows + [] == rows;
    } else {
      RowsAppend(rows, HalfRow(e, seeds, relation, out)[0], k);
    }
  }

  lemma {:induction false} HalfRowsMention(table: seq<Edge>, seeds: set<NodeId>, relation: Option<string>, out: bool,
                                           k: NodeId)
    ensures k in Nodes(HalfRows(table, seeds, relation, out))
       <==> Linked(table, seeds, if out then Out else In, relation, k)
  {
    if table != [] {
      var n := |table| - 1;
      HalfRowsMention(table[..n], seeds, relation, out, k);
      assert table == table[..n] + [table[n]];
      HalfRowsAppend(table[..n], table[n], seeds, relation, out, k);
    }
  }

  lemma {:induction false} HalfRowsSum(table: seq<Edge>, seeds: set<NodeId>, relation: Option<string>, out: bool,
                                       k: NodeId)
    ensures SumFor(HalfRows(table, seeds, relation, out), k)
         == ShareSum(table, multiset(seeds), if out then Out else In, relation, k)
  {
    if table != [] {
      var n := |table| - 1;
      HalfRowsSum(table[..n], seeds, relation, out, k);
      assert table == table[..n] + [table[n]];
      HalfRowsAppend(table[..n], table[n], seeds, relation, out, k);
    }
  }

  lemma HalfMeaning(table: seq<Edge>, seeds: set<NodeId>, dir: Direction, relation: Option<string>, out: bool,
                    k: NodeId)
    ensures var h, d := Half(table, seeds, dir, relation, out), if out then Out else In;
            && (k in h <==> (dir == Both || dir == d) && Linked(table, seeds, d, relation, k))
            && Count(h, k) == if dir == Both || dir == d then ShareSum(table, multiset(seeds), d, relation, k) else 0.0
  {
    HalfRowsMention(table, seeds, relation, out, k);
    HalfRowsSum(table, seeds, relation, out, k);
    if k !in Nodes(HalfRows(table, seeds, relation, out)) {
      SumForAbsent(HalfRows(table, seeds, relation, out), k);
    }
  }

  lemma {:induction false} ShareSumBoth(table: seq<Edge>, m: multiset<NodeId>, relation: Option<string>, k: NodeId)
    ensures ShareSum(table, m, Both, relation, k)
         == ShareSum(table, m, Out, relation, k) + ShareSum(table, m, In, relation, k)
  {
    if table != [] { ShareSumBoth(table[..|table| - 1], m, relation, k); }
  }

  /** What the queries compute: the same, over the first 100 seeds, each counted once. */
  lemma GroupedMeaning(table: seq<Edge>, seedIds: seq<NodeId>, dir: Direction, relation: Option<string>, k: NodeId)
    ensures var t, seeds := GroupedTally(table, seedIds, dir, relation), SetOf(Limited(seedIds));
            && (k in t <==> k !in seeds && Linked(table, seeds, dir, relation, k))
            && (k !in seeds ==> Count(t, k) == ShareSum(table, multiset(seeds), dir, relation, k))
  {
    var seeds := SetOf(Limited(seedIds));
    HalfMeaning(table, seeds, dir, relation, true, k);
    HalfMeaning(table, seeds, dir, relation, false, k);
    ShareSumBoth(table, multiset(seeds), relation, k);
  }

  // ── Agreement ──────────────────────────

  lemma DistinctMultiset(s: seq<NodeId>)
    requires Distinct(s)
    ensures multiset(s) == multiset(SetOf(s))
  {
    DistinctByMultiset(s);
    forall x ensures multiset(s)[x] == multiset(SetOf(s))[x] {
      assert x in s <==> x in multiset(s);
    }
  }

  /** For at most 100 distinct seeds both forms give the same map, for every table, direction
      and relation filter. */
  lemma FormsAgree(table: seq<Edge>, seedIds: seq<NodeId>, dir: Direction, relation: Option<string>)
    requires |seedIds| <= 100 && Distinct(seedIds)
    ensures WalkTally(table, seedIds, dir, relation) == GroupedTally(table, seedIds, dir, relation)
  {
    var w, g := WalkTally(table, seedIds, dir, relation), GroupedTally(table, seedIds, dir, relation);
    DistinctMultiset(seedIds);
    forall k ensures (k in w <==> k in g) && Count(w, k) == Count(g, k) {
      WalkMeaning(table, seedIds, dir, relation, k);
      GroupedMeaning(table, seedIds, dir, relation, k);
    }
    forall k | k in w ensures w[k] == g[k] { assert Count(w, k) == Count(g, k); }
  }

  function MaxLen(s: seq<NodeId>): (r: nat)
    ensures forall x :: x in s ==> |x| <= r
  {
    if s == [] then 0
    else
      var n := |s| - 1;
      var r := MaxLen(s[..n]);
      if |s[n]| > r then |s[n]| else r
  }

  /** A seed whose repetitions the two forms count differently. */
  lemma UnevenSeed(seedIds: seq<NodeId>) returns (s: NodeId)
    requires !(|seedIds| <= MAX_SEED_IDS && Distinct(seedIds))
    ensures s in seedIds
    ensures multiset(seedIds)[s] != multiset(SetOf(Limited(seedIds)))[s]
  {
    if |seedIds| > MAX_SEED_IDS {
      s := seedIds[MAX_SEED_IDS];
      if s in seedIds[..MAX_SEED_IDS] {
        var i :| 0 <= i < MAX_SEED_IDS && seedIds[i] == s;
        TwiceInMultiset(seedIds, i, MAX_SEED_IDS);
      }
      assert s in multiset(seedIds);
    } else {
      var i, j :| 0 <= i < j < |seedIds| && seedIds[i] == seedIds[j];
      s := seedIds[j];
      TwiceInMultiset(seedIds, i, j);
    }
  }

  /** A one-edge table that separates the two forms when a seed repeats or exceeds the limit. */
  lemma FormsDisagree(seedIds: seq<NodeId>, dir: Direction, relation: Option<string>) returns (table: seq<Edge>)
    requires !(|seedIds| <= 100 && Distinct(seedIds))
    ensures WalkTally(table, seedIds, dir, relation) != GroupedTally(table, seedIds, dir, relation)
  {
    var s := UnevenSeed(seedIds);
    var k := seq(MaxLen(seedIds) + 1, _ => 'x');
    assert |k| > MaxLen(seedIds) && k !in seedIds && s != k;
    var e := Edge("", if dir == In then k else s, if dir == In then s else k,
                  if relation.Some? then relation.value else "", 1.0, "");
    table := [e];
    WalkMeaning(table, seedIds, dir, relation, k);
    GroupedMeaning(table, seedIds, dir, relation, k);
    ShareOfOne(e, multiset(seedIds), s, dir, relation, k);
    ShareOfOne(e, multiset(SetOf(Limited(seedIds))), s, dir, relation, k);
  }

  lemma ShareOfOne(e: Edge, m: multiset<NodeId>, s: NodeId, dir: Direction, relation: Option<string>, k: NodeId)
    requires RelationOk(e, relation) && e.weight == 1.0 && s != k
    requires if dir == In then e.source == k && e.target == s else e.source == s && e.target == k
    ensures ShareSum([e], m, dir, relation, k) == m[s] as real
  {
    assert [e][..0] == [];
    TimesOne(m[s]);
  }

  lemma TwiceInMultiset(s: seq<NodeId>, i: nat, j: nat)
    requires i < j < |s| && s[i] == s[j]
    ensures multiset(s)[s[i]] >= 2
  {
    var a, b := s[..j], s[j..];
    assert s == a + b;
    assert a[i] in multiset(a) && b[0] in multiset(b);
  }

  /** The exact condition: the forms agree on every table if and only if the seeds are
      distinct and at most 100. */
  lemma FormsAgreeIffDistinctAndFew(seedIds: seq<NodeId>, dir: Direction, relation: Option<string>)
    ensures (forall table :: WalkTally(table, seedIds, dir, relation) == GroupedTally(table, seedIds, dir, relation))
       <==> |seedIds| <= 100 && Distinct(seedIds)
  {
    if |seedIds| <= MAX_SEED_IDS && Distinct(seedIds) {
      forall table ensures WalkTally(table, seedIds, dir, relation) == GroupedTally(table, seedIds, dir, relation) {
        FormsAgree(table, seedIds, dir, relation);
      }
    } else {
      var table := FormsDisagree(seedIds, dir, relation);
    }
  }

  // ── Conservation ───────────────────────

  /** Weight of the edges that leave (Out), enter (In) or cross (Both) the seed set. */
  ghost function BoundaryWeight(table: seq<Edge>, seeds: set<NodeId>, dir: Direction, relation: Option<string>): real {
    if table == [] then 0.0
    else
      var n := |table| - 1;
      var e := table[n];
      var leaves, enters := e.source in seeds && e.target !in seeds, e.target in seeds && e.source !in seeds;
      BoundaryWeight(table[..n], seeds, dir, relation)
        + if (relation.Some? ==> e.relation == relation.value) && ((dir != In && leaves) || (dir != Out && enters))
          then e.weight else 0.0
  }

  /** What one edge contributes to the neighbours of a seed set: at most one row. */
  ghost function EdgeRow(e: Edge, seeds: set<NodeId>, dir: Direction, relation: Option<string>): Option<Row> {
    if !RelationOk(e, relation) then None
    else if dir != In && e.source in seeds && e.target !in seeds then Some(Row(e.target, e.weight))
    else if dir != Out && e.target in seeds && e.source !in seeds then Some(Row(e.source, e.weight))
    else None
  }

  ghost function AddRow(t: Tally, row: Option<Row>): Tally { if row.Some? then Add(t, row.value) else t }

  /** The row of one edge is its share, and it exists when the edge links. */
  lemma EdgeRowAt(e: Edge, seeds: set<NodeId>, dir: Direction, relation: Option<string>, k: NodeId)
    requires k !in seeds
    ensures var row := EdgeRow(e, seeds, dir, relation);
            var hit := row.Some? && row.value.node == k;
            && (hit <==> Links(e, seeds, dir, relation, k))
            && Share(e, multiset(seeds), dir, relation, k) == if hit then row.value.weight else 0.0
  {
    SetShare(e, seeds, dir, relation, k);
  }

  lemma GroupedStepAt(rest: seq<Edge>, e: Edge, seedIds: seq<NodeId>, dir: Direction, relation: Option<string>,
                      k: NodeId)
    requires |seedIds| <= MAX_SEED_IDS
    ensures var g, g' := GroupedTally(rest, seedIds, dir, relation), GroupedTally(rest + [e], seedIds, dir, relation);
            var row := EdgeRow(e, SetOf(seedIds), dir, relation);
            var hit := row.Some? && row.value.node == k;
            && (k in g' <==> k in g || hit)
            && Count(g', k) == Count(g, k) + if hit then row.value.weight else 0.0
  {
    var seeds := SetOf(seedIds);
    GroupedMeaning(rest, seedIds, dir, relation, k);
    GroupedMeaning(rest + [e], seedIds, dir, relation, k);
    if k !in seeds {
      ShareSumAppend(rest, e, multiset(seeds), dir, relation, k);
      EdgeRowAt(e, seeds, dir, relation, k);
    }
  }

  /** Adding one edge to the table adds it to at most one neighbour. */
  lemma GroupedStep(rest: seq<Edge>, e: Edge, seedIds: seq<NodeId>, dir: Direction, relation: Option<string>)
    requires |seedIds| <= MAX_SEED_IDS
    ensures GroupedTally(rest + [e], seedIds, dir, relation)
         == AddRow(GroupedTally(rest, seedIds, dir, relation), EdgeRow(e, SetOf(seedIds), dir, relation))
  {
    var g, g' := GroupedTally(rest, seedIds, dir, relation), GroupedTally(rest + [e], seedIds, dir, relation);
    var row := EdgeRow(e, SetOf(seedIds), dir, relation);
    var expected := AddRow(g, row);
    forall k ensures (k in g' <==> k in expected) && Count(g', k) == Count(expected, k) {
      GroupedStepAt(rest, e, seedIds, dir, relation, k);
    }
  }

  ghost function RowWeight(row: Option<Row>): real { if row.Some? then row.value.weight else 0.0 }

  lemma BoundaryAppend(rest: seq<Edge>, e: Edge, seeds: set<NodeId>, dir: Direction, relation: Option<string>)
    ensures BoundaryWeight(rest + [e], seeds, dir, relation)
         == BoundaryWeight(rest, seeds, dir, relation) + RowWeight(EdgeRow(e, seeds, dir, relation))
  {
    assert (rest + [e])[..|rest|] == rest;
  }

  lemma TotalAddRow(t: Tally, row: Option<Row>)
    ensures Total(AddRow(t, row)) == Total(t) + RowWeight(row)
  {
    if row.Some? { TotalAdd(t, row.value); }
  }

  /** Nothing is lost and nothing counted twice: the neighbour weights of up to 100 seeds add up
      to the weight on the boundary of the seed set. */
  lemma {:induction false} NeighborsConserveWeight(table: seq<Edge>, seedIds: seq<NodeId>, dir: Direction,
                                                   relation: Option<string>)
    requires |seedIds| <= 100
    ensures Total(GroupedTally(table, seedIds, dir, relation)) == BoundaryWeight(table, SetOf(seedIds), dir, relation)
  {
    if table != [] {
      var n := |table| - 1;
      var rest, e := table[..n], table[n];
      NeighborsConserveWeight(rest, seedIds, dir, relation);
      assert table == rest + [e];
      GroupedStep(rest, e, seedIds, dir, relation);
      BoundaryAppend(rest, e, SetOf(seedIds), dir, relation);
      TotalAddRow(GroupedTally(rest, seedIds, dir, relation), EdgeRow(e, SetOf(seedIds), dir, relation));
    }
  }
}
