/** Bounded reachability in its three forms: the breadth-first search of the default trait
    method (`src/graph/backend.rs`) and the recursive queries of the SQLite and PostgreSQL
    backends (`src/graph/traversal.rs`, `src/graph/pg.rs`), all measured against walks. */
module Traversal {
  import opened Wrappers
  import opened Sorting
  import opened GraphEdges
  import opened Neighbors

  /** The edges a traversal may follow. */
  datatype Graph = Graph(table: seq<Edge>, dir: Direction, relation: Option<string>)

  ghost predicate Hop(g: Graph, a: NodeId, b: NodeId) {
    Linked(g.table, {a}, g.dir, g.relation, b)
  }

  /** Field by field: an edge of the graph's relation, if it has one, leads from `a` to `b` in its
      direction. */
  lemma HopIff(g: Graph, a: NodeId, b: NodeId)
    ensures Hop(g, a, b)
       <==> exists e ::
              && e in g.table && (g.relation.Some? ==> e.relation == g.relation.value)
              && ((g.dir != In && e.source == a && e.target == b) || (g.dir != Out && e.target == a && e.source == b))
  {
    if e :| e in g.table && (g.relation.Some? ==> e.relation == g.relation.value)
            && ((g.dir != In && e.source == a && e.target == b) || (g.dir != Out && e.target == a && e.source == b))
    {
      assert Links(e, {a}, g.dir, g.relation, b);
    }
  }

  // ── Walks ──────────────────────────────

  ghost predicate IsWalk(g: Graph, path: seq<NodeId>) {
    path != [] && forall i :: 0 <= i < |path| - 1 ==> Hop(g, path[i], path[i + 1])
  }

  /** A walk of 1 to `k` edges leads from `start` to `n`. */
  ghost predicate Reachable(g: Graph, start: NodeId, n: NodeId, k: nat) {
    exists path :: IsWalk(g, path) && path[0] == start && path[|path| - 1] == n && 1 <= |path| - 1 <= k
  }

  /** At most `k` hops away, layer by layer. */
  ghost predicate Within(g: Graph, start: NodeId, n: NodeId, k: nat)
    decreases k
  {
    if k == 0 then n == start
    else Within(g, start, n, k - 1) || exists m :: Within(g, start, m, k - 1) && Hop(g, m, n)
  }

  lemma {:induction false} WithinHasWalk(g: Graph, start: NodeId, n: NodeId, k: nat) returns (path: seq<NodeId>)
    requires Within(g, start, n, k)
    ensures IsWalk(g, path) && path[0] == start && path[|path| - 1] == n && |path| - 1 <= k
    decreases k
  {
    if k == 0 {
      path := [start];
    } else if Within(g, start, n, k - 1) {
      path := WithinHasWalk(g, start, n, k - 1);
    } else {
      var m :| Within(g, start, m, k - 1) && Hop(g, m, n);
      var front := WithinHasWalk(g, start, m, k - 1);
      path := front + [n];
      forall i | 0 <= i < |path| - 1 ensures Hop(g, path[i], path[i + 1]) {
        if i < |front| - 1 { assert Hop(g, front[i], front[i + 1]); }
      }
    }
  }

  lemma {:induction false} WalkIsWithin(g: Graph, path: seq<NodeId>, k: nat)
    requires IsWalk(g, path) && |path| - 1 <= k
    ensures Within(g, path[0], path[|path| - 1], k)
  {
    if |path| == 1 {
      StartWithin(g, path[0], k);
    } else {
      var front := path[..|path| - 1];
      assert IsWalk(g, front) by {
        forall i | 0 <= i < |front| - 1 ensures Hop(g, front[i], front[i + 1]) {
          assert Hop(g, path[i], path[i + 1]);
        }
      }
      WalkIsWithin(g, front, k - 1);
      assert Hop(g, path[|path| - 2], path[|path| - 2 + 1]);
    }
  }

  lemma {:induction false} StartWithin(g: Graph, start: NodeId, k: nat)
    ensures Within(g, start, start, k)
  {
    if k > 0 { StartWithin(g, start, k - 1); }
  }

  /** Away from the start, the layers and the walks say the same. */
  lemma WithinIsReachable(g: Graph, start: NodeId, n: NodeId, k: nat)
    requires n != start
    ensures Within(g, start, n, k) <==> Reachable(g, start, n, k)
  {
    if Within(g, start, n, k) {
      var path := WithinHasWalk(g, start, n, k);
    }
    if Reachable(g, start, n, k) {
      var path :| IsWalk(g, path) && path[0] == start && path[|path| - 1] == n && 1 <= |path| - 1 <= k;
      WalkIsWithin(g, path, k);
    }
  }

  // ── Breadth-first search ───────────────

  lemma NeighborNodes(g: Graph, node: NodeId, rows: seq<Row>, n: NodeId)
    requires Ranks(rows, WalkTally(g.table, [node], g.dir, g.relation))
    ensures (exists i :: 0 <= i < |rows| && rows[i].node == n) <==> n != node && Hop(g, node, n)
  {
    var t := WalkTally(g.table, [node], g.dir, g.relation);
    WalkMeaning(g.table, [node], g.dir, g.relation, n);
    assert SetOf([node]) == {node};
    if n in t {
      assert Row(n, t[n]) in rows;
    }
    if i :| 0 <= i < |rows| && rows[i].node == n {
      assert rows[i] in rows;
    }
  }

  /** Visits the neighbours of one frontier node, keeping the new ones for the next layer. */
  method ExpandNode(g: Graph, visited: set<NodeId>, next: seq<NodeId>, node: NodeId)
    returns (visited': set<NodeId>, next': seq<NodeId>)
    requires node in visited
    ensures forall n :: n in visited' <==> n in visited || Hop(g, node, n)
    ensures forall n :: n in next' <==> n in next || (n in visited' && n !in visited)
  {
    var rows := NeighborsWeighted(g.table, [node], g.dir, g.relation);
    visited', next' := visited, next;
    for i := 0 to |rows|
      invariant forall n :: n in visited' <==> n in visited || exists j :: 0 <= j < i && rows[j].node == n
      invariant forall n :: n in next' <==> n in next || (n in visited' && n !in visited)
    {
      var nb := rows[i].node;
      if nb !in visited' {
        visited' := visited' + {nb};
        next' := next' + [nb];
      }
    }
    forall n ensures n in visited' <==> n in visited || Hop(g, node, n) {
      NeighborNodes(g, node, rows, n);
    }
  }

  ghost predicate FromAny(g: Graph, nodes: seq<NodeId>, n: NodeId) {
    exists j :: 0 <= j < |nodes| && Hop(g, nodes[j], n)
  }

  /** One layer of the search. */
  method ExpandFrontier(g: Graph, visited: set<NodeId>, frontier: seq<NodeId>)
    returns (visited': set<NodeId>, next: seq<NodeId>)
    requires forall n :: n in frontier ==> n in visited
    ensures forall n :: n in visited' <==> n in visited || FromAny(g, frontier, n)
    ensures forall n :: n in next <==> n in visited' && n !in visited
  {
    visited', next := visited, [];
    for i := 0 to |frontier|
      invariant forall n :: n in visited' <==> n in visited || FromAny(g, frontier[..i], n)
      invariant forall n :: n in next <==> n in visited' && n !in visited
    {
      visited', next := ExpandNode(g, visited', next, frontier[i]);
      forall n ensures n in visited' <==> n in visited || FromAny(g, frontier[..i + 1], n) {}
    }
    assert frontier[..|frontier|] == frontier;
  }

  /** Invariant of the search after `i` layers: `visited` is exactly what lies within `i` hops,
      and everything visited outside the frontier has been expanded. */
  ghost predicate Layered(g: Graph, start: NodeId, visited: set<NodeId>, frontier: seq<NodeId>, i: nat) {
    && (forall n :: n in visited <==> Within(g, start, n, i))
    && (forall n :: n in frontier ==> n in visited)
    && (forall m, n :: m in visited && m !in frontier && Hop(g, m, n) ==> n in visited)
  }

  /** An empty frontier means nothing further is ever found, which justifies the early break. */
  lemma {:induction false} NothingFurther(g: Graph, start: NodeId, visited: set<NodeId>, i: nat, k: nat, n: NodeId)
    requires Layered(g, start, visited, [], i) && i <= k
    ensures n in visited <==> Within(g, start, n, k)
    decreases k
  {
    if i < k {
      NothingFurther(g, start, visited, i, k - 1, n);
      if Within(g, start, n, k) && !Within(g, start, n, k - 1) {
        var m :| Within(g, start, m, k - 1) && Hop(g, m, n);
        NothingFurther(g, start, visited, i, k - 1, m);
      }
    }
  }

  /** The search returns, without repeats, exactly the other nodes that some walk of 1 to `depth`
      edges reaches, following direction and relation, through loops and cycles. */
  method RelatedNodesFiltered(g: Graph, start: NodeId, depth: nat) returns (r: seq<NodeId>)
    ensures Distinct(r)
    ensures forall n :: n in r <==> n != start && Reachable(g, start, n, depth)
  {
    if depth == 0 {
      return [];
    }
    var visited, frontier := {start}, [start];
    var i := 0;
    while i < depth
      invariant i <= depth && Layered(g, start, visited, frontier, i)
    {
      var visited', next := ExpandFrontier(g, visited, frontier);
      visited := visited';
      i := i + 1;
      if next == [] {
        forall n ensures n in visited <==> Within(g, start, n, depth) {
          NothingFurther(g, start, visited, i, depth, n);
        }
        break;
      }
      frontier := next;
    }
    assert forall n :: n in visited <==> Within(g, start, n, depth);
    r := ListOf(visited - {start});
    forall n ensures n in r <==> n != start && Reachable(g, start, n, depth) {
      if n != start { WithinIsReachable(g, start, n, depth); }
    }
  }

  /** A hash set becomes a list in no particular order. */
  method ListOf(s: set<NodeId>) returns (r: seq<NodeId>)
    ensures Distinct(r) && forall n :: n in r <==> n in s
  {
    r := [];
    var rest := s;
    while rest != {}
      invariant rest <= s && Distinct(r)
      invariant forall n :: n in r <==> n in s && n !in rest
      decreases |rest|
    {
      var n :| n in rest;
      rest := rest - {n};
      r := r + [n];
    }
  }

  // ── The recursive queries ──────────────

  type CteRows = iset<(NodeId, nat)>

  /** `SELECT DISTINCT node_id`. */
  ghost predicate Found(rows: CteRows, n: NodeId) { exists l: nat :: (n, l) in rows }

  /** SQLite: two seed terms and two recursive terms; the recursive ones skip the start. */
  ghost predicate SqliteClosed(table: seq<Edge>, start: NodeId, depth: nat, rows: CteRows) {
    && (forall e :: e in table && e.source == start ==> (e.target, 1) in rows)
    && (forall e :: e in table && e.target == start ==> (e.source, 1) in rows)
    && (forall e, l: nat :: e in table && (e.source, l) in rows && e.target != start && l < depth
               ==> (e.target, l + 1) in rows)
    && (forall e, l: nat :: e in table && (e.target, l) in rows && e.source != start && l < depth
               ==> (e.source, l + 1) in rows)
  }

  /** PostgreSQL: one recursive term that takes the opposite endpoint. */
  ghost predicate PgClosed(table: seq<Edge>, start: NodeId, depth: nat, rows: CteRows) {
    && (forall e :: e in table && e.source == start ==> (e.target, 1) in rows)
    && (forall e :: e in table && e.target == start ==> (e.source, 1) in rows)
    && (forall e, m, l: nat :: e in table ==> PgJoin(depth, rows, e, m, l))
  }

  ghost predicate PgJoin(depth: nat, rows: CteRows, e: Edge, m: NodeId, l: nat) {
    var n := if e.source == m then e.target else e.source;
    (m, l) in rows && l < depth && (e.source == m || e.target == m) ==> (n, l + 1) in rows
  }

  /** A recursive query denotes the least set of rows closed under its terms. */
  ghost predicate SqliteCte(table: seq<Edge>, start: NodeId, depth: nat, rows: CteRows) {
    SqliteClosed(table, start, depth, rows)
    && forall other :: SqliteClosed(table, start, depth, other) ==> rows <= other
  }

  ghost predicate PgCte(table: seq<Edge>, start: NodeId, depth: nat, rows: CteRows) {
    PgClosed(table, start, depth, rows) && forall other :: PgClosed(table, start, depth, other) ==> rows <= other
  }

  function Undirected(table: seq<Edge>): Graph { Graph(table, Both, None) }

  /** A walk of exactly `l` edges; if `avoid`, one that does not come back to the start after
      its first edge. */
  ghost predicate Exactly(g: Graph, start: NodeId, n: NodeId, l: nat, avoid: bool)
    decreases l
  {
    if l == 0 then false
    else if l == 1 then Hop(g, start, n)
    else !(avoid && n == start) && exists m :: Exactly(g, start, m, l - 1, avoid) && Hop(g, m, n)
  }

  ghost function LevelRows(g: Graph, start: NodeId, depth: nat, avoid: bool): CteRows {
    iset n: NodeId, l: nat | Exactly(g, start, n, l, avoid) && (l == 1 || l <= depth) :: (n, l)
  }

  lemma EdgeOfHop(table: seq<Edge>, a: NodeId, b: NodeId) returns (e: Edge)
    requires Hop(Undirected(table), a, b)
    ensures e in table && ((e.source == a && e.target == b) || (e.target == a && e.source == b))
  {
    e :| e in table && Links(e, {a}, Both, None, b);
  }

  lemma LevelRowsClosedSqlite(table: seq<Edge>, start: NodeId, depth: nat)
    ensures SqliteClosed(table, start, depth, LevelRows(Undirected(table), start, depth, true))
  {
    var g := Undirected(table);
    forall e | e in table ensures Hop(g, e.source, e.target) && Hop(g, e.target, e.source) {}
  }

  lemma LevelJoin(table: seq<Edge>, start: NodeId, depth: nat, e: Edge, m: NodeId, l: nat)
    requires e in table
    ensures PgJoin(depth, LevelRows(Undirected(table), start, depth, false), e, m, l)
  {
    var g, rows := Undirected(table), LevelRows(Undirected(table), start, depth, false);
    var n := if e.source == m then e.target else e.source;
    if (m, l) in rows && l < depth && (e.source == m || e.target == m) {
      assert Exactly(g, start, m, l, false) && Hop(g, m, n);
      assert Exactly(g, start, n, l + 1, false);
    }
  }

  lemma LevelRowsClosedPg(table: seq<Edge>, start: NodeId, depth: nat)
    ensures PgClosed(table, start, depth, LevelRows(Undirected(table), start, depth, false))
  {
    var rows := LevelRows(Undirected(table), start, depth, false);
    forall e | e in table
      ensures e.source == start ==> (e.target, 1) in rows
      ensures e.target == start ==> (e.source, 1) in rows
    {}
    forall e, m, l: nat | e in table ensures PgJoin(depth, rows, e, m, l) {
      LevelJoin(table, start, depth, e, m, l);
    }
  }

  lemma {:induction false} ClosedHasLevels(table: seq<Edge>, start: NodeId, depth: nat, rows: CteRows, n: NodeId,
                                           l: nat, avoid: bool)
    requires if avoid then SqliteClosed(table, start, depth, rows) else PgClosed(table, start, depth, rows)
    requires Exactly(Undirected(table), start, n, l, avoid) && (l == 1 || l <= depth)
    ensures (n, l) in rows
    decreases l
  {
    var g := Undirected(table);
    if l == 1 {
      var e := EdgeOfHop(table, start, n);
    } else {
      var m :| Exactly(g, start, m, l - 1, avoid) && Hop(g, m, n);
      ClosedHasLevels(table, start, depth, rows, m, l - 1, avoid);
      var e := EdgeOfHop(table, m, n);
      if !avoid {
        assert PgJoin(depth, rows, e, m, l - 1);
      }
    }
  }

  /** The rows of either query are the exact-length walks, so the least set exists and is known. */
  lemma SqliteRows(table: seq<Edge>, start: NodeId, depth: nat)
    ensures forall rows ::
      SqliteCte(table, start, depth, rows) <==> rows == LevelRows(Undirected(table), start, depth, true)
  {
    var levels := LevelRows(Undirected(table), start, depth, true);
    LevelRowsClosedSqlite(table, start, depth);
    forall rows | SqliteClosed(table, start, depth, rows) ensures levels <= rows {
      forall n, l: nat | (n, l) in levels ensures (n, l) in rows {
        ClosedHasLevels(table, start, depth, rows, n, l, true);
      }
    }
  }

  lemma PgRows(table: seq<Edge>, start: NodeId, depth: nat)
    ensures forall rows ::
      PgCte(table, start, depth, rows) <==> rows == LevelRows(Undirected(table), start, depth, false)
  {
    var levels := LevelRows(Undirected(table), start, depth, false);
    LevelRowsClosedPg(table, start, depth);
    forall rows | PgClosed(table, start, depth, rows) ensures levels <= rows {
      forall n, l: nat | (n, l) in levels ensures (n, l) in rows {
        ClosedHasLevels(table, start, depth, rows, n, l, false);
      }
    }
  }

  lemma {:induction false} ExactlyIsWithin(g: Graph, start: NodeId, n: NodeId, l: nat, avoid: bool)
    requires Exactly(g, start, n, l, avoid)
    ensures Within(g, start, n, l)
    decreases l
  {
    if l == 1 {
      assert Within(g, start, start, 0);
    } else {
      var m :| Exactly(g, start, m, l - 1, avoid) && Hop(g, m, n);
      ExactlyIsWithin(g, start, m, l - 1, avoid);
    }
  }

  lemma {:induction false} WithinGrows(g: Graph, start: NodeId, n: NodeId, k: nat, k': nat)
    requires Within(g, start, n, k) && k <= k'
    ensures Within(g, start, n, k')
    decreases k'
  {
    if k < k' { WithinGrows(g, start, n, k, k' - 1); }
  }

  /** What is within `k` hops is also reached without returning to the start. */
  lemma {:induction false} WithinIsExactly(g: Graph, start: NodeId, n: NodeId, k: nat, avoid: bool) returns (l: nat)
    requires Within(g, start, n, k) && n != start
    ensures 1 <= l <= k && Exactly(g, start, n, l, avoid)
    decreases k
  {
    if Within(g, start, n, k - 1) {
      l := WithinIsExactly(g, start, n, k - 1, avoid);
    } else {
      var m :| Within(g, start, m, k - 1) && Hop(g, m, n);
      if m == start {
        l := 1;
      } else {
        l := WithinIsExactly(g, start, m, k - 1, avoid);
        l := l + 1;
      }
    }
  }

  lemma LevelsAreReachable(g: Graph, start: NodeId, depth: nat, avoid: bool, n: NodeId)
    requires n != start
    ensures Found(LevelRows(g, start, depth, avoid), n)
       <==> Reachable(g, start, n, if depth == 0 then 1 else depth)
  {
    var k := if depth == 0 then 1 else depth;
    WithinIsReachable(g, start, n, k);
    if l: nat :| (n, l) in LevelRows(g, start, depth, avoid) {
      ExactlyIsWithin(g, start, n, l, avoid);
      WithinGrows(g, start, n, l, k);
    }
    if Within(g, start, n, k) {
      var l := WithinIsExactly(g, start, n, k, avoid);
      assert (n, l) in LevelRows(g, start, depth, avoid);
    }
  }

  /** PostgreSQL, before LIMIT 500: the same nodes as the search with `Both` and no relation,
      reading depth 0 as 1. */
  lemma PgMeetsSearch(table: seq<Edge>, start: NodeId, depth: nat, rows: CteRows, n: NodeId)
    requires PgCte(table, start, depth, rows)
    ensures n != start && Found(rows, n)
       <==> n != start && Reachable(Undirected(table), start, n, if depth == 0 then 1 else depth)
  {
    PgRows(table, start, depth);
    if n != start { LevelsAreReachable(Undirected(table), start, depth, false, n); }
  }

  /** SQLite, before LIMIT 500: those nodes, and the start itself exactly when it has a
      self-loop. */
  lemma SqliteMeetsSearch(table: seq<Edge>, start: NodeId, depth: nat, rows: CteRows, n: NodeId)
    requires SqliteCte(table, start, depth, rows)
    ensures Found(rows, n)
       <==> if n == start then exists e :: e in table && e.source == start && e.target == start
            else Reachable(Undirected(table), start, n, if depth == 0 then 1 else depth)
  {
    var g := Undirected(table);
    SqliteRows(table, start, depth);
    if n != start {
      LevelsAreReachable(g, start, depth, true, n);
    } else {
      if l: nat :| (start, l) in rows {
        assert l == 1 && Hop(g, start, start);
        var e := EdgeOfHop(table, start, start);
      }
      if e :| e in table && e.source == start && e.target == start {
        assert (start, 1) in rows;
      }
    }
  }

  /** So the queries agree with the search (on the nodes other than the start) exactly when the
      depth is positive or the start has no neighbour but itself. */
  lemma QueriesAgreeIff(table: seq<Edge>, start: NodeId, depth: nat, rows: CteRows)
    requires PgCte(table, start, depth, rows) || SqliteCte(table, start, depth, rows)
    ensures (forall n :: n != start ==> (Found(rows, n) <==> Reachable(Undirected(table), start, n, depth)))
       <==> depth > 0 || forall e :: e in table && (e.source == start || e.target == start) ==> e.source == e.target
  {
    var g := Undirected(table);
    forall n | n != start
      ensures Found(rows, n) <==> Reachable(g, start, n, if depth == 0 then 1 else depth)
    {
      if PgCte(table, start, depth, rows) { PgMeetsSearch(table, start, depth, rows, n); }
      else { SqliteMeetsSearch(table, start, depth, rows, n); }
    }
    if depth == 0 {
      forall n | n != start ensures Reachable(g, start, n, 1) <==> Hop(g, start, n) {
        WithinIsReachable(g, start, n, 1);
        assert Within(g, start, start, 0);
      }
      forall n | n != start && Hop(g, start, n)
        ensures exists e :: e in table && (e.source == start || e.target == start) && e.source != e.target
      {
        var e := EdgeOfHop(table, start, n);
      }
      if e :| e in table && (e.source == start || e.target == start) && e.source != e.target {
        var n := if e.source == start then e.target else e.source;
        assert Reachable(g, start, n, 1) && !Reachable(g, start, n, 0);
      }
    }
  }
}
