/** Edges of the knowledge graph, edge lookups, and real-valued tallies (hash maps that
    accumulate `+=`), shared by the neighbour and traversal modules. */
module GraphEdges {
  import opened Wrappers
  import opened Sequences
  import opened Sorting

  type NodeId = string

  datatype Edge = Edge(id: string, source: NodeId, target: NodeId, relation: string, weight: real, ts: string)

  datatype Direction = Out | In | Both

  predicate RelationOk(e: Edge, relation: Option<string>) {
    relation.None? || e.relation == relation.value
  }

  predicate Touches(e: Edge, node: NodeId, dir: Direction) {
    match dir
    case Out => e.source == node
    case In => e.target == node
    case Both => e.source == node || e.target == node
  }

  function EdgesForNode(table: seq<Edge>, node: NodeId): seq<Edge> {
    Filter(e => Touches(e, node, Both), table)
  }

  /** The default trait method: read both directions, then filter twice. */
  function EdgesForNodeDir(table: seq<Edge>, node: NodeId, dir: Direction, relation: Option<string>): seq<Edge> {
    Filter(e => RelationOk(e, relation), Filter(e => Touches(e, node, dir), EdgesForNode(table, node)))
  }

  /** The WHERE clause of the database overrides. */
  function EdgesWhere(table: seq<Edge>, node: NodeId, dir: Direction, relation: Option<string>): seq<Edge> {
    Filter(e => Touches(e, node, dir) && RelationOk(e, relation), table)
  }

  /** The chain of filters selects what the WHERE clause selects. */
  lemma {:induction false} FilterChainIsWhere(table: seq<Edge>, node: NodeId, dir: Direction, relation: Option<string>)
    ensures EdgesForNodeDir(table, node, dir, relation) == EdgesWhere(table, node, dir, relation)
  {
    var both: Edge -> bool := e => Touches(e, node, Both);
    var dirOk: Edge -> bool := e => Touches(e, node, dir);
    var relOk: Edge -> bool := e => RelationOk(e, relation);
    FilterTwice(both, dirOk, dirOk, table);
    FilterTwice(dirOk, relOk, e => Touches(e, node, dir) && RelationOk(e, relation), table);
  }

  /** Field by field: the edges at the node in that direction and, if one is given, of that relation. */
  lemma EdgesForNodeDirIff(table: seq<Edge>, node: NodeId, dir: Direction, relation: Option<string>, e: Edge)
    ensures e in EdgesForNodeDir(table, node, dir, relation)
       <==> && e in table
            && (dir == Out ==> e.source == node)
            && (dir == In ==> e.target == node)
            && (dir == Both ==> e.source == node || e.target == node)
            && (relation.Some? ==> e.relation == relation.value)
  {}

  predicate HeavierEdge(a: Edge, b: Edge) { a.weight >= b.weight }

  /** A result of the override: the selected edges, ordered by descending weight, ties anyhow. */
  ghost predicate IsQueryResult(table: seq<Edge>, node: NodeId, dir: Direction, relation: Option<string>,
                                r: seq<Edge>) {
    multiset(r) == multiset(EdgesWhere(table, node, dir, relation)) && SortedBy(HeavierEdge, r)
  }

  /** Default method and override return the same edges, each as often. */
  lemma ChainMeetsQuery(table: seq<Edge>, node: NodeId, dir: Direction, relation: Option<string>, r: seq<Edge>)
    requires IsQueryResult(table, node, dir, relation, r)
    ensures multiset(EdgesForNodeDir(table, node, dir, relation)) == multiset(r)
  {
    FilterChainIsWhere(table, node, dir, relation);
  }

  /** Every pair that `p` selects stands by descending weight. */
  ghost predicate HeavierFirst(p: Edge -> bool, table: seq<Edge>) {
    forall i, j :: 0 <= i < j < |table| && p(table[i]) && p(table[j]) ==> HeavierEdge(table[i], table[j])
  }

  ghost predicate NoneLighter(p: Edge -> bool, table: seq<Edge>, last: Edge) {
    forall e :: e in table && p(e) ==> HeavierEdge(e, last)
  }

  lemma {:induction false} LastAfterAll(p: Edge -> bool, table: seq<Edge>, last: Edge)
    ensures SortedBy(HeavierEdge, Filter(p, table) + [last])
       <==> SortedBy(HeavierEdge, Filter(p, table)) && NoneLighter(p, table, last)
  {
    var kept := Filter(p, table);
    var s := kept + [last];
    if SortedBy(HeavierEdge, s) {
      forall i, j | 0 <= i < j < |kept| ensures HeavierEdge(kept[i], kept[j]) {
        assert s[i] == kept[i] && s[j] == kept[j];
      }
      forall e | e in table && p(e) ensures HeavierEdge(e, last) {
        var i :| 0 <= i < |kept| && kept[i] == e;
        assert s[i] == e && s[|kept|] == last;
      }
    }
  }

  lemma FilterLast(p: Edge -> bool, table: seq<Edge>)
    requires table != []
    ensures Filter(p, table)
         == if p(table[|table| - 1]) then Filter(p, table[..|table| - 1]) + [table[|table| - 1]]
            else Filter(p, table[..|table| - 1])
  {
    assert Filter(p, table[..|table| - 1]) + [] == Filter(p, table[..|table| - 1]);
  }

  lemma {:induction false} FilterSortedIff(p: Edge -> bool, table: seq<Edge>)
    ensures SortedBy(HeavierEdge, Filter(p, table)) <==> HeavierFirst(p, table)
  {
    if table != [] {
      var n := |table| - 1;
      var front, last := table[..n], table[n];
      FilterSortedIff(p, front);
      HeavierFirstStep(p, table);
      FilterLast(p, table);
      if p(last) { LastAfterAll(p, front, last); }
    }
  }

  lemma HeavierFirstStep(p: Edge -> bool, table: seq<Edge>)
    requires table != []
    ensures HeavierFirst(p, table)
       <==> HeavierFirst(p, table[..|table| - 1])
            && (p(table[|table| - 1]) ==> NoneLighter(p, table[..|table| - 1], table[|table| - 1]))
  {
    var n := |table| - 1;
    var front := table[..n];
    if HeavierFirst(p, table) {
      forall i, j | 0 <= i < j < n && p(front[i]) && p(front[j]) ensures HeavierEdge(front[i], front[j]) {
        assert HeavierEdge(table[i], table[j]);
      }
    }
    if HeavierFirst(p, front) && (p(table[n]) ==> NoneLighter(p, front, table[n])) {
      forall i, j | 0 <= i < j < |table| && p(table[i]) && p(table[j]) ensures HeavierEdge(table[i], table[j]) {
        assert table[i] == front[i];
        if j < n { assert table[j] == front[j]; }
      }
    }
  }

  /** The chain's order is the override's if and only if the rows that the query selects stand
      in the table by descending weight. */
  lemma ChainIsQueryResultIff(table: seq<Edge>, node: NodeId, dir: Direction, relation: Option<string>)
    ensures IsQueryResult(table, node, dir, relation, EdgesForNodeDir(table, node, dir, relation))
       <==> HeavierFirst(e => Touches(e, node, dir) && RelationOk(e, relation), table)
  {
    FilterChainIsWhere(table, node, dir, relation);
    FilterSortedIff(e => Touches(e, node, dir) && RelationOk(e, relation), table);
  }

  /** The edges share an endpoint. */
  predicate Meet(a: Edge, b: Edge) {
    a.source == b.source || a.source == b.target || a.target == b.source || a.target == b.target
  }

  /** Edges that share an endpoint stand by descending weight. */
  ghost predicate MeetingHeavierFirst(table: seq<Edge>) {
    forall i, j :: 0 <= i < j < |table| && Meet(table[i], table[j]) ==> table[i].weight >= table[j].weight
  }

  ghost predicate ChainAnswers(table: seq<Edge>, node: NodeId, dir: Direction, relation: Option<string>) {
    IsQueryResult(table, node, dir, relation, EdgesForNodeDir(table, node, dir, relation))
  }

  lemma MeetingPair(table: seq<Edge>, i: nat, j: nat) returns (node: NodeId)
    requires i < j < |table| && Meet(table[i], table[j])
    ensures ChainAnswers(table, node, Both, None) ==> table[i].weight >= table[j].weight
  {
    var a, b := table[i], table[j];
    node := if a.source == b.source || a.source == b.target then a.source else a.target;
    ChainIsQueryResultIff(table, node, Both, None);
    assert Touches(a, node, Both) && Touches(b, node, Both);
    if ChainAnswers(table, node, Both, None) { assert HeavierEdge(a, b); }
  }

  lemma SelectedHeavierFirst(table: seq<Edge>, node: NodeId, dir: Direction, relation: Option<string>)
    requires MeetingHeavierFirst(table)
    ensures ChainAnswers(table, node, dir, relation)
  {
    ChainIsQueryResultIff(table, node, dir, relation);
  }

  /** For every node, direction and relation the chain answers as the query does, order included,
      if and only if edges that share an endpoint stand in the table by descending weight. */
  lemma ChainsAreQueryResultsIff(table: seq<Edge>)
    ensures (forall node, dir, relation :: ChainAnswers(table, node, dir, relation)) <==> MeetingHeavierFirst(table)
  {
    if forall node, dir, relation :: ChainAnswers(table, node, dir, relation) {
      forall i, j | 0 <= i < j < |table| && Meet(table[i], table[j]) ensures table[i].weight >= table[j].weight {
        var node := MeetingPair(table, i, j);
      }
    }
    if MeetingHeavierFirst(table) {
      forall node, dir, relation ensures ChainAnswers(table, node, dir, relation) {
        SelectedHeavierFirst(table, node, dir, relation);
      }
    }
  }

  // ── Tallies ────────────────────────────

  datatype Row = Row(node: NodeId, weight: real)

  type Tally = map<NodeId, real>

  function Count(t: Tally, k: NodeId): real { if k in t then t[k] else 0.0 }

  function Add(t: Tally, row: Row): Tally {
    t[row.node := Count(t, row.node) + row.weight]
  }

  function SumFor(rows: seq<Row>, k: NodeId): real {
    if rows == [] then 0.0
    else
      var n := |rows| - 1;
      SumFor(rows[..n], k) + if rows[n].node == k then rows[n].weight else 0.0
  }

  function Nodes(rows: seq<Row>): set<NodeId> {
    if rows == [] then {}
    else Nodes(rows[..|rows| - 1]) + {rows[|rows| - 1].node}
  }

  lemma {:induction false} SumForAbsent(rows: seq<Row>, k: NodeId)
    requires k !in Nodes(rows)
    ensures SumFor(rows, k) == 0.0
  {
    if rows != [] { SumForAbsent(rows[..|rows| - 1], k); }
  }

  /** Total weight of a tally. */
  ghost function Total(t: Tally): real {
    if t == map[] then 0.0
    else
      var k :| k in t;
      t[k] + Total(t - {k})
  }

  lemma {:induction false} TotalWithout(t: Tally, k: NodeId)
    requires k in t
    ensures Total(t) == t[k] + Total(t - {k})
  {
    var j :| j in t && Total(t) == t[j] + Total(t - {j});
    if j != k {
      TotalWithout(t - {j}, k);
      TotalWithout(t - {k}, j);
      assert t - {j} - {k} == t - {k} - {j};
    }
  }

  lemma TotalAdd(t: Tally, row: Row)
    ensures Total(Add(t, row)) == Total(t) + row.weight
  {
    var k := row.node;
    TotalWithout(Add(t, row), k);
    if k in t {
      TotalWithout(t, k);
      assert Add(t, row) - {k} == t - {k};
    } else {
      assert Add(t, row) - {k} == t;
    }
  }

  /** A hash map becomes a list in no particular order. */
  method ToRows(t: Tally) returns (rows: seq<Row>)
    ensures forall i, j :: 0 <= i < j < |rows| ==> rows[i].node != rows[j].node
    ensures forall r :: r in rows <==> r.node in t && t[r.node] == r.weight
  {
    rows := [];
    var rest := t.Keys;
    while rest != {}
      invariant rest <= t.Keys
      invariant forall i, j :: 0 <= i < j < |rows| ==> rows[i].node != rows[j].node
      invariant forall r :: r in rows <==> r.node in t && r.node !in rest && t[r.node] == r.weight
      decreases |rest|
    {
      var k :| k in rest;
      rest := rest - {k};
      rows := rows + [Row(k, t[k])];
    }
  }
}
