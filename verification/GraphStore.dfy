/** The node and edge tables and the operations that change them (`src/graph/store.rs`,
    `src/graph/pg.rs`). */
module GraphStore {
  import opened Wrappers
  import opened Sequences
  import opened GraphEdges
  import opened Ingestion
  import opened Csv
  import opened Lexicographic

  datatype Node = Node(id: NodeId, nodeType: string, title: string, tags: seq<string>, projects: seq<string>,
                       agents: seq<string>, created: string, updated: string, body: string, importance: real,
                       accessCount: int, accessedAt: string, validUntil: string, lastVerified: string)

  /** The columns that every upsert overwrites. */
  datatype Content = Content(nodeType: string, title: string, tags: string, projects: string, agents: string,
                             updated: string, body: string, importance: real,
                             validUntil: string, lastVerified: string)

  /** A row of the `nodes` table, without its key. */
  datatype NodeRow = NodeRow(content: Content, created: string, accessCount: int, accessedAt: string)

  function ContentOf(n: Node): Content {
    Content(n.nodeType, n.title, Join(n.tags), Join(n.projects), Join(n.agents), n.updated, n.body, n.importance,
            n.validUntil, n.lastVerified)
  }

  function RowOf(n: Node): NodeRow { NodeRow(ContentOf(n), n.created, n.accessCount, n.accessedAt) }

  function NodeOf(id: NodeId, r: NodeRow): Node {
    var c := r.content;
    Node(id, c.nodeType, c.title, Split(c.tags), Split(c.projects), Split(c.agents), r.created, c.updated, c.body,
         c.importance, r.accessCount, r.accessedAt, c.validUntil, c.lastVerified)
  }

  function MaxInt(a: int, b: int): int { if a < b then b else a }

  /** `MAX` of two TEXT values. */
  function MaxText(a: string, b: string): string { if Less(a, b) then b else a }

  /** `ON CONFLICT(id) DO UPDATE SET …` */
  function Updated(row: NodeRow, excluded: NodeRow): NodeRow {
    NodeRow(excluded.content, row.created, MaxInt(row.accessCount, excluded.accessCount),
        MaxText(row.accessedAt, excluded.accessedAt))
  }

  function Upsert(nodes: map<NodeId, NodeRow>, n: Node): map<NodeId, NodeRow> {
    nodes[n.id := if n.id in nodes then Updated(nodes[n.id], RowOf(n)) else RowOf(n)]
  }

  // ── Runs of operations ─────────────────

  datatype Tables = Tables(nodes: map<NodeId, NodeRow>, edges: seq<Edge>)

  datatype Operation =
    | PutNode(node: Node)
    | PutEdge(edge: Edge)
    | PutEdges(batch: seq<Edge>, committed: nat)
    | RemoveEdge(edgeId: string)
    | RemoveNode(id: NodeId)

  function WithoutEdge(edges: seq<Edge>, id: string): seq<Edge> { Filter((e: Edge) => e.id != id, edges) }

  function WithoutNode(edges: seq<Edge>, id: NodeId): seq<Edge> { Filter(e => !Touches(e, id, Both), edges) }

  function Apply(t: Tables, op: Operation): Tables {
    match op
    case PutNode(n) => t.(nodes := Upsert(t.nodes, n))
    case PutEdge(e) => t.(edges := Insert(t.edges, e))
    case PutEdges(batch, k) => t.(edges := InsertAll(t.edges, if k <= |batch| then batch[..k] else batch))
    case RemoveEdge(id) => t.(edges := WithoutEdge(t.edges, id))
    case RemoveNode(id) => Tables(t.nodes - {id}, WithoutNode(t.edges, id))
  }

  function Run(t: Tables, ops: seq<Operation>): Tables {
    if ops == [] then t else Apply(Run(t, ops[..|ops| - 1]), ops[|ops| - 1])
  }

  lemma ApplyKeepsUnique(t: Tables, op: Operation)
    requires Unique(t.edges)
    ensures Unique(Apply(t, op).edges)
  {
    match op
    case PutNode(_) =>
    case PutEdge(e) => UniqueAppend(t.edges, e);
    case PutEdges(batch, k) => InsertAllKeepsUnique(t.edges, if k <= |batch| then batch[..k] else batch);
    case RemoveEdge(id) => FilterKeepsUnique((e: Edge) => e.id != id, t.edges);
    case RemoveNode(id) => FilterKeepsUnique(e => !Touches(e, id, Both), t.edges);
  }

  /** Both edge keys stay unique over every run of operations, failed batches included. */
  lemma {:induction false} RunKeepsUnique(t: Tables, ops: seq<Operation>)
    requires Unique(t.edges)
    ensures Unique(Run(t, ops).edges)
  {
    if ops != [] {
      RunKeepsUnique(t, ops[..|ops| - 1]);
      ApplyKeepsUnique(Run(t, ops[..|ops| - 1]), ops[|ops| - 1]);
    }
  }

  // ── One node over a run ────────────────

  /** What was written to one node since it was last deleted. */
  function Writes(ops: seq<Operation>, id: NodeId): seq<Node> {
    if ops == [] then []
    else
      var before := Writes(ops[..|ops| - 1], id);
      match ops[|ops| - 1]
      case PutNode(n) => if n.id == id then before + [n] else before
      case RemoveNode(i) => if i == id then [] else before
      case _ => before
  }

  function HighestCount(w: seq<Node>): int
    requires w != []
  {
    var n := |w| - 1;
    if n == 0 then w[0].accessCount else MaxInt(HighestCount(w[..n]), w[n].accessCount)
  }

  function LatestAccess(w: seq<Node>): string
    requires w != []
  {
    var n := |w| - 1;
    if n == 0 then w[0].accessedAt else MaxText(LatestAccess(w[..n]), w[n].accessedAt)
  }

  lemma {:induction false} HighestCountIsMaximum(w: seq<Node>)
    requires w != []
    ensures forall i :: 0 <= i < |w| ==> w[i].accessCount <= HighestCount(w)
    ensures exists i :: 0 <= i < |w| && w[i].accessCount == HighestCount(w)
  {
    var n := |w| - 1;
    assert w[n].accessCount == HighestCount(w) || (n > 0 && HighestCount(w) == HighestCount(w[..n]));
    if n > 0 {
      HighestCountIsMaximum(w[..n]);
      var k :| 0 <= k < n && w[..n][k].accessCount == HighestCount(w[..n]);
      assert w[k].accessCount == HighestCount(w[..n]);
    }
  }

  lemma {:induction false} LatestAccessIsMaximum(w: seq<Node>)
    requires w != []
    ensures forall i :: 0 <= i < |w| ==> !Less(LatestAccess(w), w[i].accessedAt)
    ensures exists i :: 0 <= i < |w| && w[i].accessedAt == LatestAccess(w)
  {
    var n := |w| - 1;
    if n == 0 {
      LessIrreflexive(w[0].accessedAt);
    } else {
      LatestAccessIsMaximum(w[..n]);
      var top, last := LatestAccess(w[..n]), w[n].accessedAt;
      LessIrreflexive(last);
      forall i | 0 <= i < n ensures !Less(MaxText(top, last), w[i].accessedAt) {
        assert w[..n][i] == w[i];
        if Less(top, last) && Less(last, w[i].accessedAt) { LessTransitive(top, last, w[i].accessedAt); }
      }
      var k :| 0 <= k < n && w[..n][k].accessedAt == top;
      assert w[k].accessedAt == top;
    }
  }

  /** First write wins for `created`, the telemetry never drops, and the last write wins
      everywhere else. */
  function Combined(w: seq<Node>): NodeRow
    requires w != []
  {
    NodeRow(ContentOf(w[|w| - 1]), w[0].created, HighestCount(w), LatestAccess(w))
  }

  ghost predicate Holds(nodes: map<NodeId, NodeRow>, id: NodeId, w: seq<Node>) {
    if w == [] then id !in nodes else id in nodes && nodes[id] == Combined(w)
  }

  /** A node's row after any run is the combination of the writes since its last deletion. */
  lemma {:induction false} RowIsCombinedWrites(t: Tables, ops: seq<Operation>, id: NodeId)
    requires id !in t.nodes
    ensures Holds(Run(t, ops).nodes, id, Writes(ops, id))
    ensures var nodes, w := Run(t, ops).nodes, Writes(ops, id);
            if w == [] then id !in nodes else id in nodes && nodes[id] == Combined(w)
  {
    if ops != [] {
      var n := |ops| - 1;
      RowIsCombinedWrites(t, ops[..n], id);
      ApplyHolds(Run(t, ops[..n]), ops[n], id, Writes(ops[..n], id));
    }
  }

  lemma ApplyHolds(t: Tables, op: Operation, id: NodeId, w: seq<Node>)
    requires Holds(t.nodes, id, w)
    ensures op.PutNode? ==> Holds(Apply(t, op).nodes, id, if op.node.id == id then w + [op.node] else w)
    ensures op.RemoveNode? ==> Holds(Apply(t, op).nodes, id, if op.id == id then [] else w)
    ensures !op.PutNode? && !op.RemoveNode? ==> Holds(Apply(t, op).nodes, id, w)
  {}

  /** What `read_node` decodes. */
  function Read(nodes: map<NodeId, NodeRow>, id: NodeId): Option<Node> {
    if id in nodes then Some(NodeOf(id, nodes[id])) else None
  }

  /** A node written several times: the first `created`, the telemetry highs, and the content
      of the last write with its lists decoded from the comma-joined columns. */
  function Stored(id: NodeId, w: seq<Node>): Node
    requires w != []
  {
    var last := w[|w| - 1];
    last.(id := id, created := w[0].created, accessCount := HighestCount(w), accessedAt := LatestAccess(w),
          tags := Split(Join(last.tags)), projects := Split(Join(last.projects)), agents := Split(Join(last.agents)))
  }

  lemma CombinedDecodes(id: NodeId, w: seq<Node>)
    requires w != []
    ensures NodeOf(id, Combined(w)) == Stored(id, w)
  {}

  /** After any run a read gives nothing if the node was not written since its last deletion,
      and otherwise what those writes stored. */
  lemma ReadAfterRun(t: Tables, ops: seq<Operation>, id: NodeId)
    requires id !in t.nodes
    ensures Read(Run(t, ops).nodes, id) == if Writes(ops, id) == [] then None else Some(Stored(id, Writes(ops, id)))
  {
    RowIsCombinedWrites(t, ops, id);
    if Writes(ops, id) != [] { CombinedDecodes(id, Writes(ops, id)); }
  }

  /** A node written once reads back unchanged exactly when its list items survive the
      comma-joined columns. */
  lemma FirstWriteReadsBackIff(nodes: map<NodeId, NodeRow>, n: Node)
    requires n.id !in nodes
    ensures NodeOf(n.id, Upsert(nodes, n)[n.id]) == n
       <==> AllClean(n.tags) && AllClean(n.projects) && AllClean(n.agents)
  {
    SplitJoinRoundTrip(n.tags);
    SplitJoinRoundTrip(n.projects);
    SplitJoinRoundTrip(n.agents);
  }

  // ── Deleting a node ────────────────────

  ghost predicate NoneTouches(edges: seq<Edge>, id: NodeId) {
    forall e :: e in edges ==> !Touches(e, id, Both)
  }

  predicate AddsEdgeAt(op: Operation, id: NodeId) {
    match op
    case PutEdge(e) => Touches(e, id, Both)
    case PutEdges(batch, _) => exists e :: e in batch && Touches(e, id, Both)
    case _ => false
  }

  lemma {:induction false} InsertAllMembers(table: seq<Edge>, batch: seq<Edge>, e: Edge)
    requires e in InsertAll(table, batch)
    ensures e in table || e in batch
  {
    if batch != [] {
      var n := |batch| - 1;
      if e != batch[n] { InsertAllMembers(table, batch[..n], e); }
    }
  }

  lemma ApplyAddsNone(t: Tables, op: Operation, id: NodeId)
    requires NoneTouches(t.edges, id) && !AddsEdgeAt(op, id)
    ensures NoneTouches(Apply(t, op).edges, id)
  {
    forall e | e in Apply(t, op).edges ensures !Touches(e, id, Both) {
      match op
      case PutNode(_) =>
      case PutEdge(_) =>
      case PutEdges(batch, k) => InsertAllMembers(t.edges, if k <= |batch| then batch[..k] else batch, e);
      case RemoveEdge(_) =>
      case RemoveNode(_) =>
    }
  }

  /** After a node is deleted its edges stay gone until one is appended again. */
  lemma {:induction false} DeletedNodeStaysDetached(t: Tables, id: NodeId, ops: seq<Operation>)
    requires forall i :: 0 <= i < |ops| && ops[i].PutEdge? ==>
               ops[i].edge.source != id && ops[i].edge.target != id
    requires forall i :: 0 <= i < |ops| && ops[i].PutEdges? ==>
               forall e :: e in ops[i].batch ==> e.source != id && e.target != id
    ensures forall e :: e in Run(Apply(t, RemoveNode(id)), ops).edges ==> e.source != id && e.target != id
  {
    NoneAdded(t, id, ops);
    forall e | e in Run(Apply(t, RemoveNode(id)), ops).edges ensures e.source != id && e.target != id {
      assert !Touches(e, id, Both);
    }
  }

  lemma {:induction false} NoneAdded(t: Tables, id: NodeId, ops: seq<Operation>)
    requires forall i :: 0 <= i < |ops| ==> !AddsEdgeAt(ops[i], id)
    ensures NoneTouches(Run(Apply(t, RemoveNode(id)), ops).edges, id)
  {
    if ops != [] {
      var n := |ops| - 1;
      NoneAdded(t, id, ops[..n]);
      ApplyAddsNone(Run(Apply(t, RemoveNode(id)), ops[..n]), ops[n], id);
    }
  }

  // ── The store ──────────────────────────

  /** Rows per transaction on PostgreSQL. */
  const CHUNK: nat := 5000

  function NextChunk(start: nat, length: nat): (next: nat)
    requires start < length
    ensures start < next <= length && next - start <= CHUNK
    ensures start % CHUNK == 0 && next < length ==> next % CHUNK == 0
  {
    if start + CHUNK < length then start + CHUNK else length
  }

  /** Some statement fails in the transaction of the chunk that starts at row `c`. */
  predicate ChunkFails(c: nat, length: nat, failing: nat -> Option<nat>) {
    c < length && failing(c).Some? && failing(c).value <= NextChunk(c, length) - c
  }

  /** No other chunk starts before the next one. */
  lemma OneChunkAhead(start: nat, next: nat)
    requires start % CHUNK == 0 && next - start <= CHUNK
    ensures forall c :: start <= c < next && c % CHUNK == 0 ==> c == start
  {}

  lemma InsertNext(table: seq<Edge>, batch: seq<Edge>, k: nat)
    requires k < |batch|
    ensures InsertAll(table, batch[..k + 1]) == Insert(InsertAll(table, batch[..k]), batch[k])
  {
    assert batch[..k + 1][..k] == batch[..k];
  }

  lemma InsertSlice(table: seq<Edge>, batch: seq<Edge>, lo: nat, hi: nat)
    requires lo <= hi <= |batch|
    ensures InsertAll(InsertAll(table, batch[..lo]), batch[lo..hi]) == InsertAll(table, batch[..hi])
  {
    InsertAllSplits(table, batch[..lo], batch[lo..hi]);
    SlicesJoin(batch, lo, hi);
  }

  class Store {
    var nodes: map<NodeId, NodeRow>
    var edges: seq<Edge>

    ghost predicate Valid() reads this { Unique(edges) }

    ghost function Contents(): Tables reads this { Tables(nodes, edges) }

    constructor ()
      ensures Valid() && Contents() == Tables(map[], [])
    {
      nodes := map[];
      edges := [];
    }

    method UpsertNode(n: Node)
      requires Valid()
      modifies this
      ensures Valid() && Contents() == Apply(old(Contents()), PutNode(n))
    {
      var row := RowOf(n);
      if n.id in nodes {
        var r := nodes[n.id];
        row := row.(created := r.created, accessCount := MaxInt(r.accessCount, row.accessCount),
                    accessedAt := MaxText(r.accessedAt, row.accessedAt));
      }
      nodes := nodes[n.id := row];
    }

    method ReadNode(id: NodeId) returns (n: Option<Node>)
      ensures n == Read(nodes, id)
    {
      if id in nodes {
        n := Some(NodeOf(id, nodes[id]));
      } else {
        n := None;
      }
    }

    method AppendEdge(e: Edge)
      requires Valid()
      modifies this`edges
      ensures Valid() && Contents() == Apply(old(Contents()), PutEdge(e))
    {
      UniqueAppend(edges, e);
      if !Conflicts(edges, e) {
        edges := edges + [e];
      }
    }

    /** The rows of one transaction; an error at statement `failing` (the commit counts as
        the last statement) rolls all of them back. */
    method Transaction(batch: seq<Edge>, failing: Option<nat>) returns (ok: bool)
      requires Valid()
      modifies this`edges
      ensures Valid() && ok == !(failing.Some? && failing.value <= |batch|)
      ensures edges == if ok then InsertAll(old(edges), batch) else old(edges)
    {
      var before := edges;
      for k := 0 to |batch|
        invariant failing.Some? ==> k <= failing.value
        invariant Valid() && edges == InsertAll(before, batch[..k])
      {
        if failing == Some(k) {
          edges := before;
          return false;
        }
        InsertNext(before, batch, k);
        AppendEdge(batch[k]);
      }
      assert batch[..|batch|] == batch;
      ok := failing != Some(|batch|);
      if !ok {
        edges := before;
      }
    }

    /** SQLite: the whole batch in one transaction. */
    method AppendEdges(batch: seq<Edge>, failing: Option<nat>) returns (ok: bool)
      requires Valid()
      modifies this`edges
      ensures Valid() && (ok <==> batch == [] || failing.None? || failing.value > |batch|)
      ensures Contents() == Apply(old(Contents()), PutEdges(batch, if ok then |batch| else 0))
    {
      if batch == [] {
        return true;
      }
      ok := Transaction(batch, failing);
      assert batch[..|batch|] == batch;
    }

    /** PostgreSQL: each chunk is a transaction of its own, and the first that fails ends the
        call.  `failing(c)` is the statement that fails in the chunk starting at row `c`. */
    method AppendEdgesInChunks(batch: seq<Edge>, failing: nat -> Option<nat>) returns (ok: bool, committed: nat)
      requires Valid()
      modifies this`edges
      ensures Valid() && committed <= |batch| && (ok <==> committed == |batch|)
      ensures Contents() == Apply(old(Contents()), PutEdges(batch, committed))
      ensures !ok ==> committed % 5000 == 0 && ChunkFails(committed, |batch|, failing)
      ensures forall c :: 0 <= c < committed && c % 5000 == 0 ==> !ChunkFails(c, |batch|, failing)
    {
      ghost var before := edges;
      committed := 0;
      while committed < |batch|
        invariant committed <= |batch| && (committed < |batch| ==> committed % CHUNK == 0)
        invariant Valid() && edges == InsertAll(before, batch[..committed])
        invariant forall c :: 0 <= c < committed && c % CHUNK == 0 ==> !ChunkFails(c, |batch|, failing)
      {
        var next := NextChunk(committed, |batch|);
        InsertSlice(before, batch, committed, next);
        var done := Transaction(batch[committed..next], failing(committed));
        if !done {
          return false, committed;
        }
        OneChunkAhead(committed, next);
        committed := next;
      }
      ok := true;
    }

    method DeleteEdge(id: string) returns (changed: bool)
      requires Valid()
      modifies this`edges
      ensures Valid() && Contents() == Apply(old(Contents()), RemoveEdge(id))
      ensures changed <==> exists e :: e in old(edges) && e.id == id
    {
      ApplyKeepsUnique(Tables(nodes, edges), RemoveEdge(id));
      changed := exists e :: e in edges && e.id == id;
      edges := WithoutEdge(edges, id);
    }

    /** Edges first, then the node, in one transaction that may fail to commit. */
    method DeleteNode(id: NodeId, commits: bool) returns (changed: Option<bool>)
      requires Valid()
      modifies this
      ensures Valid() && changed == (if commits then Some(id in old(nodes)) else None)
      ensures Contents() == if commits then Apply(old(Contents()), RemoveNode(id)) else old(Contents())
    {
      var savedNodes, savedEdges := nodes, edges;
      ApplyKeepsUnique(Tables(nodes, edges), RemoveNode(id));
      edges := WithoutNode(edges, id);
      var found := id in nodes;
      nodes := nodes - {id};
      if commits {
        return Some(found);
      }
      nodes, edges := savedNodes, savedEdges;
      changed := None;
    }
  }
}
