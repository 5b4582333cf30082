/** Insert-or-ignore into the edge table under its two unique keys, one edge at a time, in
    one transaction (`src/graph/store.rs`), or in separately committed chunks
    (`src/graph/pg.rs`). */
module Ingestion {
  import opened Sequences
  import opened GraphEdges

  /** Equal ids, or equal `(source, target, relation)`. */
  predicate Clash(a: Edge, b: Edge) {
    a.id == b.id || (a.source == b.source && a.target == b.target && a.relation == b.relation)
  }

  predicate Conflicts(table: seq<Edge>, e: Edge) {
    table != [] && (Clash(table[|table| - 1], e) || Conflicts(table[..|table| - 1], e))
  }

  function Insert(table: seq<Edge>, e: Edge): seq<Edge> {
    if Conflicts(table, e) then table else table + [e]
  }

  function InsertAll(table: seq<Edge>, batch: seq<Edge>): seq<Edge> {
    if batch == [] then table
    else Insert(InsertAll(table, batch[..|batch| - 1]), batch[|batch| - 1])
  }

  predicate Unique(table: seq<Edge>) {
    table == [] || (Unique(table[..|table| - 1]) && !Conflicts(table[..|table| - 1], table[|table| - 1]))
  }

  // ── What the keys mean ─────────────────

  lemma {:induction false} ConflictsIff(table: seq<Edge>, e: Edge)
    ensures Conflicts(table, e) <==> exists t :: t in table && Clash(t, e)
  {
    if table != [] {
      var n := |table| - 1;
      ConflictsIff(table[..n], e);
      assert table == table[..n] + [table[n]];
    }
  }

  /** No two rows share an id, and no two rows share source, target and relation. */
  lemma {:induction false} UniqueIff(table: seq<Edge>)
    ensures Unique(table)
       <==> forall i, j :: 0 <= i < j < |table| ==>
              && table[i].id != table[j].id
              && !(&& table[i].source == table[j].source && table[i].target == table[j].target
                   && table[i].relation == table[j].relation)
  {
    if table != [] {
      var n := |table| - 1;
      UniqueIff(table[..n]);
      ConflictsIff(table[..n], table[n]);
      if Unique(table) {
        forall i | 0 <= i < n ensures !Clash(table[i], table[n]) {
          assert table[..n][i] in table[..n];
        }
      }
    }
  }

  lemma UniqueAppend(table: seq<Edge>, x: Edge)
    ensures Unique(table + [x]) <==> Unique(table) && !Conflicts(table, x)
  {
    assert (table + [x])[..|table|] == table;
  }

  lemma {:induction false} InsertAllKeepsUnique(table: seq<Edge>, batch: seq<Edge>)
    requires Unique(table)
    ensures Unique(InsertAll(table, batch))
  {
    if batch != [] {
      InsertAllKeepsUnique(table, batch[..|batch| - 1]);
      UniqueAppend(InsertAll(table, batch[..|batch| - 1]), batch[|batch| - 1]);
    }
  }

  // ── Batches compose ────────────────────

  lemma AppendLast<T>(a: seq<T>, b: seq<T>)
    requires b != []
    ensures a + b == (a + b[..|b| - 1]) + [b[|b| - 1]]
  {}

  lemma SlicesJoin<T>(s: seq<T>, lo: nat, hi: nat)
    requires lo <= hi <= |s|
    ensures s[..lo] + s[lo..hi] == s[..hi] && s[..hi] + s[hi..] == s
  {}

  /** Two batches one after the other are one batch. */
  lemma {:induction false} InsertAllSplits(table: seq<Edge>, a: seq<Edge>, b: seq<Edge>)
    ensures InsertAll(table, a + b) == InsertAll(InsertAll(table, a), b)
  {
    if b == [] {
      assert a + b == a;
    } else {
      var front := b[..|b| - 1];
      InsertAllSplits(table, a, front);
      AppendLast(a, b);
    }
  }

  // ── Retrying ───────────────────────────

  /** Every row of the batch is already represented, so inserting it again is ignored. */
  ghost predicate Absorbs(table: seq<Edge>, batch: seq<Edge>) {
    forall e :: e in batch ==> Conflicts(table, e)
  }

  lemma {:induction false} InsertAllAbsorbs(table: seq<Edge>, batch: seq<Edge>)
    ensures Absorbs(InsertAll(table, batch), batch)
  {
    if batch != [] {
      var n := |batch| - 1;
      InsertAllAbsorbs(table, batch[..n]);
      forall e | e in batch ensures Conflicts(InsertAll(table, batch), e) {
        assert e in batch[..n] || e == batch[n];
      }
    }
  }

  /** After a batch, from any table, every one of its edges is represented. */
  lemma InsertAllRepresents(table: seq<Edge>, batch: seq<Edge>)
    ensures forall e :: e in batch ==>
              exists t :: && t in InsertAll(table, batch)
                          && (t.id == e.id
                              || (t.source == e.source && t.target == e.target && t.relation == e.relation))
  {
    InsertAllAbsorbs(table, batch);
    forall e | e in batch
      ensures exists t :: && t in InsertAll(table, batch)
                          && (t.id == e.id
                              || (t.source == e.source && t.target == e.target && t.relation == e.relation))
    {
      assert Conflicts(InsertAll(table, batch), e);
      ConflictsIff(InsertAll(table, batch), e);
      var t :| t in InsertAll(table, batch) && Clash(t, e);
    }
  }

  lemma {:induction false} AbsorbedBatchChangesNothing(table: seq<Edge>, batch: seq<Edge>)
    requires Absorbs(table, batch)
    ensures InsertAll(table, batch) == table
  {
    if batch != [] { AbsorbedBatchChangesNothing(table, batch[..|batch| - 1]); }
  }

  /** Re-running the whole batch after any committed prefix gives the table of one
      uninterrupted run. */
  lemma RetryAfterPrefix(table: seq<Edge>, batch: seq<Edge>, committed: nat)
    requires committed <= |batch|
    ensures InsertAll(InsertAll(table, batch[..committed]), batch) == InsertAll(table, batch)
  {
    var first, rest := batch[..committed], batch[committed..];
    var done := InsertAll(table, first);
    InsertAllAbsorbs(table, first);
    AbsorbedBatchChangesNothing(done, first);
    InsertAllSplits(done, first, rest);
    InsertAllSplits(table, first, rest);
    SlicesJoin(batch, 0, committed);
  }

  /** So after several attempts, each of which committed some prefix and then failed.
      `tables[i]` is the table before attempt `i`. */
  lemma {:induction false} RetryAfterAttempts(tables: seq<seq<Edge>>, batch: seq<Edge>, committed: seq<nat>)
    requires |tables| == |committed| + 1
    requires forall i :: 0 <= i < |committed| ==>
               committed[i] <= |batch| && tables[i + 1] == InsertAll(tables[i], batch[..committed[i]])
    ensures InsertAll(tables[|committed|], batch) == InsertAll(tables[0], batch)
    decreases |committed|
  {
    if committed != [] {
      var n := |committed| - 1;
      RetryAfterAttempts(tables[..|tables| - 1], batch, committed[..n]);
      RetryAfterPrefix(tables[n], batch, committed[n]);
    }
  }

  // ── Deleting ───────────────────────────

  lemma {:induction false} FilterConflicts(p: Edge -> bool, table: seq<Edge>, e: Edge)
    requires Conflicts(Filter(p, table), e)
    ensures Conflicts(table, e)
  {
    var n := |table| - 1;
    if !Clash(table[n], e) {
      assert Filter(p, table[..n]) + [] == Filter(p, table[..n]);
      FilterConflicts(p, table[..n], e);
    }
  }

  lemma {:induction false} FilterKeepsUnique(p: Edge -> bool, table: seq<Edge>)
    requires Unique(table)
    ensures Unique(Filter(p, table))
  {
    if table != [] {
      var n := |table| - 1;
      FilterKeepsUnique(p, table[..n]);
      UniqueAppend(Filter(p, table[..n]), table[n]);
      assert Filter(p, table[..n]) + [] == Filter(p, table[..n]);
      if Conflicts(Filter(p, table[..n]), table[n]) { FilterConflicts(p, table[..n], table[n]); }
    }
  }
}
