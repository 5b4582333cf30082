/** `embed` and `embed_batch` of `src/embedding/lazy.rs`: the cached fast form of embedding
    every text.  Each phase holds the cache lock on its own and is a method of its own, so
    what other threads do to the cache between two phases is any other valid content. */
module BatchEmbedding {
  import opened Wrappers
  import opened QueryCache

  /** What the locked model section answers: `ensure_model`, then the provider if present. */
  datatype Model = Model(ready: Result<()>, provider: Option<seq<string> -> Result<seq<Vector>>>)

  function Embedded(E: string -> Vector, texts: seq<string>): (r: seq<Vector>)
    ensures |r| == |texts| && forall i :: 0 <= i < |texts| ==> r[i] == E(texts[i])
  {
    seq(|texts|, i requires 0 <= i < |texts| => E(texts[i]))
  }

  ghost predicate Consistent(es: seq<Entry>, E: string -> Vector) {
    forall i :: 0 <= i < |es| ==> es[i].value == E(es[i].key)
  }

  function Gets(texts: seq<string>): (ops: seq<CacheOp>)
    ensures |ops| == |texts|
  {
    seq(|texts|, i requires 0 <= i < |texts| => CacheOp.Get(texts[i]))
  }

  function Inserts(texts: seq<string>, vectors: seq<Vector>): (ops: seq<CacheOp>)
    requires |texts| == |vectors|
    ensures |ops| == |texts|
  {
    seq(|texts|, i requires 0 <= i < |texts| => CacheOp.Insert(texts[i], vectors[i]))
  }

  /** Positions of the texts that a cache with these entries cannot answer. */
  function MissIndices(es: seq<Entry>, texts: seq<string>): seq<nat> {
    if texts == [] then []
    else
      var n := |texts| - 1;
      MissIndices(es, texts[..n]) + if Lookup(es, texts[n]).Some? then [] else [n]
  }

  lemma {:induction false} MissIndicesAreTheMisses(es: seq<Entry>, texts: seq<string>)
    ensures var ms := MissIndices(es, texts);
            && (forall j :: 0 <= j < |ms| ==> ms[j] < |texts|)
            && (forall j, k :: 0 <= j < k < |ms| ==> ms[j] < ms[k])
            && (forall i :: 0 <= i < |texts| ==> (i in ms <==> Lookup(es, texts[i]).None?))
  {
    if texts != [] {
      MissIndicesAreTheMisses(es, texts[..|texts| - 1]);
    }
  }

  /** The texts themselves, in input order. */
  function Misses(es: seq<Entry>, texts: seq<string>): seq<string> {
    if texts == [] then []
    else
      var n := |texts| - 1;
      Misses(es, texts[..n]) + if Lookup(es, texts[n]).Some? then [] else [texts[n]]
  }

  lemma {:induction false} MissesAtIndices(es: seq<Entry>, texts: seq<string>)
    ensures var ms := MissIndices(es, texts);
            && |Misses(es, texts)| == |ms|
            && (forall j :: 0 <= j < |ms| ==> ms[j] < |texts| && Misses(es, texts)[j] == texts[ms[j]])
  {
    if texts != [] {
      MissesAtIndices(es, texts[..|texts| - 1]);
    }
  }

  // ── Facts about the cache under these operations ───

  lemma {:induction false} LookupWithout(es: seq<Entry>, key: string, other: string)
    requires key != other
    ensures Lookup(Without(es, key), other) == Lookup(es, other)
  {
    if es != [] {
      LookupWithout(es[1..], key, other);
    }
  }

  lemma {:induction false} LookupAppend(es: seq<Entry>, e: Entry, key: string)
    ensures Lookup(es + [e], key)
         == if Lookup(es, key).Some? then Lookup(es, key) else if e.key == key then Some(e.value) else None
  {
    if es != [] {
      assert (es + [e])[1..] == es[1..] + [e];
      LookupAppend(es[1..], e, key);
    }
  }

  /** A lookup reorders the cache but changes no answer. */
  lemma GetKeepsAnswers(capacity: nat, es: seq<Entry>, key: string, other: string)
    ensures Lookup(After(capacity, es, CacheOp.Get(key)), other) == Lookup(es, other)
  {
    var hit := Lookup(es, key);
    if hit.Some? {
      WithoutElements(es, key);
      LookupAppend(Without(es, key), Entry(key, hit.value), other);
      if other != key { LookupWithout(es, key, other); }
    }
  }

  lemma {:induction false} GetsKeepAnswers(capacity: nat, es: seq<Entry>, texts: seq<string>, other: string)
    ensures Lookup(Run(capacity, es, Gets(texts)), other) == Lookup(es, other)
  {
    if texts != [] {
      var n := |texts| - 1;
      assert Gets(texts)[..n] == Gets(texts[..n]);
      GetsKeepAnswers(capacity, es, texts[..n], other);
      GetKeepsAnswers(capacity, Run(capacity, es, Gets(texts[..n])), texts[n], other);
    }
  }

  lemma AfterKeepsConsistent(capacity: nat, es: seq<Entry>, op: CacheOp, E: string -> Vector)
    requires Consistent(es, E)
    requires op.Insert? ==> op.value == E(op.key)
    ensures Consistent(After(capacity, es, op), E)
  {
    var rest := Without(es, op.key);
    WithoutElements(es, op.key);
    forall i | 0 <= i < |rest| ensures rest[i].value == E(rest[i].key) {
      assert rest[i] in es;
    }
    LookupConsistent(es, op.key, E);
  }

  lemma {:induction false} LookupConsistent(es: seq<Entry>, key: string, E: string -> Vector)
    requires Consistent(es, E)
    ensures Lookup(es, key).Some? ==> Lookup(es, key).value == E(key)
  {
    if es != [] {
      assert forall i :: 1 <= i < |es| ==> es[i] == es[1..][i - 1];
      LookupConsistent(es[1..], key, E);
    }
  }

  lemma {:induction false} RunKeepsConsistent(capacity: nat, es: seq<Entry>, ops: seq<CacheOp>, E: string -> Vector)
    requires Consistent(es, E)
    requires forall op :: op in ops && op.Insert? ==> op.value == E(op.key)
    ensures Consistent(Run(capacity, es, ops), E)
    decreases |ops|
  {
    if ops != [] {
      var n := |ops| - 1;
      RunKeepsConsistent(capacity, es, ops[..n], E);
      AfterKeepsConsistent(capacity, Run(capacity, es, ops[..n]), ops[n], E);
    }
  }

  // ── The phases ─────────────────────────

  /** What a cache with these entries answers. */
  function Answers(es: seq<Entry>, texts: seq<string>): (r: seq<Option<Vector>>)
    ensures |r| == |texts| && forall i :: 0 <= i < |texts| ==> r[i] == Lookup(es, texts[i])
  {
    seq(|texts|, i requires 0 <= i < |texts| => Lookup(es, texts[i]))
  }

  lemma SetNext(answers: seq<Option<Vector>>, i: nat)
    requires i < |answers|
    ensures var r := answers[..i] + seq(|answers| - i, _ => None);
            var next := answers[..i + 1] + seq(|answers| - i - 1, _ => None);
            next == r[i := answers[i]] && (answers[i].None? ==> next == r)
  {}

  /** Phase 1: look every text up, recording the misses. */
  method LookUpAll(cache: EmbeddingCache, texts: seq<string>)
    returns (results: seq<Option<Vector>>, missIndices: seq<nat>, missTexts: seq<string>)
    requires cache.Valid()
    modifies cache`entries
    ensures cache.Valid()
    ensures cache.entries == Run(cache.capacity, old(cache.entries), Gets(texts))
    ensures results == Answers(old(cache.entries), texts)
    ensures missIndices == MissIndices(old(cache.entries), texts)
    ensures missTexts == Misses(old(cache.entries), texts)
  {
    ghost var before := cache.entries;
    ghost var answers := Answers(before, texts);
    results := seq(|texts|, _ => None);
    missIndices, missTexts := [], [];
    for i := 0 to |texts|
      invariant cache.Valid()
      invariant cache.entries == Run(cache.capacity, before, Gets(texts[..i]))
      invariant results == answers[..i] + seq(|texts| - i, _ => None)
      invariant missIndices == MissIndices(before, texts[..i])
      invariant missTexts == Misses(before, texts[..i])
    {
      LookUpStep(cache.capacity, before, texts, i);
      var cached := cache.Get(texts[i]);
      SetNext(answers, i);
      if cached.Some? {
        results := results[i := cached];
      } else {
        missIndices := missIndices + [i];
        missTexts := missTexts + [texts[i]];
      }
    }
    assert texts[..|texts|] == texts;
  }

  lemma LookUpStep(capacity: nat, es: seq<Entry>, texts: seq<string>, i: nat)
    requires i < |texts|
    ensures var so := Run(capacity, es, Gets(texts[..i]));
            && Lookup(so, texts[i]) == Lookup(es, texts[i])
            && Run(capacity, es, Gets(texts[..i + 1])) == After(capacity, so, CacheOp.Get(texts[i]))
    ensures MissIndices(es, texts[..i + 1])
         == MissIndices(es, texts[..i]) + if Lookup(es, texts[i]).Some? then [] else [i]
    ensures Misses(es, texts[..i + 1]) == Misses(es, texts[..i]) + if Lookup(es, texts[i]).Some? then [] else [texts[i]]
  {
    GetsKeepAnswers(capacity, es, texts[..i], texts[i]);
    assert texts[..i + 1][..i] == texts[..i];
    assert Gets(texts[..i + 1])[..i] == Gets(texts[..i]);
  }

  lemma InsertsNext(capacity: nat, es: seq<Entry>, keys: seq<string>, vectors: seq<Vector>, b: nat)
    requires b < |keys| == |vectors|
    ensures Run(capacity, es, Inserts(keys[..b + 1], vectors[..b + 1]))
         == After(capacity, Run(capacity, es, Inserts(keys[..b], vectors[..b])), CacheOp.Insert(keys[b], vectors[b]))
  {
    var ops := Inserts(keys[..b + 1], vectors[..b + 1]);
    assert ops[..|ops| - 1] == Inserts(keys[..b], vectors[..b]);
  }

  /** Phase 5: put the fresh vectors into their slots and into the cache. */
  method Merge(cache: EmbeddingCache, texts: seq<string>, found: seq<Option<Vector>>,
               missIndices: seq<nat>, missTexts: seq<string>, vectors: seq<Vector>)
    returns (results: seq<Option<Vector>>)
    requires cache.Valid()
    requires |found| == |texts| && |missIndices| == |missTexts| == |vectors|
    requires forall j :: 0 <= j < |missIndices| ==> missIndices[j] < |texts| && missTexts[j] == texts[missIndices[j]]
    requires forall j, k :: 0 <= j < k < |missIndices| ==> missIndices[j] < missIndices[k]
    modifies cache`entries
    ensures cache.Valid()
    ensures cache.entries == Run(cache.capacity, old(cache.entries), Inserts(missTexts, vectors))
    ensures |results| == |texts|
    ensures forall j :: 0 <= j < |missIndices| ==> results[missIndices[j]] == Some(vectors[j])
    ensures forall i :: 0 <= i < |texts| && i !in missIndices ==> results[i] == found[i]
  {
    ghost var before := cache.entries;
    results := found;
    for b := 0 to |missIndices|
      invariant cache.Valid() && |results| == |texts|
      invariant cache.entries == Run(cache.capacity, before, Inserts(missTexts[..b], vectors[..b]))
      invariant forall j :: 0 <= j < b ==> results[missIndices[j]] == Some(vectors[j])
      invariant forall i :: 0 <= i < |texts| && i !in missIndices[..b] ==> results[i] == found[i]
    {
      var i := missIndices[b];
      cache.Insert(texts[i], vectors[b]);
      results := results[i := Some(vectors[b])];
      InsertsNext(cache.capacity, before, missTexts, vectors, b);
      assert missIndices[..b + 1] == missIndices[..b] + [i];
    }
    assert missTexts[..|missIndices|] == missTexts && vectors[..|missIndices|] == vectors;
    assert missIndices[..|missIndices|] == missIndices;
  }

  /** Phases 3 and 4: the model must be ready and its provider return one vector per input. */
  method CallProvider(model: Model, texts: seq<string>) returns (r: Result<seq<Vector>>)
    ensures r.Ok? <==> Served(model, texts)
    ensures r.Ok? ==> r == model.provider.value(texts)
  {
    if model.ready.Err? {
      return Err(model.ready.error);
    }
    if model.provider.None? {
      return Err("provider not available");
    }
    var batch := model.provider.value(texts);
    if batch.Ok? && |batch.value| != |texts| {
      return Err("provider returned the wrong number of embeddings");
    }
    return batch;
  }

  ghost predicate Served(model: Model, texts: seq<string>) {
    && model.ready.Ok? && model.provider.Some?
    && var batch := model.provider.value(texts);
       batch.Ok? && |batch.value| == |texts|
  }

  /** What other threads do to the cache while the call does not hold its lock. */
  method Interfere(cache: EmbeddingCache, ops: seq<CacheOp>)
    requires cache.Valid()
    modifies cache`entries
    ensures cache.Valid() && cache.entries == Run(cache.capacity, old(cache.entries), ops)
  {
    ghost var before := cache.entries;
    for i := 0 to |ops|
      invariant cache.Valid() && cache.entries == Run(cache.capacity, before, ops[..i])
    {
      assert ops[..i + 1][..i] == ops[..i];
      match ops[i] {
        case Get(key) => var _ := cache.Get(key);
        case Insert(key, value) => cache.Insert(key, value);
      }
    }
    assert ops[..|ops|] == ops;
  }

  /** The cache when the misses are merged: looked through, and used by others meanwhile. */
  function Between(capacity: nat, before: seq<Entry>, texts: seq<string>, meanwhile: seq<CacheOp>): seq<Entry> {
    Run(capacity, Run(capacity, before, Gets(texts)), meanwhile)
  }

  /** Exactly when `embed_batch` succeeds, what it returns, and what it leaves in the cache:
      cached answers are returned as they stand, the j-th miss gets the provider's j-th vector,
      and the cache sees one lookup per text and, on success, one insertion per miss, with
      whatever other threads do to it in between. */
  ghost predicate BatchOutcome(capacity: nat, before: seq<Entry>, texts: seq<string>, model: Model,
                               meanwhile: seq<CacheOp>, r: Result<seq<Vector>>, after: seq<Entry>)
  {
    var misses, at := Misses(before, texts), MissIndices(before, texts);
    && (r.Ok? <==> misses == [] || Served(model, misses))
    && (r.Err? ==> after == Between(capacity, before, texts, meanwhile))
    && (r.Ok? ==> |r.value| == |texts|)
    && (r.Ok? ==> forall i :: 0 <= i < |texts| && Lookup(before, texts[i]).Some?
                              ==> r.value[i] == Lookup(before, texts[i]).value)
    && (r.Ok? && misses == [] ==> after == Run(capacity, before, Gets(texts)))
    && (r.Ok? && misses != [] ==>
          var vectors := model.provider.value(misses).value;
          && after == Run(capacity, Between(capacity, before, texts, meanwhile), Inserts(misses, vectors))
          && (forall j :: 0 <= j < |at| && j < |vectors| && at[j] < |texts| ==> r.value[at[j]] == vectors[j]))
  }

  /** Phases 3 to 6, when something was missed. */
  method EmbedMisses(cache: EmbeddingCache, texts: seq<string>, model: Model, meanwhile: seq<CacheOp>,
                     found: seq<Option<Vector>>, missIndices: seq<nat>, missTexts: seq<string>,
                     ghost before: seq<Entry>)
    returns (r: Result<seq<Vector>>)
    requires cache.Valid() && cache.entries == Run(cache.capacity, before, Gets(texts))
    requires found == Answers(before, texts)
    requires missIndices == MissIndices(before, texts) && missTexts == Misses(before, texts) && missTexts != []
    modifies cache`entries
    ensures cache.Valid()
    ensures BatchOutcome(cache.capacity, before, texts, model, meanwhile, r, cache.entries)
  {
    MissIndicesAreTheMisses(before, texts);
    MissesAtIndices(before, texts);
    Interfere(cache, meanwhile);
    var batch := CallProvider(model, missTexts);
    if batch.Err? {
      return batch;
    }
    var results := Merge(cache, texts, found, missIndices, missTexts, batch.value);
    MergedSlots(before, texts, results, batch.value);
    r := Ok(Filled(results));
  }

  /** With the misses' vectors in their slots no slot is empty, and the cached answers stand. */
  lemma MergedSlots(before: seq<Entry>, texts: seq<string>, results: seq<Option<Vector>>, vectors: seq<Vector>)
    requires var at := MissIndices(before, texts);
             && |results| == |texts| && |vectors| == |at|
             && (forall j :: 0 <= j < |at| ==> at[j] < |texts| && results[at[j]] == Some(vectors[j]))
             && (forall i :: 0 <= i < |texts| && i !in at ==> results[i] == Answers(before, texts)[i])
    ensures forall i :: 0 <= i < |texts| ==> results[i].Some?
    ensures forall i :: 0 <= i < |texts| && Lookup(before, texts[i]).Some? ==> results[i] == Lookup(before, texts[i])
  {
    MissIndicesAreTheMisses(before, texts);
  }

  method EmbedBatch(cache: EmbeddingCache, texts: seq<string>, model: Model, meanwhile: seq<CacheOp>)
    returns (r: Result<seq<Vector>>)
    requires cache.Valid()
    modifies cache`entries
    ensures cache.Valid()
    ensures BatchOutcome(cache.capacity, old(cache.entries), texts, model, meanwhile, r, cache.entries)
  {
    if texts == [] {
      return Ok([]);
    }
    ghost var before := cache.entries;
    var found, missIndices, missTexts := LookUpAll(cache, texts);
    if missIndices != [] {
      MissesAtIndices(before, texts);
      r := EmbedMisses(cache, texts, model, meanwhile, found, missIndices, missTexts, before);
      return;
    }
    AllHits(before, texts);
    r := Ok(Filled(found));
  }

  lemma AllHits(es: seq<Entry>, texts: seq<string>)
    requires MissIndices(es, texts) == []
    ensures Misses(es, texts) == [] && forall i :: 0 <= i < |texts| ==> Answers(es, texts)[i].Some?
  {
    MissIndicesAreTheMisses(es, texts);
    MissesAtIndices(es, texts);
  }

  /** Every slot is filled by then. */
  function Filled(results: seq<Option<Vector>>): (r: seq<Vector>)
    requires forall i :: 0 <= i < |results| ==> results[i].Some?
    ensures |r| == |results| && forall i :: 0 <= i < |r| ==> results[i] == Some(r[i])
  {
    seq(|results|, i requires 0 <= i < |results| => results[i].value)
  }

  /** Whatever the provider answers with the right count is `E` of every text; it may fail on
      some texts or always, and the model need not be there. */
  ghost predicate Answering(model: Model, E: string -> Vector) {
    model.provider.Some? ==>
      forall texts :: AnswersWith(model.provider.value(texts), E, texts)
  }

  ghost predicate AnswersWith(batch: Result<seq<Vector>>, E: string -> Vector, texts: seq<string>) {
    batch.Ok? && |batch.value| == |texts| ==> batch.value == Embedded(E, texts)
  }

  /** What others insert is `E` of its key as well. */
  ghost predicate Honest(ops: seq<CacheOp>, E: string -> Vector) {
    forall op :: op in ops && op.Insert? ==> op.value == E(op.key)
  }

  /** A batch that succeeds is the plain batch, in input order, whatever the cache content, its
      capacity (0 included), repeats within the batch, evictions while merging, or use of the
      cache by others in between; and succeed or not, the cache stays consistent. */
  lemma CachedBatchIsPlainBatch(capacity: nat, before: seq<Entry>, texts: seq<string>, model: Model,
                                meanwhile: seq<CacheOp>, r: Result<seq<Vector>>, after: seq<Entry>, E: string -> Vector)
    requires BatchOutcome(capacity, before, texts, model, meanwhile, r, after)
    requires Consistent(before, E) && Answering(model, E) && Honest(meanwhile, E)
    ensures r.Ok? ==> r == Ok(Embedded(E, texts))
    ensures Consistent(after, E)
  {
    RunKeepsConsistent(capacity, before, Gets(texts), E);
    RunKeepsConsistent(capacity, Run(capacity, before, Gets(texts)), meanwhile, E);
    if r.Ok? {
      BatchIsPlain(capacity, before, texts, model, meanwhile, r, after, E);
      var misses := Misses(before, texts);
      if misses != [] {
        assert AnswersWith(model.provider.value(misses), E, misses);
        RunKeepsConsistent(capacity, Between(capacity, before, texts, meanwhile),
                           Inserts(misses, Embedded(E, misses)), E);
      }
    }
  }

  lemma BatchIsPlain(capacity: nat, before: seq<Entry>, texts: seq<string>, model: Model,
                     meanwhile: seq<CacheOp>, r: Result<seq<Vector>>, after: seq<Entry>, E: string -> Vector)
    requires BatchOutcome(capacity, before, texts, model, meanwhile, r, after) && r.Ok?
    requires Consistent(before, E) && Answering(model, E)
    ensures r.value == Embedded(E, texts)
  {
    var misses, at := Misses(before, texts), MissIndices(before, texts);
    MissIndicesAreTheMisses(before, texts);
    MissesAtIndices(before, texts);
    HitsAreConsistent(before, texts, E);
    forall i | 0 <= i < |texts| ensures r.value[i] == E(texts[i]) {
      if Lookup(before, texts[i]).None? {
        var j :| 0 <= j < |at| && at[j] == i;
        assert AnswersWith(model.provider.value(misses), E, misses);
        assert r.value[at[j]] == model.provider.value(misses).value[j] == E(misses[j]);
      }
    }
  }

  /** With a loaded model that never fails, every batch succeeds. */
  lemma FaithfulModelServesAll(capacity: nat, before: seq<Entry>, texts: seq<string>, model: Model,
                               meanwhile: seq<CacheOp>, r: Result<seq<Vector>>, after: seq<Entry>, E: string -> Vector)
    requires BatchOutcome(capacity, before, texts, model, meanwhile, r, after)
    requires forall i :: 0 <= i < |before| ==> before[i].value == E(before[i].key)
    requires model.ready.Ok? && model.provider.Some?
    requires forall asked :: model.provider.value(asked) == Ok(Embedded(E, asked))
    requires forall op :: op in meanwhile && op.Insert? ==> op.value == E(op.key)
    ensures r == Ok(Embedded(E, texts)) && Consistent(after, E)
  {
    var misses := Misses(before, texts);
    assert model.provider.value(misses) == Ok(Embedded(E, misses));
    CachedBatchIsPlainBatch(capacity, before, texts, model, meanwhile, r, after, E);
  }

  lemma HitsAreConsistent(es: seq<Entry>, texts: seq<string>, E: string -> Vector)
    requires Consistent(es, E)
    ensures forall i :: 0 <= i < |texts| && Lookup(es, texts[i]).Some? ==> Lookup(es, texts[i]).value == E(texts[i])
  {
    forall i | 0 <= i < |texts| && Lookup(es, texts[i]).Some?
      ensures Lookup(es, texts[i]).value == E(texts[i])
    {
      LookupConsistent(es, texts[i], E);
    }
  }

  /** `embed`: a hit is answered without the model; a miss is embedded and remembered, with
      whatever other threads do to the cache in between. */
  method Embed(cache: EmbeddingCache, text: string, model: Model, meanwhile: seq<CacheOp>) returns (r: Result<Vector>)
    requires cache.Valid()
    modifies cache`entries
    ensures cache.Valid()
    ensures EmbedOutcome(cache.capacity, old(cache.entries), text, model, meanwhile, r, cache.entries)
  {
    var cached := cache.Get(text);
    if cached.Some? {
      return Ok(cached.value);
    }
    Interfere(cache, meanwhile);
    var batch := CallProvider(model, [text]);
    if batch.Err? {
      return Err(batch.error);
    }
    cache.Insert(text, batch.value[0]);
    return Ok(batch.value[0]);
  }

  ghost predicate EmbedOutcome(capacity: nat, before: seq<Entry>, text: string, model: Model,
                               meanwhile: seq<CacheOp>, r: Result<Vector>, after: seq<Entry>)
  {
    var hit, between := Lookup(before, text), Run(capacity, before, meanwhile);
    && (r.Ok? <==> hit.Some? || Served(model, [text]))
    && (hit.Some? ==> r == Ok(hit.value) && after == After(capacity, before, CacheOp.Get(text)))
    && (hit.None? && r.Ok? ==> [r.value] == model.provider.value([text]).value
                               && after == After(capacity, between, CacheOp.Insert(text, r.value)))
    && (r.Err? ==> after == between)
  }

  /** A text that is embedded is `E` of it, cached or fresh, and the cache stays consistent. */
  lemma CachedEmbedIsPlainEmbed(capacity: nat, before: seq<Entry>, text: string, model: Model,
                                meanwhile: seq<CacheOp>, r: Result<Vector>, after: seq<Entry>, E: string -> Vector)
    requires EmbedOutcome(capacity, before, text, model, meanwhile, r, after)
    requires Consistent(before, E) && Answering(model, E) && Honest(meanwhile, E)
    ensures (r.Ok? ==> r == Ok(E(text))) && Consistent(after, E)
  {
    LookupConsistent(before, text, E);
    AfterKeepsConsistent(capacity, before, CacheOp.Get(text), E);
    RunKeepsConsistent(capacity, before, meanwhile, E);
    if r.Ok? && Lookup(before, text).None? {
      assert AnswersWith(model.provider.value([text]), E, [text]);
      assert [r.value][0] == Embedded(E, [text])[0];
      AfterKeepsConsistent(capacity, Run(capacity, before, meanwhile), CacheOp.Insert(text, r.value), E);
    }
  }

  lemma {:induction false} HistoryIsConsistent(capacity: nat, history: seq<CacheOp>, E: string -> Vector)
    requires Honest(history, E)
    ensures Consistent(Run(capacity, [], history), E)
  {
    RunKeepsConsistent(capacity, [], history, E);
  }

  /** Entry by entry: whatever has gone through the cache before and whatever goes on beside the
      batch, if every insertion was the value of its key and so is every answer of the provider,
      a batch that succeeds has the value of each text in its place. */
  lemma EveryBatchIsPlain(capacity: nat, history: seq<CacheOp>, texts: seq<string>, model: Model,
                          meanwhile: seq<CacheOp>, r: Result<seq<Vector>>, after: seq<Entry>, E: string -> Vector)
    requires BatchOutcome(capacity, Run(capacity, [], history), texts, model, meanwhile, r, after)
    requires forall op :: op in history + meanwhile && op.Insert? ==> op.value == E(op.key)
    requires model.provider.Some? ==>
               forall asked ::
                 var batch := model.provider.value(asked);
                 batch.Ok? && |batch.value| == |asked| ==> batch.value == Embedded(E, asked)
    ensures r.Ok? ==> |r.value| == |texts| && forall i :: 0 <= i < |texts| ==> r.value[i] == E(texts[i])
  {
    assert forall op :: op in history || op in meanwhile ==> op in history + meanwhile;
    HistoryIsConsistent(capacity, history, E);
    if model.provider.Some? {
      forall asked ensures AnswersWith(model.provider.value(asked), E, asked) {}
    }
    CachedBatchIsPlainBatch(capacity, Run(capacity, [], history), texts, model, meanwhile, r, after, E);
  }
}
