/** Fusing ranked lists (`src/embedding/vector_index.rs`).  Scores are reals. */
module RankFusion {
  import opened Wrappers
  import opened Sequences
  import opened Sorting

  datatype SearchHit = SearchHit(id: nat, score: real)

  datatype Fusion = Rrf(k: nat) | Weighted(weights: seq<real>)

  /** Descending score, then ascending id. */
  predicate HitLe(a: SearchHit, b: SearchHit) {
    a.score > b.score || (a.score == b.score && a.id <= b.id)
  }

  // ── Scores ─────────────────────────────

  datatype Gain = ByRank(k: nat) | ByScore(weight: real)

  /** What the hit at a 0-based rank adds to the score of its id. */
  function GainAt(g: Gain, rank: nat, hit: SearchHit): real {
    match g
    case ByRank(k) => 1.0 / (k as real + rank as real + 1.0)
    case ByScore(w) => w * hit.score
  }

  /** One input list and how it scores. */
  datatype Branch = Branch(gain: Gain, hits: seq<SearchHit>)

  function ListScore(g: Gain, hits: seq<SearchHit>, id: nat): real {
    if hits == [] then 0.0
    else
      var n := |hits| - 1;
      ListScore(g, hits[..n], id) + if hits[n].id == id then GainAt(g, n, hits[n]) else 0.0
  }

  function Score(branches: seq<Branch>, id: nat): real {
    if branches == [] then 0.0
    else
      var n := |branches| - 1;
      Score(branches[..n], id) + ListScore(branches[n].gain, branches[n].hits, id)
  }

  predicate Listed(hits: seq<SearchHit>, id: nat) {
    hits != [] && (hits[|hits| - 1].id == id || Listed(hits[..|hits| - 1], id))
  }

  predicate Appears(branches: seq<Branch>, id: nat) {
    branches != [] && (Listed(branches[|branches| - 1].hits, id) || Appears(branches[..|branches| - 1], id))
  }

  function Branches(fusion: Fusion, sets: seq<seq<SearchHit>>): (b: seq<Branch>)
    requires fusion.Weighted? ==> |fusion.weights| == |sets|
    ensures |b| == |sets|
    ensures forall i :: 0 <= i < |b| ==>
      b[i].hits == sets[i] && b[i].gain == if fusion.Rrf? then ByRank(fusion.k) else ByScore(fusion.weights[i])
  {
    seq(|sets|, i requires 0 <= i < |sets| =>
      Branch(if fusion.Rrf? then ByRank(fusion.k) else ByScore(fusion.weights[i]), sets[i]))
  }

  // ── What fusing means ──────────────────

  /** Every id that appears, once, with its score, best first. */
  ghost predicate IsFusion(branches: seq<Branch>, r: seq<SearchHit>) {
    && Distinct(r)
    && SortedBy(HitLe, r)
    && (forall h :: h in r <==> Appears(branches, h.id) && h.score == Score(branches, h.id))
  }

  /** The result is the same list whatever order the hash map is iterated in. */
  lemma FusionIsUnique(branches: seq<Branch>, r: seq<SearchHit>, s: seq<SearchHit>)
    requires IsFusion(branches, r) && IsFusion(branches, s)
    ensures r == s
  {
    forall h ensures h in r <==> h in s {}
    DistinctSameMembers(r, s);
    SortedUnique(HitLe, r, s);
  }

  ghost predicate DistinctHits(s: seq<SearchHit>) {
    forall i, j :: 0 <= i < j < |s| ==> s[i].id != s[j].id
  }

  // ── The code ───────────────────────────

  function Bump(m: map<nat, real>, id: nat, x: real): map<nat, real> {
    m[id := (if id in m then m[id] else 0.0) + x]
  }

  ghost predicate Totalled(m: map<nat, real>, branches: seq<Branch>) {
    forall id: nat :: TotalledAt(m, branches, id)
  }

  ghost predicate TotalledAt(m: map<nat, real>, branches: seq<Branch>, id: nat) {
    (id in m <==> Appears(branches, id)) && (id in m ==> m[id] == Score(branches, id))
  }

  /** Ids that appeared in whole branches and in the start of another, with their scores. */
  ghost predicate Tallied(m: map<nat, real>, branches: seq<Branch>, g: Gain, hits: seq<SearchHit>) {
    forall id: nat :: TalliedAt(m, branches, g, hits, id)
  }

  ghost predicate TalliedAt(m: map<nat, real>, branches: seq<Branch>, g: Gain, hits: seq<SearchHit>, id: nat) {
    && (id in m <==> Appears(branches, id) || Listed(hits, id))
    && (id in m ==> m[id] == Score(branches, id) + ListScore(g, hits, id))
  }

  lemma {:induction false} UnlistedScoresNothing(g: Gain, hits: seq<SearchHit>, id: nat)
    requires !Listed(hits, id)
    ensures ListScore(g, hits, id) == 0.0
  {
    if hits != [] { UnlistedScoresNothing(g, hits[..|hits| - 1], id); }
  }

  lemma {:induction false} AbsentScoresNothing(branches: seq<Branch>, id: nat)
    requires !Appears(branches, id)
    ensures Score(branches, id) == 0.0
  {
    if branches != [] {
      var n := |branches| - 1;
      AbsentScoresNothing(branches[..n], id);
      UnlistedScoresNothing(branches[n].gain, branches[n].hits, id);
    }
  }

  lemma BumpTallies(m: map<nat, real>, branches: seq<Branch>, g: Gain, hits: seq<SearchHit>, h: SearchHit)
    requires Tallied(m, branches, g, hits)
    ensures Tallied(Bump(m, h.id, GainAt(g, |hits|, h)), branches, g, hits + [h])
  {
    forall id: nat ensures TalliedAt(Bump(m, h.id, GainAt(g, |hits|, h)), branches, g, hits + [h], id) {
      assert TalliedAt(m, branches, g, hits, id);
      if id !in m {
        AbsentScoresNothing(branches, id);
        UnlistedScoresNothing(g, hits, id);
      }
    }
  }

  lemma BranchStarted(m: map<nat, real>, branches: seq<Branch>, g: Gain)
    requires Totalled(m, branches)
    ensures Tallied(m, branches, g, [])
  {
    forall id: nat ensures TalliedAt(m, branches, g, [], id) {
      assert TotalledAt(m, branches, id);
    }
  }

  lemma BranchDone(m: map<nat, real>, branches: seq<Branch>, b: Branch)
    requires Tallied(m, branches, b.gain, b.hits)
    ensures Totalled(m, branches + [b])
  {
    assert (branches + [b])[..|branches|] == branches;
    forall id: nat ensures TotalledAt(m, branches + [b], id) {
      assert TalliedAt(m, branches, b.gain, b.hits, id);
    }
  }

  method AddBranch(scores: map<nat, real>, ghost before: seq<Branch>, b: Branch) returns (m: map<nat, real>)
    requires Totalled(scores, before)
    ensures Totalled(m, before + [b])
  {
    m := scores;
    BranchStarted(m, before, b.gain);
    for rank := 0 to |b.hits|
      invariant Tallied(m, before, b.gain, b.hits[..rank])
    {
      BumpTallies(m, before, b.gain, b.hits[..rank], b.hits[rank]);
      assert b.hits[..rank] + [b.hits[rank]] == b.hits[..rank + 1];
      m := Bump(m, b.hits[rank].id, GainAt(b.gain, rank, b.hits[rank]));
    }
    assert b.hits[..|b.hits|] == b.hits;
    BranchDone(m, before, b);
  }

  method Scores(branches: seq<Branch>) returns (m: map<nat, real>)
    ensures Totalled(m, branches)
  {
    m := map[];
    for i := 0 to |branches|
      invariant Totalled(m, branches[..i])
    {
      m := AddBranch(m, branches[..i], branches[i]);
      assert branches[..i] + [branches[i]] == branches[..i + 1];
    }
    assert branches[..|branches|] == branches;
  }

  /** The entries of a hash map, in whatever order it yields them. */
  method Entries(m: map<nat, real>) returns (s: seq<SearchHit>)
    ensures Distinct(s)
    ensures forall h :: h in s <==> h.id in m && h.score == m[h.id]
  {
    s := [];
    var rest := m.Keys;
    while rest != {}
      invariant rest <= m.Keys
      invariant Distinct(s)
      invariant forall h :: h in s <==> h.id in m && h.id !in rest && h.score == m[h.id]
      decreases |rest|
    {
      var id :| id in rest;
      s := s + [SearchHit(id, m[id])];
      rest := rest - {id};
    }
  }

  /** An error stands for the panic on a weight count that does not match. */
  method Fuse(fusion: Fusion, sets: seq<seq<SearchHit>>) returns (r: Result<seq<SearchHit>>)
    ensures r.Err? <==> fusion.Weighted? && |fusion.weights| != |sets|
    ensures r.Ok? ==> IsFusion(Branches(fusion, sets), r.value)
    ensures r.Ok? ==> DistinctHits(r.value)
  {
    if fusion.Weighted? && |fusion.weights| != |sets| {
      return Err("hit_sets.len() must equal weights.len()");
    }
    var scores := Scores(Branches(fusion, sets));
    var fused := Entries(scores);
    SortSorts(HitLe, fused);
    SortPermutes(HitLe, fused);
    SameElements(fused, Sort(HitLe, fused));
    DistinctPermutation(fused, Sort(HitLe, fused));
    forall h
      ensures h in fused
         <==> Appears(Branches(fusion, sets), h.id) && h.score == Score(Branches(fusion, sets), h.id)
    {
      assert TotalledAt(scores, Branches(fusion, sets), h.id);
    }
    fused := Sort(HitLe, fused);
    forall i, j | 0 <= i < j < |fused| ensures fused[i].id != fused[j].id {
      assert fused[i] in fused && fused[j] in fused;
    }
    r := Ok(fused);
  }

  // ── Order of the lists ─────────────────

  lemma {:induction false} ScoreWithout(b: seq<Branch>, j: nat, id: nat)
    requires j < |b|
    ensures Score(b, id) == Score(RemoveAt(b, j), id) + ListScore(b[j].gain, b[j].hits, id)
    ensures Appears(b, id) <==> Appears(RemoveAt(b, j), id) || Listed(b[j].hits, id)
  {
    var n := |b| - 1;
    if j == n {
      assert RemoveAt(b, j) == b[..n];
    } else {
      ScoreWithout(b[..n], j, id);
      RemoveBeforeLast(b, j);
      ScoreAppend(RemoveAt(b[..n], j), b[n], id);
    }
  }

  lemma ScoreAppend(b: seq<Branch>, last: Branch, id: nat)
    ensures Score(b + [last], id) == Score(b, id) + ListScore(last.gain, last.hits, id)
    ensures Appears(b + [last], id) <==> Appears(b, id) || Listed(last.hits, id)
  {
    assert (b + [last])[..|b|] == b;
  }

  lemma {:induction false} PermutedScore(a: seq<Branch>, b: seq<Branch>, id: nat)
    requires multiset(a) == multiset(b)
    ensures Score(a, id) == Score(b, id) && (Appears(a, id) <==> Appears(b, id))
  {
    SameElements(a, b);
    if a != [] {
      var n := |a| - 1;
      assert a[n] in b;
      var j :| 0 <= j < |b| && b[j] == a[n];
      RemoveBoth(a, b, j);
      PermutedScore(a[..n], RemoveAt(b, j), id);
      ScoreWithout(b, j, id);
    }
  }

  /** Branches may come in any order, each with its own weight. */
  lemma FusionIgnoresOrder(a: seq<Branch>, b: seq<Branch>, r: seq<SearchHit>)
    requires multiset(a) == multiset(b) && IsFusion(a, r)
    ensures IsFusion(b, r)
  {
    forall h ensures h in r <==> Appears(b, h.id) && h.score == Score(b, h.id) { PermutedScore(a, b, h.id); }
  }

  lemma {:induction false} RrfCount(k: nat, sets: seq<seq<SearchHit>>, c: Branch)
    ensures multiset(Branches(Rrf(k), sets))[c] == if c.gain == ByRank(k) then multiset(sets)[c.hits] else 0
  {
    if sets != [] {
      var n := |sets| - 1;
      var all, shorter := Branches(Rrf(k), sets), Branches(Rrf(k), sets[..n]);
      RrfCount(k, sets[..n], c);
      assert sets == sets[..n] + [sets[n]];
      assert all == shorter + [Branch(ByRank(k), sets[n])];
    }
  }

  /** Reciprocal rank fusion gives the same list for every order of its input lists. */
  lemma RrfIgnoresOrder(k: nat, a: seq<seq<SearchHit>>, b: seq<seq<SearchHit>>, r: seq<SearchHit>)
    requires multiset(a) == multiset(b) && IsFusion(Branches(Rrf(k), a), r)
    ensures IsFusion(Branches(Rrf(k), b), r)
  {
    forall c ensures multiset(Branches(Rrf(k), a))[c] == multiset(Branches(Rrf(k), b))[c] {
      RrfCount(k, a, c);
      RrfCount(k, b, c);
    }
    FusionIgnoresOrder(Branches(Rrf(k), a), Branches(Rrf(k), b), r);
  }

  // ── Ranks only ─────────────────────────

  ghost predicate SameIds(s: seq<SearchHit>, t: seq<SearchHit>) {
    |s| == |t| && forall i :: 0 <= i < |s| ==> s[i].id == t[i].id
  }

  lemma {:induction false} SameIdsScore(k: nat, s: seq<SearchHit>, t: seq<SearchHit>, id: nat)
    requires SameIds(s, t)
    ensures ListScore(ByRank(k), s, id) == ListScore(ByRank(k), t, id) && (Listed(s, id) <==> Listed(t, id))
  {
    if s != [] { SameIdsScore(k, s[..|s| - 1], t[..|t| - 1], id); }
  }

  ghost predicate SameIdLists(a: seq<Branch>, b: seq<Branch>) {
    |a| == |b| && forall i :: 0 <= i < |a| ==> SameIds(a[i].hits, b[i].hits)
  }

  ghost predicate AllByRank(k: nat, a: seq<Branch>) { forall i :: 0 <= i < |a| ==> a[i].gain == ByRank(k) }

  lemma {:induction false} SameIdListsScore(k: nat, a: seq<Branch>, b: seq<Branch>, id: nat)
    requires SameIdLists(a, b) && AllByRank(k, a) && AllByRank(k, b)
    ensures Score(a, id) == Score(b, id) && (Appears(a, id) <==> Appears(b, id))
  {
    if a != [] {
      var n := |a| - 1;
      SameIdListsScore(k, a[..n], b[..n], id);
      SameIdsScore(k, a[n].hits, b[n].hits, id);
    }
  }

  /** Reciprocal rank fusion looks only at the ids and their order. */
  lemma RrfUsesRanksOnly(k: nat, a: seq<seq<SearchHit>>, b: seq<seq<SearchHit>>, r: seq<SearchHit>)
    requires |a| == |b| && forall i :: 0 <= i < |a| ==> |a[i]| == |b[i]|
    requires forall i, j :: 0 <= i < |a| && 0 <= j < |a[i]| ==> a[i][j].id == b[i][j].id
    requires IsFusion(Branches(Rrf(k), a), r)
    ensures IsFusion(Branches(Rrf(k), b), r)
  {
    var x, y := Branches(Rrf(k), a), Branches(Rrf(k), b);
    forall i | 0 <= i < |a| ensures SameIds(x[i].hits, y[i].hits) {}
    forall h ensures h in r <==> Appears(y, h.id) && h.score == Score(y, h.id) { SameIdListsScore(k, x, y, h.id); }
  }

  // ── Dominance ──────────────────────────

  lemma {:induction false} RankScore(k: nat, s: seq<SearchHit>, p: nat)
    requires DistinctHits(s) && p < |s|
    ensures Listed(s, s[p].id) && ListScore(ByRank(k), s, s[p].id) == 1.0 / (k as real + p as real + 1.0)
  {
    var n := |s| - 1;
    if p == n {
      if Listed(s[..n], s[n].id) {
        var i := ListedAt(s[..n], s[n].id);
        assert false;
      }
      UnlistedScoresNothing(ByRank(k), s[..n], s[n].id);
    } else {
      RankScore(k, s[..n], p);
    }
  }

  lemma {:induction false} ListedAt(s: seq<SearchHit>, id: nat) returns (i: nat)
    requires Listed(s, id)
    ensures i < |s| && s[i].id == id
  {
    i := |s| - 1;
    if s[i].id != id { i := ListedAt(s[..i], id); }
  }

  lemma SmallerReciprocal(x: real, y: real)
    requires 0.0 < x < y
    ensures 0.0 < 1.0 / y < 1.0 / x
  {
    var p, q := 1.0 / x, 1.0 / y;
    assert p * x == 1.0 && q * y == 1.0;
    assert p > 0.0 && q > 0.0;
    assert p * y > p * x;
    assert p * y > q * y;
  }

  ghost predicate Precedes(s: seq<SearchHit>, a: nat, b: nat) {
    exists i, j :: 0 <= i < j < |s| && s[i].id == a && s[j].id == b
  }

  lemma {:induction false} ListScoreSign(k: nat, s: seq<SearchHit>, id: nat)
    ensures ListScore(ByRank(k), s, id) >= 0.0
  {
    if s != [] {
      var n := |s| - 1;
      ListScoreSign(k, s[..n], id);
      SmallerReciprocal(k as real + n as real + 1.0, k as real + n as real + 2.0);
    }
  }

  lemma ListDominates(k: nat, s: seq<SearchHit>, a: nat, b: nat)
    requires DistinctHits(s) && (Listed(s, b) ==> Precedes(s, a, b))
    ensures ListScore(ByRank(k), s, a) >= ListScore(ByRank(k), s, b)
    ensures Listed(s, b) ==> Listed(s, a) && ListScore(ByRank(k), s, a) > ListScore(ByRank(k), s, b)
  {
    if Listed(s, b) {
      var i, j :| 0 <= i < j < |s| && s[i].id == a && s[j].id == b;
      RankScore(k, s, i);
      RankScore(k, s, j);
      SmallerReciprocal(k as real + i as real + 1.0, k as real + j as real + 1.0);
    } else {
      UnlistedScoresNothing(ByRank(k), s, b);
      ListScoreSign(k, s, a);
    }
  }

  /** In every list that holds `b`, `a` comes first. */
  ghost predicate Dominates(branches: seq<Branch>, a: nat, b: nat) {
    forall i :: 0 <= i < |branches| ==>
      DistinctHits(branches[i].hits) && (Listed(branches[i].hits, b) ==> Precedes(branches[i].hits, a, b))
  }

  lemma {:induction false} ScoreDominates(k: nat, branches: seq<Branch>, a: nat, b: nat)
    requires AllByRank(k, branches) && Dominates(branches, a, b)
    ensures Score(branches, a) >= Score(branches, b)
    ensures Appears(branches, b) ==> Appears(branches, a) && Score(branches, a) > Score(branches, b)
  {
    if branches != [] {
      var n := |branches| - 1;
      ScoreDominates(k, branches[..n], a, b);
      ListDominates(k, branches[n].hits, a, b);
    }
  }

  /** What comes first in every list comes first in the result: each list has no repeats and puts
      `a` before `b` if it holds `b`, which some list does. */
  lemma RrfKeepsDominance(k: nat, sets: seq<seq<SearchHit>>, a: nat, b: nat, r: seq<SearchHit>)
    requires IsFusion(Branches(Rrf(k), sets), r)
    requires forall i, p, q :: 0 <= i < |sets| && 0 <= p < q < |sets[i]| ==> sets[i][p].id != sets[i][q].id
    requires forall i, q :: 0 <= i < |sets| && 0 <= q < |sets[i]| && sets[i][q].id == b ==>
               exists p :: 0 <= p < q && sets[i][p].id == a
    requires exists i, q :: 0 <= i < |sets| && 0 <= q < |sets[i]| && sets[i][q].id == b
    ensures exists p, q :: 0 <= p < q < |r| && r[p].id == a && r[q].id == b
  {
    var branches := Branches(Rrf(k), sets);
    forall i | 0 <= i < |branches|
      ensures DistinctHits(branches[i].hits) && (Listed(branches[i].hits, b) ==> Precedes(branches[i].hits, a, b))
    {
      if Listed(sets[i], b) { var q := ListedAt(sets[i], b); }
    }
    var i, q :| 0 <= i < |sets| && 0 <= q < |sets[i]| && sets[i][q].id == b;
    ListedIn(sets[i], q);
    AppearsIn(branches, i, b);
    FusionKeepsDominance(k, branches, a, b, r);
  }

  lemma {:induction false} ListedIn(s: seq<SearchHit>, q: nat)
    requires q < |s|
    ensures Listed(s, s[q].id)
  {
    if q < |s| - 1 { ListedIn(s[..|s| - 1], q); }
  }

  lemma {:induction false} AppearsIn(branches: seq<Branch>, i: nat, id: nat)
    requires i < |branches| && Listed(branches[i].hits, id)
    ensures Appears(branches, id)
  {
    if i < |branches| - 1 { AppearsIn(branches[..|branches| - 1], i, id); }
  }

  lemma FusionKeepsDominance(k: nat, branches: seq<Branch>, a: nat, b: nat, r: seq<SearchHit>)
    requires IsFusion(branches, r) && AllByRank(k, branches)
    requires Dominates(branches, a, b) && Appears(branches, b)
    ensures Precedes(r, a, b)
  {
    ScoreDominates(k, branches, a, b);
    var x, y := SearchHit(a, Score(branches, a)), SearchHit(b, Score(branches, b));
    assert x in r && y in r;
    var i :| 0 <= i < |r| && r[i] == x;
    var j :| 0 <= j < |r| && r[j] == y;
    assert !HitLe(y, x);
    assert i < j;
  }

  // ── One list ───────────────────────────

  /** A list with its scores replaced by reciprocal ranks. */
  function Reranked(k: nat, s: seq<SearchHit>): (r: seq<SearchHit>)
    ensures |r| == |s|
    ensures forall i :: 0 <= i < |s| ==> r[i] == SearchHit(s[i].id, 1.0 / (k as real + i as real + 1.0))
  {
    seq(|s|, i requires 0 <= i < |s| => SearchHit(s[i].id, 1.0 / (k as real + i as real + 1.0)))
  }

  lemma RerankedIsSorted(k: nat, s: seq<SearchHit>)
    requires DistinctHits(s)
    ensures Distinct(Reranked(k, s)) && SortedBy(HitLe, Reranked(k, s))
  {
    var r := Reranked(k, s);
    forall i, j | 0 <= i < j < |r| ensures HitLe(r[i], r[j]) && r[i] != r[j] {
      SmallerReciprocal(k as real + i as real + 1.0, k as real + j as real + 1.0);
    }
  }

  lemma {:induction false} RerankedMember(k: nat, s: seq<SearchHit>, h: SearchHit)
    requires DistinctHits(s)
    ensures h in Reranked(k, s) <==> Listed(s, h.id) && h.score == ListScore(ByRank(k), s, h.id)
  {
    var r := Reranked(k, s);
    if Listed(s, h.id) {
      var p := ListedAt(s, h.id);
      RankScore(k, s, p);
      assert r[p] in r;
    }
    if h in r {
      var p :| 0 <= p < |r| && r[p] == h;
      RankScore(k, s, p);
    }
  }

  /** Fusing a single list keeps its order. */
  lemma RrfOfOneList(k: nat, s: seq<SearchHit>)
    requires DistinctHits(s)
    ensures IsFusion(Branches(Rrf(k), [s]), Reranked(k, s))
  {
    var b := Branch(ByRank(k), s);
    assert Branches(Rrf(k), [s]) == [b] && [b][..0] == [];
    RerankedIsSorted(k, s);
    forall h ensures h in Reranked(k, s) <==> Appears([b], h.id) && h.score == Score([b], h.id) {
      RerankedMember(k, s, h);
    }
  }

  // ── Weighted scores ────────────────────

  /** In a list without repeats an id scores the weight of the list times its score there. */
  lemma {:induction false} WeightScore(w: real, s: seq<SearchHit>, p: nat)
    requires DistinctHits(s) && p < |s|
    ensures Listed(s, s[p].id) && ListScore(ByScore(w), s, s[p].id) == w * s[p].score
  {
    var n := |s| - 1;
    if p == n {
      if Listed(s[..n], s[n].id) {
        var i := ListedAt(s[..n], s[n].id);
        assert false;
      }
      UnlistedScoresNothing(ByScore(w), s[..n], s[n].id);
    } else {
      WeightScore(w, s[..n], p);
    }
  }

  /** The output is ordered by descending score, ties by ascending id. */
  lemma FusionDescends(branches: seq<Branch>, r: seq<SearchHit>, i: nat, j: nat)
    requires IsFusion(branches, r) && i < j < |r|
    ensures r[i].score > r[j].score || (r[i].score == r[j].score && r[i].id <= r[j].id)
  {
    assert HitLe(r[i], r[j]);
  }
}
