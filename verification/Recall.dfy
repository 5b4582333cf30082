/** Scoped recall (`src/graph/recall.rs`).  The scope filter exists twice: as a WHERE clause with
    LIKE over comma-joined columns, which fills a bounded window ordered by importance, and as a
    Rust predicate over lists, which screens lexical matches the window missed. */
module Recall {
  import opened Wrappers
  import opened Sequences
  import opened Sorting
  import opened Like
  import opened Csv
  import opened Vocabulary
  import Lexicographic

  /** A stored node; `tags` and `projects` are the comma-joined columns. */
  datatype NodeRow = NodeRow(
    id: string, nodeType: string, tags: string, projects: string,
    created: string, updated: string, importance: real, accessCount: int)

  datatype RecallOptions = RecallOptions(
    project: Option<string>, hint: Option<string>, nodeTypes: seq<string>,
    tagsAny: seq<string>, since: Option<string>, limit: nat)

  // ── The two scope filters ──────────────

  /** The WHERE clause, under SQLite's case-insensitive LIKE. */
  predicate WhereClause(row: NodeRow, opts: RecallOptions) {
    && !Matches(true, "," + row.tags + ",", "%,stale,%", None)
    && (opts.project.Some? ==> LikeItem(true, row.projects, opts.project.value))
    && (opts.nodeTypes != [] ==> row.nodeType in opts.nodeTypes)
    && (opts.tagsAny != [] ==> exists k :: 0 <= k < |opts.tagsAny| && LikeItem(true, row.tags, opts.tagsAny[k]))
    && (opts.since.Some? ==> !Lexicographic.Less(row.created, opts.since.value))
  }

  /** The re-check in Rust, on the decoded lists. */
  predicate PassesScopeFilters(row: NodeRow, opts: RecallOptions) {
    var tags, projects := Split(row.tags), Split(row.projects);
    if "stale" in tags then false
    else if opts.project.Some? && opts.project.value !in projects then false
    else if opts.nodeTypes != [] && row.nodeType !in opts.nodeTypes then false
    else if opts.tagsAny != [] && !(exists k :: 0 <= k < |opts.tagsAny| && opts.tagsAny[k] in tags) then false
    else if opts.since.Some? && Lexicographic.Less(row.created, opts.since.value) then false
    else true
  }

  /** Without a backslash in the pattern the ESCAPE clause makes no difference. */
  lemma {:induction false} EscapeUnused(fold: bool, text: string, pattern: string)
    requires ESC !in pattern
    ensures Matches(fold, text, pattern, None) <==> Matches(fold, text, pattern, Some(ESC))
    decreases |text| + |pattern|
  {
    if pattern != "" {
      EscapeUnused(fold, text, pattern[1..]);
      if text != "" {
        EscapeUnused(fold, text[1..], pattern[1..]);
        EscapeUnused(fold, text[1..], pattern);
      }
    }
  }

  lemma {:induction false} EscapePlain(s: string)
    requires forall i :: 0 <= i < |s| ==> !Special(s[i])
    ensures Escape(s) == s
  {
    if s != "" {
      EscapePlain(s[..|s| - 1]);
      assert s == s[..|s| - 1] + [s[|s| - 1]];
    }
  }

  lemma StaleClause(column: string)
    ensures Matches(true, "," + column + ",", "%,stale,%", None) <==> LikeItem(true, column, "stale")
  {
    EscapeUnused(true, "," + column + ",", "%,stale,%");
    EscapePlain("stale");
    assert "%," + "stale" + ",%" == "%,stale,%";
  }

  // ── Exactly when they agree ────────────

  /** The row's columns are written from clean words of the two vocabularies. */
  ghost predicate Written(row: NodeRow, tagWords: set<string>, projectWords: set<string>) {
    && (exists v :: Over(v, tagWords) && row.tags == Join(v))
    && (exists w :: Over(w, projectWords) && row.projects == Join(w))
  }

  /** The options ask for nothing but these tags and projects. */
  ghost predicate Asks(opts: RecallOptions, tags: set<string>, projects: set<string>) {
    && (forall k :: 0 <= k < |opts.tagsAny| ==> opts.tagsAny[k] in tags)
    && (opts.project.Some? ==> opts.project.value in projects)
  }

  ghost predicate Agree(row: NodeRow, opts: RecallOptions) { WhereClause(row, opts) <==> PassesScopeFilters(row, opts) }

  /** The words tell `stale` apart, every requested tag apart on rows that are not stale, and
      every requested project. */
  ghost predicate Distinguished(tagWords: set<string>, projectWords: set<string>, tags: set<string>,
                                projects: set<string>) {
    && Resolves(tagWords, "stale")
    && (forall q :: q in tags ==> Resolves(tagWords - {"stale"}, q))
    && (forall q :: q in projects ==> Resolves(projectWords, q))
  }

  lemma TagsAgree(v: seq<string>, tagWords: set<string>, opts: RecallOptions, tags: set<string>)
    requires CleanWords(tagWords) && Over(v, tagWords) && "stale" !in v
    requires forall q :: q in tags ==> Resolves(tagWords - {"stale"}, q)
    requires forall k :: 0 <= k < |opts.tagsAny| ==> opts.tagsAny[k] in tags
    ensures forall k :: 0 <= k < |opts.tagsAny| ==>
      (LikeItem(true, Join(v), opts.tagsAny[k]) <==> opts.tagsAny[k] in Split(Join(v)))
  {
    forall k | 0 <= k < |opts.tagsAny|
      ensures LikeItem(true, Join(v), opts.tagsAny[k]) <==> opts.tagsAny[k] in Split(Join(v))
    {
      ReadsExactlyIff(tagWords - {"stale"}, opts.tagsAny[k]);
      assert ReadsExactly(v, opts.tagsAny[k]);
    }
  }

  /** On rows and requests that the vocabularies distinguish the two filters are the same. */
  lemma ScopeFiltersAgree(row: NodeRow, opts: RecallOptions, tagWords: set<string>, projectWords: set<string>,
                          tags: set<string>, projects: set<string>)
    requires (forall x :: x in tagWords ==> Clean(x)) && (forall x :: x in projectWords ==> Clean(x))
    requires Written(row, tagWords, projectWords) && Asks(opts, tags, projects)
    requires Distinguished(tagWords, projectWords, tags, projects)
    ensures Agree(row, opts)
  {
    var v :| Over(v, tagWords) && row.tags == Join(v);
    var w :| Over(w, projectWords) && row.projects == Join(w);
    StaleClause(row.tags);
    ReadsExactlyIff(tagWords, "stale");
    assert ReadsExactly(v, "stale");
    DecodesTo(v);
    if "stale" !in v {
      TagsAgree(v, tagWords, opts, tags);
      if opts.project.Some? {
        ReadsExactlyIff(projectWords, opts.project.value);
        assert ReadsExactly(w, opts.project.value);
      }
    }
  }

  function Plain(tags: string, projects: string): NodeRow {
    NodeRow("id", "", tags, projects, "", "", 0.0, 0)
  }

  function Asking(project: Option<string>, tagsAny: seq<string>): RecallOptions {
    RecallOptions(project, None, [], tagsAny, None, 1)
  }

  lemma NoTags()
    ensures Split("") == [] && Join([]) == "" && !Matches(true, "," + "" + ",", "%,stale,%", None)
  {
    DecodesTo([]);
    StaleClause("");
    EmptyColumn("stale");
  }

  lemma StaleMisread(tagWords: set<string>, projectWords: set<string>) returns (row: NodeRow)
    requires CleanWords(tagWords) && !Resolves(tagWords, "stale")
    ensures Written(row, tagWords, projectWords) && !Agree(row, Asking(None, []))
  {
    var v := Misread(tagWords, "stale");
    row := Plain(Join(v), "");
    StaleClause(row.tags);
    assert Over([], projectWords) && row.projects == Join([]);
  }

  /** Only the requested tag decides, and only the query finds it. */
  lemma OnlyQueryFindsTag(row: NodeRow, q: string)
    requires !LikeItem(true, row.tags, "stale") && LikeItem(true, row.tags, q) && q !in Split(row.tags)
    ensures WhereClause(row, Asking(None, [q])) && !PassesScopeFilters(row, Asking(None, [q]))
  {
    StaleClause(row.tags);
    assert Asking(None, [q]).tagsAny[0] == q;
  }

  lemma TagMisread(tagWords: set<string>, projectWords: set<string>, q: string) returns (row: NodeRow)
    requires CleanWords(tagWords) && Resolves(tagWords, "stale") && !Resolves(tagWords - {"stale"}, q)
    ensures Written(row, tagWords, projectWords) && WhereClause(row, Asking(None, [q]))
    ensures !PassesScopeFilters(row, Asking(None, [q]))
  {
    var v := Misread(tagWords - {"stale"}, q);
    row := Plain(Join(v), "");
    DecodesTo(v);
    ReadsExactlyIff(tagWords, "stale");
    assert Over(v, tagWords) && ReadsExactly(v, "stale");
    assert Over([], projectWords) && row.projects == Join([]);
    OnlyQueryFindsTag(row, q);
  }

  lemma ProjectMisread(tagWords: set<string>, projectWords: set<string>, q: string) returns (row: NodeRow)
    requires CleanWords(projectWords) && !Resolves(projectWords, q)
    ensures Written(row, tagWords, projectWords) && WhereClause(row, Asking(Some(q), []))
    ensures !PassesScopeFilters(row, Asking(Some(q), []))
  {
    var w := Misread(projectWords, q);
    row := Plain("", Join(w));
    NoTags();
    assert Over([], tagWords) && row.tags == Join([]);
    assert Over(w, projectWords);
  }

  /** The two filters are the same filter, on all rows written from two clean vocabularies and
      for all options that ask for certain tags and projects, if and only if the words tell
      `stale`, those tags and those projects apart. */
  lemma ScopeFiltersAgreeIff(tagWords: set<string>, projectWords: set<string>, tags: set<string>, projects: set<string>)
    requires (forall x :: x in tagWords ==> Clean(x)) && (forall x :: x in projectWords ==> Clean(x))
    ensures (forall row, opts :: Written(row, tagWords, projectWords) && Asks(opts, tags, projects)
               ==> Agree(row, opts))
       <==> Distinguished(tagWords, projectWords, tags, projects)
  {
    if Distinguished(tagWords, projectWords, tags, projects) {
      forall row, opts | Written(row, tagWords, projectWords) && Asks(opts, tags, projects) ensures Agree(row, opts) {
        ScopeFiltersAgree(row, opts, tagWords, projectWords, tags, projects);
      }
    } else if !Resolves(tagWords, "stale") {
      var row := StaleMisread(tagWords, projectWords);
      assert Asks(Asking(None, []), tags, projects);
    } else if q :| q in tags && !Resolves(tagWords - {"stale"}, q) {
      var row := TagMisread(tagWords, projectWords, q);
      assert Asks(Asking(None, [q]), tags, projects);
      assert !Agree(row, Asking(None, [q]));
    } else {
      var q :| q in projects && !Resolves(projectWords, q);
      var row := ProjectMisread(tagWords, projectWords, q);
      assert Asks(Asking(Some(q), []), tags, projects);
      assert !Agree(row, Asking(Some(q), []));
    }
  }

  /** Two such families: a tag that differs from `stale` only in case is hidden by the query
      alone, and a requested tag finds a stored tag that differs from it only in case by the
      query alone. */
  lemma ScopeFiltersDifferOnStale(row: NodeRow, opts: RecallOptions)
    requires opts.project.None? && opts.nodeTypes == [] && opts.since.None? && opts.tagsAny == []
    requires Clean(row.tags) && row.tags != "stale" && Same(true, row.tags, "stale")
    ensures !WhereClause(row, opts) && PassesScopeFilters(row, opts)
  {
    StaleClause(row.tags);
    OneTag(row.tags, "stale");
  }

  lemma ScopeFiltersDifferOnTag(row: NodeRow, opts: RecallOptions, tag: string)
    requires opts.project.None? && opts.nodeTypes == [] && opts.since.None? && opts.tagsAny == [tag]
    requires Clean(row.tags) && CommaFree(tag) && row.tags != tag && Same(true, row.tags, tag)
    requires !Same(true, row.tags, "stale")
    ensures WhereClause(row, opts) && !PassesScopeFilters(row, opts)
  {
    StaleClause(row.tags);
    OneTag(row.tags, "stale");
    OneTag(row.tags, tag);
    assert opts.tagsAny[0] == tag;
  }

  lemma OneTag(tags: string, item: string)
    requires Clean(tags) && CommaFree(item)
    ensures LikeItem(true, tags, item) <==> Same(true, tags, item)
    ensures item in Split(tags) <==> item == tags
  {
    SinglePiece(tags);
    LikeIsPiece(true, tags, item);
    assert [tags][0] == tags;
  }

  lemma SinglePiece(x: string)
    requires Clean(x)
    ensures Pieces(x) == [x] && Split(x) == [x]
  {
    PiecesOfJoin([x]);
    SplitJoinRoundTrip([x]);
  }

  // ── Candidates ─────────────────────────

  ghost predicate DistinctIds(rows: seq<NodeRow>) {
    forall i, j :: 0 <= i < j < |rows| ==> rows[i].id != rows[j].id
  }

  /** What the candidate query may return: some rows in scope, each once.  Which rows fit under
      its LIMIT, and how ties of importance fall, does not matter to what follows. */
  ghost predicate IsWindow(table: seq<NodeRow>, opts: RecallOptions, window: seq<NodeRow>) {
    DistinctIds(window) && forall r :: r in window ==> r in table && WhereClause(r, opts)
  }

  lemma {:induction false} FilterDistinct(p: NodeRow -> bool, s: seq<NodeRow>)
    requires DistinctIds(s)
    ensures DistinctIds(Filter(p, s))
  {
    if s != [] {
      var n := |s| - 1;
      FilterDistinct(p, s[..n]);
      var kept := Filter(p, s[..n]);
      forall i | 0 <= i < |kept| ensures kept[i].id != s[n].id {
        assert kept[i] in s[..n];
      }
    }
  }

  /** Lexical relevance gates the set, and matches the window missed are recovered in scope. */
  ghost function Candidates(table: seq<NodeRow>, opts: RecallOptions, ftsIds: set<string>,
                            window: seq<NodeRow>): set<NodeRow> {
    set r | r in table && if ftsIds == {} then r in window
                          else r.id in ftsIds && (r in window || PassesScopeFilters(r, opts))
  }

  method GatherCandidates(table: seq<NodeRow>, opts: RecallOptions, ftsIds: set<string>, window: seq<NodeRow>)
    returns (candidates: seq<NodeRow>)
    requires DistinctIds(table) && IsWindow(table, opts, window)
    ensures DistinctIds(candidates)
    ensures forall r :: r in candidates <==> r in Candidates(table, opts, ftsIds, window)
    ensures ftsIds == {} ==> candidates == window
    ensures ftsIds != {} ==> forall r :: r in candidates <==>
              r in table && r.id in ftsIds && (r in window || PassesScopeFilters(r, opts))
  {
    candidates := window;
    if ftsIds != {} {
      var matching: NodeRow -> bool := (r: NodeRow) => r.id in ftsIds;
      FilterDistinct(matching, window);
      candidates := Filter(matching, window);
      var present := set i | 0 <= i < |candidates| :: candidates[i].id;
      var missed: NodeRow -> bool := (r: NodeRow) => r.id in ftsIds && r.id !in present && PassesScopeFilters(r, opts);
      var recovered := Filter(missed, table);
      FilterDistinct(missed, table);
      Recovered(table, window, candidates, recovered, ftsIds, opts, present);
      candidates := candidates + recovered;
    }
  }

  lemma Recovered(table: seq<NodeRow>, window: seq<NodeRow>, kept: seq<NodeRow>, recovered: seq<NodeRow>,
                  ftsIds: set<string>, opts: RecallOptions, present: set<string>)
    requires DistinctIds(table) && IsWindow(table, opts, window) && ftsIds != {}
    requires DistinctIds(kept) && forall r :: r in kept <==> r in window && r.id in ftsIds
    requires present == set i | 0 <= i < |kept| :: kept[i].id
    requires DistinctIds(recovered)
    requires forall r ::
      r in recovered <==> r in table && r.id in ftsIds && r.id !in present && PassesScopeFilters(r, opts)
    ensures DistinctIds(kept + recovered)
    ensures forall r :: r in kept + recovered <==> r in Candidates(table, opts, ftsIds, window)
  {
    forall i, j | 0 <= i < |kept| && 0 <= j < |recovered| ensures kept[i].id != recovered[j].id {
      assert recovered[j] in recovered && kept[i].id in present;
    }
    forall r | r in Candidates(table, opts, ftsIds, window) ensures r in kept + recovered {
      if r.id in present {
        var i :| 0 <= i < |kept| && kept[i].id == r.id;
        assert kept[i] in kept;
      }
    }
  }

  /** The candidates are the lexical matches in scope: what the importance window held cannot
      be seen in them. */
  ghost predicate IgnoresWindow(table: seq<NodeRow>, opts: RecallOptions, ftsIds: set<string>, window: seq<NodeRow>) {
    Candidates(table, opts, ftsIds, window) == set r | r in table && r.id in ftsIds && PassesScopeFilters(r, opts)
  }

  /** The words that LIKE does not read as `stale`. */
  function Fresh(words: set<string>): set<string> { set x | x in words && !Same(true, x, "stale") }

  /** The words tell requests apart on the rows that the query can return. */
  ghost predicate FreshlyDistinguished(tagWords: set<string>, projectWords: set<string>, tags: set<string>,
                                       projects: set<string>) {
    && (forall q :: q in tags ==> Resolves(Fresh(tagWords), q))
    && (forall q :: q in projects ==> Resolves(projectWords, q))
  }

  lemma FreshList(v: seq<string>, words: set<string>)
    requires CleanWords(words) && Over(v, words)
    ensures !LikeItem(true, Join(v), "stale") <==> Over(v, Fresh(words))
  {
    if v == [] {
      EmptyColumn("stale");
    } else {
      LikeIsMember(v, "stale");
      if !LikeItem(true, Join(v), "stale") {
        forall x | x in v ensures x in Fresh(words) {
          var k :| 0 <= k < |v| && v[k] == x;
          assert !Same(true, v[k], "stale");
        }
      }
      if k :| 0 <= k < |v| && Same(true, v[k], "stale") { assert v[k] in v; }
    }
  }

  lemma FreshTagsAgree(v: seq<string>, words: set<string>, q: string)
    requires CleanWords(words) && Over(v, Fresh(words)) && Resolves(Fresh(words), q)
    ensures LikeItem(true, Join(v), q) <==> q in Split(Join(v))
  {
    ReadsExactlyIff(Fresh(words), q);
    assert ReadsExactly(v, q);
  }

  /** What the query lets through passes the predicate. */
  lemma QueriedRowPasses(row: NodeRow, opts: RecallOptions, tagWords: set<string>, projectWords: set<string>,
                         tags: set<string>, projects: set<string>)
    requires CleanWords(tagWords) && CleanWords(projectWords)
    requires Written(row, tagWords, projectWords) && Asks(opts, tags, projects)
    requires FreshlyDistinguished(tagWords, projectWords, tags, projects) && WhereClause(row, opts)
    ensures PassesScopeFilters(row, opts)
  {
    var v :| Over(v, tagWords) && row.tags == Join(v);
    var w :| Over(w, projectWords) && row.projects == Join(w);
    StaleClause(row.tags);
    FreshList(v, tagWords);
    DecodesTo(v);
    if "stale" in v { StoredIsFound(v, "stale"); }
    if opts.project.Some? {
      ReadsExactlyIff(projectWords, opts.project.value);
      assert ReadsExactly(w, opts.project.value);
    }
    if opts.tagsAny != [] {
      var k :| 0 <= k < |opts.tagsAny| && LikeItem(true, row.tags, opts.tagsAny[k]);
      FreshTagsAgree(v, tagWords, opts.tagsAny[k]);
    }
  }

  ghost predicate AllWritten(table: seq<NodeRow>, tagWords: set<string>, projectWords: set<string>) {
    forall r :: r in table ==> Written(r, tagWords, projectWords)
  }

  lemma CandidatesIgnoreWindow(table: seq<NodeRow>, opts: RecallOptions, ftsIds: set<string>, window: seq<NodeRow>,
                               tagWords: set<string>, projectWords: set<string>,
                               tags: set<string>, projects: set<string>)
    requires IsWindow(table, opts, window) && ftsIds != {}
    requires (forall x :: x in tagWords ==> Clean(x)) && (forall x :: x in projectWords ==> Clean(x))
    requires AllWritten(table, tagWords, projectWords) && Asks(opts, tags, projects)
    requires FreshlyDistinguished(tagWords, projectWords, tags, projects)
    ensures IgnoresWindow(table, opts, ftsIds, window)
  {
    forall r | r in window ensures PassesScopeFilters(r, opts) {
      QueriedRowPasses(r, opts, tagWords, projectWords, tags, projects);
    }
  }

  lemma FreshTagMisread(tagWords: set<string>, projectWords: set<string>, q: string) returns (row: NodeRow)
    requires CleanWords(tagWords) && !Resolves(Fresh(tagWords), q)
    ensures Written(row, tagWords, projectWords) && WhereClause(row, Asking(None, [q]))
    ensures !PassesScopeFilters(row, Asking(None, [q]))
  {
    var v := Misread(Fresh(tagWords), q);
    row := Plain(Join(v), "");
    DecodesTo(v);
    FreshList(v, tagWords);
    assert Over(v, tagWords);
    assert Over([], projectWords) && row.projects == Join([]);
    OnlyQueryFindsTag(row, q);
  }

  lemma WindowShows(row: NodeRow, opts: RecallOptions)
    requires WhereClause(row, opts) && !PassesScopeFilters(row, opts)
    ensures IsWindow([row], opts, [row]) && !IgnoresWindow([row], opts, {row.id}, [row])
  {
    assert row in Candidates([row], opts, {row.id}, [row]);
  }

  /** With a hint, the candidates are the lexical matches in scope for every table written from
      two clean vocabularies, every window and all options that ask for certain tags and
      projects, if and only if the words that are not variants of `stale` tell those tags
      apart, and the words for projects those projects. */
  lemma CandidatesIgnoreWindowIff(tagWords: set<string>, projectWords: set<string>, tags: set<string>,
                                  projects: set<string>)
    requires (forall x :: x in tagWords ==> Clean(x)) && (forall x :: x in projectWords ==> Clean(x))
    ensures (forall table, opts, ftsIds, window ::
               (AllWritten(table, tagWords, projectWords) && Asks(opts, tags, projects) && ftsIds != {}
                && IsWindow(table, opts, window)) ==> IgnoresWindow(table, opts, ftsIds, window))
       <==> FreshlyDistinguished(tagWords, projectWords, tags, projects)
  {
    if FreshlyDistinguished(tagWords, projectWords, tags, projects) {
      forall table, opts, ftsIds, window |
        AllWritten(table, tagWords, projectWords) && Asks(opts, tags, projects) && ftsIds != {}
        && IsWindow(table, opts, window)
        ensures IgnoresWindow(table, opts, ftsIds, window)
      {
        CandidatesIgnoreWindow(table, opts, ftsIds, window, tagWords, projectWords, tags, projects);
      }
    } else if q :| q in tags && !Resolves(Fresh(tagWords), q) {
      var row := FreshTagMisread(tagWords, projectWords, q);
      WindowShows(row, Asking(None, [q]));
      assert AllWritten([row], tagWords, projectWords) && Asks(Asking(None, [q]), tags, projects);
    } else {
      var q :| q in projects && !Resolves(projectWords, q);
      var row := ProjectMisread(tagWords, projectWords, q);
      WindowShows(row, Asking(Some(q), []));
      assert AllWritten([row], tagWords, projectWords) && Asks(Asking(Some(q), []), tags, projects);
    }
  }

  // ── Ranking ────────────────────────────

  const W_RECENCY := 0.20
  const W_IMPORTANCE := 0.35
  const W_ACCESS := 0.15
  const W_FTS := 0.20
  const W_GRAPH := 0.10
  const MAX_GRAPH_BOOST_PARTICIPANTS := 100

  datatype Scored = Scored(node: NodeRow, score: real)

  predicate BetterFirst(a: Scored, b: Scored) { a.score >= b.score }

  function AccessFrequency(count: int): real {
    if count <= 0 then 0.0 else if count >= 20 then 1.0 else count as real / 20.0
  }

  function BaseScore(recency: string -> real, ftsIds: set<string>, r: NodeRow): real {
    W_RECENCY * recency(r.updated) + W_IMPORTANCE * r.importance + W_ACCESS * AccessFrequency(r.accessCount)
      + if r.id in ftsIds then W_FTS else 0.0
  }

  function NodesOf(s: seq<Scored>): (r: seq<NodeRow>)
    ensures |r| == |s| && forall i :: 0 <= i < |s| ==> r[i] == s[i].node
  {
    seq(|s|, i requires 0 <= i < |s| => s[i].node)
  }

  /** The best `limit` of the candidates by base score, best first. */
  ghost predicate IsTop(top: seq<Scored>, candidates: seq<NodeRow>, limit: nat, base: NodeRow -> real) {
    && |top| == (if |candidates| < limit then |candidates| else limit)
    && DistinctIds(NodesOf(top))
    && (forall i :: 0 <= i < |top| ==> top[i].node in candidates && top[i].score == base(top[i].node))
    && SortedBy(BetterFirst, top)
    && (forall r, i :: r in candidates && r !in NodesOf(top) && 0 <= i < |top| ==> base(r) <= top[i].score)
  }

  method TopCandidates(candidates: seq<NodeRow>, limit: nat, base: NodeRow -> real) returns (scored: seq<Scored>)
    requires DistinctIds(candidates)
    ensures IsTop(scored, candidates, limit, base)
  {
    var all := seq(|candidates|, i requires 0 <= i < |candidates| => Scored(candidates[i], base(candidates[i])));
    scored := Sort(BetterFirst, all);
    ghost var sorted := scored;
    SortSorts(BetterFirst, all);
    SortPermutes(BetterFirst, all);
    SortedCandidates(candidates, all, sorted, base);
    if |scored| > limit {
      scored := scored[..limit];
    }
    CutKeepsBest(candidates, sorted, scored, base);
  }

  lemma CutKeepsBest(candidates: seq<NodeRow>, sorted: seq<Scored>, top: seq<Scored>, base: NodeRow -> real)
    requires top <= sorted && SortedBy(BetterFirst, sorted)
    requires forall i :: 0 <= i < |sorted| ==> sorted[i].score == base(sorted[i].node)
    requires forall r :: r in candidates ==> exists j :: 0 <= j < |sorted| && sorted[j].node == r
    ensures forall r, i :: r in candidates && r !in NodesOf(top) && 0 <= i < |top| ==> base(r) <= top[i].score
  {
    assert forall j :: 0 <= j < |top| ==> NodesOf(top)[j] == sorted[j].node;
    forall r, i | r in candidates && r !in NodesOf(top) && 0 <= i < |top| ensures base(r) <= top[i].score {
      var j :| 0 <= j < |sorted| && sorted[j].node == r;
      assert BetterFirst(sorted[i], sorted[j]);
    }
  }

  lemma SortedCandidates(candidates: seq<NodeRow>, all: seq<Scored>, sorted: seq<Scored>, base: NodeRow -> real)
    requires DistinctIds(candidates) && |all| == |candidates|
    requires forall i :: 0 <= i < |all| ==> all[i] == Scored(candidates[i], base(candidates[i]))
    requires multiset(all) == multiset(sorted)
    ensures forall i :: 0 <= i < |sorted| ==> sorted[i].node in candidates && sorted[i].score == base(sorted[i].node)
    ensures forall i, j :: 0 <= i < j < |sorted| ==> sorted[i].node.id != sorted[j].node.id
    ensures forall r :: r in candidates ==> exists j :: 0 <= j < |sorted| && sorted[j].node == r
  {
    SameElements(all, sorted);
    assert Distinct(all);
    DistinctPermutation(all, sorted);
    forall i | 0 <= i < |sorted| ensures sorted[i].node in candidates && sorted[i].score == base(sorted[i].node) {
      assert sorted[i] in all;
    }
    forall i, j | 0 <= i < j < |sorted| ensures sorted[i].node.id != sorted[j].node.id {
      assert sorted[i] in all && sorted[j] in all && sorted[i] != sorted[j];
      var p :| 0 <= p < |all| && all[p] == sorted[i];
      var q :| 0 <= q < |all| && all[q] == sorted[j];
    }
    forall r | r in candidates ensures exists j :: 0 <= j < |sorted| && sorted[j].node == r {
      var i :| 0 <= i < |candidates| && candidates[i] == r;
      assert all[i] in sorted;
    }
  }

  lemma TopIsNoHigher(a: seq<Scored>, b: seq<Scored>, ca: seq<NodeRow>, cb: seq<NodeRow>, limit: nat,
                      base: NodeRow -> real, i: nat)
    requires IsTop(a, ca, limit, base) && IsTop(b, cb, limit, base)
    requires (forall r :: r in ca <==> r in cb) && i < |a| && i < |b|
    ensures a[i].score <= b[i].score
  {
    if a[i].score > b[i].score {
      // The first `i + 1` nodes of `a` would have to be among the first `i` of `b`.
      forall r | r in NodesOf(a)[..i + 1] ensures r in NodesOf(b)[..i] {
        UpToIsAtLeast(a, ca, limit, base, i, r);
        HigherIsEarlier(b, cb, limit, base, i, r);
      }
      DistinctFits(NodesOf(a)[..i + 1], NodesOf(b)[..i]);
      assert false;
    }
  }

  lemma UpToIsAtLeast(a: seq<Scored>, ca: seq<NodeRow>, limit: nat, base: NodeRow -> real, i: nat, r: NodeRow)
    requires IsTop(a, ca, limit, base) && i < |a| && r in NodesOf(a)[..i + 1]
    ensures r in ca && base(r) >= a[i].score
  {
    var k :| 0 <= k < i + 1 && NodesOf(a)[..i + 1][k] == r;
    assert r == a[k].node;
    assert k < i ==> BetterFirst(a[k], a[i]);
  }

  lemma HigherIsEarlier(b: seq<Scored>, cb: seq<NodeRow>, limit: nat, base: NodeRow -> real, i: nat, r: NodeRow)
    requires IsTop(b, cb, limit, base) && i < |b| && r in cb && base(r) > b[i].score
    ensures r in NodesOf(b)[..i]
  {
    assert r in NodesOf(b);
    var j :| 0 <= j < |b| && NodesOf(b)[j] == r;
    assert i < j ==> BetterFirst(b[i], b[j]);
    assert j < i;
    assert NodesOf(b)[..i][j] == r;
  }

  /** The ranking by base score is settled by which candidates there are: however they were
      gathered, the same scores come out in the same places. */
  lemma {:induction false} TopScoresAgree(a: seq<Scored>, b: seq<Scored>, ca: seq<NodeRow>, cb: seq<NodeRow>,
                                          limit: nat, base: NodeRow -> real)
    requires IsTop(a, ca, limit, base) && IsTop(b, cb, limit, base)
    requires DistinctIds(ca) && DistinctIds(cb) && forall r :: r in ca <==> r in cb
    ensures |a| == |b| && forall i :: 0 <= i < |a| ==> a[i].score == b[i].score
  {
    DistinctFits(ca, cb);
    DistinctFits(cb, ca);
    forall i | 0 <= i < |a| ensures a[i].score == b[i].score {
      TopIsNoHigher(a, b, ca, cb, limit, base, i);
      TopIsNoHigher(b, a, cb, ca, limit, base, i);
    }
  }

  /** Centrality of a node among the leading candidates; the rest get none. */
  function Boost(centrality: (seq<string>, string) -> real, top: seq<Scored>, id: string): real {
    var n := if |top| < MAX_GRAPH_BOOST_PARTICIPANTS then |top| else MAX_GRAPH_BOOST_PARTICIPANTS;
    var ids := seq(n, i requires 0 <= i < n => top[i].node.id);
    if id in ids then centrality(ids, id) else 0.0
  }

  ghost predicate IsBoosted(top: seq<Scored>, centrality: (seq<string>, string) -> real, s: Scored) {
    exists i :: 0 <= i < |top| && s.node == top[i].node
                && s.score == top[i].score + W_GRAPH * Boost(centrality, top, s.node.id)
  }

  /** The boost pass: scores rise, the list is sorted again, nobody enters or leaves. */
  method ApplyBoost(top: seq<Scored>, centrality: (seq<string>, string) -> real) returns (scored: seq<Scored>)
    ensures |scored| == |top| && multiset(NodesOf(scored)) == multiset(NodesOf(top))
    ensures SortedBy(BetterFirst, scored)
    ensures forall s :: s in scored ==> IsBoosted(top, centrality, s)
  {
    var boosted := top;
    for i := 0 to |top|
      invariant |boosted| == |top|
      invariant forall k :: 0 <= k < |top| ==> boosted[k].node == top[k].node
      invariant forall k :: 0 <= k < i ==>
        boosted[k].score == top[k].score + W_GRAPH * Boost(centrality, top, top[k].node.id)
      invariant forall k :: i <= k < |top| ==> boosted[k].score == top[k].score
    {
      var sn := boosted[i];
      boosted := boosted[i := sn.(score := sn.score + W_GRAPH * Boost(centrality, top, sn.node.id))];
    }
    scored := Sort(BetterFirst, boosted);
    SortSorts(BetterFirst, boosted);
    SortPermutes(BetterFirst, boosted);
    SameElements(boosted, scored);
    NodesPermute(boosted, scored);
    assert NodesOf(boosted) == NodesOf(top);
  }

  lemma NodesConcat(a: seq<Scored>, b: seq<Scored>)
    ensures NodesOf(a + b) == NodesOf(a) + NodesOf(b)
  {}

  lemma NodesDropped(s: seq<Scored>, j: nat)
    requires j < |s|
    ensures multiset(NodesOf(s)) == multiset(NodesOf(RemoveAt(s, j))) + multiset{s[j].node}
  {
    var front, back := s[..j], s[j + 1..];
    assert s == front + ([s[j]] + back);
    NodesConcat(front, [s[j]] + back);
    NodesConcat([s[j]], back);
    NodesConcat(front, back);
    assert NodesOf([s[j]]) == [s[j].node];
  }

  lemma {:induction false} NodesPermute(a: seq<Scored>, b: seq<Scored>)
    requires multiset(a) == multiset(b)
    ensures multiset(NodesOf(a)) == multiset(NodesOf(b))
    decreases |a|
  {
    SameElements(a, b);
    if a != [] {
      assert a[0] in b;
      var j :| 0 <= j < |b| && b[j] == a[0];
      RemoveAtMultiset(a, 0);
      RemoveAtMultiset(b, j);
      NodesPermute(RemoveAt(a, 0), RemoveAt(b, j));
      NodesDropped(a, 0);
      NodesDropped(b, j);
    }
  }

  /** The whole recall.  `lexical` are the hits of the text search, `window` the rows the
      candidate query returned; `recency` and `centrality` are the two foreign scores. */
  method SmartRecallWith(table: seq<NodeRow>, opts: RecallOptions, lexical: set<string>, window: seq<NodeRow>,
                         recency: string -> real, centrality: (seq<string>, string) -> real)
    returns (scored: seq<Scored>, ghost candidates: seq<NodeRow>, ghost top: seq<Scored>)
    requires DistinctIds(table) && IsWindow(table, opts, window)
    ensures var hinted := opts.hint.Some? && opts.hint.value != "";
            var ftsIds := if hinted then lexical else {};
            if hinted && lexical == {} then candidates == []
            else forall r :: r in candidates <==> r in Candidates(table, opts, ftsIds, window)
    ensures opts.hint.None? || opts.hint == Some("") ==> candidates == window
    ensures DistinctIds(candidates)
    ensures var ftsIds := if opts.hint.Some? && opts.hint.value != "" then lexical else {};
            IsTop(top, candidates, opts.limit, r => BaseScore(recency, ftsIds, r))
    ensures |scored| == |top| <= opts.limit && multiset(NodesOf(scored)) == multiset(NodesOf(top))
    ensures SortedBy(BetterFirst, scored)
    ensures |top| <= 1 ==> scored == top
    ensures |top| > 1 ==> forall s :: s in scored ==> IsBoosted(top, centrality, s)
  {
    var hinted := opts.hint.Some? && opts.hint.value != "";
    var ftsIds := if hinted then lexical else {};
    if hinted && ftsIds == {} {
      return [], [], [];
    }
    var gathered := GatherCandidates(table, opts, ftsIds, window);
    candidates := gathered;
    scored := TopCandidates(gathered, opts.limit, r => BaseScore(recency, ftsIds, r));
    top := scored;
    if |scored| > 1 {
      scored := ApplyBoost(scored, centrality);
    }
  }

  // ── What a score is made of ────────────

  lemma ImportanceWeighs(recency: string -> real, ftsIds: set<string>, a: NodeRow, b: NodeRow)
    requires recency(a.updated) == recency(b.updated) && a.accessCount == b.accessCount
    requires a.id in ftsIds <==> b.id in ftsIds
    ensures BaseScore(recency, ftsIds, a) - BaseScore(recency, ftsIds, b) == 0.35 * (a.importance - b.importance)
  {}

  lemma RecencyWeighs(recency: string -> real, ftsIds: set<string>, a: NodeRow, b: NodeRow)
    requires a.importance == b.importance && a.accessCount == b.accessCount && (a.id in ftsIds <==> b.id in ftsIds)
    ensures BaseScore(recency, ftsIds, a) - BaseScore(recency, ftsIds, b)
         == 0.20 * (recency(a.updated) - recency(b.updated))
  {}

  /** Twenty accesses are worth 0.15; more, or fewer than none, make no difference. */
  lemma AccessesWeigh(recency: string -> real, ftsIds: set<string>, a: NodeRow, b: NodeRow)
    requires a.importance == b.importance && recency(a.updated) == recency(b.updated)
    requires a.id in ftsIds <==> b.id in ftsIds
    ensures 0 <= a.accessCount <= 20 && 0 <= b.accessCount <= 20 ==>
              BaseScore(recency, ftsIds, a) - BaseScore(recency, ftsIds, b)
              == 0.0075 * (a.accessCount - b.accessCount) as real
    ensures a.accessCount >= 20 && b.accessCount >= 20 ==>
              BaseScore(recency, ftsIds, a) == BaseScore(recency, ftsIds, b)
    ensures a.accessCount <= 0 && b.accessCount <= 0 ==>
              BaseScore(recency, ftsIds, a) == BaseScore(recency, ftsIds, b)
  {
    if 0 <= a.accessCount <= 20 { AccessShare(a.accessCount); }
    if 0 <= b.accessCount <= 20 { AccessShare(b.accessCount); }
  }

  lemma AccessShare(count: int)
    requires 0 <= count <= 20
    ensures W_ACCESS * AccessFrequency(count) == 0.0075 * count as real
  {}

  lemma HitWeighs(recency: string -> real, ftsIds: set<string>, a: NodeRow, b: NodeRow)
    requires a.importance == b.importance && recency(a.updated) == recency(b.updated)
    requires a.accessCount == b.accessCount && a.id in ftsIds && b.id !in ftsIds
    ensures BaseScore(recency, ftsIds, a) - BaseScore(recency, ftsIds, b) == 0.20
  {}

  lemma NothingScoresZero(recency: string -> real, ftsIds: set<string>, r: NodeRow)
    requires r.importance == 0.0 && recency(r.updated) == 0.0 && r.accessCount <= 0 && r.id !in ftsIds
    ensures BaseScore(recency, ftsIds, r) == 0.0
  {}

  lemma MoreAccesses(a: int, b: int)
    requires a >= b
    ensures AccessFrequency(a) >= AccessFrequency(b)
  {}

  lemma MoreAccessesCount(a: int, b: int)
    requires a > b && a > 0 && b < 20
    ensures AccessFrequency(a) > AccessFrequency(b)
  {}

  lemma DominantScoresMore(recency: string -> real, ftsIds: set<string>, a: NodeRow, b: NodeRow)
    requires recency(a.updated) >= recency(b.updated) && a.importance >= b.importance
    requires a.accessCount >= b.accessCount && (b.id in ftsIds ==> a.id in ftsIds)
    requires || recency(a.updated) > recency(b.updated) || a.importance > b.importance
             || (a.accessCount > b.accessCount && a.accessCount > 0 && b.accessCount < 20)
             || (a.id in ftsIds && b.id !in ftsIds)
    ensures BaseScore(recency, ftsIds, a) > BaseScore(recency, ftsIds, b)
  {
    MoreAccesses(a.accessCount, b.accessCount);
    if a.accessCount > b.accessCount && a.accessCount > 0 && b.accessCount < 20 {
      MoreAccessesCount(a.accessCount, b.accessCount);
    }
  }

  lemma HigherComesFirst(top: seq<Scored>, candidates: seq<NodeRow>, limit: nat, base: NodeRow -> real,
                         a: NodeRow, j: nat)
    returns (i: nat)
    requires IsTop(top, candidates, limit, base) && a in candidates && j < |top| && base(a) > base(top[j].node)
    ensures i < j && top[i].node == a
  {
    HigherIsEarlier(top, candidates, limit, base, j, a);
    i :| 0 <= i < j && NodesOf(top)[..j][i] == a;
  }

  /** In the list that the recall cuts to its limit, a candidate that dominates another stands
      before it, and is there if the other is. */
  lemma DominantComesFirst(top: seq<Scored>, candidates: seq<NodeRow>, limit: nat, recency: string -> real,
                           ftsIds: set<string>, a: NodeRow, b: NodeRow, j: nat)
    returns (i: nat)
    requires IsTop(top, candidates, limit, r => BaseScore(recency, ftsIds, r)) && a in candidates
    requires j < |top| && top[j].node == b
    requires recency(a.updated) >= recency(b.updated) && a.importance >= b.importance
    requires a.accessCount >= b.accessCount && (b.id in ftsIds ==> a.id in ftsIds)
    requires || recency(a.updated) > recency(b.updated) || a.importance > b.importance
             || (a.accessCount > b.accessCount && a.accessCount > 0 && b.accessCount < 20)
             || (a.id in ftsIds && b.id !in ftsIds)
    ensures i < j && top[i].node == a
  {
    DominantScoresMore(recency, ftsIds, a, b);
    i := HigherComesFirst(top, candidates, limit, r => BaseScore(recency, ftsIds, r), a, j);
  }

  // ── What the boost may do ──────────────

  /** Only the first hundred are boosted. */
  lemma BoostsFirstHundred(centrality: (seq<string>, string) -> real, top: seq<Scored>, i: nat)
    requires i < |top| && DistinctIds(NodesOf(top))
    ensures 100 <= i ==> Boost(centrality, top, top[i].node.id) == 0.0
    ensures i < 100 ==>
              exists ids :: |ids| == (if |top| < 100 then |top| else 100)
                            && (forall k :: 0 <= k < |ids| ==> ids[k] == top[k].node.id)
                            && Boost(centrality, top, top[i].node.id) == centrality(ids, top[i].node.id)
  {
    var n := if |top| < 100 then |top| else 100;
    var ids := seq(n, k requires 0 <= k < n => top[k].node.id);
    assert i < n ==> ids[i] == top[i].node.id;
    forall k | 0 <= k < n && k != i ensures ids[k] != top[i].node.id {
      assert NodesOf(top)[k].id != NodesOf(top)[i].id;
    }
  }

  lemma BoostIsBounded(top: seq<Scored>, centrality: (seq<string>, string) -> real, s: Scored, j: nat)
    requires IsBoosted(top, centrality, s) && DistinctIds(NodesOf(top))
    requires forall ids, id :: 0.0 <= centrality(ids, id) <= 1.0
    requires j < |top| && s.node == top[j].node
    ensures top[j].score <= s.score <= top[j].score + 0.10
  {
    var i :| 0 <= i < |top| && s.node == top[i].node
             && s.score == top[i].score + W_GRAPH * Boost(centrality, top, s.node.id);
    assert NodesOf(top)[i].id == NodesOf(top)[j].id;
    assert i == j;
    BoostsFirstHundred(centrality, top, i);
  }

  /** Centralities are shares of the largest.  The boost adds at most 0.10 of them, so a lead of
      more than that in the base scores is kept. */
  lemma BoostKeepsLead(top: seq<Scored>, scored: seq<Scored>, centrality: (seq<string>, string) -> real,
                       i: nat, j: nat, p: nat, q: nat)
    requires DistinctIds(NodesOf(top)) && SortedBy(BetterFirst, scored)
    requires forall ids, id :: 0.0 <= centrality(ids, id) <= 1.0
    requires forall s :: s in scored ==> IsBoosted(top, centrality, s)
    requires i < |top| && j < |top| && top[i].score > top[j].score + 0.10
    requires p < |scored| && q < |scored| && scored[p].node == top[i].node && scored[q].node == top[j].node
    ensures p < q
  {
    BoostIsBounded(top, centrality, scored[p], i);
    BoostIsBounded(top, centrality, scored[q], j);
    assert p != q;
  }
}
