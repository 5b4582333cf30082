/** When the LIKE test over a comma-joined column (`src/graph/recall.rs`, `src/graph/search.rs`)
    is exact membership in the decoded list, for columns written from a given vocabulary. */
module Vocabulary {
  import opened Like
  import opened Csv

  /** The list uses only these items. */
  ghost predicate Over(v: seq<string>, words: set<string>) { forall x :: x in v ==> x in words }

  ghost predicate CleanWords(words: set<string>) { forall x :: x in words ==> Clean(x) }

  /** No word is a case variant of the text. */
  ghost predicate Alone(words: set<string>, q: string) {
    forall x :: x in words && Same(true, x, q) ==> x == q
  }

  ghost predicate Unmatched(words: set<string>, y: string) {
    forall x :: x in words ==> !Same(true, x, y)
  }

  /** The words tell the request apart: it is not empty; without a comma, no other word equals
      it up to case; with commas, some piece between them equals no word up to case. */
  ghost predicate Resolves(words: set<string>, q: string) {
    && q != ""
    && (CommaFree(q) ==> Alone(words, q))
    && (!CommaFree(q) ==> exists y :: y in Pieces(q) && Unmatched(words, y))
  }

  /** On this row the query and the decoded list give the same answer. */
  ghost predicate ReadsExactly(v: seq<string>, q: string) {
    LikeItem(true, Join(v), q) <==> q in Split(Join(v))
  }

  lemma EmptyColumn(q: string)
    ensures LikeItem(true, "", q) <==> q == ""
  {
    assert FirstComma("") == 0;
    assert Pieces("") == [""];
    if CommaFree(q) {
      LikeIsPiece(true, "", q);
      assert Pieces("")[0] == "";
    } else {
      LikeIsContains(true, "", q);
    }
  }

  lemma DecodesTo(v: seq<string>)
    requires AllClean(v)
    ensures Split(Join(v)) == v
  {
    SplitJoinRoundTrip(v);
  }

  lemma LikeIsMember(v: seq<string>, q: string)
    requires v != [] && AllClean(v) && CommaFree(q)
    ensures LikeItem(true, Join(v), q) <==> Member(true, q, v)
  {
    assert AllCommaFree(v);
    PiecesOfJoin(v);
    LikeIsPiece(true, Join(v), q);
  }

  lemma PlainRequest(v: seq<string>, words: set<string>, q: string)
    requires CleanWords(words) && Over(v, words) && q != "" && CommaFree(q) && Alone(words, q)
    ensures ReadsExactly(v, q)
  {
    DecodesTo(v);
    if v == [] {
      EmptyColumn(q);
    } else {
      LikeIsMember(v, q);
      if k :| 0 <= k < |v| && Same(true, v[k], q) { assert v[k] in v; }
      if q in v {
        var k :| 0 <= k < |v| && v[k] == q;
        assert Same(true, v[k], q);
      }
    }
  }

  lemma {:induction false} ContainsPart(a: string, b: string, c: string)
    requires Contains(true, a, b) && Contains(false, b, c)
    ensures Contains(true, a, c)
  {
    var i: nat :| OccursAt(true, a, b, i);
    var j: nat :| OccursAt(false, b, c, j);
    forall t | 0 <= t < |c| ensures SameChar(true, a[i + j..i + j + |c|][t], c[t]) {
      assert SameChar(true, a[i..i + |b|][j + t], b[j + t]);
      assert SameChar(false, b[j..j + |c|][t], c[t]);
    }
    assert OccursAt(true, a, c, i + j);
  }

  lemma PieceIsContained(q: string, y: string)
    requires y in Pieces(q)
    ensures Contains(false, "," + q + ",", "," + y + ",")
  {
    var k :| 0 <= k < |Pieces(q)| && Pieces(q)[k] == y;
    assert Same(false, Pieces(q)[k], y);
    ContainsIsPiece(false, q, y);
  }

  lemma NotAmong(v: seq<string>, words: set<string>, y: string)
    requires Over(v, words) && Unmatched(words, y)
    ensures !Member(true, y, v)
  {}

  lemma CommaRequest(v: seq<string>, words: set<string>, q: string, y: string)
    requires CleanWords(words) && Over(v, words) && !CommaFree(q) && y in Pieces(q) && Unmatched(words, y)
    ensures ReadsExactly(v, q)
  {
    DecodesTo(v);
    if v == [] {
      EmptyColumn(q);
    } else if LikeItem(true, Join(v), q) {
      LikeIsContains(true, Join(v), q);
      PieceIsContained(q, y);
      ContainsPart("," + Join(v) + ",", "," + q + ",", "," + y + ",");
      LikeIsContains(true, Join(v), y);
      LikeIsMember(v, y);
      NotAmong(v, words, y);
      assert false;
    }
  }

  lemma SameJoin(x: string, y: string, s: string, t: string)
    requires Same(true, x, y) && Same(true, s, t)
    ensures Same(true, x + "," + s, y + "," + t)
  {
    var a, b := x + "," + s, y + "," + t;
    forall i | 0 <= i < |a| ensures SameChar(true, a[i], b[i]) {
      if i < |x| { assert SameChar(true, x[i], y[i]); }
      else if i > |x| { assert SameChar(true, s[i - |x| - 1], t[i - |x| - 1]); }
    }
  }

  /** If every piece of the request has a variant among the words, some list spells it. */
  lemma {:induction false} Spell(ys: seq<string>, words: set<string>) returns (v: seq<string>)
    requires ys != [] && forall y :: y in ys ==> !Unmatched(words, y)
    ensures Over(v, words) && |v| == |ys| && Same(true, Join(v), Join(ys))
  {
    assert ys[0] in ys;
    var x :| x in words && Same(true, x, ys[0]);
    v := [x];
    if |ys| > 1 {
      var rest := Spell(ys[1..], words);
      v := [x] + rest;
      assert v[1..] == rest;
      SameJoin(x, ys[0], Join(rest), Join(ys[1..]));
    }
  }

  lemma SameTextIsFound(column: string, q: string)
    requires Same(true, column, q)
    ensures LikeItem(true, column, q)
  {
    LikeIsContains(true, column, q);
    var a, b := "," + column + ",", "," + q + ",";
    forall i | 0 <= i < |a| ensures SameChar(true, a[i], b[i]) {
      if 0 < i < |a| - 1 { assert SameChar(true, column[i - 1], q[i - 1]); }
    }
    assert a[0..0 + |b|] == a;
    assert OccursAt(true, a, b, 0);
  }

  lemma Misread(words: set<string>, q: string) returns (v: seq<string>)
    requires CleanWords(words) && !Resolves(words, q)
    ensures Over(v, words) && !ReadsExactly(v, q) && LikeItem(true, Join(v), q)
  {
    if q == "" {
      v := [];
      EmptyColumn(q);
    } else if CommaFree(q) {
      var x :| x in words && Same(true, x, q) && x != q;
      v := [x];
      SameTextIsFound(x, q);
    } else {
      v := Spell(Pieces(q), words);
      JoinOfPieces(q);
      SameTextIsFound(Join(v), q);
    }
    DecodesTo(v);
  }

  /** Over a clean vocabulary the query answers as the decoded lists do, on every row, if and
      only if the words tell the request apart. */
  lemma ReadsExactlyIff(words: set<string>, q: string)
    requires forall x :: x in words ==> Clean(x)
    ensures (forall v :: Over(v, words) ==> ReadsExactly(v, q)) <==> Resolves(words, q)
  {
    if Resolves(words, q) {
      forall v | Over(v, words) ensures ReadsExactly(v, q) {
        if CommaFree(q) {
          PlainRequest(v, words, q);
        } else {
          var y :| y in Pieces(q) && Unmatched(words, y);
          CommaRequest(v, words, q, y);
        }
      }
    } else {
      var v := Misread(words, q);
    }
  }

  /** A word that is stored is always found: the query errs only by finding too much. */
  lemma StoredIsFound(v: seq<string>, q: string)
    requires AllClean(v) && q in v
    ensures LikeItem(true, Join(v), q)
  {
    var k :| 0 <= k < |v| && v[k] == q;
    assert Same(true, v[k], q);
    LikeIsMember(v, q);
  }
}
