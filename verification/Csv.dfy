/** Tags and projects stored as comma-joined columns (`src/graph/types.rs`), and the LIKE test
    over such a column (`src/graph/search.rs`, `src/graph/recall.rs`) as list membership. */
module Csv {
  import opened Wrappers
  import opened Like

  predicate CommaFree(s: string) { ',' !in s }

  ghost predicate AllCommaFree(v: seq<string>) { forall x :: x in v ==> CommaFree(x) }

  /** `v.join(",")`. */
  function Join(v: seq<string>): string {
    if v == [] then ""
    else if |v| == 1 then v[0]
    else v[0] + "," + Join(v[1..])
  }

  function FirstComma(s: string): (i: nat)
    ensures i <= |s| && CommaFree(s[..i]) && (i < |s| ==> s[i] == ',')
  {
    if s == "" || s[0] == ',' then 0
    else
      var i := 1 + FirstComma(s[1..]);
      assert s[..i] == [s[0]] + s[1..][..i - 1];
      i
  }

  /** `s.split(',')`: one piece more than there are commas. */
  function Pieces(s: string): (v: seq<string>)
    ensures v != [] && forall x :: x in v ==> CommaFree(x)
    decreases |s|
  {
    var i := FirstComma(s);
    if i == |s| then
      assert s[..i] == s;
      [s]
    else [s[..i]] + Pieces(s[i + 1..])
  }

  /** The characters with the Unicode White_Space property. */
  predicate IsSpace(c: char) {
    ('\U{0009}' <= c && c <= '\U{000D}')
    || c == ' ' || c == '\U{0085}' || c == '\U{00A0}' || c == '\U{1680}'
    || ('\U{2000}' <= c && c <= '\U{200A}')
    || c == '\U{2028}' || c == '\U{2029}' || c == '\U{202F}' || c == '\U{205F}' || c == '\U{3000}'
  }

  predicate Trimmed(s: string) {
    s == "" || (!IsSpace(s[0]) && !IsSpace(s[|s| - 1]))
  }

  function Trim(s: string): (r: string)
    ensures Trimmed(r) && (Trimmed(s) ==> r == s)
    ensures forall c :: c in r ==> c in s
    decreases |s|
  {
    if s == "" then s
    else if IsSpace(s[0]) then Trim(s[1..])
    else if IsSpace(s[|s| - 1]) then Trim(s[..|s| - 1])
    else s
  }

  /** `split(',')`, each piece trimmed, empty ones dropped. */
  function TrimAll(v: seq<string>): seq<string> {
    if v == [] then []
    else (if Trim(v[0]) == "" then [] else [Trim(v[0])]) + TrimAll(v[1..])
  }

  function Split(s: string): seq<string> { TrimAll(Pieces(s)) }

  /** By code point. */
  lemma SpaceIff(c: char)
    ensures IsSpace(c)
       <==> var n := c as int;
            || 9 <= n <= 13 || n == 32 || n == 133 || n == 160 || n == 5760 || 8192 <= n <= 8202
            || n == 8232 || n == 8233 || n == 8239 || n == 8287 || n == 12288
  {}

  lemma EncloseFront(s: string, c: string, rest: string, a: string, t: string, b: string)
    requires s == c + rest && rest == a + t + b
    ensures s == (c + a) + t + b
  {}

  lemma EncloseBack(s: string, c: string, rest: string, a: string, t: string, b: string)
    requires s == rest + c && rest == a + t + b
    ensures s == a + t + (b + c)
  {}

  /** Trimming cuts whitespace off both ends, all of it (the result is trimmed), and nothing else. */
  lemma {:induction false} TrimCuts(s: string) returns (a: string, b: string)
    ensures s == a + Trim(s) + b
    ensures (forall i :: 0 <= i < |a| ==> IsSpace(a[i])) && (forall i :: 0 <= i < |b| ==> IsSpace(b[i]))
    decreases |s|
  {
    a, b := "", "";
    if s == "" {
    } else if IsSpace(s[0]) {
      a, b := TrimCuts(s[1..]);
      EncloseFront(s, [s[0]], s[1..], a, Trim(s[1..]), b);
      a := [s[0]] + a;
    } else if IsSpace(s[|s| - 1]) {
      a, b := TrimCuts(s[..|s| - 1]);
      EncloseBack(s, [s[|s| - 1]], s[..|s| - 1], a, Trim(s[..|s| - 1]), b);
      b := b + [s[|s| - 1]];
    } else {
      assert s == "" + s + "";
    }
  }

  // ── Join and split ─────────────────────

  /** The first comma is the only one with no comma before it. */
  lemma FirstCommaUnique(s: string, n: nat, m: nat)
    requires n < |s| && s[n] == ',' && CommaFree(s[..n])
    requires m <= |s| && (m < |s| ==> s[m] == ',') && CommaFree(s[..m])
    ensures n == m
  {}

  lemma FirstCommaOf(x: string, rest: string)
    requires CommaFree(x)
    ensures FirstComma(x) == |x|
    ensures FirstComma(x + "," + rest) == |x|
  {
    var s := x + "," + rest;
    assert s[..|x|] == x && s[|x|] == ',';
    FirstCommaUnique(s, |x|, FirstComma(s));
  }

  lemma {:induction false} PiecesOfJoin(v: seq<string>)
    requires v != [] && AllCommaFree(v)
    ensures Pieces(Join(v)) == v
  {
    if |v| == 1 {
      FirstCommaOf(v[0], "");
    } else {
      var rest := Join(v[1..]);
      FirstCommaOf(v[0], rest);
      PiecesOfJoin(v[1..]);
      var s := v[0] + "," + rest;
      assert s[..|v[0]|] == v[0] && s[|v[0]| + 1..] == rest;
    }
  }

  lemma {:induction false} JoinOfPieces(s: string)
    ensures Join(Pieces(s)) == s
    decreases |s|
  {
    var i := FirstComma(s);
    if i < |s| {
      var rest := s[i + 1..];
      JoinOfPieces(rest);
      assert Pieces(s) == [s[..i]] + Pieces(rest);
      JoinFront(s[..i], Pieces(rest));
      CommaParts(s, i);
    }
  }

  lemma JoinFront(x: string, v: seq<string>)
    requires v != []
    ensures Join([x] + v) == x + "," + Join(v)
  {
    assert ([x] + v)[1..] == v;
  }

  lemma CommaParts(s: string, i: nat)
    requires i < |s| && s[i] == ','
    ensures s == s[..i] + "," + s[i + 1..]
  {}

  predicate Clean(x: string) { x != "" && Trimmed(x) && CommaFree(x) }

  ghost predicate AllClean(v: seq<string>) { forall x :: x in v ==> Clean(x) }

  lemma {:induction false} TrimAllClean(v: seq<string>)
    requires AllCommaFree(v)
    ensures AllClean(TrimAll(v))
    ensures AllClean(v) ==> TrimAll(v) == v
  {
    if v != [] {
      var t, rest := Trim(v[0]), v[1..];
      assert v[0] in v && forall x :: x in rest ==> x in v;
      TrimAllClean(rest);
      assert CommaFree(t);
      assert t != "" ==> TrimAll(v) == [t] + TrimAll(rest);
      assert t == "" ==> TrimAll(v) == TrimAll(rest);
      assert [v[0]] + rest == v;
    }
  }

  /** Writing a list and reading it back gives the same list exactly when every item is
      non-empty, trimmed and comma-free. */
  lemma SplitJoinRoundTrip(v: seq<string>)
    ensures Split(Join(v)) == v <==> AllClean(v)
  {
    TrimAllClean(Pieces(Join(v)));
    if AllClean(v) {
      if v == [] {
        assert FirstComma("") == 0;
        assert TrimAll([""]) == [] by { assert [""][1..] == []; }
      } else {
        PiecesOfJoin(v);
        TrimAllClean(v);
      }
    }
  }

  // ── LIKE over the column ───────────────

  /** The column test as the queries write it: commas around the column and around the item. */
  predicate LikeItem(fold: bool, column: string, item: string) {
    Matches(fold, "," + column + ",", "%," + Escape(item) + ",%", Some(ESC))
  }

  ghost predicate Member(fold: bool, item: string, v: seq<string>) {
    exists k :: 0 <= k < |v| && Same(fold, v[k], item)
  }

  lemma LikeIsContains(fold: bool, column: string, item: string)
    ensures LikeItem(fold, column, item) <==> Contains(fold, "," + column + ",", "," + item + ",")
  {
    var u := "," + item + ",";
    EscapeConcat("," + item, ",");
    EscapeConcat(",", item);
    assert ","[..0] == "";
    assert Escape(",") == ",";
    assert "%," + Escape(item) + ",%" == "%" + Escape(u) + "%";
    PercentLiteralPercent(fold, "," + column + ",", u);
  }

  /** A comma matches nothing but a comma, in either case rule. */
  lemma SameCommaFree(fold: bool, s: string, t: string)
    requires Same(fold, s, t)
    ensures CommaFree(s) <==> CommaFree(t)
  {
    if i :| 0 <= i < |s| && s[i] == ',' { assert SameChar(fold, s[i], t[i]); assert t[i] == ','; }
    if i :| 0 <= i < |t| && t[i] == ',' { assert SameChar(fold, s[i], t[i]); assert s[i] == ','; }
  }

  lemma SameFramed(fold: bool, a: char, p: string, b: char, item: string)
    ensures Same(fold, [a] + p + [b], "," + item + ",") <==> a == ',' && b == ',' && Same(fold, p, item)
  {
    var w, u := [a] + p + [b], "," + item + ",";
    if Same(fold, w, u) {
      assert SameChar(fold, w[0], u[0]) && SameChar(fold, w[|p| + 1], u[|p| + 1]);
      forall k | 0 <= k < |p| ensures SameChar(fold, p[k], item[k]) {
        assert SameChar(fold, w[k + 1], u[k + 1]);
      }
    }
    if a == ',' && b == ',' && Same(fold, p, item) {
      forall k | 0 <= k < |w| ensures SameChar(fold, w[k], u[k]) {
        if 0 < k < |w| - 1 { assert SameChar(fold, p[k - 1], item[k - 1]); }
      }
    }
  }

  /** The delimited item occurs at `i` iff commas enclose a piece equal to it. */
  lemma OccursIsEnclosed(fold: bool, text: string, item: string, i: nat)
    ensures OccursAt(fold, text, "," + item + ",", i)
       <==> i + |item| + 2 <= |text| && text[i] == ',' && text[i + |item| + 1] == ','
            && Same(fold, text[i + 1..i + 1 + |item|], item)
  {
    if i + |item| + 2 <= |text| {
      var p := text[i + 1..i + 1 + |item|];
      assert text[i..i + |item| + 2] == [text[i]] + p + [text[i + |item| + 1]];
      SameFramed(fold, text[i], p, text[i + |item| + 1], item);
    }
  }

  /** At the front of `,piece,` or `,piece,rest,` only the first piece can be enclosed. */
  lemma OccursAtFront(fold: bool, x: string, tail: string, item: string)
    requires CommaFree(x) && CommaFree(item)
    ensures OccursAt(fold, "," + x + "," + tail, "," + item + ",", 0) <==> Same(fold, x, item)
  {
    var text, n := "," + x + "," + tail, |item|;
    var s := x + "," + tail;
    assert text == "," + s;
    OccursIsEnclosed(fold, text, item, 0);
    assert s[..|x|] == x && text[1..] == s;
    if OccursAt(fold, text, "," + item + ",", 0) {
      FrontHit(fold, text, s, n, |x|, item);
    }
    if Same(fold, x, item) {
      assert n == |x|;
      assert text[1..][..n] == s[..n];
      assert text[0 + 1..0 + 1 + n] == text[1..][..n];
    }
  }

  lemma FrontHit(fold: bool, text: string, s: string, n: nat, m: nat, item: string)
    requires text == "," + s && n == |item| && CommaFree(item) && m < |s| && s[m] == ',' && CommaFree(s[..m])
    requires n + 1 < |text| && text[n + 1] == ',' && Same(fold, text[1..n + 1], item)
    ensures n == m
  {
    assert text[1..] == s && text[1..n + 1] == s[..n];
    assert text[1..][n] == text[n + 1];
    SameCommaFree(fold, s[..n], item);
    FirstCommaUnique(s, n, m);
  }

  /** A piece boundary is a comma, so no occurrence starts inside a piece. */
  lemma OccursNotInside(fold: bool, x: string, tail: string, item: string, i: nat)
    requires CommaFree(x) && 0 < i
    requires OccursAt(fold, "," + x + "," + tail, "," + item + ",", i)
    ensures i >= |x| + 1 && OccursAt(fold, "," + tail, "," + item + ",", i - |x| - 1)
  {
    var text, cut := "," + x + "," + tail, |x| + 1;
    OccursIsEnclosed(fold, text, item, i);
    assert text[cut..] == "," + tail;
    assert text[1..cut] == x;
    CommaBehind(x, text, i);
    EnclosedBehind(fold, text, "," + tail, item, cut, i);
  }

  /** A comma of the text that does not open it stands behind the piece. */
  lemma CommaBehind(x: string, text: string, i: nat)
    requires CommaFree(x) && |x| + 1 <= |text| && text[1..|x| + 1] == x
    requires 0 < i < |text| && text[i] == ','
    ensures i >= |x| + 1
  {
    forall q | 1 <= q < |x| + 1 ensures text[q] != ',' {
      assert text[1..|x| + 1][q - 1] in x;
    }
  }

  lemma EnclosedBehind(fold: bool, text: string, rest: string, item: string, cut: nat, i: nat)
    requires cut <= i && cut <= |text| && text[cut..] == rest && OccursAt(fold, text, "," + item + ",", i)
    ensures OccursAt(fold, rest, "," + item + ",", i - cut)
  {
    var n := |"," + item + ","|;
    assert rest[i - cut..i - cut + n] == text[i..i + n];
  }

  lemma OccursLater(fold: bool, x: string, tail: string, u: string, i: nat)
    requires OccursAt(fold, "," + tail, u, i)
    ensures OccursAt(fold, "," + x + "," + tail, u, i + |x| + 1)
  {
    var text, cut := "," + x + "," + tail, |x| + 1;
    assert text[cut..] == "," + tail;
  }

  lemma MemberCons(fold: bool, item: string, x: string, v: seq<string>)
    ensures Member(fold, item, [x] + v) <==> Same(fold, x, item) || Member(fold, item, v)
  {
    var w := [x] + v;
    if Member(fold, item, v) {
      var k :| 0 <= k < |v| && Same(fold, v[k], item);
      assert w[k + 1] == v[k];
    }
    if Same(fold, x, item) { assert w[0] == x; }
    if Member(fold, item, w) {
      var k :| 0 <= k < |w| && Same(fold, w[k], item);
      if k > 0 { assert v[k - 1] == w[k]; }
    }
  }

  lemma {:induction false} ContainsIsPiece(fold: bool, column: string, item: string)
    requires CommaFree(item)
    ensures Contains(fold, "," + column + ",", "," + item + ",") <==> Member(fold, item, Pieces(column))
    decreases |column|
  {
    var c, u := FirstComma(column), "," + item + ",";
    var x := column[..c];
    if c == |column| {
      assert x == column;
      assert "," + column + "," == "," + x + "," + "";
      OccursAtFront(fold, x, "", item);
      assert Member(fold, item, [x]) <==> Same(fold, x, item) by {
        MemberCons(fold, item, x, []);
        assert [x] + [] == [x];
      }
      if i: nat :| OccursAt(fold, "," + column + ",", u, i) {
        if i > 0 { OccursNotInside(fold, x, "", item, i); }
      }
    } else {
      var rest := column[c + 1..];
      assert column == x + "," + rest;
      assert "," + column + "," == "," + x + "," + (rest + ",");
      assert "," + rest + "," == "," + (rest + ",");
      OccursAtFront(fold, x, rest + ",", item);
      ContainsIsPiece(fold, rest, item);
      MemberCons(fold, item, x, Pieces(rest));
      if i: nat :| OccursAt(fold, "," + column + ",", u, i) {
        if i > 0 { OccursNotInside(fold, x, rest + ",", item, i); }
      }
      if Contains(fold, "," + rest + ",", u) {
        var i: nat :| OccursAt(fold, "," + rest + ",", u, i);
        OccursLater(fold, x, rest + ",", u, i);
      }
    }
  }

  /** For any stored column whatever and any comma-free item, the LIKE test asks whether one of
      the column's comma-separated pieces equals the item under LIKE's case rule. */
  lemma LikeIsPiece(fold: bool, column: string, item: string)
    requires CommaFree(item)
    ensures LikeItem(fold, column, item) <==> Member(fold, item, Pieces(column))
  {
    LikeIsContains(fold, column, item);
    ContainsIsPiece(fold, column, item);
  }

  /** The test agrees with membership, for all lists of comma-free items, exactly when the item
      asked for is non-empty and comma-free. */
  lemma LikeIsMembershipIff(fold: bool, item: string)
    ensures (forall v :: AllCommaFree(v) ==> (LikeItem(fold, Join(v), item) <==> Member(fold, item, v)))
       <==> item != "" && CommaFree(item)
  {
    if item != "" && CommaFree(item) {
      forall v | AllCommaFree(v) ensures LikeItem(fold, Join(v), item) <==> Member(fold, item, v) {
        LikeIsPiece(fold, Join(v), item);
        if v == [] {
          assert FirstComma("") == 0;
        } else {
          PiecesOfJoin(v);
        }
      }
    } else if item == "" {
      LikeIsPiece(fold, "", "");
      assert FirstComma("") == 0;
      assert Pieces("")[0] == "";
      assert AllCommaFree([]) && Join([]) == "" && !Member(fold, "", []);
    } else {
      var v := Pieces(item);
      JoinOfPieces(item);
      LikeIsContains(fold, item, item);
      var text := "," + item + ",";
      assert text[0..0 + |text|] == text && Same(fold, text, text);
      assert OccursAt(fold, text, text, 0);
      forall k | 0 <= k < |v| ensures !Same(fold, v[k], item) {
        assert CommaFree(v[k]);
        if Same(fold, v[k], item) {
          SameCommaFree(fold, v[k], item);
          assert false;
        }
      }
      assert AllCommaFree(v) && !Member(fold, item, v);
    }
  }
}
