/** SQL LIKE with ESCAPE (section 8.5 of ISO/IEC 9075-2) as a backtracking matcher, and the
    literal escaping of `src/graph/types.rs`.  SQLite's LIKE ignores ASCII case, PostgreSQL's
    does not; `fold` selects which. */
module Like {
  import opened Wrappers

  const ESC := '\\'

  function Lower(c: char): char {
    if 'A' <= c <= 'Z' then (c as int + 32) as char else c
  }

  predicate SameChar(fold: bool, a: char, b: char) {
    if fold then Lower(a) == Lower(b) else a == b
  }

  predicate Same(fold: bool, s: string, t: string) {
    |s| == |t| && forall i :: 0 <= i < |s| ==> SameChar(fold, s[i], t[i])
  }

  /** `text LIKE pattern [ESCAPE escape]`.  `%` matches any run, `_` any one character, and an
      escape makes the next pattern character literal; a dangling escape matches nothing. */
  predicate Matches(fold: bool, text: string, pattern: string, escape: Option<char>)
    decreases |text| + |pattern|
  {
    if pattern == "" then text == ""
    else if escape == Some(pattern[0]) then
      && |pattern| > 1 && text != "" && SameChar(fold, text[0], pattern[1])
      && Matches(fold, text[1..], pattern[2..], escape)
    else if pattern[0] == '%' then
      Matches(fold, text, pattern[1..], escape) || (text != "" && Matches(fold, text[1..], pattern, escape))
    else if pattern[0] == '_' then
      text != "" && Matches(fold, text[1..], pattern[1..], escape)
    else
      text != "" && SameChar(fold, text[0], pattern[0]) && Matches(fold, text[1..], pattern[1..], escape)
  }

  predicate Special(c: char) { c == '%' || c == '_' || c == ESC }

  function Escape(value: string): string {
    if value == "" then ""
    else
      var n := |value| - 1;
      Escape(value[..n]) + if Special(value[n]) then [ESC, value[n]] else [value[n]]
  }

  method EscapeLike(value: string) returns (out: string)
    ensures out == Escape(value)
  {
    out := "";
    for i := 0 to |value|
      invariant out == Escape(value[..i])
    {
      var ch := value[i];
      assert value[..i + 1][..i] == value[..i];
      if ch == '%' || ch == '_' || ch == '\\' {
        out := out + ['\\'] + [ch];
      } else {
        out := out + [ch];
      }
    }
    assert value[..|value|] == value;
  }

  lemma {:induction false} EscapeConcat(a: string, b: string)
    ensures Escape(a + b) == Escape(a) + Escape(b)
  {
    if b == "" {
      assert a + b == a;
    } else {
      var n := |b| - 1;
      var whole := a + b;
      assert whole[..|whole| - 1] == a + b[..n];
      EscapeConcat(a, b[..n]);
    }
  }

  /** An escaped text stands for itself at the front of a pattern. */
  lemma {:induction false} EscapedPrefix(fold: bool, text: string, u: string, rest: string)
    ensures Matches(fold, text, Escape(u) + rest, Some(ESC))
       <==> |u| <= |text| && Same(fold, text[..|u|], u) && Matches(fold, text[|u|..], rest, Some(ESC))
    decreases |u|
  {
    if u == "" {
      assert Escape(u) + rest == rest && text[0..] == text;
    } else {
      var first, more := [u[0]], u[1..];
      assert u == first + more;
      EscapeConcat(first, more);
      assert first[..0] == "";
      var pattern := Escape(u) + rest;
      var tail := Escape(more) + rest;
      EscapedHead(fold, text, u[0], pattern, tail);
      if text != "" {
        EscapedPrefix(fold, text[1..], more, rest);
      }
    }
  }

  lemma EscapedHead(fold: bool, text: string, c: char, pattern: string, tail: string)
    requires pattern == (if Special(c) then [ESC, c] else [c]) + tail
    ensures Matches(fold, text, pattern, Some(ESC))
       <==> text != "" && SameChar(fold, text[0], c) && Matches(fold, text[1..], tail, Some(ESC))
  {
    if Special(c) {
      assert pattern[2..] == tail && pattern[0] == ESC && pattern[1] == c;
    } else {
      assert pattern[1..] == tail && pattern[0] == c;
    }
  }

  lemma {:induction false} PercentMatchesAll(fold: bool, text: string)
    ensures Matches(fold, text, "%", Some(ESC))
  {
    if text != "" { PercentMatchesAll(fold, text[1..]); }
  }

  ghost predicate OccursAt(fold: bool, text: string, u: string, i: nat) {
    i + |u| <= |text| && Same(fold, text[i..i + |u|], u)
  }

  ghost predicate Contains(fold: bool, text: string, u: string) {
    exists i: nat :: OccursAt(fold, text, u, i)
  }

  /** Between two `%`, an escaped text means substring. */
  lemma {:induction false} PercentLiteralPercent(fold: bool, text: string, u: string)
    ensures Matches(fold, text, "%" + Escape(u) + "%", Some(ESC)) <==> Contains(fold, text, u)
  {
    var pattern := "%" + Escape(u) + "%";
    assert pattern[1..] == Escape(u) + "%";
    EscapedPrefix(fold, text, u, "%");
    if |u| <= |text| {
      PercentMatchesAll(fold, text[|u|..]);
      assert text[0..0 + |u|] == text[..|u|];
    }
    assert Matches(fold, text, Escape(u) + "%", Some(ESC)) <==> OccursAt(fold, text, u, 0);
    if text != "" {
      PercentLiteralPercent(fold, text[1..], u);
      OccursShift(fold, text, u);
    }
  }

  lemma OccursShift(fold: bool, text: string, u: string)
    requires text != ""
    ensures Contains(fold, text, u) <==> OccursAt(fold, text, u, 0) || Contains(fold, text[1..], u)
  {
    forall i: nat ensures OccursAt(fold, text[1..], u, i) <==> OccursAt(fold, text, u, i + 1) {
      if i + 1 + |u| <= |text| {
        assert text[1..][i..i + |u|] == text[i + 1..i + 1 + |u|];
      }
    }
    if i: nat :| OccursAt(fold, text, u, i) {
      if i > 0 { assert OccursAt(fold, text[1..], u, i - 1); }
    }
  }

  // ── Single characters ──────────────────

  /** Folding makes the two cases of the 26 letters alike, and nothing else. */
  lemma FoldIff(a: char, b: char)
    ensures !SameChar(false, a, b) <==> a != b
    ensures SameChar(true, a, b)
       <==> var m, n := a as int, b as int;
            m == n || (65 <= m <= 90 && n == m + 32) || (65 <= n <= 90 && m == n + 32)
  {}

  lemma UnderscoreMatchesOne(fold: bool, text: string, escape: Option<char>)
    requires escape != Some('_')
    ensures Matches(fold, text, "_", escape) <==> |text| == 1
  {
    assert "_"[1..] == "";
    if text != "" { assert |text[1..]| == |text| - 1; }
  }
}
