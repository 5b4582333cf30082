/** Stripping `user:pass@` from the URLs in a text (`src/embedding/elastic.rs`).  The scan ends an
    authority where one ends within a URL (section 3.2 of RFC 3986) and its userinfo at the last
    `@`.  It goes on behind each authority, so a `://` that the authority before it runs into is
    not seen as the start of a URL.  `UrlOccurrences` states what becomes of each `://`, and
    `UrlPromise` exactly when that is what the function is for. */
module UrlRedaction {
  import opened Wrappers

  predicate IsDelimiter(c: char) { c == '/' || c == '?' || c == '#' }

  predicate SchemeAt(s: string) { |s| >= 3 && s[0] == ':' && s[1] == '/' && s[2] == '/' }

  /** `find("://")` */
  function FindScheme(s: string): (r: Option<nat>)
    ensures r.Some? ==> r.value + 3 <= |s|
  {
    if SchemeAt(s) then Some(0)
    else if s == "" then None
    else match FindScheme(s[1..]) case Some(i) => Some(i + 1) case None => None
  }

  /** Where the authority ends: the first path, query or fragment delimiter, or the end. */
  function AuthorityEnd(s: string): (n: nat)
    ensures n <= |s|
  {
    if s == "" || IsDelimiter(s[0]) then 0 else 1 + AuthorityEnd(s[1..])
  }

  /** `rfind('@')` */
  function LastAt(s: string): (r: Option<nat>)
    ensures r.Some? ==> r.value < |s| && s[r.value] == '@' && '@' !in s[r.value + 1..]
    ensures r.None? ==> '@' !in s
  {
    if s == "" then None
    else if s[|s| - 1] == '@' then Some(|s| - 1)
    else
      assert s == s[..|s| - 1] + [s[|s| - 1]];
      LastAt(s[..|s| - 1])
  }

  function Mark(): string { "<redacted>" }

  /** What stands in for a userinfo and the `@` behind it. */
  function UserMark(): string { Mark() + ['@'] }

  // ── The code ───────────────────────────

  datatype Cut = Cut(prefix: string, authority: string, rest: string)

  /** The text up to and including the first `://`, the authority behind it, and the rest. */
  function FirstUrl(s: string): (r: Option<Cut>)
    ensures r.Some? <==> FindScheme(s).Some?
    ensures r.Some? ==> |r.value.rest| < |s|
  {
    match FindScheme(s)
    case None => None
    case Some(i) =>
      var after := s[i + 3..];
      var end := AuthorityEnd(after);
      Some(Cut(s[..i + 3], after[..end], after[end..]))
  }

  function HideUser(authority: string): string {
    match LastAt(authority)
    case Some(at) => UserMark() + authority[at + 1..]
    case None => authority
  }

  function Redact(s: string): string
    decreases |s|
  {
    match FirstUrl(s)
    case None => s
    case Some(c) => c.prefix + (HideUser(c.authority) + Redact(c.rest))
  }

  lemma RedactStep(before: string, s: string, out: string, c: Cut)
    requires FirstUrl(s) == Some(c) && out == (before + c.prefix) + HideUser(c.authority)
    ensures out + Redact(c.rest) == before + Redact(s)
  {
    Regroup(before, c.prefix, HideUser(c.authority), Redact(c.rest));
  }

  lemma Regroup(o: string, p: string, h: string, r: string)
    ensures ((o + p) + h) + r == o + (p + (h + r))
  {}

  method PushAuthority(out: string, auth: string) returns (r: string)
    ensures r == out + HideUser(auth)
  {
    var at := LastAt(auth);
    if at.Some? {
      r := out + (UserMark() + auth[at.value + 1..]);
    } else {
      r := out + auth;
    }
  }

  method RedactCredentials(s: string) returns (out: string)
    ensures out == Redact(s)
  {
    out := "";
    var rest := s;
    ghost var result := Redact(s);
    assert out + Redact(rest) == result;
    while true
      invariant out + Redact(rest) == result
      decreases |rest|
    {
      var idx := FindScheme(rest);
      if idx.None? {
        out := out + rest;
        break;
      }
      ghost var before, left := out, rest;
      out := out + rest[..idx.value + 3];
      var after := rest[idx.value + 3..];
      var authEnd := AuthorityEnd(after);
      out := PushAuthority(out, after[..authEnd]);
      RedactStep(before, left, out, Cut(left[..idx.value + 3], after[..authEnd], after[authEnd..]));
      rest := after[authEnd..];
    }
  }

  // ── The parts the scan cuts ────────────

  /** A stretch of text up to and including `://`, then the two parts of the authority. */
  datatype Url = Url(prefix: string, user: Option<string>, host: string)

  datatype Text = End(tail: string) | More(url: Url, rest: Text)

  function RenderAuthority(u: Url): string {
    match u.user
    case Some(x) => x + ['@'] + u.host
    case None => u.host
  }

  function Render(t: Text): string {
    match t
    case End(tail) => tail
    case More(u, rest) => u.prefix + (RenderAuthority(u) + Render(rest))
  }

  function UrlOf(prefix: string, authority: string): Url {
    match LastAt(authority)
    case Some(at) => Url(prefix, Some(authority[..at]), authority[at + 1..])
    case None => Url(prefix, None, authority)
  }

  function Parse(s: string): Text
    decreases |s|
  {
    match FirstUrl(s)
    case None => End(s)
    case Some(c) => More(UrlOf(c.prefix, c.authority), Parse(c.rest))
  }

  ghost predicate Undelimited(s: string) { forall c :: c in s ==> !IsDelimiter(c) }

  predicate IsPrefix(s: string) { |s| >= 3 && FindScheme(s) == Some(|s| - 3) }

  ghost predicate IsUrl(u: Url) {
    && IsPrefix(u.prefix)
    && '@' !in u.host && Undelimited(u.host)
    && (u.user.Some? ==> Undelimited(u.user.value))
  }

  predicate Delimited(s: string) { s == "" || IsDelimiter(s[0]) }

  /** What the parts of a text may be, stated without the code. */
  ghost predicate IsText(t: Text) {
    match t
    case End(tail) => FindScheme(tail).None?
    case More(u, rest) => IsUrl(u) && IsText(rest) && Delimited(Render(rest))
  }

  // ── Parsing and rendering are inverse ───

  lemma {:induction false} SchemeInPrefix(s: string, x: string)
    requires |s| >= 3 && FindScheme(s) == Some(|s| - 3)
    ensures FindScheme(s + x) == Some(|s| - 3)
  {
    assert (s + x)[1..] == s[1..] + x;
    if |s| > 3 {
      assert !SchemeAt(s);
      SchemeInPrefix(s[1..], x);
    }
  }

  lemma {:induction false} PrefixHasScheme(s: string)
    requires FindScheme(s).Some?
    ensures var i := FindScheme(s).value; FindScheme(s[..i + 3]) == Some(i)
  {
    var i := FindScheme(s).value;
    if i > 0 {
      PrefixHasScheme(s[1..]);
      assert s[..i + 3][1..] == s[1..][..i + 2];
    }
  }

  lemma {:induction false} EndOfAuthority(a: string, r: string)
    requires Undelimited(a) && Delimited(r)
    ensures AuthorityEnd(a + r) == |a|
  {
    if a == "" {
      assert a + r == r;
    } else {
      assert (a + r)[1..] == a[1..] + r;
      EndOfAuthority(a[1..], r);
    }
  }

  lemma {:induction false} AuthorityIsUndelimited(s: string)
    ensures Undelimited(s[..AuthorityEnd(s)]) && Delimited(s[AuthorityEnd(s)..])
  {
    if s != "" && !IsDelimiter(s[0]) {
      var n := AuthorityEnd(s[1..]);
      AuthorityIsUndelimited(s[1..]);
      assert s[..n + 1] == [s[0]] + s[1..][..n];
      assert s[n + 1..] == s[1..][n..];
    }
  }

  lemma UrlOfParts(u: Url)
    requires IsUrl(u)
    ensures UrlOf(u.prefix, RenderAuthority(u)) == u && Undelimited(RenderAuthority(u))
  {
    if u.user.Some? {
      var a := RenderAuthority(u);
      var n := |u.user.value|;
      assert a[n] == '@' && a[n + 1..] == u.host && a[..n] == u.user.value;
    }
  }

  lemma UrlOfIsUrl(prefix: string, a: string)
    requires IsPrefix(prefix) && Undelimited(a)
    ensures IsUrl(UrlOf(prefix, a)) && RenderAuthority(UrlOf(prefix, a)) == a
  {}

  lemma CutAt(p: string, a: string, r: string)
    requires IsPrefix(p) && Undelimited(a) && Delimited(r)
    ensures FirstUrl(p + (a + r)) == Some(Cut(p, a, r))
  {
    SchemeInPrefix(p, a + r);
    EndOfAuthority(a, r);
    var s := p + (a + r);
    assert s[..|p|] == p && s[|p|..] == a + r;
    assert (a + r)[..|a|] == a && (a + r)[|a|..] == r;
  }

  lemma CutJoins(s: string)
    requires FirstUrl(s).Some?
    ensures var c := FirstUrl(s).value;
            s == c.prefix + (c.authority + c.rest)
            && IsPrefix(c.prefix) && Undelimited(c.authority) && Delimited(c.rest)
  {
    var after := s[FindScheme(s).value + 3..];
    PrefixHasScheme(s);
    AuthorityIsUndelimited(after);
    assert after == after[..AuthorityEnd(after)] + after[AuthorityEnd(after)..];
  }

  /** A text falls into its parts in one way only. */
  lemma {:induction false} ParseRender(t: Text)
    requires IsText(t)
    ensures Parse(Render(t)) == t
  {
    if t.More? {
      ParseRender(t.rest);
      UrlOfParts(t.url);
      CutAt(t.url.prefix, RenderAuthority(t.url), Render(t.rest));
    }
  }

  lemma {:induction false} RenderParse(s: string)
    ensures Render(Parse(s)) == s && IsText(Parse(s))
    decreases |s|
  {
    if FirstUrl(s).Some? {
      var c := FirstUrl(s).value;
      RenderParse(c.rest);
      CutJoins(s);
      UrlOfIsUrl(c.prefix, c.authority);
    }
  }

  // ── What redaction does ────────────────

  function Hidden(t: Text): Text {
    match t
    case End(_) => t
    case More(u, rest) => More(u.(user := if u.user.Some? then Some(Mark()) else None), Hidden(rest))
  }

  lemma {:induction false} HiddenIsText(t: Text)
    requires IsText(t)
    ensures IsText(Hidden(t)) && (Delimited(Render(t)) ==> Delimited(Render(Hidden(t))))
  {
    if t.More? {
      HiddenIsText(t.rest);
      HiddenUrl(t.url);
      if Delimited(Render(t)) { assert Render(t)[0] == t.url.prefix[0] == Render(Hidden(t))[0]; }
    }
  }

  lemma HiddenUrl(u: Url)
    requires IsUrl(u)
    ensures IsUrl(u.(user := if u.user.Some? then Some(Mark()) else None))
  {}

  lemma {:induction false} RedactHides(s: string)
    ensures Redact(s) == Render(Hidden(Parse(s)))
    decreases |s|
  {
    if FirstUrl(s).Some? { RedactHides(FirstUrl(s).value.rest); }
  }

  /** Redaction keeps the cuts of the scan and changes nothing but the userinfos between them. */
  lemma RedactIsLocal(s: string)
    ensures Parse(Redact(s)) == Hidden(Parse(s))
  {
    RenderParse(s);
    HiddenIsText(Parse(s));
    RedactHides(s);
    ParseRender(Hidden(Parse(s)));
  }

  lemma {:induction false} HiddenTwice(t: Text)
    ensures Hidden(Hidden(t)) == Hidden(t)
  {
    if t.More? { HiddenTwice(t.rest); }
  }

  lemma RedactTwice(s: string)
    ensures Redact(Redact(s)) == Redact(s)
  {
    RedactIsLocal(s);
    RedactHides(s);
    RedactHides(Redact(s));
    HiddenTwice(Parse(s));
  }

  /** Two texts have the same redaction exactly when the scan cuts them alike, up to what the
      userinfos it finds say. */
  lemma {:induction false} RedactRevealsNothing(s: string, t: string)
    ensures Redact(s) == Redact(t) <==> Hidden(Parse(s)) == Hidden(Parse(t))
  {
    RedactIsLocal(s);
    RedactIsLocal(t);
    RedactHides(s);
    RedactHides(t);
  }
}
