/** What `redact_credentials` (`src/embedding/elastic.rs`) promises, to strip the userinfo from
    any URL embedded in a text, and exactly when its output is that.  Where a URL ends in running
    text is not the code's concern, so it is a parameter: the characters that end one, such as
    whitespace (appendix C of RFC 3986), or none for the scan's own view. */
module UrlPromise {
  import opened Wrappers
  import opened UrlRedaction
  import opened UrlOccurrences

  /** The first of these characters, or the end of the stretch. */
  function FirstOf(s: string, lo: nat, hi: nat, ends: set<char>): (e: nat)
    requires lo <= hi <= |s|
    ensures lo <= e <= hi
    decreases hi - lo
  {
    if lo == hi || s[lo] in ends then lo else FirstOf(s, lo + 1, hi, ends)
  }

  /** Where the authority of the URL ends: with the URL at the latest. */
  function UrlEnd(s: string, i: nat, ends: set<char>): (e: nat)
    requires Occurs(s, i)
    ensures i + 3 <= e <= EndAt(s, i)
  {
    FirstOf(s, i + 3, EndAt(s, i), ends)
  }

  /** The `@` that ends the userinfo of the URL. */
  function UrlUserEnd(s: string, i: nat, ends: set<char>): (r: Option<nat>)
    requires Occurs(s, i)
    ensures r.Some? ==> i + 3 <= r.value < EndAt(s, i)
  {
    LastAtIn(s, i + 3, UrlEnd(s, i, ends))
  }

  /** The userinfos of all URLs of the text. */
  ghost function UrlUsers(s: string, ends: set<char>): Users {
    map i: nat | i < |s| && Occurs(s, i) && UrlUserEnd(s, i, ends).Some? :: UrlUserEnd(s, i, ends).value
  }

  /** What the function is for. */
  ghost function Promised(s: string, ends: set<char>): string { WithoutUsers(s, UrlUsers(s, ends), UserMark()) }

  // ── When two replacements give the same text ───

  function UserAt(users: Users, i: nat): Option<nat> { if i in users then Some(users[i]) else None }

  /** What the authority of an occurrence becomes when its userinfo is taken to end there. */
  function OutFor(s: string, i: nat, m: string, end: Option<nat>): string
    requires Occurs(s, i) && (end.Some? ==> end.value < EndAt(s, i))
  {
    match end
    case Some(at) => m + s[at + 1..EndAt(s, i)]
    case None => s[i + 3..EndAt(s, i)]
  }

  function AuthorityOut(s: string, users: Users, i: nat, m: string): (r: string)
    requires Within(s, users) && Occurs(s, i)
  {
    OutFor(s, i, m, UserAt(users, i))
  }

  ghost predicate Alike(s: string, u: Users, v: Users, i: nat, m: string)
    requires Within(s, u) && Within(s, v)
  {
    Occurs(s, i) ==> AuthorityOut(s, u, i, m) == AuthorityOut(s, v, i, m)
  }

  lemma AuthorityComesOut(s: string, users: Users, i: nat, out: nat -> string, m: string)
    requires Within(s, users) && Occurs(s, i) && Emits(out, s, users, m)
    ensures Concat(out, i + 3, EndAt(s, i)) == AuthorityOut(s, users, i, m)
  {
    if i in users {
      EmitsUserAuthority(s, users, i, users[i], out, m);
    } else {
      EmitsPlainAuthority(s, users, i, out, m);
    }
  }

  lemma AuthorityOutUndelimited(s: string, users: Users, i: nat, m: string)
    requires Within(s, users) && Occurs(s, i) && Undelimited(m)
    ensures Undelimited(AuthorityOut(s, users, i, m))
  {
    StopsFirst(s, i + 3);
  }

  /** No authority takes in the position. */
  ghost predicate Outside(s: string, p: nat) {
    forall i: nat :: Occurs(s, i) ==> !(i + 3 <= p < EndAt(s, i))
  }

  lemma OutsideComesOut(s: string, users: Users, lo: nat, hi: nat, out: nat -> string, m: string)
    requires Within(s, users) && lo <= hi <= |s| && Emits(out, s, users, m)
    requires forall p: nat :: lo <= p < hi ==> Outside(s, p)
    ensures Concat(out, lo, hi) == s[lo..hi]
  {
    forall p: nat | lo <= p < hi ensures out(p) == [s[p]] {
      assert Outside(s, p);
      EmitUntouched(s, users, p, m);
    }
    ConcatPlain(out, s, lo, hi);
  }

  /** No authority begins before the end of the first `://` from `k` on. */
  ghost predicate Between(s: string, k: nat, hi: nat) {
    k <= hi <= |s| && forall i: nat :: k <= i && Occurs(s, i) ==> hi <= i + 3
  }

  lemma BetweenOutside(s: string, j: nat, hi: nat, p: nat)
    requires Occurs(s, j) && EndAt(s, j) <= p < hi && Between(s, j + 1, hi)
    ensures Outside(s, p)
  {
    forall i: nat | Occurs(s, i) ensures !(i + 3 <= p < EndAt(s, i)) {
      if i < j { EndsBeforeIff(s, i, j); }
    }
  }

  lemma BetweenComesOut(s: string, users: Users, j: nat, hi: nat, out: nat -> string, m: string)
    requires Within(s, users) && Occurs(s, j) && EndAt(s, j) <= hi && Between(s, j + 1, hi)
    requires Emits(out, s, users, m)
    ensures Concat(out, EndAt(s, j), hi) == s[EndAt(s, j)..hi]
  {
    forall p: nat | EndAt(s, j) <= p < hi ensures Outside(s, p) { BetweenOutside(s, j, hi, p); }
    OutsideComesOut(s, users, EndAt(s, j), hi, out, m);
  }

  /** Up to a delimiter the texts are the same if they are the same altogether. */
  lemma SplitAtDelimiter(a: string, x: string, b: string, y: string)
    requires Undelimited(a) && Undelimited(b) && Delimited(x) && Delimited(y)
    ensures a + x == b + y <==> a == b && x == y
  {
    if a + x == b + y {
      EndOfAuthority(a, x);
      EndOfAuthority(b, y);
      assert (a + x)[..|a|] == a && (b + y)[..|b|] == b;
      assert (a + x)[|a|..] == x && (b + y)[|b|..] == y;
    }
  }

  lemma HeadOf(s: string, e: nat, hi: nat, rest: string)
    requires e <= hi <= |s| && (e == hi ==> rest == "") && (e < |s| ==> IsDelimiter(s[e]))
    ensures Delimited(s[e..hi] + rest)
  {}

  lemma SamePrefix(p: string, x: string, y: string)
    ensures p + x == p + y <==> x == y
  {
    if p + x == p + y { assert x == (p + x)[|p|..] && y == (p + y)[|p|..]; }
  }

  /** The position behind the next `://`, or the end of the text. */
  function Resume(s: string, k: nat): nat {
    match Next(s, k) case Some(n) => n + 3 case None => |s|
  }

  lemma ResumeBetween(s: string, j: nat)
    requires Occurs(s, j)
    ensures EndAt(s, j) <= Resume(s, j + 1) && Between(s, j + 1, Resume(s, j + 1))
    ensures EndAt(s, j) == Resume(s, j + 1) ==> Resume(s, j + 1) == |s|
  {
    NextIsFirst(s, j + 1);
    if Next(s, j + 1).Some? { EndsBeforeIff(s, j, Next(s, j + 1).value); }
  }

  /** The text behind an authority. */
  lemma TailComesOut(s: string, users: Users, j: nat, out: nat -> string, m: string)
    requires Within(s, users) && Occurs(s, j) && Emits(out, s, users, m)
    ensures EndAt(s, j) <= Resume(s, j + 1) <= |s|
    ensures var tail := Concat(out, EndAt(s, j), |s|);
            && tail == s[EndAt(s, j)..Resume(s, j + 1)] + Concat(out, Resume(s, j + 1), |s|)
            && Delimited(tail)
  {
    var e, hi := EndAt(s, j), Resume(s, j + 1);
    ResumeBetween(s, j);
    ConcatSplits(out, e, hi, |s|);
    BetweenComesOut(s, users, j, hi, out, m);
    StopsFirst(s, j + 3);
    HeadOf(s, e, hi, Concat(out, hi, |s|));
  }

  /** The text from an authority on. */
  lemma FromAuthority(s: string, users: Users, j: nat, out: nat -> string, m: string)
    requires Within(s, users) && Occurs(s, j) && Emits(out, s, users, m)
    ensures Concat(out, j + 3, |s|) == AuthorityOut(s, users, j, m) + Concat(out, EndAt(s, j), |s|)
  {
    ConcatSplits(out, j + 3, EndAt(s, j), |s|);
    AuthorityComesOut(s, users, j, out, m);
  }

  lemma SplitsAlike(x: string, a: string, t: string, y: string, b: string, w: string)
    requires x == a + t && y == b + w
    requires Undelimited(a) && Undelimited(b) && Delimited(t) && Delimited(w)
    ensures x == y <==> a == b && t == w
  {
    SplitAtDelimiter(a, t, b, w);
  }

  lemma TailsAlike(t: string, w: string, p: string, x: string, y: string)
    requires t == p + x && w == p + y
    ensures t == w <==> x == y
  {
    SamePrefix(p, x, y);
  }

  /** From an authority on, two replacements agree if they do so in it and behind it. */
  lemma SameHereIff(s: string, u: Users, v: Users, j: nat, ou: nat -> string, ov: nat -> string, m: string)
    requires Within(s, u) && Within(s, v) && Emits(ou, s, u, m) && Emits(ov, s, v, m)
    requires Occurs(s, j) && Undelimited(m)
    ensures Resume(s, j + 1) <= |s|
    ensures Concat(ou, j + 3, |s|) == Concat(ov, j + 3, |s|)
       <==> Alike(s, u, v, j, m)
            && Concat(ou, Resume(s, j + 1), |s|) == Concat(ov, Resume(s, j + 1), |s|)
  {
    var e, hi := EndAt(s, j), Resume(s, j + 1);
    TailComesOut(s, u, j, ou, m);
    TailComesOut(s, v, j, ov, m);
    FromAuthority(s, u, j, ou, m);
    FromAuthority(s, v, j, ov, m);
    AuthorityOutUndelimited(s, u, j, m);
    AuthorityOutUndelimited(s, v, j, m);
    SplitsAlike(Concat(ou, j + 3, |s|), AuthorityOut(s, u, j, m), Concat(ou, e, |s|),
                Concat(ov, j + 3, |s|), AuthorityOut(s, v, j, m), Concat(ov, e, |s|));
    TailsAlike(Concat(ou, e, |s|), Concat(ov, e, |s|), s[e..hi], Concat(ou, hi, |s|), Concat(ov, hi, |s|));
  }

  ghost predicate AllAlike(s: string, u: Users, v: Users, k: nat, m: string)
    requires Within(s, u) && Within(s, v)
  {
    forall i: nat :: k <= i ==> Alike(s, u, v, i, m)
  }

  lemma AllAlikeNext(s: string, u: Users, v: Users, k: nat, j: nat, m: string)
    requires Within(s, u) && Within(s, v) && k <= j && forall i: nat :: k <= i < j ==> !Occurs(s, i)
    ensures AllAlike(s, u, v, k, m) <==> Alike(s, u, v, j, m) && AllAlike(s, u, v, j + 1, m)
  {
    if Alike(s, u, v, j, m) && AllAlike(s, u, v, j + 1, m) {
      forall i: nat | k <= i ensures Alike(s, u, v, i, m) { assert i < j || i == j || j + 1 <= i; }
    }
  }

  lemma AllAlikeNone(s: string, u: Users, v: Users, k: nat, m: string)
    requires Within(s, u) && Within(s, v) && forall i: nat :: k <= i ==> !Occurs(s, i)
    ensures AllAlike(s, u, v, k, m)
  {}

  lemma {:induction false} SameFromIff(s: string, u: Users, v: Users, k: nat, ou: nat -> string, ov: nat -> string,
                                       m: string)
    requires Within(s, u) && Within(s, v) && Emits(ou, s, u, m) && Emits(ov, s, v, m) && Undelimited(m)
    ensures Concat(ou, Resume(s, k), |s|) == Concat(ov, Resume(s, k), |s|) <==> AllAlike(s, u, v, k, m)
    decreases |s| - k
  {
    NextIsFirst(s, k);
    if Next(s, k).None? {
      AllAlikeNone(s, u, v, k, m);
      assert Resume(s, k) == |s| && Concat(ou, |s|, |s|) == "" == Concat(ov, |s|, |s|);
    } else {
      var j := Next(s, k).value;
      SameFromIff(s, u, v, j + 1, ou, ov, m);
      SameHereIff(s, u, v, j, ou, ov, m);
      AllAlikeNext(s, u, v, k, j, m);
      assert Resume(s, k) == j + 3;
    }
  }

  lemma HeadComesOut(s: string, users: Users, out: nat -> string, m: string)
    requires Within(s, users) && Emits(out, s, users, m)
    ensures Resume(s, 0) <= |s| && Concat(out, 0, |s|) == s[..Resume(s, 0)] + Concat(out, Resume(s, 0), |s|)
  {
    var hi := Resume(s, 0);
    NextIsFirst(s, 0);
    assert hi <= |s|;
    forall p: nat | p < hi ensures Outside(s, p) {}
    ConcatSplits(out, 0, hi, |s|);
    OutsideComesOut(s, users, 0, hi, out, m);
  }

  /** Two ways to replace userinfos give the same text if and only if they do so within each
      authority. */
  lemma SameTextIff(s: string, u: Users, v: Users, m: string)
    requires Within(s, u) && Within(s, v) && Undelimited(m)
    ensures WithoutUsers(s, u, m) == WithoutUsers(s, v, m) <==> AllAlike(s, u, v, 0, m)
  {
    var ou: nat -> string := (p: nat) => Emit(s, u, p, m);
    var ov: nat -> string := (p: nat) => Emit(s, v, p, m);
    HeadComesOut(s, u, ou, m);
    HeadComesOut(s, v, ov, m);
    SamePrefix(s[..Resume(s, 0)], Concat(ou, Resume(s, 0), |s|), Concat(ov, Resume(s, 0), |s|));
    SameFromIff(s, u, v, 0, ou, ov, m);
  }

  // ── Exactly when the promise is kept ───

  /** The userinfo of the occurrence reads as the mark already. */
  ghost predicate Marked(s: string, i: nat, at: nat) { i + 3 <= at <= |s| && s[i + 3..at] == Mark() }

  /** What the scan replaces behind an occurrence. */
  function ScanUserEnd(s: string, i: nat): (r: Option<nat>)
    requires Occurs(s, i)
    ensures r.Some? ==> i + 3 <= r.value < EndAt(s, i)
  {
    if Seen(s, i) then UserEnd(s, i) else None
  }

  /** The scan and the promise differ on the occurrence at most by the mark for itself. */
  ghost predicate Kept(s: string, i: nat, ends: set<char>)
    requires Occurs(s, i)
  {
    var scan, url := ScanUserEnd(s, i), UrlUserEnd(s, i, ends);
    || scan == url
    || (scan.None? && Marked(s, i, url.value))
    || (url.None? && Marked(s, i, scan.value))
  }

  lemma {:induction false} LastAtIsAt(s: string, lo: nat, hi: nat)
    requires lo <= hi <= |s|
    ensures LastAtIn(s, lo, hi).Some? ==> s[LastAtIn(s, lo, hi).value] == '@'
    decreases hi
  {
    if lo < hi { LastAtIsAt(s, lo, hi - 1); }
  }

  lemma MarkedAt(user: string, mark: string)
    ensures user + ['@'] == mark + ['@'] <==> user == mark
  {
    if user + ['@'] == mark + ['@'] {
      assert user == (user + ['@'])[..|user|] && mark == (mark + ['@'])[..|mark|];
    }
  }

  lemma CutBehind(s: string, lo: nat, at: nat, hi: nat)
    requires lo <= at < hi <= |s|
    ensures s[lo..hi] == s[lo..at + 1] + s[at + 1..hi] && s[lo..at + 1] == s[lo..at] + [s[at]]
  {}

  lemma SameSuffix(x: string, y: string, r: string)
    ensures x + r == y + r <==> x == y
  {
    if x + r == y + r { assert x == (x + r)[..|x|] && y == (y + r)[..|y|]; }
  }

  /** Replacing a userinfo changes nothing exactly when it reads as the mark already. */
  lemma ReplacedIff(s: string, i: nat, at: nat, e: nat, m: string)
    requires i + 3 <= at < e <= |s| && s[at] == '@' && m == UserMark()
    ensures m + s[at + 1..e] == s[i + 3..e] <==> Marked(s, i, at)
  {
    CutBehind(s, i + 3, at, e);
    SameSuffix(m, s[i + 3..at + 1], s[at + 1..e]);
    MarkedAt(s[i + 3..at], Mark());
  }

  lemma SameCutIff(s: string, a: nat, b: nat, e: nat, m: string)
    requires a < e <= |s| && b < e
    ensures m + s[a + 1..e] == m + s[b + 1..e] <==> a == b
  {
    if m + s[a + 1..e] == m + s[b + 1..e] {
      assert |m + s[a + 1..e]| == |m| + (e - a - 1) && |m + s[b + 1..e]| == |m| + (e - b - 1);
    }
  }

  lemma ScanUsersAre(s: string, i: nat)
    requires Occurs(s, i)
    ensures UserAt(SeenUsers(s), i) == ScanUserEnd(s, i)
  {}

  lemma UrlUsersAre(s: string, i: nat, ends: set<char>)
    requires Occurs(s, i)
    ensures UserAt(UrlUsers(s, ends), i) == UrlUserEnd(s, i, ends)
  {}

  lemma UrlsWithin(s: string, ends: set<char>)
    ensures Within(s, UrlUsers(s, ends))
  {}

  /** The `@` of the authority, or none, at which a userinfo may be taken to end. */
  ghost predicate MayEnd(s: string, i: nat, end: Option<nat>)
    requires Occurs(s, i)
  {
    end.Some? ==> i + 3 <= end.value < EndAt(s, i) && s[end.value] == '@'
  }

  lemma SameOutIff(s: string, i: nat, a: Option<nat>, b: Option<nat>, m: string)
    requires Occurs(s, i) && m == UserMark() && MayEnd(s, i, a) && MayEnd(s, i, b)
    ensures OutFor(s, i, m, a) == OutFor(s, i, m, b)
       <==> a == b || (a.None? && Marked(s, i, b.value)) || (b.None? && Marked(s, i, a.value))
  {
    if a.Some? && b.Some? {
      SameCutIff(s, a.value, b.value, EndAt(s, i), m);
    } else if a.Some? {
      ReplacedIff(s, i, a.value, EndAt(s, i), m);
    } else if b.Some? {
      ReplacedIff(s, i, b.value, EndAt(s, i), m);
    }
  }

  lemma KeptIff(s: string, i: nat, ends: set<char>, m: string)
    requires Occurs(s, i) && m == UserMark() && Within(s, SeenUsers(s)) && Within(s, UrlUsers(s, ends))
    ensures Alike(s, SeenUsers(s), UrlUsers(s, ends), i, m) <==> Kept(s, i, ends)
  {
    LastAtIsAt(s, i + 3, EndAt(s, i));
    LastAtIsAt(s, i + 3, UrlEnd(s, i, ends));
    ScanUsersAre(s, i);
    UrlUsersAre(s, i, ends);
    SameOutIff(s, i, ScanUserEnd(s, i), UrlUserEnd(s, i, ends), m);
  }

  lemma MarkUndelimited()
    ensures Undelimited(UserMark())
  {}

  /** Whatever characters end a URL, the output is what is promised if and only if behind each
      `://` the scan finds the userinfo of the URL, or one of the two finds none and the other
      finds the mark. */
  lemma PromiseKeptIff(s: string, ends: set<char>)
    ensures Redact(s) == Promised(s, ends) <==> forall i: nat :: Occurs(s, i) ==> Kept(s, i, ends)
  {
    var m := UserMark();
    RedactMeans(s);
    SeenWithin(s);
    UrlsWithin(s, ends);
    MarkUndelimited();
    SameTextIff(s, SeenUsers(s), UrlUsers(s, ends), m);
    forall i: nat | Occurs(s, i) ensures Alike(s, SeenUsers(s), UrlUsers(s, ends), i, m) <==> Kept(s, i, ends) {
      KeptIff(s, i, ends, m);
    }
  }

  // ── In the scan's own view of a URL ────

  lemma {:induction false} NothingEnds(s: string, lo: nat, hi: nat)
    requires lo <= hi <= |s|
    ensures FirstOf(s, lo, hi, {}) == hi
    decreases hi - lo
  {
    if lo < hi { NothingEnds(s, lo + 1, hi); }
  }

  /** If URLs end nowhere but at the end of the text, the promise is kept if and only if every
      missed URL with a userinfo has the mark for it. */
  lemma RedactsAllIff(s: string)
    ensures Redact(s) == Promised(s, {})
       <==> forall i: nat :: Occurs(s, i) && !Seen(s, i) && UserEnd(s, i).Some?
                             ==> s[i + 3..UserEnd(s, i).value] == Mark()
  {
    PromiseKeptIff(s, {});
    forall i: nat | Occurs(s, i) ensures UrlUserEnd(s, i, {}) == UserEnd(s, i) {
      NothingEnds(s, i + 3, EndAt(s, i));
    }
  }

  /** As it is when some `/`, `?` or `#` stands between each `://` and the next. */
  lemma PartedTextIsRedacted(s: string)
    requires AllParted(s)
    ensures Redact(s) == Promised(s, {})
  {
    AllSeenIffParted(s);
    RedactsAllIff(s);
  }

  // ── In running text ────────────────────

  function White(): set<char> { {' ', '\t', '\n', '\r'} }

  /** None of these characters in the stretch. */
  ghost predicate Solid(s: string, lo: nat, hi: nat, ends: set<char>)
    requires hi <= |s|
  {
    forall p :: lo <= p < hi ==> s[p] !in ends
  }

  lemma {:induction false} FirstOfIsFirst(s: string, lo: nat, hi: nat, ends: set<char>)
    requires lo <= hi <= |s|
    ensures Solid(s, lo, FirstOf(s, lo, hi, ends), ends)
    ensures FirstOf(s, lo, hi, ends) < hi ==> s[FirstOf(s, lo, hi, ends)] in ends
    decreases hi - lo
  {
    if lo < hi && s[lo] !in ends { FirstOfIsFirst(s, lo + 1, hi, ends); }
  }

  lemma {:induction false} LastAtInPart(s: string, lo: nat, mid: nat, hi: nat)
    requires lo <= mid <= hi <= |s|
    ensures var all, part := LastAtIn(s, lo, hi), LastAtIn(s, lo, mid);
            part == if all.None? || all.value < mid then all else part
    decreases hi
  {
    if mid < hi { LastAtInPart(s, lo, mid, hi - 1); }
  }

  /** The URL's userinfo is the one the scan finds exactly when the URL does not end before. */
  lemma SameUserIff(s: string, i: nat, ends: set<char>)
    requires Occurs(s, i)
    ensures UserEnd(s, i).None? ==> UrlUserEnd(s, i, ends).None?
    ensures UserEnd(s, i).Some? && Solid(s, i + 3, UserEnd(s, i).value, ends) && '@' !in ends
            ==> UrlUserEnd(s, i, ends) == UserEnd(s, i)
    ensures UserEnd(s, i).Some? && !Solid(s, i + 3, UserEnd(s, i).value, ends)
            ==> UrlUserEnd(s, i, ends) != UserEnd(s, i)
  {
    FirstOfIsFirst(s, i + 3, EndAt(s, i), ends);
    LastAtInPart(s, i + 3, UrlEnd(s, i, ends), EndAt(s, i));
    LastAtIsAt(s, i + 3, EndAt(s, i));
  }

  lemma MarkedIsSolid(s: string, i: nat, at: nat, ends: set<char>)
    requires Marked(s, i, at) && forall c :: c in Mark() ==> c !in ends
    ensures Solid(s, i + 3, at, ends)
  {
    forall p | i + 3 <= p < at ensures s[p] !in ends {
      assert s[i + 3..at][p - i - 3] in Mark();
    }
  }

  /** What a URL that ends at these characters needs for its userinfo, and nothing else, to be
      replaced: when its `://` is seen, that it does not end before the `@` the scan picks; when
      it is missed, that it has no userinfo or the mark for one. */
  ghost predicate Served(s: string, i: nat, ends: set<char>)
    requires Occurs(s, i)
  {
    if Seen(s, i) then UserEnd(s, i).Some? ==> Solid(s, i + 3, UserEnd(s, i).value, ends)
    else UrlUserEnd(s, i, ends).Some? ==> s[i + 3..UrlUserEnd(s, i, ends).value] == Mark()
  }

  lemma KeptIffServed(s: string, i: nat, ends: set<char>)
    requires Occurs(s, i) && '@' !in ends && forall c :: c in Mark() ==> c !in ends
    ensures Kept(s, i, ends) <==> Served(s, i, ends)
  {
    SameUserIff(s, i, ends);
    if Seen(s, i) && UserEnd(s, i).Some? && Marked(s, i, UserEnd(s, i).value) {
      MarkedIsSolid(s, i, UserEnd(s, i).value, ends);
    }
  }

  lemma RedactsUrlsIff(s: string, ends: set<char>)
    requires '@' !in ends && forall c :: c in Mark() ==> c !in ends
    ensures Redact(s) == Promised(s, ends) <==> forall i: nat :: Occurs(s, i) ==> Served(s, i, ends)
  {
    PromiseKeptIff(s, ends);
    forall i: nat | Occurs(s, i) ensures Kept(s, i, ends) <==> Served(s, i, ends) { KeptIffServed(s, i, ends); }
  }

  /** In running text, where whitespace ends a URL, the output is what is promised if and only
      if no whitespace stands between a seen `://` and the `@` the scan picks, and every missed
      URL with a userinfo has the mark for it. */
  lemma RunningTextIff(s: string)
    ensures Redact(s) == Promised(s, White()) <==> forall i: nat :: Occurs(s, i) ==> Served(s, i, White())
  {
    RedactsUrlsIff(s, White());
  }

  /** Where each `://` is parted from the next, only whitespace before an `@` is in the way. */
  lemma PartedRunningTextIff(s: string)
    requires AllParted(s)
    ensures Redact(s) == Promised(s, White())
       <==> forall i: nat :: Occurs(s, i) && UserEnd(s, i).Some?
                             ==> Solid(s, i + 3, UserEnd(s, i).value, White())
  {
    AllSeenIffParted(s);
    RunningTextIff(s);
  }

  /** These texts lose everything between their `://` and the last `@`, a URL or not. */
  lemma ProseIsReplaced(s: string, x: string, u: string, h: string)
    requires IsPrefix(x) && Undelimited(u) && Undelimited(h) && '@' !in h && s == x + (u + ['@'] + h)
    ensures Redact(s) == x + (UserMark() + h)
  {
    var a := u + ['@'] + h;
    UserOfAuthority(u, h);
    assert a + "" == a;
    CutAt(x, a, "");
    assert Redact("") == "";
    assert HideUser(a) + "" == HideUser(a);
  }

  lemma UserOfAuthority(u: string, h: string)
    requires '@' !in h
    ensures HideUser(u + ['@'] + h) == UserMark() + h
  {
    var a := u + ['@'] + h;
    var at := LastAt(a);
    assert a[|u|] == '@' && a[|u| + 1..] == h;
    assert at == Some(|u|);
  }

  lemma NothingReplaced(s: string, users: Users, m: string)
    requires users == map[]
    ensures WithoutUsers(s, users, m) == s
  {
    var out: nat -> string := (p: nat) => Emit(s, users, p, m);
    forall p: nat | p < |s| ensures out(p) == [s[p]] { EmitUntouched(s, users, p, m); }
    ConcatPlain(out, s, 0, |s|);
    assert s[0..|s|] == s;
  }

  /** The URL of the text has no userinfo. */
  lemma OnlyUrlIsPlain(s: string)
    requires |s| == 9 && Occurs(s, 1) && (forall i: nat :: Occurs(s, i) ==> i == 1)
    requires s[4] != '@' && s[4] !in White() && s[5] in White()
    ensures Promised(s, White()) == s
  {
    FirstOfIsFirst(s, 4, EndAt(s, 1), White());
    LastAtIsAt(s, 4, UrlEnd(s, 1, White()));
    assert UrlEnd(s, 1, White()) <= 5;
    NothingReplaced(s, UrlUsers(s, White()), UserMark());
  }

  function Prose(): (s: string)
    ensures |s| == 9 && s[..4] == "s://" && s[4..] == "h a@b"
  {
    "s://h a@b"
  }

  lemma ProseCharacters(s: string)
    requires |s| == 9 && s[..4] == "s://" && s[4..] == "h a@b"
    ensures Occurs(s, 1) && forall i: nat :: Occurs(s, i) ==> i == 1
    ensures s[4] == 'h' && s[5] == ' '
  {
    assert s[1] == s[..4][1] && s[2] == s[..4][2] && s[3] == s[..4][3];
    assert s[0] == s[..4][0];
    assert s[4] == s[4..][0] && s[5] == s[4..][1];
  }

  lemma ProseKept()
    ensures Promised(Prose(), White()) == Prose()
  {
    ProseCharacters(Prose());
    OnlyUrlIsPlain(Prose());
  }

  /** So this text comes out as `s://<redacted>@b`, though its URL is `s://h`, without a
      userinfo, and nothing should change. */
  lemma ProseExample()
    ensures Redact(Prose()) == "s://" + (UserMark() + "b") && Promised(Prose(), White()) == Prose()
  {
    ProseKept();
    ProseParts();
    ProseIsReplaced(Prose(), "s://", "h a", "b");
  }

  lemma ProseParts()
    ensures IsPrefix("s://") && Prose() == "s://" + ("h a" + ['@'] + "b")
    ensures Undelimited("h a") && Undelimited("b") && '@' !in "b"
  {}
}
