/** What `redact_credentials` (`src/embedding/elastic.rs`) does with each `://` of a text, in
    terms of positions, without the scan.  The scan ends the authority behind an occurrence where
    one ends within a URL (section 3.2 of RFC 3986), at the next `/`, `?` or `#`; whether the URL
    has ended before that is the subject of `UrlPromise`. */
module UrlOccurrences {
  import opened Wrappers
  import opened UrlRedaction

  /** `://` stands at `i`. */
  predicate Occurs(s: string, i: nat) {
    i + 3 <= |s| && s[i] == ':' && s[i + 1] == '/' && s[i + 2] == '/'
  }

  /** The first delimiter from `p` on, or the end. */
  function StopFrom(s: string, p: nat): (e: nat)
    requires p <= |s|
    ensures p <= e <= |s|
    decreases |s| - p
  {
    if p == |s| || IsDelimiter(s[p]) then p else StopFrom(s, p + 1)
  }

  lemma {:induction false} StopsFirst(s: string, p: nat)
    requires p <= |s|
    ensures StopFrom(s, p) < |s| ==> IsDelimiter(s[StopFrom(s, p)])
    ensures forall q :: p <= q < StopFrom(s, p) ==> !IsDelimiter(s[q])
    decreases |s| - p
  {
    if p < |s| && !IsDelimiter(s[p]) { StopsFirst(s, p + 1); }
  }

  /** The last `@` between two positions. */
  function LastAtIn(s: string, lo: nat, hi: nat): (r: Option<nat>)
    requires lo <= hi <= |s|
    ensures r.Some? ==> lo <= r.value < hi
    decreases hi
  {
    if lo == hi then None else if s[hi - 1] == '@' then Some(hi - 1) else LastAtIn(s, lo, hi - 1)
  }

  lemma {:induction false} LastAtInAgrees(s: string, t: string, lo: nat, hi: nat)
    requires lo <= hi <= |s| && hi <= |t| && forall q :: lo <= q < hi ==> s[q] == t[q]
    ensures LastAtIn(s, lo, hi) == LastAtIn(t, lo, hi)
    decreases hi
  {
    if lo < hi { LastAtInAgrees(s, t, lo, hi - 1); }
  }

  /** Where the scan ends the authority behind an occurrence. */
  function EndAt(s: string, i: nat): (e: nat)
    requires Occurs(s, i)
    ensures i + 3 <= e <= |s|
  {
    StopFrom(s, i + 3)
  }

  /** The `@` that the scan takes to end the userinfo. */
  function UserEnd(s: string, i: nat): (r: Option<nat>)
    requires Occurs(s, i)
    ensures r.Some? ==> i + 3 <= r.value < EndAt(s, i)
  {
    LastAtIn(s, i + 3, EndAt(s, i))
  }

  /** For some occurrences, the `@` that ends the userinfo. */
  type Users = map<nat, nat>

  predicate InUser(users: Users, i: nat, p: nat) { i in users && i + 3 <= p < users[i] }

  predicate EndsUser(users: Users, i: nat, p: nat) { i in users && users[i] == p }

  /** What a position becomes when these userinfos are replaced. */
  ghost function Emit(s: string, users: Users, p: nat, m: string): string {
    if p >= |s| || (exists i :: InUser(users, i, p)) then ""
    else if exists i :: EndsUser(users, i, p) then m
    else [s[p]]
  }

  ghost function Concat(out: nat -> string, lo: nat, hi: nat): string
    decreases hi
  {
    if lo >= hi then "" else Concat(out, lo, hi - 1) + out(hi - 1)
  }

  /** The text with these userinfos replaced, position by position. */
  ghost function WithoutUsers(s: string, users: Users, m: string): string {
    Concat((p: nat) => Emit(s, users, p, m), 0, |s|)
  }

  /** An occurrence is seen unless the authority of an earlier seen one runs past it. */
  predicate Seen(s: string, i: nat)
    decreases i
  {
    Occurs(s, i) && forall p | 0 <= p < i && Occurs(s, p) && Seen(s, p) :: EndAt(s, p) <= i
  }

  /** The userinfos that the scan finds behind the occurrences that it sees. */
  ghost function SeenUsers(s: string): Users {
    map i: nat | i < |s| && Seen(s, i) && UserEnd(s, i).Some? :: UserEnd(s, i).value
  }

  // ── The scan by positions ──────────────

  lemma {:induction false} FindsFirst(s: string)
    ensures FindScheme(s).None? ==> forall i: nat :: !Occurs(s, i)
    ensures FindScheme(s).Some? ==>
              Occurs(s, FindScheme(s).value) && forall i :: 0 <= i < FindScheme(s).value ==> !Occurs(s, i)
  {
    if s != "" && !SchemeAt(s) {
      FindsFirst(s[1..]);
      forall i: nat | Occurs(s, i) ensures i > 0 && Occurs(s[1..], i - 1) {}
    }
  }

  /** The next occurrence from `k` on, as the scan finds it in the rest of the text. */
  lemma FindsNext(s: string, k: nat)
    requires k <= |s|
    ensures var f := FindScheme(s[k..]);
            && (f.None? ==> forall i: nat :: k <= i ==> !Occurs(s, i))
            && (f.Some? ==> Occurs(s, k + f.value) && forall i :: k <= i < k + f.value ==> !Occurs(s, i))
  {
    FindsFirst(s[k..]);
    forall i: nat | k <= i && Occurs(s, i) ensures Occurs(s[k..], i - k) {}
  }

  /** The first occurrence from `k` on. */
  function Next(s: string, k: nat): (r: Option<nat>)
    ensures r.Some? ==> k <= r.value && Occurs(s, r.value)
    decreases |s| - k
  {
    if k + 3 > |s| then None else if Occurs(s, k) then Some(k) else Next(s, k + 1)
  }

  lemma {:induction false} NextIsFirst(s: string, k: nat)
    ensures Next(s, k).None? ==> forall i: nat :: k <= i ==> !Occurs(s, i)
    ensures Next(s, k).Some? ==> forall i: nat :: k <= i < Next(s, k).value ==> !Occurs(s, i)
    decreases |s| - k
  {
    if k + 3 <= |s| && !Occurs(s, k) { NextIsFirst(s, k + 1); }
  }

  lemma SchemeIsNext(s: string, k: nat)
    requires k <= |s|
    ensures FindScheme(s[k..]) == match Next(s, k) case Some(j) => Some(j - k) case None => None
  {
    FindsNext(s, k);
    NextIsFirst(s, k);
  }

  /** What one turn of the scan writes. */
  function Piece(s: string, k: nat, j: nat, m: string): string
    requires k <= j && Occurs(s, j)
  {
    match UserEnd(s, j)
    case None => s[k..EndAt(s, j)]
    case Some(at) => s[k..j + 3] + (m + s[at + 1..EndAt(s, j)])
  }

  /** The rest of the scan from `k` on, by positions in the whole text. */
  function RedactFrom(s: string, k: nat, m: string): string
    requires k <= |s|
    decreases |s| - k
  {
    match Next(s, k)
    case None => s[k..]
    case Some(j) => Piece(s, k, j, m) + RedactFrom(s, EndAt(s, j), m)
  }

  lemma DropAgain(s: string, k: nat, lo: nat)
    requires k <= lo <= |s|
    ensures s[k..][lo - k..] == s[lo..]
  {}

  lemma TakeAgain(s: string, k: nat, lo: nat)
    requires k <= lo <= |s|
    ensures s[k..][..lo - k] == s[k..lo]
  {}

  lemma AllButLast(s: string, lo: nat, hi: nat)
    requires lo < hi <= |s|
    ensures s[lo..hi][..hi - lo - 1] == s[lo..hi - 1] && s[lo..hi][hi - lo - 1] == s[hi - 1]
  {}

  lemma {:induction false} AuthorityEndIsStop(s: string, p: nat)
    requires p <= |s|
    ensures AuthorityEnd(s[p..]) == StopFrom(s, p) - p
    decreases |s| - p
  {
    if p < |s| && !IsDelimiter(s[p]) {
      assert s[p..][1..] == s[p + 1..];
      AuthorityEndIsStop(s, p + 1);
    }
  }

  lemma {:induction false} LastAtIsLastAtIn(s: string, lo: nat, hi: nat)
    requires lo <= hi <= |s|
    ensures LastAt(s[lo..hi]) == match LastAtIn(s, lo, hi) case Some(at) => Some(at - lo) case None => None
    decreases hi
  {
    if lo < hi {
      AllButLast(s, lo, hi);
      LastAtIsLastAtIn(s, lo, hi - 1);
    }
  }

  lemma JoinThree(p: string, h: string, r: string)
    ensures p + (h + r) == (p + h) + r
  {}

  /** One turn of the scan. */
  lemma RedactByCut(t: string, c: Cut)
    requires FirstUrl(t) == Some(c)
    ensures Redact(t) == (c.prefix + HideUser(c.authority)) + Redact(c.rest)
  {
    JoinThree(c.prefix, HideUser(c.authority), Redact(c.rest));
  }

  /** The scan at `k` has found the occurrence at `j` and cuts there. */
  ghost predicate CutsAt(s: string, k: nat, j: nat, c: Cut) {
    k <= j && Occurs(s, j) && FindScheme(s[k..]) == Some(j - k) && FirstUrl(s[k..]) == Some(c)
  }

  lemma CutPrefix(s: string, k: nat, j: nat, c: Cut)
    requires CutsAt(s, k, j, c)
    ensures c.prefix == s[k..j + 3]
  {
    TakeAgain(s, k, j + 3);
  }

  lemma AuthorityAt(s: string, p: nat, t: string)
    requires p <= |s| && t == s[p..]
    ensures var n := AuthorityEnd(t);
            t[..n] == s[p..StopFrom(s, p)] && t[n..] == s[StopFrom(s, p)..]
  {
    AuthorityEndIsStop(s, p);
    TakeAgain(s, p, StopFrom(s, p));
    DropAgain(s, p, StopFrom(s, p));
  }

  lemma CutParts(s: string, k: nat, j: nat, c: Cut)
    requires CutsAt(s, k, j, c)
    ensures c.authority == s[j + 3..EndAt(s, j)] && c.rest == s[EndAt(s, j)..]
  {
    var t := s[k..][j + 3 - k..];
    DropAgain(s, k, j + 3);
    AuthorityAt(s, j + 3, t);
    assert c.authority == t[..AuthorityEnd(t)] && c.rest == t[AuthorityEnd(t)..];
  }

  lemma SlicesJoin(s: string, k: nat, m: nat, e: nat)
    requires k <= m <= e <= |s|
    ensures s[k..m] + s[m..e] == s[k..e]
  {}

  lemma SliceOfSlice(s: string, lo: nat, hi: nat, m: nat)
    requires lo <= m <= hi <= |s|
    ensures s[lo..hi][m - lo..] == s[m..hi]
  {}

  lemma HideUserIs(auth: string, m: string)
    requires m == UserMark()
    ensures HideUser(auth) == match LastAt(auth) case Some(at) => m + auth[at + 1..] case None => auth
  {}

  lemma PieceIsHidden(s: string, k: nat, j: nat, m: string)
    requires k <= j && Occurs(s, j) && m == UserMark()
    ensures Piece(s, k, j, m) == s[k..j + 3] + HideUser(s[j + 3..EndAt(s, j)])
  {
    var lo, e := j + 3, EndAt(s, j);
    HideUserIs(s[lo..e], m);
    LastAtIsLastAtIn(s, lo, e);
    if UserEnd(s, j).None? {
      SlicesJoin(s, k, lo, e);
    } else {
      SliceOfSlice(s, lo, e, UserEnd(s, j).value + 1);
    }
  }

  lemma SameTurn(out: string, pre: string, auth: string, rest: string, pre': string, auth': string, rest': string)
    requires out == (pre + HideUser(auth)) + Redact(rest) && pre == pre' && auth == auth' && rest == rest'
    ensures out == (pre' + HideUser(auth')) + Redact(rest')
  {}

  lemma RedactByPiece(s: string, k: nat, j: nat, m: string)
    requires k <= j && Occurs(s, j) && FindScheme(s[k..]) == Some(j - k) && m == UserMark()
    ensures Redact(s[k..]) == Piece(s, k, j, m) + Redact(s[EndAt(s, j)..])
  {
    var c := FirstUrl(s[k..]).value;
    CutPrefix(s, k, j, c);
    CutParts(s, k, j, c);
    RedactByCut(s[k..], c);
    PieceIsHidden(s, k, j, m);
    SameTurn(Redact(s[k..]), c.prefix, c.authority, c.rest, s[k..j + 3], s[j + 3..EndAt(s, j)], s[EndAt(s, j)..]);
  }

  lemma {:induction false} RedactIsRedactFrom(s: string, k: nat, m: string)
    requires k <= |s| && m == UserMark()
    ensures Redact(s[k..]) == RedactFrom(s, k, m)
    decreases |s| - k
  {
    SchemeIsNext(s, k);
    if Next(s, k).Some? {
      var j := Next(s, k).value;
      RedactByPiece(s, k, j, m);
      RedactIsRedactFrom(s, EndAt(s, j), m);
    }
  }

  /** Nothing seen before `k` reaches past it. */
  ghost predicate Resumes(s: string, k: nat) {
    k <= |s| && forall p :: 0 <= p < k && Seen(s, p) ==> EndAt(s, p) <= k
  }

  lemma SeenApart(s: string, p: nat, q: nat)
    requires Seen(s, p) && Seen(s, q)
    ensures p < q ==> EndAt(s, p) <= q
  {}

  lemma NextIsSeen(s: string, k: nat, j: nat)
    requires Resumes(s, k) && k <= j && Occurs(s, j) && forall i :: k <= i < j ==> !Occurs(s, i)
    ensures Seen(s, j) && Resumes(s, EndAt(s, j))
  {
    forall p | 0 <= p < j && Occurs(s, p) && Seen(s, p) ensures EndAt(s, p) <= j { assert p < k; }
    forall p | 0 <= p < EndAt(s, j) && Seen(s, p) ensures EndAt(s, p) <= EndAt(s, j) {
      SeenApart(s, j, p);
      SeenApart(s, p, j);
    }
  }

  lemma {:induction false} ConcatSplits(out: nat -> string, lo: nat, mid: nat, hi: nat)
    requires lo <= mid <= hi
    ensures Concat(out, lo, hi) == Concat(out, lo, mid) + Concat(out, mid, hi)
    decreases hi
  {
    if mid < hi { ConcatSplits(out, lo, mid, hi - 1); }
  }

  lemma {:induction false} ConcatPlain(out: nat -> string, s: string, lo: nat, hi: nat)
    requires lo <= hi <= |s| && forall p: nat :: lo <= p < hi ==> out(p) == [s[p]]
    ensures Concat(out, lo, hi) == s[lo..hi]
    decreases hi
  {
    if lo < hi {
      ConcatPlain(out, s, lo, hi - 1);
      assert s[lo..hi] == s[lo..hi - 1] + [s[hi - 1]];
    }
  }

  lemma {:induction false} ConcatNothing(out: nat -> string, lo: nat, hi: nat)
    requires forall p: nat :: lo <= p < hi ==> out(p) == ""
    ensures Concat(out, lo, hi) == ""
    decreases hi
  {
    if lo < hi { ConcatNothing(out, lo, hi - 1); }
  }

  // ── Where the userinfos are ────────────

  /** Each userinfo lies in the authority of its occurrence. */
  ghost predicate Within(s: string, users: Users) {
    forall i :: i in users ==> Occurs(s, i) && i + 3 <= users[i] < EndAt(s, i)
  }

  ghost predicate Untouched(users: Users, p: nat) {
    forall i :: i in users ==> !InUser(users, i, p) && !EndsUser(users, i, p)
  }

  lemma EmitUntouched(s: string, users: Users, p: nat, m: string)
    requires p < |s| && Untouched(users, p)
    ensures Emit(s, users, p, m) == [s[p]]
  {}

  /** Some `/`, `?` or `#` stands between two occurrences. */
  ghost predicate Parted(s: string, p: nat, i: nat) {
    exists d :: p + 3 <= d < i < |s| && (s[d] == '/' || s[d] == '?' || s[d] == '#')
  }

  /** An authority runs at most over the `:` of the next occurrence. */
  lemma EndsBeforeIff(s: string, p: nat, i: nat)
    requires Occurs(s, p) && Occurs(s, i) && p < i
    ensures p + 3 <= i && EndAt(s, p) <= i + 1
    ensures EndAt(s, p) <= i <==> Parted(s, p, i)
  {
    StopsFirst(s, p + 3);
    assert IsDelimiter(s[i + 1]) && !IsDelimiter(s[i]);
  }

  /** In its own authority only the occurrence itself counts. */
  lemma OnlyOwnUser(s: string, users: Users, i: nat, j: nat, p: nat)
    requires Within(s, users) && Occurs(s, i) && i + 3 <= p < EndAt(s, i) && j in users && j != i
    ensures !InUser(users, j, p) && !EndsUser(users, j, p)
  {
    if j < i { EndsBeforeIff(s, j, i); } else { EndsBeforeIff(s, i, j); }
  }

  lemma EmitOwn(s: string, users: Users, i: nat, p: nat, m: string)
    requires Within(s, users) && Occurs(s, i) && i + 3 <= p < EndAt(s, i)
    ensures Emit(s, users, p, m)
         == if InUser(users, i, p) then "" else if EndsUser(users, i, p) then m else [s[p]]
  {
    forall j | j in users && j != i ensures !InUser(users, j, p) && !EndsUser(users, j, p) {
      OnlyOwnUser(s, users, i, j, p);
    }
  }

  lemma ConcatPieces(out: nat -> string, s: string, lo: nat, at: nat, hi: nat)
    requires lo <= at < hi <= |s|
    requires forall p: nat :: lo <= p < at ==> out(p) == ""
    requires forall p: nat :: at < p < hi ==> out(p) == [s[p]]
    ensures Concat(out, lo, hi) == out(at) + s[at + 1..hi]
  {
    ConcatSplits(out, lo, at + 1, hi);
    ConcatNothing(out, lo, at);
    ConcatPlain(out, s, at + 1, hi);
  }

  ghost predicate Emits(out: nat -> string, s: string, users: Users, m: string) {
    forall p: nat {:trigger Emit(s, users, p, m)} :: out(p) == Emit(s, users, p, m)
  }

  lemma EmitsPlainAuthority(s: string, users: Users, i: nat, out: nat -> string, m: string)
    requires Within(s, users) && Occurs(s, i) && i !in users && Emits(out, s, users, m)
    ensures Concat(out, i + 3, EndAt(s, i)) == s[i + 3..EndAt(s, i)]
  {
    forall p: nat | i + 3 <= p < EndAt(s, i) ensures out(p) == [s[p]] { EmitOwn(s, users, i, p, m); }
    ConcatPlain(out, s, i + 3, EndAt(s, i));
  }

  lemma EmitsByUser(s: string, users: Users, i: nat, at: nat, p: nat, out: nat -> string, m: string)
    requires Within(s, users) && i in users && users[i] == at && Emits(out, s, users, m)
    requires i + 3 <= p < EndAt(s, i)
    ensures out(p) == if p < at then "" else if p == at then m else [s[p]]
  {
    EmitOwn(s, users, i, p, m);
  }

  lemma EmitsUserAuthority(s: string, users: Users, i: nat, at: nat, out: nat -> string, m: string)
    requires Within(s, users) && i in users && users[i] == at && Emits(out, s, users, m)
    ensures Concat(out, i + 3, EndAt(s, i)) == m + s[at + 1..EndAt(s, i)]
  {
    var e := EndAt(s, i);
    forall p: nat | i + 3 <= p < at ensures out(p) == "" { EmitsByUser(s, users, i, at, p, out, m); }
    forall p: nat | at < p < e ensures out(p) == [s[p]] { EmitsByUser(s, users, i, at, p, out, m); }
    EmitsByUser(s, users, i, at, at, out, m);
    ConcatPieces(out, s, i + 3, at, e);
  }

  lemma SeenWithin(s: string)
    ensures Within(s, SeenUsers(s))
  {}

  /** Between a resumption and the end of the next `://` nothing is replaced. */
  lemma PrefixUntouched(s: string, k: nat, j: nat, p: nat)
    requires Resumes(s, k) && k <= p < |s| && p < j + 3
    requires forall i :: k <= i < j ==> !Occurs(s, i)
    ensures Untouched(SeenUsers(s), p)
  {}

  lemma EmitsPrefix(s: string, k: nat, j: nat, hi: nat, out: nat -> string, m: string)
    requires Resumes(s, k) && k <= hi <= |s| && hi <= j + 3 && Emits(out, s, SeenUsers(s), m)
    requires forall i :: k <= i < j ==> !Occurs(s, i)
    ensures Concat(out, k, hi) == s[k..hi]
  {
    forall p: nat | k <= p < hi ensures out(p) == [s[p]] {
      PrefixUntouched(s, k, j, p);
      EmitUntouched(s, SeenUsers(s), p, m);
    }
    ConcatPlain(out, s, k, hi);
  }

  lemma EmitsPlainPiece(s: string, k: nat, j: nat, out: nat -> string, m: string)
    requires k <= j && Occurs(s, j) && UserEnd(s, j).None?
    requires Concat(out, k, j + 3) == s[k..j + 3] && Concat(out, j + 3, EndAt(s, j)) == s[j + 3..EndAt(s, j)]
    ensures Concat(out, k, EndAt(s, j)) == Piece(s, k, j, m)
  {
    ConcatSplits(out, k, j + 3, EndAt(s, j));
    SlicesJoin(s, k, j + 3, EndAt(s, j));
  }

  lemma Joined(c: string, a: string, b: string, p: string, q: string)
    requires c == a + b && a == p && b == q
    ensures c == p + q
  {}

  lemma UserPieceIs(s: string, k: nat, j: nat, at: nat, m: string)
    requires k <= j && Occurs(s, j) && UserEnd(s, j) == Some(at)
    ensures Piece(s, k, j, m) == s[k..j + 3] + (m + s[at + 1..EndAt(s, j)])
  {}

  lemma EmitsUserPiece(s: string, k: nat, j: nat, at: nat, out: nat -> string, m: string)
    requires k <= j && Occurs(s, j) && UserEnd(s, j) == Some(at)
    requires Concat(out, k, j + 3) == s[k..j + 3]
    requires Concat(out, j + 3, EndAt(s, j)) == m + s[at + 1..EndAt(s, j)]
    ensures Concat(out, k, EndAt(s, j)) == Piece(s, k, j, m)
  {
    ConcatSplits(out, k, j + 3, EndAt(s, j));
    UserPieceIs(s, k, j, at, m);
    Joined(Concat(out, k, EndAt(s, j)), Concat(out, k, j + 3), Concat(out, j + 3, EndAt(s, j)),
           s[k..j + 3], m + s[at + 1..EndAt(s, j)]);
  }

  lemma SeenPlainAuthority(s: string, j: nat, out: nat -> string, m: string)
    requires Seen(s, j) && UserEnd(s, j).None? && Emits(out, s, SeenUsers(s), m)
    ensures Concat(out, j + 3, EndAt(s, j)) == s[j + 3..EndAt(s, j)]
  {
    SeenWithin(s);
    EmitsPlainAuthority(s, SeenUsers(s), j, out, m);
  }

  lemma SeenUserAuthority(s: string, j: nat, at: nat, out: nat -> string, m: string)
    requires Seen(s, j) && UserEnd(s, j) == Some(at) && Emits(out, s, SeenUsers(s), m)
    ensures Concat(out, j + 3, EndAt(s, j)) == m + s[at + 1..EndAt(s, j)]
  {
    SeenWithin(s);
    EmitsUserAuthority(s, SeenUsers(s), j, at, out, m);
  }

  /** Position by position, one turn comes out as the code writes it. */
  lemma EmitsPiece(s: string, k: nat, j: nat, out: nat -> string, m: string)
    requires Resumes(s, k) && k <= j && Seen(s, j) && Emits(out, s, SeenUsers(s), m)
    requires forall i :: k <= i < j ==> !Occurs(s, i)
    ensures Concat(out, k, EndAt(s, j)) == Piece(s, k, j, m)
  {
    EmitsPrefix(s, k, j, j + 3, out, m);
    if UserEnd(s, j).None? {
      SeenPlainAuthority(s, j, out, m);
      EmitsPlainPiece(s, k, j, out, m);
    } else {
      SeenUserAuthority(s, j, UserEnd(s, j).value, out, m);
      EmitsUserPiece(s, k, j, UserEnd(s, j).value, out, m);
    }
  }

  lemma {:induction false} ScanMeans(s: string, k: nat, out: nat -> string, m: string)
    requires Resumes(s, k) && Emits(out, s, SeenUsers(s), m)
    ensures RedactFrom(s, k, m) == Concat(out, k, |s|)
    decreases |s| - k
  {
    NextIsFirst(s, k);
    if Next(s, k).None? {
      EmitsPrefix(s, k, |s|, |s|, out, m);
    } else {
      var j := Next(s, k).value;
      NextIsSeen(s, k, j);
      ScanMeans(s, EndAt(s, j), out, m);
      EmitsPiece(s, k, j, out, m);
      ConcatSplits(out, k, EndAt(s, j), |s|);
    }
  }

  /** Redaction replaces the userinfo that the scan finds behind every `://` it sees by the mark
      and keeps every other character in its place. */
  lemma RedactMeans(s: string)
    ensures Redact(s) == WithoutUsers(s, SeenUsers(s), UserMark())
  {
    var m := UserMark();
    assert s[0..] == s;
    RedactIsRedactFrom(s, 0, m);
    ScanMeans(s, 0, (p: nat) => Emit(s, SeenUsers(s), p, m), m);
  }

  // ── Which URLs are seen ────────────────

  ghost predicate Consecutive(s: string, p: nat, i: nat) {
    Occurs(s, p) && Occurs(s, i) && p < i && forall q :: p < q < i ==> !Occurs(s, q)
  }

  lemma EarlierEnds(s: string, q: nat, p: nat, i: nat)
    requires Occurs(s, q) && Occurs(s, p) && Occurs(s, i) && q < p < i
    ensures EndAt(s, q) <= i
  {
    EndsBeforeIff(s, q, p);
    EndsBeforeIff(s, q, i);
    assert IsDelimiter(s[p + 1]);
  }

  lemma SeenBehind(s: string, p: nat, i: nat)
    requires Consecutive(s, p, i) && (Seen(s, p) ==> EndAt(s, p) <= i)
    ensures Seen(s, i)
  {
    forall q | 0 <= q < i && Occurs(s, q) && Seen(s, q) ensures EndAt(s, q) <= i {
      if q < p { EarlierEnds(s, q, p, i); }
    }
  }

  /** The first occurrence is seen. */
  lemma FirstIsSeen(s: string, i: nat)
    requires Occurs(s, i) && forall p :: 0 <= p < i ==> !Occurs(s, p)
    ensures Seen(s, i)
  {}

  /** A later occurrence is missed exactly when the one before it is seen and nothing parts
      the two. */
  lemma SeenIff(s: string, p: nat, i: nat)
    requires Consecutive(s, p, i)
    ensures Seen(s, i) <==> !Seen(s, p) || Parted(s, p, i)
  {
    EndsBeforeIff(s, p, i);
    if Seen(s, p) && Seen(s, i) { SeenApart(s, p, i); }
    if !Seen(s, p) || Parted(s, p, i) { SeenBehind(s, p, i); }
  }

  lemma {:induction false} NextOccurrence(s: string, p: nat, i: nat) returns (n: nat)
    requires Occurs(s, p) && Occurs(s, i) && p < i
    ensures n <= i && Consecutive(s, p, n)
    decreases i
  {
    if q: nat :| p < q < i && Occurs(s, q) { n := NextOccurrence(s, p, q); } else { n := i; }
  }

  ghost predicate AllSeen(s: string) { forall i: nat :: Occurs(s, i) ==> Seen(s, i) }

  ghost predicate AllParted(s: string) { forall p: nat, i: nat :: Consecutive(s, p, i) ==> Parted(s, p, i) }

  /** Every `://` is treated as the start of a URL if and only if some `/`, `?` or `#` stands
      between each and the next. */
  lemma AllSeenIffParted(s: string)
    ensures AllSeen(s) <==> AllParted(s)
  {
    if AllSeen(s) {
      forall p: nat, i: nat | Consecutive(s, p, i) ensures Parted(s, p, i) { SeenIff(s, p, i); }
    }
    if AllParted(s) {
      forall i: nat | Occurs(s, i) ensures Seen(s, i) {
        forall p | 0 <= p < i && Occurs(s, p) ensures EndAt(s, p) <= i {
          var n := NextOccurrence(s, p, i);
          EndsBeforeIff(s, p, n);
        }
      }
    }
  }

  // ── What becomes of each URL ───────────

  /** The userinfo found behind a seen `://` is gone, with the mark for its `@`. */
  lemma SeenUserIsReplaced(s: string, i: nat, p: nat, m: string)
    requires Seen(s, i) && UserEnd(s, i).Some?
    ensures i + 3 <= p < UserEnd(s, i).value ==> Emit(s, SeenUsers(s), p, m) == ""
    ensures p == UserEnd(s, i).value ==> Emit(s, SeenUsers(s), p, m) == m
  {
    SeenWithin(s);
    if i + 3 <= p < EndAt(s, i) { EmitOwn(s, SeenUsers(s), i, p, m); }
  }

  /** The authority of a missed URL is copied as it stands, its userinfo with it. */
  lemma MissedAuthorityIsCopied(s: string, i: nat, p: nat, m: string)
    requires Occurs(s, i) && !Seen(s, i) && i + 3 <= p < EndAt(s, i)
    ensures Emit(s, SeenUsers(s), p, m) == [s[p]]
  {
    SeenWithin(s);
    EmitOwn(s, SeenUsers(s), i, p, m);
  }

  /** A URL with nothing but an authority before it is missed: these texts come out unchanged,
      whatever userinfo stands behind their second `://`. */
  lemma SwallowedUrlIsCopied(x: string, y: string, z: string)
    requires IsPrefix(x) && Undelimited(y) && '@' !in y && FindScheme("//" + z).None?
    ensures var s := x + ((y + ":") + ("//" + z)); Redact(s) == s
  {
    CutAt(x, y + ":", "//" + z);
  }

  /** Such a text: the space and the second scheme count as part of the first authority. */
  lemma TwoUrlsExample()
    ensures var s := "s://" + (("a s" + ":") + ("//" + "u:p@b")); Redact(s) == s
  {
    assert IsPrefix("s://");
    var z := "//" + "u:p@b";
    assert z == "//u:p@b";
    FindsFirst(z);
    SwallowedUrlIsCopied("s://", "a s", "u:p@b");
  }

  // ── No trace of a seen userinfo ────────

  /** The texts agree up to and including the `://` at `i`. */
  ghost predicate AgreeTo(s: string, t: string, i: nat) {
    i + 3 <= |s| && i + 3 <= |t| && s[..i + 3] == t[..i + 3]
  }

  lemma SameOccurrence(s: string, t: string, i: nat, q: nat)
    requires AgreeTo(s, t, i) && q <= i
    ensures Occurs(s, q) <==> Occurs(t, q)
    ensures s[q] == t[q]
  {
    assert s[..i + 3][q] == t[..i + 3][q];
    assert s[..i + 3][q + 1] == t[..i + 3][q + 1];
    assert s[..i + 3][q + 2] == t[..i + 3][q + 2];
  }

  lemma SameNext(s: string, t: string, i: nat, k: nat)
    requires AgreeTo(s, t, i) && k <= i && Occurs(s, i)
    ensures Next(s, k).Some? && Next(s, k).value <= i && Next(t, k) == Next(s, k)
  {
    NextIsFirst(s, k);
    NextIsFirst(t, k);
    var j := Next(s, k).value;
    SameOccurrence(s, t, i, i);
    SameOccurrence(s, t, i, j);
    forall q: nat | k <= q < j ensures !Occurs(t, q) { SameOccurrence(s, t, i, q); }
  }

  lemma SameEnd(s: string, t: string, i: nat, j: nat)
    requires AgreeTo(s, t, i) && Occurs(s, j) && Occurs(t, j) && EndAt(s, j) <= i
    ensures EndAt(t, j) == EndAt(s, j)
  {
    var e := EndAt(s, j);
    StopsFirst(s, j + 3);
    StopsFirst(t, j + 3);
    SameOccurrence(s, t, i, e);
    forall q | j + 3 <= q < e ensures !IsDelimiter(t[q]) { SameOccurrence(s, t, i, q); }
  }

  lemma SameUserEnd(s: string, t: string, i: nat, j: nat)
    requires AgreeTo(s, t, i) && Occurs(s, j) && Occurs(t, j) && EndAt(t, j) == EndAt(s, j) <= i
    ensures UserEnd(s, j) == UserEnd(t, j)
  {
    forall q | j + 3 <= q < EndAt(s, j) ensures s[q] == t[q] { SameOccurrence(s, t, i, q); }
    LastAtInAgrees(s, t, j + 3, EndAt(s, j));
  }

  lemma SameSlice(s: string, t: string, i: nat, lo: nat, hi: nat)
    requires AgreeTo(s, t, i) && lo <= hi <= i + 3
    ensures s[lo..hi] == t[lo..hi]
  {
    assert s[..i + 3][lo..hi] == s[lo..hi];
    assert t[..i + 3][lo..hi] == t[lo..hi];
  }

  lemma PieceEquals(s: string, t: string, k: nat, j: nat, m: string)
    requires k <= j && Occurs(s, j) && Occurs(t, j) && EndAt(t, j) == EndAt(s, j) && UserEnd(t, j) == UserEnd(s, j)
    requires s[k..j + 3] == t[k..j + 3] && s[k..EndAt(s, j)] == t[k..EndAt(s, j)]
    requires UserEnd(s, j).Some? ==> s[UserEnd(s, j).value + 1..EndAt(s, j)] == t[UserEnd(s, j).value + 1..EndAt(s, j)]
    ensures Piece(s, k, j, m) == Piece(t, k, j, m)
  {}

  lemma SamePiece(s: string, t: string, i: nat, k: nat, j: nat, m: string)
    requires AgreeTo(s, t, i) && k <= j < i && Occurs(s, j) && Occurs(t, j) && EndAt(t, j) == EndAt(s, j) <= i
    ensures Piece(s, k, j, m) == Piece(t, k, j, m)
  {
    SameUserEnd(s, t, i, j);
    SameSlice(s, t, i, k, j + 3);
    SameSlice(s, t, i, k, EndAt(s, j));
    if UserEnd(s, j).Some? { SameSlice(s, t, i, UserEnd(s, j).value + 1, EndAt(s, j)); }
    PieceEquals(s, t, k, j, m);
  }

  lemma AlikeTurn(s: string, t: string, k: nat, j: nat, m: string)
    requires k <= |s| && k <= |t| && Next(s, k) == Next(t, k) == Some(j)
    requires Piece(s, k, j, m) == Piece(t, k, j, m)
    requires RedactFrom(s, EndAt(s, j), m) == RedactFrom(t, EndAt(t, j), m)
    ensures RedactFrom(s, k, m) == RedactFrom(t, k, m)
  {}

  /** Texts that agree up to a seen URL and come out alike behind it come out alike. */
  lemma {:induction false} AlikeFrom(s: string, t: string, i: nat, k: nat, m: string)
    requires AgreeTo(s, t, i) && Seen(s, i) && Occurs(t, i) && Resumes(s, k) && k <= i
    requires forall k :: 0 <= k <= i ==> Piece(s, k, i, m) == Piece(t, k, i, m)
    requires RedactFrom(s, EndAt(s, i), m) == RedactFrom(t, EndAt(t, i), m)
    ensures RedactFrom(s, k, m) == RedactFrom(t, k, m)
    decreases |s| - k
  {
    SameNext(s, t, i, k);
    var j := Next(s, k).value;
    if j < i {
      NextSeen(s, k, i);
      AlikeFrom(s, t, i, EndAt(s, j), m);
      SameOccurrence(s, t, i, j);
      SameEnd(s, t, i, j);
      SamePiece(s, t, i, k, j, m);
    }
    AlikeTurn(s, t, k, j, m);
  }

  lemma NextSeen(s: string, k: nat, i: nat)
    requires Resumes(s, k) && Seen(s, i) && Next(s, k).Some? && Next(s, k).value < i
    ensures EndAt(s, Next(s, k).value) <= i && Resumes(s, EndAt(s, Next(s, k).value))
  {
    NextIsFirst(s, k);
    NextIsSeen(s, k, Next(s, k).value);
    SeenApart(s, Next(s, k).value, i);
  }

  lemma {:induction false} StopSkips(s: string, p: nat, x: nat)
    requires p <= x <= |s| && x <= StopFrom(s, p)
    ensures StopFrom(s, x) == StopFrom(s, p)
    decreases x - p
  {
    if p < x { StopSkips(s, p + 1, x); }
  }

  /** From the `@` behind the userinfo of the URL at `i` on, the texts are the same. */
  ghost predicate AgreeFromUser(s: string, t: string, i: nat, x: nat, y: nat) {
    && Occurs(s, i) && Occurs(t, i) && UserEnd(s, i) == Some(x) && UserEnd(t, i) == Some(y)
    && s[x..] == t[y..]
  }

  lemma SameEndBehindUser(s: string, t: string, i: nat, x: nat, y: nat)
    requires AgreeFromUser(s, t, i, x, y)
    ensures EndAt(s, i) - x == EndAt(t, i) - y
  {
    StopSkips(s, i + 3, x);
    StopSkips(t, i + 3, y);
    AuthorityEndIsStop(s, x);
    AuthorityEndIsStop(t, y);
  }

  lemma SameDrop(s: string, t: string, x: nat, y: nat, d: nat)
    requires x + d <= |s| && y + d <= |t| && s[x..] == t[y..]
    ensures s[x + d..] == t[y + d..]
  {
    DropAgain(s, x, x + d);
    DropAgain(t, y, y + d);
  }

  lemma SameTake(s: string, t: string, x: nat, y: nat, d: nat)
    requires x + d <= |s| && y + d <= |t| && s[x..] == t[y..]
    ensures s[x..x + d] == t[y..y + d]
  {
    TakeAgain(s, x, x + d);
    TakeAgain(t, y, y + d);
  }

  lemma SameHost(s: string, t: string, i: nat, x: nat, y: nat)
    requires AgreeFromUser(s, t, i, x, y)
    ensures s[x + 1..EndAt(s, i)] == t[y + 1..EndAt(t, i)] && s[EndAt(s, i)..] == t[EndAt(t, i)..]
  {
    SameEndBehindUser(s, t, i, x, y);
    SameDrop(s, t, x, y, 1);
    SameTake(s, t, x + 1, y + 1, EndAt(s, i) - x - 1);
    SameDrop(s, t, x, y, EndAt(s, i) - x);
  }

  lemma SameUserPiece(s: string, t: string, i: nat, x: nat, y: nat, k: nat, m: string)
    requires AgreeTo(s, t, i) && AgreeFromUser(s, t, i, x, y) && k <= i
    ensures Piece(s, k, i, m) == Piece(t, k, i, m)
  {
    SameHost(s, t, i, x, y);
    SameSlice(s, t, i, k, i + 3);
    UserPieceIs(s, k, i, x, m);
    UserPieceIs(t, k, i, y, m);
  }

  lemma RestIs(s: string, k: nat, r: string, m: string)
    requires k <= |s| && s[k..] == r && m == UserMark()
    ensures RedactFrom(s, k, m) == Redact(r)
  {
    RedactIsRedactFrom(s, k, m);
  }

  /** Texts that differ only in what the userinfo of one seen URL says have the same redaction. */
  lemma SeenUserLeavesNoTrace(s: string, t: string, i: nat, x: nat, y: nat)
    requires Seen(s, i) && AgreeTo(s, t, i) && AgreeFromUser(s, t, i, x, y)
    ensures Redact(s) == Redact(t)
  {
    var m := UserMark();
    forall k | 0 <= k <= i ensures Piece(s, k, i, m) == Piece(t, k, i, m) { SameUserPiece(s, t, i, x, y, k, m); }
    SameHost(s, t, i, x, y);
    RestIs(s, EndAt(s, i), s[EndAt(s, i)..], m);
    RestIs(t, EndAt(t, i), t[EndAt(t, i)..], m);
    AlikeFrom(s, t, i, 0, m);
    assert s[0..] == s && t[0..] == t;
    RestIs(s, 0, s, m);
    RestIs(t, 0, t, m);
  }
}
