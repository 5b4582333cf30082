/** Filters, removal of one element and repeated addition, shared by the other modules. */
module Sequences {

  /** The elements that satisfy `p`, in order. */
  function Filter<T(!new)>(p: T -> bool, s: seq<T>): (r: seq<T>)
    ensures forall x :: x in r <==> x in s && p(x)
  {
    if s == [] then []
    else
      var n := |s| - 1;
      assert s == s[..n] + [s[n]];
      Filter(p, s[..n]) + if p(s[n]) then [s[n]] else []
  }

  lemma {:induction false} FilterTwice<T(!new)>(p: T -> bool, q: T -> bool, both: T -> bool, s: seq<T>)
    requires forall x :: x in s ==> both(x) == (p(x) && q(x))
    ensures Filter(q, Filter(p, s)) == Filter(both, s)
  {
    if s != [] {
      var n := |s| - 1;
      FilterTwice(p, q, both, s[..n]);
      var kept := Filter(p, s[..n]);
      if p(s[n]) {
        assert (kept + [s[n]])[..|kept|] == kept;
      } else {
        assert kept + [] == kept;
      }
    }
  }

  /** `w` added `n` times. */
  ghost function Times(n: nat, w: real): real {
    if n == 0 then 0.0 else Times(n - 1, w) + w
  }

  lemma {:induction false} TimesOne(n: nat)
    ensures Times(n, 1.0) == n as real
  {
    if n > 0 { TimesOne(n - 1); }
  }

  lemma {:induction false} TimesGrows(m: nat, n: nat, w: real)
    requires m <= n && w >= 0.0
    ensures Times(m, w) <= Times(n, w)
    decreases n
  {
    if m < n { TimesGrows(m, n - 1, w); }
  }

  function Skip(i: nat, k: nat): nat { if k < i then k else k + 1 }

  function RemoveAt<T>(s: seq<T>, i: nat): (r: seq<T>)
    requires i < |s|
    ensures |r| == |s| - 1
    ensures forall k: nat :: k < |r| ==> r[k] == s[Skip(i, k)]
  {
    s[..i] + s[i + 1..]
  }

  lemma RemoveAtTail<T>(s: seq<T>, i: nat)
    requires 0 < i < |s|
    ensures RemoveAt(s, i) == [s[0]] + RemoveAt(s[1..], i - 1)
  {
    assert s[..i] == [s[0]] + s[1..][..i - 1];
    assert s[i + 1..] == s[1..][i..];
  }

  lemma RemoveAtMultiset<T>(s: seq<T>, i: nat)
    requires i < |s|
    ensures multiset(RemoveAt(s, i)) == multiset(s) - multiset{s[i]}
  {
    ThreeParts(s, i);
  }

  /** Take the last element of one arrangement out of another. */
  lemma RemoveBoth<T>(a: seq<T>, b: seq<T>, j: nat)
    requires multiset(a) == multiset(b) && a != [] && j < |b| && b[j] == a[|a| - 1]
    ensures multiset(a[..|a| - 1]) == multiset(RemoveAt(b, j))
  {
    RemoveAtMultiset(a, |a| - 1);
    assert RemoveAt(a, |a| - 1) == a[..|a| - 1];
    RemoveAtMultiset(b, j);
  }

  // ── Sums ───────────────────────────────

  function Sum<T>(f: T -> real, s: seq<T>): real {
    if s == [] then 0.0 else Sum(f, s[..|s| - 1]) + f(s[|s| - 1])
  }

  lemma {:induction false} SumConcat<T>(f: T -> real, a: seq<T>, b: seq<T>)
    ensures Sum(f, a + b) == Sum(f, a) + Sum(f, b)
  {
    if b == [] {
      assert a + b == a;
    } else {
      var n := |b| - 1;
      SumConcat(f, a, b[..n]);
      assert (a + b)[..|a| + n] == a + b[..n];
    }
  }

  lemma SumRemoveAt<T>(f: T -> real, s: seq<T>, i: nat)
    requires i < |s|
    ensures Sum(f, s) == Sum(f, RemoveAt(s, i)) + f(s[i])
  {
    var front, x, back := s[..i], s[i], s[i + 1..];
    ThreeParts(s, i);
    SumConcat(f, front, [x] + back);
    SumConcat(f, [x], back);
    SumConcat(f, front, back);
    SumOne(f, x);
  }

  lemma ThreeParts<T>(s: seq<T>, i: nat)
    requires i < |s|
    ensures s == s[..i] + ([s[i]] + s[i + 1..])
  {}

  lemma SumOne<T>(f: T -> real, x: T)
    ensures Sum(f, [x]) == f(x)
  {
    assert [x][..0] == [];
  }

  lemma {:induction false} SumPermuted<T>(f: T -> real, a: seq<T>, b: seq<T>)
    requires multiset(a) == multiset(b)
    ensures Sum(f, a) == Sum(f, b)
  {
    assert |a| == |multiset(a)| == |multiset(b)| == |b|;
    if a != [] {
      assert a[|a| - 1] in multiset(b);
      var j :| 0 <= j < |b| && b[j] == a[|a| - 1];
      RemoveBoth(a, b, j);
      SumPermuted(f, a[..|a| - 1], RemoveAt(b, j));
      SumRemoveAt(f, b, j);
    }
  }

  lemma {:induction false} SumAtMost<T>(f: T -> real, g: T -> real, s: seq<T>)
    requires forall x :: x in s ==> f(x) <= g(x)
    ensures Sum(f, s) <= Sum(g, s)
  {
    if s != [] { SumAtMost(f, g, s[..|s| - 1]); }
  }

  /** What is left of an arrangement when part of it is taken away. */
  lemma RemoveBeforeLast<T>(s: seq<T>, j: nat)
    requires j < |s| - 1
    ensures RemoveAt(s, j) == RemoveAt(s[..|s| - 1], j) + [s[|s| - 1]]
  {}

  lemma LastMultiset<T>(s: seq<T>)
    requires s != []
    ensures multiset(s) == multiset(s[..|s| - 1]) + multiset{s[|s| - 1]}
  {
    assert s == s[..|s| - 1] + [s[|s| - 1]];
  }

  lemma {:induction false} Complement<T>(part: seq<T>, whole: seq<T>) returns (rest: seq<T>)
    requires multiset(part) <= multiset(whole)
    ensures multiset(part) + multiset(rest) == multiset(whole)
  {
    if part == [] {
      rest := whole;
    } else {
      var front, last := part[..|part| - 1], part[|part| - 1];
      LastMultiset(part);
      assert last in multiset(whole);
      var j :| 0 <= j < |whole| && whole[j] == last;
      RemoveAtMultiset(whole, j);
      rest := Complement(front, RemoveAt(whole, j));
    }
  }

  lemma SumSplit<T>(f: T -> real, part: seq<T>, rest: seq<T>, whole: seq<T>)
    requires multiset(part) + multiset(rest) == multiset(whole)
    ensures Sum(f, whole) == Sum(f, part) + Sum(f, rest)
  {
    assert multiset(part + rest) == multiset(whole);
    SumPermuted(f, whole, part + rest);
    SumConcat(f, part, rest);
  }

  lemma {:induction false} SumOfZeros<T>(f: T -> real, s: seq<T>)
    requires forall x :: x in s ==> f(x) == 0.0
    ensures Sum(f, s) == 0.0
  {
    if s != [] { SumOfZeros(f, s[..|s| - 1]); }
  }

  lemma {:induction false} SumShifted<T>(f: T -> real, g: T -> real, level: real, s: seq<T>)
    requires forall x :: x in s ==> f(x) == g(x) + level
    ensures Sum(f, s) == Sum(g, s) + Times(|s|, level)
  {
    if s != [] { SumShifted(f, g, level, s[..|s| - 1]); }
  }
}
