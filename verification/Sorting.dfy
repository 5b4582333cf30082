/** The stable sort that the Rust library supplies (`sort_by`, `sort_by_key`),
    specified once: a sorted permutation, unique when the order is antisymmetric. */
module Sorting {

  ghost predicate Connected<T>(le: (T, T) -> bool, a: T, b: T) { le(a, b) || le(b, a) }

  ghost predicate Chained<T>(le: (T, T) -> bool, a: T, b: T, c: T) { le(a, b) && le(b, c) ==> le(a, c) }

  ghost predicate TotalPreorder<T(!new)>(le: (T, T) -> bool) {
    && (forall a, b :: Connected(le, a, b))
    && (forall a, b, c :: Chained(le, a, b, c))
  }

  ghost predicate TotalOrder<T(!new)>(le: (T, T) -> bool) {
    && TotalPreorder(le)
    && (forall a, b :: le(a, b) && le(b, a) ==> a == b)
  }

  ghost predicate SortedBy<T>(le: (T, T) -> bool, s: seq<T>) {
    forall i, j :: 0 <= i < j < |s| ==> le(s[i], s[j])
  }

  function InsertSorted<T>(le: (T, T) -> bool, x: T, s: seq<T>): (r: seq<T>)
    ensures |r| == |s| + 1
  {
    if s == [] then [x]
    else if le(x, s[0]) then [x] + s
    else [s[0]] + InsertSorted(le, x, s[1..])
  }

  /** Stable: equal elements keep their order. */
  function Sort<T>(le: (T, T) -> bool, s: seq<T>): (r: seq<T>)
    ensures |r| == |s|
  {
    if s == [] then [] else InsertSorted(le, s[0], Sort(le, s[1..]))
  }

  lemma {:induction false} InsertSortedPermutes<T>(le: (T, T) -> bool, x: T, s: seq<T>)
    ensures multiset(InsertSorted(le, x, s)) == multiset(s) + multiset{x}
  {
    if s != [] {
      assert s == [s[0]] + s[1..];
      InsertSortedPermutes(le, x, s[1..]);
    }
  }

  lemma {:induction false} InsertSortedSorts<T(!new)>(le: (T, T) -> bool, x: T, s: seq<T>)
    requires TotalPreorder(le) && SortedBy(le, s)
    ensures SortedBy(le, InsertSorted(le, x, s))
  {
    if s == [] {
    } else if le(x, s[0]) {
      forall k | 0 <= k < |s| ensures le(x, s[k]) {
        assert Chained(le, x, s[0], s[k]);
      }
    } else {
      assert Connected(le, s[0], x);
      var rest := InsertSorted(le, x, s[1..]);
      InsertSortedSorts(le, x, s[1..]);
      InsertSortedPermutes(le, x, s[1..]);
      forall k | 0 <= k < |rest| ensures le(s[0], rest[k]) {
        assert rest[k] in multiset(rest);
        assert rest[k] == x || rest[k] in s[1..];
      }
    }
  }

  lemma {:induction false} SortPermutes<T>(le: (T, T) -> bool, s: seq<T>)
    ensures multiset(Sort(le, s)) == multiset(s)
  {
    if s != [] {
      assert s == [s[0]] + s[1..];
      SortPermutes(le, s[1..]);
      InsertSortedPermutes(le, s[0], Sort(le, s[1..]));
    }
  }

  lemma {:induction false} SortSorts<T(!new)>(le: (T, T) -> bool, s: seq<T>)
    requires TotalPreorder(le)
    ensures SortedBy(le, Sort(le, s))
  {
    if s != [] {
      SortSorts(le, s[1..]);
      InsertSortedSorts(le, s[0], Sort(le, s[1..]));
    }
  }

  /** Under an antisymmetric order a multiset has only one sorted arrangement, so the
      order in which a hash map is iterated before sorting cannot be observed. */
  lemma FirstIsLeast<T(!new)>(le: (T, T) -> bool, s: seq<T>, x: T)
    requires TotalOrder(le) && SortedBy(le, s) && x in s
    ensures le(s[0], x)
  {
    assert Connected(le, s[0], s[0]);
  }

  lemma TailMultiset<T>(s: seq<T>)
    requires s != []
    ensures multiset(s[1..]) == multiset(s) - multiset{s[0]}
  {
    assert s == [s[0]] + s[1..];
  }

  lemma {:induction false} SortedUnique<T(!new)>(le: (T, T) -> bool, s: seq<T>, t: seq<T>)
    requires TotalOrder(le)
    requires SortedBy(le, s) && SortedBy(le, t)
    requires multiset(s) == multiset(t)
    ensures s == t
  {
    SameElements(s, t);
    if s != [] {
      FirstIsLeast(le, s, t[0]);
      FirstIsLeast(le, t, s[0]);
      assert s[0] == t[0];
      TailMultiset(s);
      TailMultiset(t);
      SortedUnique(le, s[1..], t[1..]);
      assert s == [s[0]] + s[1..] && t == [t[0]] + t[1..];
    }
  }

  /** The elements of a permutation are the same. */
  lemma SameElements<T>(s: seq<T>, t: seq<T>)
    requires multiset(s) == multiset(t)
    ensures |s| == |t|
    ensures forall x :: x in s <==> x in t
  {
    assert |s| == |multiset(s)| && |t| == |multiset(t)|;
    forall x ensures x in s <==> x in t {
      assert x in s <==> x in multiset(s);
      assert x in t <==> x in multiset(t);
    }
  }

  ghost predicate Distinct<T>(s: seq<T>) {
    forall i, j :: 0 <= i < j < |s| ==> s[i] != s[j]
  }

  /** Being free of repeats is a property of the multiset, so sorting keeps it. */
  lemma {:induction false} DistinctByMultiset<T>(s: seq<T>)
    ensures Distinct(s) <==> forall x :: x in s ==> multiset(s)[x] == 1
  {
    if s != [] {
      var rest := s[1..];
      DistinctByMultiset(rest);
      assert s == [s[0]] + rest;
      assert multiset(s) == multiset{s[0]} + multiset(rest);
      if Distinct(s) {
        forall x | x in s ensures multiset(s)[x] == 1 {
          assert s[0] !in rest;
          assert x in rest || x == s[0];
        }
      } else if s[0] in rest {
        assert multiset(rest)[s[0]] >= 1 && multiset(s)[s[0]] >= 2;
      } else {
        var x :| x in rest && multiset(rest)[x] != 1;
        assert x in s && multiset(s)[x] == multiset(rest)[x];
      }
    }
  }

  lemma DistinctPermutation<T>(s: seq<T>, t: seq<T>)
    requires multiset(s) == multiset(t) && Distinct(s)
    ensures Distinct(t)
  {
    SameElements(s, t);
    DistinctByMultiset(s);
    DistinctByMultiset(t);
  }

  lemma DistinctSameMembers<T>(s: seq<T>, t: seq<T>)
    requires Distinct(s) && Distinct(t) && forall x :: x in s <==> x in t
    ensures multiset(s) == multiset(t)
  {
    DistinctByMultiset(s);
    DistinctByMultiset(t);
    forall x ensures multiset(s)[x] == multiset(t)[x] {
      assert x in s <==> x in multiset(s);
      assert x in t <==> x in multiset(t);
    }
  }

  function Members<T>(s: seq<T>): set<T> { set x | x in s }

  lemma {:induction false} CountMembers<T>(s: seq<T>)
    ensures |Members(s)| <= |s|
    ensures Distinct(s) ==> |Members(s)| == |s|
  {
    if s != [] {
      var n := |s| - 1;
      CountMembers(s[..n]);
      assert Members(s) == Members(s[..n]) + {s[n]};
    }
  }

  /** Distinct elements drawn from `t` are no more than `t` is long. */
  lemma DistinctFits<T>(s: seq<T>, t: seq<T>)
    requires Distinct(s) && forall x :: x in s ==> x in t
    ensures |s| <= |t|
  {
    CountMembers(s);
    CountMembers(t);
    assert Members(t) == Members(s) + (Members(t) - Members(s));
  }

  /** `sort_unstable_by`: some sorted arrangement, and nothing else is known of it. */
  method SortUnstable<T(!new)>(le: (T, T) -> bool, s: seq<T>) returns (r: seq<T>)
    requires TotalPreorder(le)
    ensures multiset(r) == multiset(s) && SortedBy(le, r)
  {
    SortPermutes(le, s);
    SortSorts(le, s);
    r := Sort(le, s);
  }
}
