/** Sparse vectors and top-k pruning (`src/embedding/sparse.rs`).  Weights are reals. */
module SparseTopK {
  import opened Wrappers
  import opened Sequences
  import opened Sorting

  datatype Weight = Weight(index: nat, value: real)

  /** Parallel lists, as stored. */
  datatype SparseVector = SparseVector(indices: seq<nat>, values: seq<real>)

  function Abs(x: real): (r: real)
    ensures r >= 0.0 && (r == x || r == -x)
  {
    if x < 0.0 then -x else x
  }

  /** `zip` stops with the shorter list. */
  function Zip(indices: seq<nat>, values: seq<real>): (w: seq<Weight>)
    ensures |w| == if |indices| < |values| then |indices| else |values|
    ensures forall i :: 0 <= i < |w| ==> w[i] == Weight(indices[i], values[i])
  {
    if indices == [] || values == [] then []
    else [Weight(indices[0], values[0])] + Zip(indices[1..], values[1..])
  }

  function Unzip(w: seq<Weight>): (v: SparseVector)
    ensures |v.indices| == |v.values| == |w|
    ensures forall i :: 0 <= i < |w| ==> v.indices[i] == w[i].index && v.values[i] == w[i].value
  {
    if w == [] then SparseVector([], [])
    else
      var rest := Unzip(w[1..]);
      SparseVector([w[0].index] + rest.indices, [w[0].value] + rest.values)
  }

  function Weights(v: SparseVector): seq<Weight> { Zip(v.indices, v.values) }

  predicate ByIndex(a: Weight, b: Weight) { a.index <= b.index }

  /** Highest magnitude first; ties broken by lower index. */
  predicate ByMagnitude(a: Weight, b: Weight) {
    Abs(a.value) > Abs(b.value) || (Abs(a.value) == Abs(b.value) && a.index <= b.index)
  }

  ghost predicate DistinctIndices(w: seq<Weight>) {
    forall i, j :: 0 <= i < j < |w| ==> w[i].index != w[j].index
  }

  ghost predicate AllNonZero(w: seq<Weight>) { forall x :: x in w ==> NonZero(x) }

  /** What every vector of the type satisfies; an index may repeat. */
  ghost predicate Valid(v: SparseVector) {
    |v.indices| == |v.values| && SortedBy(ByIndex, Weights(v)) && AllNonZero(Weights(v))
  }

  predicate NonZero(x: Weight) { x.value != 0.0 }

  lemma ZipUnzip(w: seq<Weight>)
    ensures Weights(Unzip(w)) == w
  {
    forall i | 0 <= i < |w| ensures Weights(Unzip(w))[i] == w[i] {}
  }

  lemma Orders()
    ensures TotalPreorder(ByIndex) && TotalPreorder(ByMagnitude)
  {
    forall a, b ensures Connected(ByIndex, a, b) && Connected(ByMagnitude, a, b) {}
    forall a, b, c ensures Chained(ByIndex, a, b, c) && Chained(ByMagnitude, a, b, c) {}
  }

  /** Fails on a length mismatch; otherwise drops the zeros, loses nothing else and sorts. */
  method New(indices: seq<nat>, values: seq<real>) returns (r: Option<SparseVector>)
    ensures r.None? <==> |indices| != |values|
    ensures r.Some? ==> Valid(r.value)
    ensures r.Some? ==> multiset(Weights(r.value)) == multiset(Filter(NonZero, Zip(indices, values)))
    ensures r.Some? ==> forall x :: x in Weights(r.value) <==> x in Zip(indices, values) && x.value != 0.0
    ensures r.Some? ==> forall i, j :: 0 <= i < j < |r.value.indices| ==> r.value.indices[i] <= r.value.indices[j]
  {
    if |indices| != |values| {
      return None;
    }
    var pairs := Filter(NonZero, Zip(indices, values));
    Orders();
    var sorted := SortUnstable(ByIndex, pairs);
    r := Some(Unzip(sorted));
    ZipUnzip(sorted);
    SameElements(sorted, pairs);
    forall i, j | 0 <= i < j < |sorted| ensures sorted[i].index <= sorted[j].index {
      assert ByIndex(sorted[i], sorted[j]);
    }
  }

  // ── Pruning ────────────────────────────

  /** `part` takes some of the weights of `w`, and none that it leaves out should come before
      one that it takes. */
  ghost predicate Leads(part: seq<Weight>, w: seq<Weight>) {
    && multiset(part) <= multiset(w)
    && (forall x, y :: x in part && y in multiset(w) - multiset(part) ==> ByMagnitude(x, y))
  }

  /** The `k` leading weights in index order; short vectors stay as they are. */
  ghost predicate IsPruned(w: seq<Weight>, k: nat, r: seq<Weight>) {
    if k >= |w| then r == w else |r| == k && SortedBy(ByIndex, r) && Leads(r, w)
  }

  /** Never fails, whatever `k`, and whatever the unstable sorts do with equal keys. */
  method PruneTopK(v: SparseVector, k: nat) returns (r: SparseVector)
    requires Valid(v)
    ensures Valid(r) && IsPruned(Weights(v), k, Weights(r))
  {
    if k >= |v.indices| {
      return v;
    }
    if k == 0 {
      r := SparseVector([], []);
      return;
    }
    Orders();
    var order := SortUnstable(ByMagnitude, Weights(v));
    ghost var all := order;
    order := order[..k];
    var kept := SortUnstable(ByIndex, order);
    r := Unzip(kept);
    ZipUnzip(kept);
    FirstLead(all, Weights(v), k);
    SameElements(kept, order);
    LeadsByMultiset(order, kept, Weights(v));
    PartIsNonZero(kept, Weights(v));
  }

  /** The first `k` in order of magnitude lead. */
  lemma FirstLead(sorted: seq<Weight>, w: seq<Weight>, k: nat)
    requires multiset(sorted) == multiset(w) && SortedBy(ByMagnitude, sorted) && k <= |sorted|
    ensures Leads(sorted[..k], w)
  {
    var top, rest := sorted[..k], sorted[k..];
    assert sorted == top + rest;
    assert multiset(w) - multiset(top) == multiset(rest);
    forall x, y | x in top && y in rest ensures ByMagnitude(x, y) {
      EarlierIsGreater(sorted, k, x, y);
    }
  }

  lemma EarlierIsGreater(sorted: seq<Weight>, k: nat, x: Weight, y: Weight)
    requires SortedBy(ByMagnitude, sorted) && k <= |sorted| && x in sorted[..k] && y in sorted[k..]
    ensures ByMagnitude(x, y)
  {
    var i :| 0 <= i < k && sorted[..k][i] == x;
    var j :| 0 <= j < |sorted| - k && sorted[k..][j] == y;
    assert sorted[i] == x && sorted[k + j] == y;
  }

  lemma LeadsByMultiset(a: seq<Weight>, b: seq<Weight>, w: seq<Weight>)
    requires multiset(a) == multiset(b) && Leads(a, w)
    ensures Leads(b, w)
  {
    SameElements(a, b);
  }

  lemma PartIsNonZero(part: seq<Weight>, w: seq<Weight>)
    requires multiset(part) <= multiset(w) && AllNonZero(w)
    ensures AllNonZero(part)
  {
    forall x | x in part ensures NonZero(x) {
      assert x in multiset(part) && x in multiset(w);
    }
  }

  /** Pruning to `k` and then to `j` is pruning to the smaller of the two. */
  lemma PrunedTwice(w: seq<Weight>, k: nat, a: seq<Weight>, j: nat, b: seq<Weight>)
    requires IsPruned(w, k, a) && IsPruned(a, j, b)
    ensures IsPruned(w, if j < k then j else k, b)
  {
    if k < |w| && j < k { LeadsComposes(b, a, w); }
  }

  lemma LeadsComposes(a: seq<Weight>, b: seq<Weight>, w: seq<Weight>)
    requires Leads(a, b) && Leads(b, w)
    ensures Leads(a, w)
  {
    forall x, y | x in a && y in multiset(w) - multiset(a) ensures ByMagnitude(x, y) {
      assert multiset(w) - multiset(a) == (multiset(w) - multiset(b)) + (multiset(b) - multiset(a));
      if y in multiset(b) - multiset(a) {
        assert ByMagnitude(x, y);
      } else {
        assert x in multiset(a) && x in multiset(b);
        assert x in b && y in multiset(w) - multiset(b);
      }
    }
  }

  // ── When the result is determined ──────

  /** No two different weights share index and magnitude, as `v` and `-v` at a repeated index. */
  ghost predicate NoMirrors(w: seq<Weight>) {
    forall x, y :: x in w && y in w && x.index == y.index && Abs(x.value) == Abs(y.value) ==> x == y
  }

  lemma NoMoreIsEqual(a: multiset<Weight>, b: multiset<Weight>)
    requires |a| == |b| && forall x :: a[x] <= b[x]
    ensures a == b
  {
    assert b == a + (b - a);
    assert |b| == |a| + |b - a|;
    assert b - a == multiset{};
  }

  lemma MoreOfSomething(a: multiset<Weight>, b: multiset<Weight>) returns (x: Weight)
    requires |a| == |b| && a != b
    ensures a[x] > b[x]
  {
    if forall x :: a[x] <= b[x] {
      NoMoreIsEqual(a, b);
      assert false;
    }
    x :| a[x] > b[x];
  }

  lemma LeadingAreDetermined(w: seq<Weight>, r: seq<Weight>, s: seq<Weight>)
    requires Leads(r, w) && Leads(s, w) && |r| == |s| && NoMirrors(w)
    ensures multiset(r) == multiset(s)
  {
    if multiset(r) != multiset(s) {
      var x := MoreOfSomething(multiset(r), multiset(s));
      var y := MoreOfSomething(multiset(s), multiset(r));
      Mirrored(w, r, s, x, y);
      assert false;
    }
  }

  lemma Mirrored(w: seq<Weight>, r: seq<Weight>, s: seq<Weight>, x: Weight, y: Weight)
    requires Leads(r, w) && Leads(s, w) && multiset(r)[x] > multiset(s)[x] && multiset(s)[y] > multiset(r)[y]
    ensures x in w && y in w && x.index == y.index && Abs(x.value) == Abs(y.value) && x != y
  {
    assert x in multiset(r) && y in multiset(s);
    assert x in multiset(w) - multiset(s) && y in multiset(w) - multiset(r);
    assert ByMagnitude(x, y) && ByMagnitude(y, x);
    assert x in multiset(w) && y in multiset(w);
  }

  predicate ByIndexThenValue(a: Weight, b: Weight) {
    a.index < b.index || (a.index == b.index && a.value <= b.value)
  }

  lemma IndexSortedIsUnique(r: seq<Weight>, s: seq<Weight>)
    requires multiset(r) == multiset(s) && SortedBy(ByIndex, r) && SortedBy(ByIndex, s)
    requires DistinctIndices(r) && DistinctIndices(s)
    ensures r == s
  {
    forall a, b ensures Connected(ByIndexThenValue, a, b) {}
    forall a, b, c ensures Chained(ByIndexThenValue, a, b, c) {}
    SortedUnique(ByIndexThenValue, r, s);
  }

  lemma {:induction false} PartHasDistinctIndices(part: seq<Weight>, w: seq<Weight>)
    requires multiset(part) <= multiset(w) && DistinctIndices(w)
    ensures DistinctIndices(part)
  {
    forall i, j | 0 <= i < j < |part| ensures part[i].index != part[j].index {
      assert part[i] in multiset(part) && part[j] in multiset(part);
      assert part[i] in multiset(w) && part[j] in multiset(w);
      if part[i] == part[j] {
        TwoOfThem(part, i, j);
        TwiceInDistinct(w, part[i]);
        assert false;
      }
    }
  }

  lemma TwoOfThem(s: seq<Weight>, i: nat, j: nat)
    requires i < j < |s| && s[i] == s[j]
    ensures multiset(s)[s[i]] >= 2
  {
    assert s == s[..j] + s[j..];
    assert s[i] in multiset(s[..j]) by { assert s[..j][i] == s[i]; }
    assert s[j] in multiset(s[j..]) by { assert s[j..][0] == s[j]; }
  }

  lemma TwiceInDistinct(w: seq<Weight>, x: Weight)
    requires DistinctIndices(w)
    ensures multiset(w)[x] <= 1
  {
    assert Distinct(w);
    DistinctByMultiset(w);
    assert x !in w ==> multiset(w)[x] == 0;
  }

  /** With distinct indices there is one pruned vector, so pruning twice and pruning once give
      the same list. */
  lemma PrunedIsUnique(w: seq<Weight>, k: nat, r: seq<Weight>, s: seq<Weight>)
    requires forall i, j :: 0 <= i < j < |w| ==> w[i].index != w[j].index
    requires IsPruned(w, k, r) && IsPruned(w, k, s)
    ensures r == s
  {
    if k < |w| {
      forall x, y | x in w && y in w && x.index == y.index ensures x == y {}
      LeadingAreDetermined(w, r, s);
      PartHasDistinctIndices(r, w);
      PartHasDistinctIndices(s, w);
      IndexSortedIsUnique(r, s);
    }
  }

  // ── The most weight that fits ──────────

  function Size(x: Weight): real { Abs(x.value) }

  function Magnitude(w: seq<Weight>): real { Sum(Size, w) }

  /** The least magnitude taken. */
  function Level(w: seq<Weight>): (l: real)
    requires w != []
    ensures l >= 0.0 && (forall x :: x in w ==> Size(x) >= l) && exists x :: x in w && Size(x) == l
  {
    var n := |w| - 1;
    assert w == w[..n] + [w[n]];
    if n == 0 then Size(w[0])
    else
      var l := Level(w[..n]);
      if Size(w[n]) < l then Size(w[n]) else l
  }

  function Over(level: real, x: Weight): real { if Size(x) > level then Size(x) - level else 0.0 }

  /** What rises above the level is all in the leading part. */
  lemma ExcessIsInPart(w: seq<Weight>, r: seq<Weight>, rest: seq<Weight>, level: real)
    requires r != [] && Leads(r, w) && level == Level(r) && multiset(r) + multiset(rest) == multiset(w)
    ensures var over := x => Over(level, x); Sum(over, w) == Sum(over, r)
  {
    var over := x => Over(level, x);
    var low :| low in r && Size(low) == level;
    forall x | x in rest ensures over(x) == 0.0 {
      assert x in multiset(rest) && x in multiset(w) - multiset(r);
      assert ByMagnitude(low, x);
    }
    SumOfZeros(over, rest);
    SumSplit(over, r, rest, w);
  }

  lemma PartIsNoMore(f: Weight -> real, t: seq<Weight>, w: seq<Weight>)
    requires multiset(t) <= multiset(w) && forall x :: x in w ==> f(x) >= 0.0
    ensures Sum(f, t) <= Sum(f, w)
  {
    var rest := Complement(t, w);
    SumSplit(f, t, rest, w);
    var zero: Weight -> real := x => 0.0;
    forall x | x in rest ensures zero(x) <= f(x) { assert x in multiset(rest) && x in multiset(w); }
    SumAtMost(zero, f, rest);
    SumOfZeros(zero, rest);
  }

  lemma SelectionIsBelow(t: seq<Weight>, level: real)
    requires level >= 0.0
    ensures Magnitude(t) <= Sum(x => Over(level, x), t) + Times(|t|, level)
  {
    var over: Weight -> real := x => Over(level, x);
    var raised: Weight -> real := x => Over(level, x) + level;
    SumAtMost(Size, raised, t);
    SumShifted(raised, over, level, t);
  }

  lemma PrunedIsAbove(r: seq<Weight>, level: real)
    requires forall x :: x in r ==> Size(x) >= level
    ensures Magnitude(r) == Sum(x => Over(level, x), r) + Times(|r|, level)
  {
    SumShifted(Size, x => Over(level, x), level, r);
  }

  /** Among all selections of at most `k` weights, pruning keeps the most total magnitude. */
  lemma PrunedIsMost(w: seq<Weight>, k: nat, r: seq<Weight>, t: seq<Weight>)
    requires IsPruned(w, k, r) && multiset(t) <= multiset(w) && |t| <= k
    ensures Magnitude(t) <= Magnitude(r)
  {
    if k >= |w| {
      PartIsNoMore(Size, t, w);
    } else if k > 0 {
      var level := Level(r);
      var over: Weight -> real := x => Over(level, x);
      var rest := Complement(r, w);
      SelectionIsBelow(t, level);
      PartIsNoMore(over, t, w);
      ExcessIsInPart(w, r, rest, level);
      PrunedIsAbove(r, level);
      TimesGrows(|t|, |r|, level);
    }
  }

  // ── In numbers ─────────────────────────

  /** What is kept has no smaller square than what is left out, and at equal squares no larger
      index. */
  lemma KeptOutweighs(w: seq<Weight>, k: nat, r: seq<Weight>, x: Weight, y: Weight)
    requires IsPruned(w, k, r) && x in r && y in multiset(w) - multiset(r)
    ensures x.value * x.value >= y.value * y.value
    ensures x.value * x.value == y.value * y.value ==> x.index <= y.index
  {
    assert ByMagnitude(x, y);
    SquareOrder(x.value, y.value);
    SquareOrder(y.value, x.value);
  }

  lemma SquareOrder(a: real, b: real)
    ensures Abs(a) > Abs(b) ==> a * a > b * b
    ensures Abs(a) == Abs(b) ==> a * a == b * b
  {
    SameSquare(a, Abs(a));
    SameSquare(b, Abs(b));
    if Abs(a) > Abs(b) { LargerSquare(Abs(a), Abs(b)); }
  }

  lemma SameSquare(a: real, p: real)
    requires p == a || p == -a
    ensures p * p == a * a
  {}

  lemma LargerSquare(p: real, q: real)
    requires p > q >= 0.0
    ensures p * p > q * q
  {
    Positive(p, p - q);
    assert p * (p - q) == p * p - p * q;
    assert q * (p - q) >= 0.0;
    assert q * (p - q) == p * q - q * q;
  }

  lemma Positive(x: real, y: real)
    requires x > 0.0 && y > 0.0
    ensures x * y > 0.0
  {}
}
