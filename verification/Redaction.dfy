/** Span redaction (`src/dlp/scan.rs`): sort the spans, merge them in place, splice the text.

    What this means is stated without the merging.  A text is a row of cells: the points between
    its bytes and the bytes themselves.  A span touches the points from its start to its end and
    the bytes in between, so that an empty span touches one point.  Redaction then replaces each
    maximal run of touched cells by one mask and keeps every other byte (`RedactMeans`).  The
    merged list is the canonical form of what is touched (`MergedIsCanonical`), so only that
    matters: not the order of the spans, how often one is given, or how they overlap.

    The code slices the text at the starts of merged spans only and panics exactly when one of
    them lies past the end (`ApplyRedactions`, `FitsIff`). */
module Redaction {
  import opened Wrappers
  import opened Sorting

  newtype Byte = b: int | 0 <= b < 256

  /** Byte offsets `[start, end)` into the scanned text. */
  datatype Span = Span(start: nat, end: nat)

  /** The derived `Ord`. */
  predicate SpanLe(a: Span, b: Span) { a.start < b.start || (a.start == b.start && a.end <= b.end) }

  function Mask(): (m: seq<Byte>)
    ensures |m| == 4
  {
    [42, 42, 42, 42]
  }

  /** Spans of a text, as `scan` reports them. */
  predicate InBounds(spans: seq<Span>, length: nat) {
    forall s :: s in spans ==> s.start <= s.end <= length
  }

  /** No rule of `scan` matches the empty text. */
  ghost predicate NonEmpty(spans: seq<Span>) {
    forall s :: s in spans ==> s.start < s.end
  }

  // ── What redaction means ───────────────

  function Range(lo: nat, hi: nat): set<nat>
    decreases hi
  {
    if lo < hi then Range(lo, hi - 1) + {hi - 1} else {}
  }

  lemma {:induction false} InRange(lo: nat, hi: nat, i: nat)
    ensures i in Range(lo, hi) <==> lo <= i < hi
    decreases hi
  {
    if lo < hi { InRange(lo, hi - 1, i); }
  }

  lemma {:induction false} CountRange(lo: nat, hi: nat)
    requires lo <= hi
    ensures |Range(lo, hi)| == hi - lo
    decreases hi
  {
    if lo < hi {
      CountRange(lo, hi - 1);
      InRange(lo, hi - 1, hi - 1);
    }
  }

  function Bytes(s: Span): set<nat> { Range(s.start, s.end) }

  /** The points are the even cells, the bytes the odd ones. */
  function Cells(s: Span): set<nat> { Range(2 * s.start, 2 * s.end + 1) }

  /** What the spans take in together. */
  function Area(part: Span -> set<nat>, spans: seq<Span>): set<nat> {
    if spans == [] then {} else Area(part, spans[..|spans| - 1]) + part(spans[|spans| - 1])
  }

  function Covered(spans: seq<Span>): set<nat> { Area(Bytes, spans) }

  function Touched(spans: seq<Span>): set<nat> { Area(Cells, spans) }

  /** A mask at the first point of each maximal run of touched cells. */
  function PointOut(touched: set<nat>, q: nat, mask: seq<Byte>): seq<Byte> {
    if 2 * q in touched && (q > 0 ==> 2 * q - 1 !in touched) then mask else []
  }

  /** Every untouched byte itself. */
  function ByteOut(text: seq<Byte>, touched: set<nat>, q: nat): seq<Byte>
    requires q < |text|
  {
    if 2 * q + 1 in touched then [] else [text[q]]
  }

  /** What the cells before point `q` become. */
  function Before(text: seq<Byte>, touched: set<nat>, q: nat, mask: seq<Byte>): seq<Byte>
    requires q <= |text|
    decreases q, 0
  {
    if q == 0 then [] else Through(text, touched, q - 1, mask) + ByteOut(text, touched, q - 1)
  }

  function Through(text: seq<Byte>, touched: set<nat>, q: nat, mask: seq<Byte>): seq<Byte>
    requires q <= |text|
    decreases q, 1
  {
    Before(text, touched, q, mask) + PointOut(touched, q, mask)
  }

  /** The text with each maximal run of touched cells replaced by one mask. */
  function Masked(text: seq<Byte>, touched: set<nat>, mask: seq<Byte>): seq<Byte> {
    Through(text, touched, |text|, mask)
  }

  // ── What the code does ─────────────────

  function Max(a: nat, b: nat): nat { if a < b then b else a }

  function Absorb(merged: seq<Span>, s: Span): seq<Span> {
    var n := |merged|;
    if n > 0 && s.start <= merged[n - 1].end
    then merged[..n - 1] + [Span(merged[n - 1].start, Max(merged[n - 1].end, s.end))]
    else merged + [s]
  }

  function Merge(sorted: seq<Span>): seq<Span> {
    if sorted == [] then [] else Absorb(Merge(sorted[..|sorted| - 1]), sorted[|sorted| - 1])
  }

  datatype Output = Output(out: seq<Byte>, pos: nat)

  /** The code slices the text at the starts of spans only. */
  predicate StartWithin(spans: seq<Span>, length: nat) {
    forall s :: s in spans ==> s.start <= length
  }

  function Splice(text: seq<Byte>, merged: seq<Span>, mask: seq<Byte>): Output
    requires StartWithin(merged, |text|)
  {
    if merged == [] then Output([], 0)
    else
      var s := merged[|merged| - 1];
      var before := Splice(text, merged[..|merged| - 1], mask);
      Output(before.out + (if s.start > before.pos then text[before.pos..s.start] else []) + mask,
             Max(before.pos, s.end))
  }

  function Rest(text: seq<Byte>, pos: nat): seq<Byte> { if pos < |text| then text[pos..] else [] }

  function SortSpans(spans: seq<Span>): seq<Span> { Sort(SpanLe, spans) }

  // ── Merging ────────────────────────────

  /** In order, with at least one byte between neighbours. */
  ghost predicate Separated(m: seq<Span>) {
    forall i, j :: 0 <= i < j < |m| ==> m[i].end < m[j].start
  }

  ghost predicate Ordered(m: seq<Span>) { forall s :: s in m ==> s.start <= s.end }

  lemma {:induction false} MemberIsIn(part: Span -> set<nat>, s: Span, spans: seq<Span>)
    requires s in spans
    ensures part(s) <= Area(part, spans)
  {
    var n := |spans| - 1;
    assert spans == spans[..n] + [spans[n]];
    if s != spans[n] { MemberIsIn(part, s, spans[..n]); }
  }

  lemma {:induction false} AreaGrows(part: Span -> set<nat>, a: seq<Span>, b: seq<Span>)
    requires forall s :: s in a ==> s in b
    ensures Area(part, a) <= Area(part, b)
  {
    if a != [] {
      var n := |a| - 1;
      MemberIsIn(part, a[n], b);
      AreaGrows(part, a[..n], b);
    }
  }

  /** Order and repetition of the spans do not matter. */
  lemma SameSpansSameArea(part: Span -> set<nat>, a: seq<Span>, b: seq<Span>)
    requires forall s :: s in a <==> s in b
    ensures Area(part, a) == Area(part, b)
  {
    AreaGrows(part, a, b);
    AreaGrows(part, b, a);
  }

  /** The last merged span starts no later than anything still to come. */
  ghost predicate Reached(m: seq<Span>, s: Span) {
    m != [] ==> m[|m| - 1].start <= s.start
  }

  lemma {:induction false} RangesJoin(a: nat, b: nat, c: nat, d: nat)
    requires a <= c <= b
    ensures Range(a, Max(b, d)) == Range(a, b) + Range(c, d)
  {
    forall i: nat ensures i in Range(a, Max(b, d)) <==> i in Range(a, b) + Range(c, d) {
      InRange(a, b, i);
      InRange(c, d, i);
      InRange(a, Max(b, d), i);
    }
  }

  /** Two spans of which the second starts within or at the end of the first. */
  ghost predicate JoinsAt(part: Span -> set<nat>, a: Span, s: Span) {
    a.start <= s.start <= a.end ==> part(Span(a.start, Max(a.end, s.end))) == part(a) + part(s)
  }

  ghost predicate Joins(part: Span -> set<nat>) { forall a, s :: JoinsAt(part, a, s) }

  lemma BytesJoin()
    ensures Joins(Bytes)
  {
    forall a, s ensures JoinsAt(Bytes, a, s) {
      if a.start <= s.start <= a.end { RangesJoin(a.start, a.end, s.start, s.end); }
    }
  }

  lemma CellsJoin()
    ensures Joins(Cells)
  {
    forall a, s ensures JoinsAt(Cells, a, s) {
      if a.start <= s.start <= a.end {
        RangesJoin(2 * a.start, 2 * a.end + 1, 2 * s.start, 2 * s.end + 1);
        assert Max(2 * a.end + 1, 2 * s.end + 1) == 2 * Max(a.end, s.end) + 1;
      }
    }
  }

  lemma AbsorbCovers(part: Span -> set<nat>, m: seq<Span>, s: Span)
    requires Joins(part) && Reached(m, s)
    ensures Area(part, Absorb(m, s)) == Area(part, m) + part(s)
  {
    var n := |m|;
    if n > 0 && s.start <= m[n - 1].end {
      assert JoinsAt(part, m[n - 1], s);
    }
  }

  lemma AbsorbSeparates(m: seq<Span>, s: Span)
    requires Separated(m) && Reached(m, s)
    ensures Separated(Absorb(m, s))
  {
    var n := |m|;
    if n > 0 && s.start > m[n - 1].end {
      forall i | 0 <= i < n ensures m[i].end < s.start {
        assert i < n - 1 ==> m[i].end < m[n - 1].start;
      }
    }
  }

  lemma AbsorbKeepsOrdered(m: seq<Span>, s: Span)
    requires Ordered(m) && s.start <= s.end
    ensures Ordered(Absorb(m, s))
  {
    var r := Absorb(m, s);
    var n := |m|;
    if n > 0 && s.start <= m[n - 1].end {
      assert forall x :: x in r ==> x in m || x == r[n - 1];
      assert m[n - 1] in m;
    }
  }

  ghost predicate InOrder(s: seq<Span>) { forall i, j :: 0 <= i < j < |s| ==> s[i].start <= s[j].start }

  lemma {:induction false} MergeReached(s: seq<Span>)
    requires s != [] && InOrder(s)
    ensures Merge(s) != [] && Reached(Merge(s), s[|s| - 1])
  {
    var n := |s| - 1;
    if n > 0 {
      MergeReached(s[..n]);
      assert s[n - 1].start <= s[n].start;
    }
  }

  lemma ReachedNext(s: seq<Span>, n: nat)
    requires n < |s| && InOrder(s)
    ensures Reached(Merge(s[..n]), s[n])
  {
    if n > 0 {
      MergeReached(s[..n]);
      assert s[n - 1].start <= s[n].start;
    }
  }

  lemma {:induction false} MergeCovers(part: Span -> set<nat>, s: seq<Span>)
    requires Joins(part) && InOrder(s)
    ensures Area(part, Merge(s)) == Area(part, s)
  {
    if s != [] {
      var n := |s| - 1;
      MergeCovers(part, s[..n]);
      ReachedNext(s, n);
      AbsorbCovers(part, Merge(s[..n]), s[n]);
    }
  }

  lemma {:induction false} MergeSeparates(s: seq<Span>)
    requires InOrder(s)
    ensures Separated(Merge(s))
  {
    if s != [] {
      var n := |s| - 1;
      MergeSeparates(s[..n]);
      ReachedNext(s, n);
      AbsorbSeparates(Merge(s[..n]), s[n]);
    }
  }

  lemma {:induction false} MergeKeepsOrdered(s: seq<Span>)
    requires Ordered(s)
    ensures Ordered(Merge(s))
  {
    if s != [] {
      var n := |s| - 1;
      MergeKeepsOrdered(s[..n]);
      assert s[n] in s;
      AbsorbKeepsOrdered(Merge(s[..n]), s[n]);
    }
  }

  lemma {:induction false} MergeInBounds(s: seq<Span>, length: nat)
    requires InOrder(s) && InBounds(s, length)
    ensures InBounds(Merge(s), length)
  {
    if s != [] {
      var n := |s| - 1;
      MergeInBounds(s[..n], length);
      ReachedNext(s, n);
      AbsorbInBounds(Merge(s[..n]), s[n], length);
    }
  }

  lemma AbsorbInBounds(m: seq<Span>, s: Span, length: nat)
    requires InBounds(m, length) && s.start <= s.end <= length
    ensures InBounds(Absorb(m, s), length)
  {
    if m != [] {
      assert m[|m| - 1] in m;
    }
  }

  // ── Sorting ────────────────────────────

  lemma SpanOrder()
    ensures TotalOrder(SpanLe)
  {
    forall a, b ensures Connected(SpanLe, a, b) {}
    forall a, b, c ensures Chained(SpanLe, a, b, c) {}
  }

  lemma SortedSpans(spans: seq<Span>)
    ensures InOrder(SortSpans(spans))
    ensures forall s :: s in SortSpans(spans) <==> s in spans
  {
    SpanOrder();
    SortSorts(SpanLe, spans);
    SortPermutes(SpanLe, spans);
    SameElements(SortSpans(spans), spans);
  }

  // ── Splicing ───────────────────────────

  function EndOf(m: seq<Span>): nat { if m == [] then 0 else m[|m| - 1].end }

  /** The cells up to the end of the last span. */
  function CellsTo(m: seq<Span>): nat { if m == [] then 0 else 2 * EndOf(m) + 1 }

  lemma {:induction false} TouchedBelow(m: seq<Span>, i: nat)
    requires Separated(m) && Ordered(m) && i in Touched(m)
    ensures i < CellsTo(m)
  {
    var n := |m| - 1;
    InRange(2 * m[n].start, 2 * m[n].end + 1, i);
    if i in Touched(m[..n]) {
      TouchedBelow(m[..n], i);
      assert m[n] in m && m[n - 1].end < m[n].start;
    }
  }

  lemma SliceGrows(text: seq<Byte>, p: nat, q: nat)
    requires p <= q < |text|
    ensures text[p..q + 1] == text[p..q] + [text[q]]
  {}

  lemma Regroup(a: seq<Byte>, b: seq<Byte>, c: seq<Byte>)
    ensures (a + b) + c == a + (b + c) && a + [] == a
  {}

  /** Untouched bytes, and no touched point between them. */
  lemma {:induction false} Gap(text: seq<Byte>, touched: set<nat>, p: nat, q: nat, mask: seq<Byte>)
    requires p < q <= |text|
    requires forall i :: 2 * p < i < 2 * q ==> i !in touched
    ensures Before(text, touched, q, mask) == Through(text, touched, p, mask) + text[p..q]
    decreases q
  {
    var m := q - 1;
    assert ByteOut(text, touched, m) == [text[m]];
    if p < m {
      Gap(text, touched, p, m, mask);
      assert PointOut(touched, m, mask) == [];
      Regroup(Before(text, touched, m, mask), [], []);
      SliceGrows(text, p, m);
      Regroup(Through(text, touched, p, mask), text[p..m], [text[m]]);
    } else {
      assert text[p..q] == [text[p]];
    }
  }

  lemma {:induction false} FirstGap(text: seq<Byte>, touched: set<nat>, q: nat, mask: seq<Byte>)
    requires q <= |text| && forall i :: 0 <= i < 2 * q ==> i !in touched
    ensures Before(text, touched, q, mask) == text[0..q]
  {
    if q > 0 {
      FirstGap(text, touched, q - 1, mask);
      assert PointOut(touched, q - 1, mask) == [];
      Regroup(Before(text, touched, q - 1, mask), [], []);
      SliceGrows(text, 0, q - 1);
    }
  }

  /** A run of touched cells from a point that nothing touched leads to. */
  lemma {:induction false} RunOut(text: seq<Byte>, touched: set<nat>, lo: nat, hi: nat, mask: seq<Byte>)
    requires lo <= hi <= |text| && forall i :: 2 * lo <= i <= 2 * hi ==> i in touched
    requires lo > 0 ==> 2 * lo - 1 !in touched
    ensures Through(text, touched, hi, mask) == Before(text, touched, lo, mask) + mask
    decreases hi
  {
    if lo < hi {
      RunOut(text, touched, lo, hi - 1, mask);
      assert ByteOut(text, touched, hi - 1) == [] && PointOut(touched, hi, mask) == [];
      Regroup(Through(text, touched, hi - 1, mask), [], []);
    }
  }

  ghost predicate SameBelow(a: set<nat>, b: set<nat>, n: nat) { forall i :: 0 <= i < n ==> (i in a <==> i in b) }

  lemma {:induction false} ThroughIsLocal(text: seq<Byte>, a: set<nat>, b: set<nat>, q: nat, mask: seq<Byte>)
    requires q <= |text| && SameBelow(a, b, 2 * q + 1)
    ensures Through(text, a, q, mask) == Through(text, b, q, mask)
  {
    if q > 0 { ThroughIsLocal(text, a, b, q - 1, mask); }
  }

  /** What the splice has written once it is through with these spans. */
  function Written(text: seq<Byte>, touched: set<nat>, m: seq<Span>, mask: seq<Byte>): seq<Byte>
    requires EndOf(m) <= |text|
  {
    if m == [] then [] else Through(text, touched, EndOf(m), mask)
  }

  lemma TouchedWith(m: seq<Span>, s: Span, i: nat)
    requires Separated(m) && Ordered(m) && s.start <= s.end && (m != [] ==> EndOf(m) < s.start)
    ensures 2 * s.start <= i <= 2 * s.end ==> i in Touched(m) + Cells(s)
    ensures CellsTo(m) <= i < 2 * s.start ==> i !in Touched(m) + Cells(s)
    ensures i < CellsTo(m) ==> (i in Touched(m) + Cells(s) <==> i in Touched(m))
  {
    InRange(2 * s.start, 2 * s.end + 1, i);
    if i in Touched(m) { TouchedBelow(m, i); }
  }

  /** One more span, with a byte before it unless it opens the text. */
  lemma WrittenStep(text: seq<Byte>, m: seq<Span>, s: Span, mask: seq<Byte>)
    requires Separated(m) && Ordered(m) && s.start <= s.end <= |text| && EndOf(m) <= |text|
    requires m != [] ==> EndOf(m) < s.start
    ensures Through(text, Touched(m) + Cells(s), s.end, mask)
         == Written(text, Touched(m), m, mask) + text[EndOf(m)..s.start] + mask
  {
    var touched, p := Touched(m) + Cells(s), EndOf(m);
    forall i: nat
      ensures 2 * s.start <= i <= 2 * s.end ==> i in touched
      ensures CellsTo(m) <= i < 2 * s.start ==> i !in touched
      ensures i < CellsTo(m) ==> (i in touched <==> i in Touched(m))
    {
      TouchedWith(m, s, i);
    }
    RunOut(text, touched, s.start, s.end, mask);
    if m == [] {
      FirstGap(text, touched, s.start, mask);
    } else {
      Gap(text, touched, p, s.start, mask);
      ThroughIsLocal(text, Touched(m), touched, p, mask);
    }
  }

  lemma {:induction false} SpliceMeans(text: seq<Byte>, m: seq<Span>, mask: seq<Byte>)
    requires Separated(m) && InBounds(m, |text|)
    ensures EndOf(m) <= |text| && Splice(text, m, mask) == Output(Written(text, Touched(m), m, mask), EndOf(m))
  {
    if m != [] {
      var k := |m| - 1;
      assert m[k] in m;
      SpliceMeans(text, m[..k], mask);
      WrittenStep(text, m[..k], m[k], mask);
    }
  }

  /** The spans that do not make the code panic. */
  predicate Fits(spans: seq<Span>, length: nat) { StartWithin(Merged(spans), length) }

  /** The whole function: sort, merge, splice, and the rest of the text. */
  function Redact(text: seq<Byte>, spans: seq<Span>): seq<Byte>
    requires Fits(spans, |text|)
  {
    var r := Splice(text, Merged(spans), Mask());
    r.out + Rest(text, r.pos)
  }

  function Merged(spans: seq<Span>): seq<Span> { Merge(SortSpans(spans)) }

  /** The merged list is sorted, its spans are kept apart by uncovered bytes, and it covers
      exactly what the given spans cover. */
  lemma MergedIsSeparated(spans: seq<Span>)
    requires Ordered(spans)
    ensures Separated(Merged(spans)) && Ordered(Merged(spans))
    ensures Covered(Merged(spans)) == Covered(spans) && Touched(Merged(spans)) == Touched(spans)
  {
    var sorted := SortSpans(spans);
    SortedSpans(spans);
    MergeSeparates(sorted);
    MergeKeepsOrdered(sorted);
    BytesJoin();
    CellsJoin();
    MergeCovers(Bytes, sorted);
    MergeCovers(Cells, sorted);
    SameSpansSameArea(Bytes, sorted, spans);
    SameSpansSameArea(Cells, sorted, spans);
  }

  /** Spans within the text make no panic. */
  lemma MergedInBounds(spans: seq<Span>, length: nat)
    requires InBounds(spans, length)
    ensures InBounds(Merged(spans), length) && Fits(spans, length)
  {
    SortedSpans(spans);
    MergeInBounds(SortSpans(spans), length);
  }

  /** The rest of the text is kept. */
  lemma WrittenToEnd(text: seq<Byte>, m: seq<Span>, mask: seq<Byte>)
    requires Separated(m) && Ordered(m) && EndOf(m) <= |text|
    ensures Masked(text, Touched(m), mask) == Written(text, Touched(m), m, mask) + text[EndOf(m)..|text|]
  {
    var touched := Touched(m);
    forall i | CellsTo(m) <= i <= 2 * |text| ensures i !in touched {
      if i in touched { TouchedBelow(m, i); }
    }
    if m == [] {
      FirstGap(text, touched, |text|, mask);
    } else if EndOf(m) < |text| {
      Gap(text, touched, EndOf(m), |text|, mask);
    }
    Regroup(Before(text, touched, |text|, mask), [], []);
  }

  lemma SpliceAll(text: seq<Byte>, m: seq<Span>, mask: seq<Byte>)
    requires Separated(m) && InBounds(m, |text|)
    ensures Splice(text, m, mask).out + Rest(text, Splice(text, m, mask).pos) == Masked(text, Touched(m), mask)
  {
    SpliceMeans(text, m, mask);
    WrittenToEnd(text, m, mask);
    assert Rest(text, EndOf(m)) == text[EndOf(m)..|text|];
  }

  // ── Spans that end past the text ───────

  function Min(a: nat, b: nat): nat { if a < b then a else b }

  /** The last span may end past the text, but takes in no more than its end. */
  function Clip(m: seq<Span>, length: nat): seq<Span> {
    if m == [] then []
    else
      var n := |m| - 1;
      m[..n] + [Span(m[n].start, Min(m[n].end, length))]
  }

  lemma ClipInBounds(m: seq<Span>, length: nat)
    requires Separated(m) && Ordered(m) && StartWithin(m, length)
    ensures InBounds(Clip(m, length), length) && Separated(Clip(m, length))
  {
    var c := Clip(m, length);
    forall i | 0 <= i < |c|
      ensures c[i].start <= c[i].end <= length && c[i].start == m[i].start && c[i].end <= m[i].end
    {
      assert m[i] in m && m[|m| - 1] in m;
      if i < |m| - 1 { assert m[i].end < m[|m| - 1].start; }
    }
  }

  lemma ClipSplices(text: seq<Byte>, m: seq<Span>, mask: seq<Byte>)
    requires StartWithin(m, |text|)
    ensures StartWithin(Clip(m, |text|), |text|)
    ensures var r, c := Splice(text, m, mask), Splice(text, Clip(m, |text|), mask);
            r.out == c.out && Rest(text, r.pos) == Rest(text, c.pos)
  {
    if m != [] {
      var n := |m| - 1;
      var c := Clip(m, |text|);
      assert c[..n] == m[..n] && c[n].start == m[n].start;
      assert m[n] in m;
    }
  }

  lemma ClipTouches(m: seq<Span>, length: nat)
    ensures SameBelow(Touched(m), Touched(Clip(m, length)), 2 * length + 1)
  {
    if m != [] {
      var n := |m| - 1;
      var c := Clip(m, length);
      assert c[..n] == m[..n];
      forall i | 0 <= i < 2 * length + 1 ensures i in Cells(m[n]) <==> i in Cells(c[n]) {
        InRange(2 * m[n].start, 2 * m[n].end + 1, i);
        InRange(2 * c[n].start, 2 * c[n].end + 1, i);
      }
    }
  }

  /** Redaction replaces each maximal run of touched cells by one mask and keeps every other
      byte, for any spans that do not make it panic, empty ones and ends past the text included. */
  lemma {:induction false} RedactMeans(text: seq<Byte>, spans: seq<Span>)
    requires Ordered(spans) && Fits(spans, |text|)
    ensures Redact(text, spans) == Masked(text, Touched(spans), Mask())
  {
    var m := Merged(spans);
    MergedIsSeparated(spans);
    ClipInBounds(m, |text|);
    ClipSplices(text, m, Mask());
    SpliceAll(text, Clip(m, |text|), Mask());
    ClipTouches(m, |text|);
    ThroughIsLocal(text, Touched(m), Touched(Clip(m, |text|)), |text|, Mask());
  }

  /** Only what is touched of the text matters: permuting, repeating, splitting, pre-merging or
      clipping the spans changes nothing. */
  lemma RedactDependsOnTouch(text: seq<Byte>, a: seq<Span>, b: seq<Span>)
    requires Ordered(a) && Ordered(b) && Fits(a, |text|) && Fits(b, |text|)
    requires SameBelow(Touched(a), Touched(b), 2 * |text| + 1)
    ensures Redact(text, a) == Redact(text, b)
  {
    RedactMeans(text, a);
    RedactMeans(text, b);
    ThroughIsLocal(text, Touched(a), Touched(b), |text|, Mask());
  }

  lemma RedactIgnoresOrderAndRepeats(text: seq<Byte>, a: seq<Span>, b: seq<Span>)
    requires Ordered(a) && Fits(a, |text|) && forall s :: s in a <==> s in b
    ensures Fits(b, |text|) && Redact(text, a) == Redact(text, b)
  {
    SameSpansSameArea(Cells, a, b);
    MergedIsCanonical(a, b);
  }

  /** Merging first and redacting then is the same redaction. */
  lemma RedactIgnoresPremerging(text: seq<Byte>, spans: seq<Span>)
    requires Ordered(spans) && Fits(spans, |text|)
    ensures Fits(Merged(spans), |text|) && Redact(text, Merged(spans)) == Redact(text, spans)
  {
    MergedIsSeparated(spans);
    MergedIsCanonical(Merged(spans), spans);
  }

  // ── When the code panics ───────────────

  /** The points from the end of the text up to the start of the span are all touched. */
  ghost predicate Bridged(spans: seq<Span>, s: Span, length: nat) {
    forall q :: 2 * length <= q <= 2 * s.start ==> q in Touched(spans)
  }

  lemma {:induction false} TouchedByOne(spans: seq<Span>, i: nat) returns (s: Span)
    requires i in Touched(spans)
    ensures s in spans && 2 * s.start <= i <= 2 * s.end
  {
    var n := |spans| - 1;
    InRange(2 * spans[n].start, 2 * spans[n].end + 1, i);
    if i in Cells(spans[n]) { s := spans[n]; } else { s := TouchedByOne(spans[..n], i); }
  }

  lemma TouchedBySpan(spans: seq<Span>, s: Span, i: nat)
    requires s in spans && 2 * s.start <= i <= 2 * s.end
    ensures i in Touched(spans)
  {
    InRange(2 * s.start, 2 * s.end + 1, i);
    MemberIsIn(Cells, s, spans);
  }

  lemma {:induction false} MergeStarts(s: seq<Span>)
    ensures forall x :: x in Merge(s) ==> exists y :: y in s && y.start == x.start
  {
    if s != [] {
      var n := |s| - 1;
      MergeStarts(s[..n]);
      AbsorbStarts(Merge(s[..n]), s[n]);
      forall x | x in Merge(s) ensures exists y :: y in s && y.start == x.start {
        if z :| z in Merge(s[..n]) && z.start == x.start {
          var y :| y in s[..n] && y.start == z.start;
          assert y in s;
        } else {
          assert s[n] in s && s[n].start == x.start;
        }
      }
    }
  }

  lemma AbsorbStarts(m: seq<Span>, s: Span)
    ensures forall x :: x in Absorb(m, s) ==> x.start == s.start || exists z :: z in m && z.start == x.start
  {
    forall x | x in Absorb(m, s) && x.start != s.start ensures exists z :: z in m && z.start == x.start {
      if x !in m { assert m[|m| - 1] in m; }
    }
  }

  lemma {:induction false} BeforeSpanUntouched(m: seq<Span>, k: nat, s: Span, i: nat)
    requires Separated(m) && Ordered(m) && k < |m| && 0 < m[k].start && s in m && 2 * s.start <= i <= 2 * s.end
    ensures i != 2 * m[k].start - 1
  {
    var j :| 0 <= j < |m| && m[j] == s;
    if j < k { assert m[j].end < m[k].start; }
  }

  lemma FitsBridges(spans: seq<Span>, s: Span, length: nat)
    requires Ordered(spans) && Fits(spans, length) && s in spans && s.start > length
    ensures Bridged(spans, s, length)
  {
    MergedIsSeparated(spans);
    assert s.start <= s.end;
    TouchedBySpan(spans, s, 2 * s.start);
    var m := TouchedByOne(Merged(spans), 2 * s.start);
    forall q | 2 * length <= q <= 2 * s.start ensures q in Touched(spans) {
      TouchedBySpan(Merged(spans), m, q);
    }
  }

  lemma BridgedFits(spans: seq<Span>, length: nat)
    requires Ordered(spans) && forall s :: s in spans && s.start > length ==> Bridged(spans, s, length)
    ensures Fits(spans, length)
  {
    MergedIsSeparated(spans);
    SortedSpans(spans);
    MergeStarts(SortSpans(spans));
    forall x | x in Merged(spans) ensures x.start <= length {
      if x.start > length {
        var y :| y in SortSpans(spans) && y.start == x.start;
        assert Bridged(spans, y, length);
        var k :| 0 <= k < |Merged(spans)| && Merged(spans)[k] == x;
        var i := 2 * x.start - 1;
        assert i in Touched(spans);
        var m := TouchedByOne(Merged(spans), i);
        BeforeSpanUntouched(Merged(spans), k, m, i);
      }
    }
  }

  /** The code runs through if and only if other spans touch everything from the end of the text
      to each span that starts past it. */
  lemma FitsIff(spans: seq<Span>, length: nat)
    requires Ordered(spans)
    ensures Fits(spans, length) <==> forall s :: s in spans && s.start > length ==> Bridged(spans, s, length)
  {
    if Fits(spans, length) {
      forall s | s in spans && s.start > length ensures Bridged(spans, s, length) { FitsBridges(spans, s, length); }
    }
    if forall s :: s in spans && s.start > length ==> Bridged(spans, s, length) { BridgedFits(spans, length); }
  }

  /** A span that ends past the text does not panic, although it is out of bounds. */
  lemma EndPastText(text: seq<Byte>, s: Span)
    requires s.start <= |text| < s.end
    ensures Fits([s], |text|) && !InBounds([s], |text|) && Redact(text, [s]) == text[..s.start] + Mask()
  {
    OneSpan(s);
    assert s in [s];
    SpliceOne(text, s, Mask());
  }

  /** Nor does one that ends before it starts; it repeats the bytes between. */
  lemma InvertedSpanRepeats(text: seq<Byte>, s: Span)
    requires s.end < s.start <= |text|
    ensures Fits([s], |text|)
    ensures Redact(text, [s])
         == text[..s.end] + text[s.end..s.start] + Mask() + (text[s.end..s.start] + text[s.start..])
  {
    OneSpan(s);
    SpliceOne(text, s, Mask());
    assert text[..s.start] == text[..s.end] + text[s.end..s.start];
    assert text[s.end..] == text[s.end..s.start] + text[s.start..];
  }

  lemma OneSpan(s: Span)
    ensures Merged([s]) == [s]
  {
    SortedSpans([s]);
    SpanOrder();
    SortPermutes(SpanLe, [s]);
    SameElements(SortSpans([s]), [s]);
    assert SortSpans([s]) == [s];
    assert [s][..0] == [];
    assert Merge([s]) == Absorb([], s);
  }

  lemma SpliceOne(text: seq<Byte>, s: Span, mask: seq<Byte>)
    requires s.start <= |text|
    ensures Splice(text, [s], mask) == Output(text[..s.start] + mask, s.end)
  {
    assert [s][..0] == [];
    assert Splice(text, [], mask) == Output([], 0);
  }

  // ── The merged list is canonical ───────

  lemma LastIsTouched(m: seq<Span>)
    requires m != [] && Ordered(m)
    ensures 2 * EndOf(m) in Touched(m)
  {
    var n := |m| - 1;
    assert m[n] in m;
    InRange(2 * m[n].start, 2 * m[n].end + 1, 2 * m[n].end);
  }

  lemma SameEnds(a: seq<Span>, b: seq<Span>)
    requires Separated(a) && Ordered(a) && Separated(b) && Ordered(b) && a != [] && b != []
    requires Touched(a) == Touched(b)
    ensures EndOf(a) == EndOf(b)
  {
    LastIsTouched(a);
    LastIsTouched(b);
    TouchedBelow(b, 2 * EndOf(a));
    TouchedBelow(a, 2 * EndOf(b));
  }

  lemma GapBeforeLast(m: seq<Span>, i: nat)
    requires m != [] && Separated(m) && Ordered(m) && CellsTo(m[..|m| - 1]) <= i
    ensures i in Touched(m) <==> 2 * m[|m| - 1].start <= i <= 2 * m[|m| - 1].end
  {
    var n := |m| - 1;
    if i in Touched(m[..n]) { TouchedBelow(m[..n], i); }
    InRange(2 * m[n].start, 2 * m[n].end + 1, i);
  }

  lemma BeforeLastIsUntouched(m: seq<Span>)
    requires m != [] && Separated(m) && Ordered(m) && 0 < m[|m| - 1].start
    ensures 2 * m[|m| - 1].start - 1 !in Touched(m)
  {
    GapBeforeLast(m, 2 * m[|m| - 1].start - 1);
  }

  lemma LastTouches(m: seq<Span>, i: nat)
    requires m != [] && 2 * m[|m| - 1].start <= i <= 2 * m[|m| - 1].end
    ensures i in Touched(m)
  {
    InRange(2 * m[|m| - 1].start, 2 * m[|m| - 1].end + 1, i);
  }

  lemma LastStartsNoLater(a: seq<Span>, b: seq<Span>)
    requires Separated(a) && Ordered(a) && Separated(b) && Ordered(b) && a != [] && b != []
    requires Touched(a) == Touched(b)
    ensures a[|a| - 1].start <= b[|b| - 1].start
  {
    SameEnds(a, b);
    if b[|b| - 1].start < a[|a| - 1].start {
      // The byte before the last span of `a` is untouched in `a`, but inside the last of `b`.
      BeforeLastIsUntouched(a);
      LastTouches(b, 2 * a[|a| - 1].start - 1);
    }
  }

  lemma {:induction false} WithoutLast(part: Span -> set<nat>, m: seq<Span>)
    requires m != [] && Area(part, m[..|m| - 1]) !! part(m[|m| - 1])
    ensures Area(part, m[..|m| - 1]) == Area(part, m) - part(m[|m| - 1])
  {}

  lemma LastApart(m: seq<Span>)
    requires m != [] && Separated(m) && Ordered(m)
    ensures Touched(m[..|m| - 1]) !! Cells(m[|m| - 1])
  {
    var n := |m| - 1;
    forall i | i in Touched(m[..n]) ensures i !in Cells(m[n]) {
      TouchedBelow(m[..n], i);
      InRange(2 * m[n].start, 2 * m[n].end + 1, i);
    }
  }

  lemma {:induction false} SameLast(a: seq<Span>, b: seq<Span>)
    requires Separated(a) && Ordered(a) && Separated(b) && Ordered(b) && a != [] && b != []
    requires Touched(a) == Touched(b)
    ensures a[|a| - 1] == b[|b| - 1]
    ensures Touched(a[..|a| - 1]) == Touched(b[..|b| - 1])
  {
    SameEnds(a, b);
    LastStartsNoLater(a, b);
    LastStartsNoLater(b, a);
    LastApart(a);
    LastApart(b);
    WithoutLast(Cells, a);
    WithoutLast(Cells, b);
  }

  lemma SplitLast(a: seq<Span>)
    requires a != []
    ensures a == a[..|a| - 1] + [a[|a| - 1]]
  {}

  /** The merged form is determined by what is touched. */
  lemma {:induction false} SeparatedIsCanonical(a: seq<Span>, b: seq<Span>)
    requires Separated(a) && Ordered(a) && Separated(b) && Ordered(b)
    requires Touched(a) == Touched(b)
    ensures a == b
  {
    if a != [] { LastIsTouched(a); }
    if b != [] { LastIsTouched(b); }
    if a != [] && b != [] {
      SameLast(a, b);
      SeparatedIsCanonical(a[..|a| - 1], b[..|b| - 1]);
      SplitLast(a);
      SplitLast(b);
    }
  }

  /** Spans that touch the same merge to the same list, and conversely. */
  lemma MergedIsCanonical(a: seq<Span>, b: seq<Span>)
    requires Ordered(a) && Ordered(b)
    ensures Merged(a) == Merged(b) <==> Touched(a) == Touched(b)
  {
    MergedIsSeparated(a);
    MergedIsSeparated(b);
    if Touched(a) == Touched(b) { SeparatedIsCanonical(Merged(a), Merged(b)); }
  }

  lemma {:induction false} TouchOfByte(spans: seq<Span>, q: nat)
    ensures 2 * q + 1 in Touched(spans) <==> q in Covered(spans)
  {
    if spans != [] {
      var n := |spans| - 1;
      TouchOfByte(spans[..n], q);
      InRange(2 * spans[n].start, 2 * spans[n].end + 1, 2 * q + 1);
      InRange(spans[n].start, spans[n].end, q);
    }
  }

  lemma {:induction false} TouchOfPoint(spans: seq<Span>, q: nat)
    requires NonEmpty(spans)
    ensures 2 * q in Touched(spans) <==> q in Covered(spans) || (q > 0 && q - 1 in Covered(spans))
  {
    if spans != [] {
      var n := |spans| - 1;
      assert spans[n] in spans;
      TouchOfPoint(spans[..n], q);
      InRange(2 * spans[n].start, 2 * spans[n].end + 1, 2 * q);
      InRange(spans[n].start, spans[n].end, q);
      if q > 0 { InRange(spans[n].start, spans[n].end, q - 1); }
    }
  }

  /** For spans that are not empty, the bytes they cover say all. */
  lemma RedactDependsOnCover(text: seq<Byte>, a: seq<Span>, b: seq<Span>)
    requires (forall s :: s in a ==> s.start < s.end) && (forall s :: s in b ==> s.start < s.end)
    requires Covered(a) == Covered(b) && Fits(a, |text|)
    ensures Fits(b, |text|) && Redact(text, a) == Redact(text, b)
  {
    forall c: nat ensures c in Touched(a) <==> c in Touched(b) {
      if c % 2 == 1 {
        TouchOfByte(a, c / 2);
        TouchOfByte(b, c / 2);
      } else {
        TouchOfPoint(a, c / 2);
        TouchOfPoint(b, c / 2);
      }
    }
    MergedIsCanonical(a, b);
  }

  // ── Length ─────────────────────────────

  lemma {:induction false} CoveredBelow(m: seq<Span>, i: nat)
    requires Separated(m) && Ordered(m) && i in Covered(m)
    ensures i < EndOf(m)
  {
    TouchOfByte(m, i);
    TouchedBelow(m, 2 * i + 1);
  }

  lemma LastCountsApart(m: seq<Span>)
    requires m != [] && Separated(m) && Ordered(m)
    ensures |Covered(m)| == |Covered(m[..|m| - 1])| + (m[|m| - 1].end - m[|m| - 1].start)
  {
    var n := |m| - 1;
    assert m[n] in m;
    forall i | i in Covered(m[..n]) ensures i !in Bytes(m[n]) {
      CoveredBelow(m[..n], i);
      InRange(m[n].start, m[n].end, i);
    }
    CountRange(m[n].start, m[n].end);
    assert Covered(m[..n]) !! Bytes(m[n]);
  }

  lemma {:induction false} SpliceLength(text: seq<Byte>, m: seq<Span>, mask: seq<Byte>)
    requires Separated(m) && InBounds(m, |text|) && |mask| == 4
    ensures Splice(text, m, mask).pos == EndOf(m)
    ensures |Splice(text, m, mask).out| + |Covered(m)| == EndOf(m) + 4 * |m|
  {
    if m != [] {
      var n := |m| - 1;
      assert m[n] in m;
      SpliceLength(text, m[..n], mask);
      LastCountsApart(m);
    }
  }

  lemma ClipCovers(m: seq<Span>, length: nat)
    requires Separated(m) && Ordered(m) && StartWithin(m, length)
    ensures Covered(Clip(m, length)) == Covered(m) * Range(0, length)
  {
    var c := Clip(m, length);
    ClipInBounds(m, length);
    ClipTouches(m, length);
    forall q: nat ensures q in Covered(c) <==> q in Covered(m) * Range(0, length) {
      InRange(0, length, q);
      TouchOfByte(m, q);
      TouchOfByte(c, q);
      if q in Covered(c) {
        CoveredBelow(c, q);
        assert c[|c| - 1] in c;
      }
    }
  }

  /** The output is the text less its covered bytes plus four per merged run. */
  lemma RedactedLength(text: seq<Byte>, spans: seq<Span>)
    requires Ordered(spans) && Fits(spans, |text|)
    ensures |Redact(text, spans)| == |text| - |Covered(spans) * Range(0, |text|)| + 4 * |Merged(spans)|
  {
    var m := Merged(spans);
    MergedIsSeparated(spans);
    ClipInBounds(m, |text|);
    ClipSplices(text, m, Mask());
    SpliceLength(text, Clip(m, |text|), Mask());
    SpliceMeans(text, Clip(m, |text|), Mask());
    ClipCovers(m, |text|);
  }

  // ── The code ───────────────────────────

  lemma MergeNext(sorted: seq<Span>, k: nat)
    requires k < |sorted|
    ensures Merge(sorted[..k + 1]) == Absorb(Merge(sorted[..k]), sorted[k])
  {
    assert sorted[..k + 1][..k] == sorted[..k];
  }

  lemma LastReplaced(merged: seq<Span>, s: Span)
    requires merged != []
    ensures merged[|merged| - 1 := s] == merged[..|merged| - 1] + [s]
  {}

  method MergeInPlace(sorted: seq<Span>) returns (merged: seq<Span>)
    ensures merged == Merge(sorted)
  {
    merged := [];
    for k := 0 to |sorted|
      invariant merged == Merge(sorted[..k])
    {
      var s := sorted[k];
      MergeNext(sorted, k);
      var n := |merged|;
      if n > 0 && s.start <= merged[n - 1].end {
        LastReplaced(merged, Span(merged[n - 1].start, Max(merged[n - 1].end, s.end)));
        merged := merged[n - 1 := Span(merged[n - 1].start, Max(merged[n - 1].end, s.end))];
      } else {
        merged := merged + [s];
      }
    }
    assert sorted[..|sorted|] == sorted;
  }

  lemma SpliceStep(text: seq<Byte>, m: seq<Span>, k: nat, mask: seq<Byte>)
    requires k < |m| && StartWithin(m[..k], |text|) && StartWithin(m[..k + 1], |text|)
    ensures var before := Splice(text, m[..k], mask);
            Splice(text, m[..k + 1], mask)
            == Output(before.out + (if m[k].start > before.pos then text[before.pos..m[k].start] else []) + mask,
                      Max(before.pos, m[k].end))
  {
    assert m[..k + 1][..k] == m[..k];
  }

  /** What the loop has when it reaches span `k`. */
  ghost predicate SplicedTo(text: seq<Byte>, m: seq<Span>, k: nat, out: seq<Byte>, pos: nat, mask: seq<Byte>) {
    && k <= |m| && StartWithin(m[..k], |text|) && Output(out, pos) == Splice(text, m[..k], mask)
    && (if k == 0 then pos == 0 else forall j :: k <= j < |m| ==> pos < m[j].start)
  }

  lemma NextSpliced(text: seq<Byte>, m: seq<Span>, k: nat, out: seq<Byte>, pos: nat, mask: seq<Byte>)
    requires Separated(m) && SplicedTo(text, m, k, out, pos, mask) && k < |m| && m[k].start <= |text|
    ensures SplicedTo(text, m, k + 1, out + (if m[k].start > pos then text[pos..m[k].start] else []) + mask,
                      Max(pos, m[k].end), mask)
  {
    StartsStayWithin(m, k, |text|);
    SpliceStep(text, m, k, mask);
  }

  lemma StartsPastText(text: seq<Byte>, m: seq<Span>, k: nat, out: seq<Byte>, pos: nat, mask: seq<Byte>)
    requires SplicedTo(text, m, k, out, pos, mask) && k < |m|
    ensures m[k].start > |text| ==> m[k].start > pos && !StartWithin(m, |text|)
  {
    assert m[k] in m;
  }

  /** The splice panics, here `None`, exactly when some span starts past the text. */
  method SpliceAndCopy(text: seq<Byte>, merged: seq<Span>) returns (r: Option<seq<Byte>>)
    requires Separated(merged)
    ensures r.Some? <==> StartWithin(merged, |text|)
    ensures r.Some? ==> var o := Splice(text, merged, Mask()); r.value == o.out + Rest(text, o.pos)
  {
    var mask := Mask();
    var out: seq<Byte> := [];
    var pos: nat := 0;
    for k := 0 to |merged|
      invariant SplicedTo(text, merged, k, out, pos, mask)
    {
      var s := merged[k];
      StartsPastText(text, merged, k, out, pos, mask);
      ghost var before := out;
      if s.start > pos {
        if s.start > |text| {
          return None;
        }
        out := out + text[pos..s.start];
      }
      NextSpliced(text, merged, k, before, pos, mask);
      assert before + [] == before;
      out := out + mask;
      pos := Max(pos, s.end);
    }
    assert merged[..|merged|] == merged;
    if pos < |text| {
      out := out + text[pos..];
    } else {
      assert out + [] == out;
    }
    r := Some(out);
  }

  /** The text is masked run by run, or the code panics. */
  method ApplyRedactions(text: seq<Byte>, spans: seq<Span>) returns (r: Option<seq<Byte>>)
    ensures r.Some? <==> Fits(spans, |text|)
    ensures r.Some? ==> r.value == Redact(text, spans)
    ensures r.Some? && Ordered(spans) ==> r.value == Masked(text, Touched(spans), Mask())
  {
    var merged := MergeInPlace(SortSpans(spans));
    SortedSpans(spans);
    MergeSeparates(SortSpans(spans));
    r := SpliceAndCopy(text, merged);
    if r.Some? && Ordered(spans) { RedactMeans(text, spans); }
  }

  lemma StartsStayWithin(m: seq<Span>, k: nat, length: nat)
    requires k < |m| && StartWithin(m[..k], length) && m[k].start <= length
    ensures StartWithin(m[..k + 1], length)
  {
    assert m[..k + 1] == m[..k] + [m[k]];
  }

  // ── What `scan` hands over ─────────────

  /** `Vec::dedup`: drops each element equal to the one kept before it. */
  function Dedup(s: seq<Span>): seq<Span> {
    if |s| <= 1 then s
    else
      var shorter := Dedup(s[..|s| - 1]);
      if s[|s| - 1] == s[|s| - 2] then shorter else shorter + [s[|s| - 1]]
  }

  lemma {:induction false} DedupKeepsMembers(s: seq<Span>)
    ensures forall x :: x in Dedup(s) <==> x in s
  {
    if |s| > 1 {
      var n := |s| - 1;
      DedupKeepsMembers(s[..n]);
      assert s == s[..n] + [s[n]];
      assert s[n - 1] in s[..n];
    }
  }

  function RedactSpans(findings: seq<Span>): seq<Span> { Dedup(SortSpans(findings)) }

  /** Redacting with the report's sorted, deduplicated spans is redacting every finding. */
  lemma ReportedSpansSuffice(text: seq<Byte>, findings: seq<Span>)
    requires Ordered(findings) && Fits(findings, |text|)
    ensures Fits(RedactSpans(findings), |text|)
    ensures Redact(text, RedactSpans(findings)) == Redact(text, findings)
  {
    SortedSpans(findings);
    DedupKeepsMembers(SortSpans(findings));
    RedactIgnoresOrderAndRepeats(text, findings, RedactSpans(findings));
  }

  /** In bytes: what is masked reads `****`. */
  lemma MaskReads(text: seq<Byte>, s: Span)
    requires s.start <= s.end <= |text|
    ensures Fits([s], |text|)
    ensures Redact(text, [s]) == text[..s.start] + ['*' as Byte, '*' as Byte, '*' as Byte, '*' as Byte] + text[s.end..]
  {
    OneSpan(s);
    SpliceOne(text, s, Mask());
  }

  lemma {:induction false} DedupKeepsLast(s: seq<Span>)
    requires s != []
    ensures Dedup(s) != [] && Dedup(s)[|Dedup(s)| - 1] == s[|s| - 1]
  {
    if |s| > 1 {
      DedupKeepsLast(s[..|s| - 1]);
      assert s[..|s| - 1][|s| - 2] == s[|s| - 2];
    }
  }

  lemma {:induction false} DedupDiffers(s: seq<Span>)
    ensures forall i :: 0 <= i < |Dedup(s)| - 1 ==> Dedup(s)[i] != Dedup(s)[i + 1]
  {
    if |s| > 1 {
      DedupDiffers(s[..|s| - 1]);
      DedupKeepsLast(s[..|s| - 1]);
      assert s[..|s| - 1][|s| - 2] == s[|s| - 2];
    }
  }

  /** The reported spans have no two neighbours alike, and are all the findings' spans. */
  lemma ReportedSpansDiffer(findings: seq<Span>)
    ensures forall s :: s in RedactSpans(findings) <==> s in findings
    ensures var r := RedactSpans(findings); forall i :: 0 <= i < |r| - 1 ==> r[i] != r[i + 1]
  {
    SortedSpans(findings);
    DedupKeepsMembers(SortSpans(findings));
    DedupDiffers(SortSpans(findings));
  }
}
