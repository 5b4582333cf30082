/** The LRU query cache of `src/embedding/lazy.rs`. */
module QueryCache {
  import opened Wrappers
  import opened Sequences

  type Vector = seq<real>

  datatype Entry = Entry(key: string, value: Vector)

  // ── Ordered-map vocabulary ─────────────

  ghost predicate Keyed(es: seq<Entry>, key: string) {
    exists i :: 0 <= i < |es| && es[i].key == key
  }

  /** No key occurs twice. */
  ghost predicate DistinctKeys(es: seq<Entry>) {
    forall i, j :: 0 <= i < j < |es| ==> es[i].key != es[j].key
  }

  function IndexOf(es: seq<Entry>, key: string): (r: Option<nat>)
    ensures r.Some? ==> r.value < |es| && es[r.value].key == key
    ensures r.None? ==> !Keyed(es, key)
  {
    if es == [] then None
    else if es[0].key == key then Some(0)
    else
      var r := IndexOf(es[1..], key);
      assert forall i :: 1 <= i < |es| ==> es[i] == es[1..][i - 1];
      if r.None? then None else Some(r.value + 1)
  }

  function Lookup(es: seq<Entry>, key: string): (r: Option<Vector>)
    ensures r.Some? <==> Keyed(es, key)
  {
    if es == [] then None
    else if es[0].key == key then Some(es[0].value)
    else
      assert forall i :: 1 <= i < |es| ==> es[i] == es[1..][i - 1];
      assert Keyed(es[1..], key) ==> Keyed(es, key);
      Lookup(es[1..], key)
  }

  lemma {:induction false} LookupAt(es: seq<Entry>, i: nat)
    requires i < |es| && DistinctKeys(es)
    ensures Lookup(es, es[i].key) == Some(es[i].value)
  {
    if i != 0 {
      assert es[0].key != es[i].key && es[1..][i - 1] == es[i];
      LookupAt(es[1..], i - 1);
    }
  }

  function Without(es: seq<Entry>, key: string): (r: seq<Entry>) {
    if es == [] then []
    else if es[0].key == key then Without(es[1..], key)
    else [es[0]] + Without(es[1..], key)
  }

  lemma {:induction false} WithoutElements(es: seq<Entry>, key: string)
    ensures forall e :: e in Without(es, key) <==> e in es && e.key != key
    ensures !Keyed(Without(es, key), key)
  {
    if es != [] {
      WithoutElements(es[1..], key);
      assert es == [es[0]] + es[1..];
      var r := Without(es, key);
      forall e ensures e in r <==> e in es && e.key != key {}
      assert forall i :: 0 <= i < |r| ==> r[i] in r;
    }
  }

  // ── Operations and their traces ────────

  datatype CacheOp = Get(key: string) | Insert(key: string, value: Vector)

  /** The entries after one operation on a cache of the given capacity. */
  function After(capacity: nat, es: seq<Entry>, op: CacheOp): seq<Entry> {
    match op
    case Get(key) =>
      var hit := Lookup(es, key);
      if hit.Some? then Without(es, key) + [Entry(key, hit.value)] else es
    case Insert(key, value) =>
      if capacity == 0 then es
      else if Lookup(es, key).Some? then Without(es, key) + [Entry(key, value)]
      else if |es| >= capacity then es[1..] + [Entry(key, value)]
      else es + [Entry(key, value)]
  }

  function Run(capacity: nat, es: seq<Entry>, ops: seq<CacheOp>): seq<Entry>
    decreases |ops|
  {
    if ops == [] then es
    else After(capacity, Run(capacity, es, ops[..|ops| - 1]), ops[|ops| - 1])
  }

  /** An insertion-ordered map, least recently used entry first, kept as the sequence of its
      entries; `move_index(i, len - 1)` and `shift_remove_index(0)` are slicing operations on
      that sequence. */
  class EmbeddingCache {
    const capacity: nat
    var entries: seq<Entry>

    ghost predicate Valid()
      reads this
    {
      DistinctKeys(entries) && |entries| <= capacity
    }

    constructor (capacity: nat)
      ensures Valid() && this.capacity == capacity && entries == []
    {
      this.capacity := capacity;
      entries := [];
    }

    /** A hit moves the entry to the most-recently-used end. */
    method Get(key: string) returns (r: Option<Vector>)
      requires Valid()
      modifies this`entries
      ensures Valid()
      ensures r == Lookup(old(entries), key)
      ensures entries == After(capacity, old(entries), CacheOp.Get(key))
    {
      var idx := IndexOf(entries, key);
      if idx.Some? {
        var i := idx.value;
        MoveToEnd(entries, i);
        LookupAt(entries, i);
        AfterKeepsValid(capacity, entries, CacheOp.Get(key));
        entries := RemoveAt(entries, i) + [entries[i]];
        r := Some(entries[|entries| - 1].value);
      } else {
        r := None;
      }
    }

    /** Capacity 0 disables the cache; a full cache evicts its first entry. */
    method Insert(key: string, value: Vector)
      requires Valid()
      modifies this`entries
      ensures Valid()
      ensures entries == After(capacity, old(entries), CacheOp.Insert(key, value))
    {
      AfterKeepsValid(capacity, entries, CacheOp.Insert(key, value));
      if capacity == 0 {
        return;
      }
      var idx := IndexOf(entries, key);
      if idx.Some? {
        var i := idx.value;
        MoveToEnd(entries, i);
        entries := RemoveAt(entries, i) + [entries[i]];
        entries := entries[|entries| - 1 := Entry(key, value)];
      } else {
        if |entries| >= capacity {
          entries := entries[1..];
        }
        entries := entries + [Entry(key, value)];
      }
    }
  }

  lemma {:induction false} MoveToEnd(es: seq<Entry>, i: nat)
    requires DistinctKeys(es) && i < |es|
    ensures RemoveAt(es, i) == Without(es, es[i].key)
  {
    var tail := es[1..];
    if i == 0 {
      assert !Keyed(tail, es[0].key);
      WithoutAbsent(tail, es[0].key);
      assert RemoveAt(es, 0) == tail;
    } else {
      assert tail[i - 1] == es[i] && es[0].key != es[i].key;
      MoveToEnd(tail, i - 1);
      RemoveAtTail(es, i);
    }
  }

  lemma {:induction false} WithoutAbsent(es: seq<Entry>, key: string)
    requires !Keyed(es, key)
    ensures Without(es, key) == es
  {
    if es != [] {
      assert forall i :: 0 <= i < |es| - 1 ==> es[1..][i] == es[i + 1];
      WithoutAbsent(es[1..], key);
    }
  }

  lemma WithoutDistinct(es: seq<Entry>, key: string)
    requires DistinctKeys(es)
    ensures DistinctKeys(Without(es, key))
    ensures |Without(es, key)| == if Keyed(es, key) then |es| - 1 else |es|
  {
    if Keyed(es, key) {
      var i :| 0 <= i < |es| && es[i].key == key;
      MoveToEnd(es, i);
    } else {
      WithoutAbsent(es, key);
    }
  }

  lemma AfterKeepsValid(capacity: nat, es: seq<Entry>, op: CacheOp)
    requires DistinctKeys(es) && |es| <= capacity
    ensures DistinctKeys(After(capacity, es, op)) && |After(capacity, es, op)| <= capacity
  {
    if Keyed(es, op.key) {
      WithoutDistinct(es, op.key);
      WithoutElements(es, op.key);
    }
  }

  /** Every run keeps the keys distinct and the capacity respected. */
  lemma {:induction false} RunKeepsValid(capacity: nat, es: seq<Entry>, ops: seq<CacheOp>)
    requires DistinctKeys(es) && |es| <= capacity
    ensures DistinctKeys(Run(capacity, es, ops)) && |Run(capacity, es, ops)| <= capacity
    decreases |ops|
  {
    if ops != [] {
      RunKeepsValid(capacity, es, ops[..|ops| - 1]);
      AfterKeepsValid(capacity, Run(capacity, es, ops[..|ops| - 1]), ops[|ops| - 1]);
    }
  }

  // ── Inclusion: a larger cache holds everything a smaller one does ───

  ghost predicate Subsequence(s: seq<Entry>, l: seq<Entry>) {
    s == [] || (l != [] && ((s[0] == l[0] && Subsequence(s[1..], l[1..])) || Subsequence(s, l[1..])))
  }

  /** The run invariant: the caches agree, or the small one is full and a
      subsequence (same order, same values) of the large one. */
  ghost predicate Included(small: nat, s: seq<Entry>, l: seq<Entry>) {
    s == l || (|s| == small && Subsequence(s, l))
  }

  lemma {:induction false} SubsequenceRefl(s: seq<Entry>)
    ensures Subsequence(s, s)
  {
    if s != [] { SubsequenceRefl(s[1..]); }
  }

  lemma {:induction false} SubsequenceAppend(s: seq<Entry>, l: seq<Entry>, e: Entry)
    requires Subsequence(s, l)
    ensures Subsequence(s + [e], l + [e])
  {
    if l == [] {
      SubsequenceRefl([e]);
      assert s + [e] == [e] && l + [e] == [e];
    } else {
      assert (l + [e])[1..] == l[1..] + [e];
      if s != [] && s[0] == l[0] && Subsequence(s[1..], l[1..]) {
        SubsequenceAppend(s[1..], l[1..], e);
        assert (s + [e])[1..] == s[1..] + [e];
      } else {
        SubsequenceAppend(s, l[1..], e);
      }
    }
  }

  lemma {:induction false} SubsequenceElements(s: seq<Entry>, l: seq<Entry>, e: Entry)
    requires Subsequence(s, l) && e in s
    ensures e in l
  {
    if s[0] == l[0] && Subsequence(s[1..], l[1..]) {
      if e != s[0] { SubsequenceElements(s[1..], l[1..], e); }
    } else {
      SubsequenceElements(s, l[1..], e);
    }
  }

  lemma {:induction false} SubsequenceWithout(s: seq<Entry>, l: seq<Entry>, key: string)
    requires Subsequence(s, l)
    ensures Subsequence(Without(s, key), Without(l, key))
  {
    if s != [] {
      if s[0] == l[0] && Subsequence(s[1..], l[1..]) {
        SubsequenceWithout(s[1..], l[1..], key);
        if s[0].key != key {
          assert Without(s, key)[1..] == Without(s[1..], key);
          assert Without(l, key)[1..] == Without(l[1..], key);
        }
      } else {
        SubsequenceWithout(s, l[1..], key);
        assert l[0].key != key ==> Without(l, key)[1..] == Without(l[1..], key);
      }
    }
  }

  lemma {:induction false} SubsequenceDropSmall(s: seq<Entry>, l: seq<Entry>)
    requires s != [] && Subsequence(s, l)
    ensures Subsequence(s[1..], l)
    ensures Subsequence(s[1..], l[1..])
  {
    if s[0] == l[0] && Subsequence(s[1..], l[1..]) {
    } else {
      SubsequenceDropSmall(s, l[1..]);
    }
  }

  /** One step of both caches keeps the invariant: the crux is that when only the
      large cache hits, the small one is already full and evicts. */
  lemma IncludedStep(small: nat, large: nat, s: seq<Entry>, l: seq<Entry>, op: CacheOp)
    requires small <= large
    requires DistinctKeys(s) && |s| <= small && DistinctKeys(l) && |l| <= large
    requires Included(small, s, l)
    ensures Included(small, After(small, s, op), After(large, l, op))
  {
    var key := op.key;
    WithoutDistinct(s, key);
    WithoutDistinct(l, key);
    if s == l {
      SubsequenceRefl(s);
    }
    assert Subsequence(s, l);
    SubsequenceWithout(s, l, key);
    if Keyed(s, key) {
      var i :| 0 <= i < |s| && s[i].key == key;
      SubsequenceElements(s, l, s[i]);
      var j :| 0 <= j < |l| && l[j] == s[i];
      LookupAt(s, i);
      LookupAt(l, j);
    } else {
      WithoutAbsent(s, key);
    }
    if !Keyed(l, key) {
      WithoutAbsent(l, key);
    }
    match op
    case Get(_) =>
      if Keyed(s, key) {
        SubsequenceAppend(Without(s, key), Without(l, key), Entry(key, Lookup(l, key).value));
      } else if Keyed(l, key) {
        SubsequenceGrow(s, Without(l, key), Entry(key, Lookup(l, key).value));
      }
    case Insert(_, value) =>
      var e := Entry(key, value);
      if small == 0 {
        assert s == [];
      } else if Keyed(s, key) {
        SubsequenceAppend(Without(s, key), Without(l, key), e);
      } else {
        var kept := if Keyed(l, key) then Without(l, key) else if |l| >= large then l[1..] else l;
        if |s| == small {
          SubsequenceDropSmall(s, Without(l, key));
          SubsequenceAppend(s[1..], kept, e);
        }
      }
  }

  lemma {:induction false} SubsequenceGrow(s: seq<Entry>, l: seq<Entry>, e: Entry)
    requires Subsequence(s, l)
    ensures Subsequence(s, l + [e])
  {
    if s != [] {
      assert (l + [e])[1..] == l[1..] + [e];
      if s[0] == l[0] && Subsequence(s[1..], l[1..]) {
        SubsequenceGrow(s[1..], l[1..], e);
      } else {
        SubsequenceGrow(s, l[1..], e);
      }
    }
  }

  /** LRU is a stack algorithm: fed the same operations from empty, a cache is at every
      moment a subsequence of any larger one. */
  lemma {:induction false} InclusionOverRuns(small: nat, large: nat, ops: seq<CacheOp>)
    requires small <= large
    ensures Included(small, Run(small, [], ops), Run(large, [], ops))
    decreases |ops|
  {
    if ops != [] {
      var before := ops[..|ops| - 1];
      InclusionOverRuns(small, large, before);
      RunKeepsValid(small, [], before);
      RunKeepsValid(large, [], before);
      IncludedStep(small, large, Run(small, [], before), Run(large, [], before), ops[|ops| - 1]);
    }
  }

  /** Hence every hit of the small cache is a hit of the large one, with the same value. */
  lemma SmallHitIsLargeHit(small: nat, large: nat, ops: seq<CacheOp>, key: string)
    requires small <= large
    requires Lookup(Run(small, [], ops), key).Some?
    ensures Lookup(Run(large, [], ops), key) == Lookup(Run(small, [], ops), key)
  {
    var s, l := Run(small, [], ops), Run(large, [], ops);
    InclusionOverRuns(small, large, ops);
    RunKeepsValid(small, [], ops);
    RunKeepsValid(large, [], ops);
    var i :| 0 <= i < |s| && s[i].key == key;
    if s != l {
      SubsequenceElements(s, l, s[i]);
      var j :| 0 <= j < |l| && l[j] == s[i];
      LookupAt(s, i);
      LookupAt(l, j);
    }
  }

  // ── Recency: what the order and the values mean ───

  /** Position of the last operation that names the key, or -1. */
  ghost function LastUse(ops: seq<CacheOp>, key: string): (r: int)
    ensures -1 <= r < |ops|
  {
    if ops == [] then -1
    else if ops[|ops| - 1].key == key then |ops| - 1
    else LastUse(ops[..|ops| - 1], key)
  }

  /** The value most recently inserted for the key. */
  ghost function LastValue(ops: seq<CacheOp>, key: string): Option<Vector> {
    if ops == [] then None
    else
      var op := ops[|ops| - 1];
      if op.Insert? && op.key == key then Some(op.value) else LastValue(ops[..|ops| - 1], key)
  }

  ghost predicate OrderedByRecency(es: seq<Entry>, ops: seq<CacheOp>) {
    && (forall i, j :: 0 <= i < j < |es| ==> LastUse(ops, es[i].key) < LastUse(ops, es[j].key))
    && (forall i :: 0 <= i < |es| ==> LastValue(ops, es[i].key) == Some(es[i].value))
  }

  lemma {:induction false} WithoutOrdered(es: seq<Entry>, i: nat, ops: seq<CacheOp>)
    requires DistinctKeys(es) && i < |es| && OrderedByRecency(es, ops)
    ensures OrderedByRecency(Without(es, es[i].key), ops)
  {
    MoveToEnd(es, i);
  }

  lemma OrderedStep(es: seq<Entry>, ops: seq<CacheOp>, op: CacheOp, e: Entry)
    requires OrderedByRecency(es, ops) && !Keyed(es, op.key)
    requires e.key == op.key
    requires if op.Insert? then e.value == op.value else LastValue(ops, e.key) == Some(e.value)
    ensures OrderedByRecency(es + [e], ops + [op])
  {
    var next := ops + [op];
    assert next[..|next| - 1] == ops && next[|next| - 1] == op;
    assert LastUse(next, e.key) == |ops|;
  }

  lemma MissOrdered(es: seq<Entry>, ops: seq<CacheOp>, op: CacheOp)
    requires OrderedByRecency(es, ops) && !Keyed(es, op.key)
    ensures OrderedByRecency(es, ops + [op])
  {
    assert (ops + [op])[..|ops|] == ops;
  }

  lemma TouchOrdered(capacity: nat, es: seq<Entry>, ops: seq<CacheOp>, op: CacheOp)
    requires DistinctKeys(es) && |es| <= capacity && OrderedByRecency(es, ops) && Keyed(es, op.key)
    ensures OrderedByRecency(After(capacity, es, op), ops + [op])
  {
    var i :| 0 <= i < |es| && es[i].key == op.key;
    LookupAt(es, i);
    WithoutElements(es, op.key);
    WithoutOrdered(es, i, ops);
    OrderedStep(Without(es, op.key), ops, op, if op.Insert? then Entry(op.key, op.value) else es[i]);
  }

  lemma StepOrdered(capacity: nat, es: seq<Entry>, ops: seq<CacheOp>, op: CacheOp)
    requires DistinctKeys(es) && |es| <= capacity && OrderedByRecency(es, ops)
    ensures OrderedByRecency(After(capacity, es, op), ops + [op])
  {
    if Keyed(es, op.key) {
      TouchOrdered(capacity, es, ops, op);
    } else if op.Get? || capacity == 0 {
      MissOrdered(es, ops, op);
    } else if |es| >= capacity {
      assert OrderedByRecency(es[1..], ops);
      OrderedStep(es[1..], ops, op, Entry(op.key, op.value));
    } else {
      OrderedStep(es, ops, op, Entry(op.key, op.value));
    }
  }

  /** After any run the entries stand in order of last use, so the one evicted is the least
      recently used, and each holds the value last inserted under its key. */
  lemma {:induction false} RunOrderedByRecency(capacity: nat, ops: seq<CacheOp>)
    ensures OrderedByRecency(Run(capacity, [], ops), ops)
    decreases |ops|
  {
    if ops != [] {
      var before, op := ops[..|ops| - 1], ops[|ops| - 1];
      assert ops == before + [op];
      RunOrderedByRecency(capacity, before);
      RunKeepsValid(capacity, [], before);
      StepOrdered(capacity, Run(capacity, [], before), before, op);
    }
  }

  // ── Which keys are held ────────────────

  lemma {:induction false} WithoutConcat(a: seq<Entry>, b: seq<Entry>, key: string)
    ensures Without(a + b, key) == Without(a, key) + Without(b, key)
  {
    if a == [] {
      assert a + b == b;
    } else {
      assert (a + b)[1..] == a[1..] + b;
      WithoutConcat(a[1..], b, key);
    }
  }

  lemma LookupOf(es: seq<Entry>, e: Entry)
    requires DistinctKeys(es) && e in es
    ensures Lookup(es, e.key) == Some(e.value)
  {
    var i :| 0 <= i < |es| && es[i] == e;
    LookupAt(es, i);
  }

  /** A cache that is not disabled holds what was just inserted, at its recent end. */
  lemma InsertIsHeld(capacity: nat, es: seq<Entry>, key: string, value: Vector)
    requires capacity > 0 && DistinctKeys(es) && |es| <= capacity
    ensures var r := After(capacity, es, CacheOp.Insert(key, value));
            r != [] && r[|r| - 1] == Entry(key, value) && Lookup(r, key) == Some(value)
  {
    var r := After(capacity, es, CacheOp.Insert(key, value));
    AfterKeepsValid(capacity, es, CacheOp.Insert(key, value));
    assert r[|r| - 1] in r;
    LookupOf(r, Entry(key, value));
  }

  lemma SameLookup(a: seq<Entry>, b: seq<Entry>, key: string)
    requires DistinctKeys(a) && DistinctKeys(b) && forall e: Entry :: e.key == key ==> (e in a <==> e in b)
    ensures Lookup(a, key) == Lookup(b, key)
  {
    if Keyed(a, key) {
      var i :| 0 <= i < |a| && a[i].key == key;
      LookupOf(a, a[i]);
      LookupOf(b, a[i]);
    }
  }

  /** No operation changes what is held for another key, but for one: an insertion of a new key
      into a full cache, which evicts the least recent entry and nothing else. */
  lemma OtherKeysStay(capacity: nat, es: seq<Entry>, op: CacheOp, other: string)
    requires DistinctKeys(es) && |es| <= capacity && other != op.key
    ensures var evicts := op.Insert? && 0 < capacity == |es| && !Keyed(es, op.key);
            Lookup(After(capacity, es, op), other)
            == if evicts && es[0].key == other then None else Lookup(es, other)
  {
    var r := After(capacity, es, op);
    AfterKeepsValid(capacity, es, op);
    if Keyed(es, op.key) {
      WithoutElements(es, op.key);
      SameLookup(r, es, other);
    } else if r != es {
      if |es| >= capacity {
        EvictedKey(es, r[|r| - 1], other);
      } else {
        SameLookup(r, es, other);
      }
    }
  }

  lemma EvictedKey(es: seq<Entry>, last: Entry, other: string)
    requires es != [] && DistinctKeys(es) && DistinctKeys(es[1..] + [last]) && last.key != other
    ensures Lookup(es[1..] + [last], other) == if es[0].key == other then None else Lookup(es, other)
  {
    var r := es[1..] + [last];
    assert es == [es[0]] + es[1..];
    if es[0].key == other {
      forall i | 0 <= i < |r| ensures r[i].key != other { assert i < |es| - 1 ==> r[i] == es[i + 1]; }
    } else {
      SameLookup(r, es, other);
    }
  }

  ghost function Keys(es: seq<Entry>): set<string> { set i | 0 <= i < |es| :: es[i].key }

  /** The keys that a run uses: inserts, or finds. */
  ghost function Used(capacity: nat, es: seq<Entry>, ops: seq<CacheOp>): set<string>
    decreases |ops|
  {
    if ops == [] then {}
    else
      var before, op := ops[..|ops| - 1], ops[|ops| - 1];
      Used(capacity, es, before) + NewlyUsed(Run(capacity, es, before), op)
  }

  ghost function NewlyUsed(es: seq<Entry>, op: CacheOp): set<string> {
    if op.Insert? || Keyed(es, op.key) then {op.key} else {}
  }

  /** The entry is held, and behind it exactly these keys. */
  ghost predicate Behind(es: seq<Entry>, e: Entry, used: set<string>) {
    exists i :: 0 <= i < |es| && es[i] == e && Keys(es[i + 1..]) == used
  }

  lemma SplitAt(es: seq<Entry>, e: Entry, used: set<string>) returns (a: seq<Entry>, b: seq<Entry>)
    requires Behind(es, e, used)
    ensures es == a + ([e] + b) && Keys(b) == used
  {
    var i :| 0 <= i < |es| && es[i] == e && Keys(es[i + 1..]) == used;
    a, b := es[..i], es[i + 1..];
  }

  lemma BehindSplit(a: seq<Entry>, e: Entry, b: seq<Entry>)
    ensures Behind(a + ([e] + b), e, Keys(b))
  {
    var es := a + ([e] + b);
    assert es[|a|] == e && es[|a| + 1..] == b;
  }

  lemma KeysAppend(b: seq<Entry>, x: Entry)
    ensures Keys(b + [x]) == Keys(b) + {x.key}
  {
    var r := b + [x];
    forall k ensures k in Keys(r) <==> k in Keys(b) + {x.key} {
      if k in Keys(b) {
        var i :| 0 <= i < |b| && b[i].key == k;
        assert r[i].key == k;
      }
      assert r[|b|].key == x.key;
    }
  }

  lemma {:induction false} KeysCount(es: seq<Entry>)
    requires DistinctKeys(es)
    ensures |Keys(es)| == |es|
  {
    if es != [] {
      var n := |es| - 1;
      KeysCount(es[..n]);
      KeysAppend(es[..n], es[n]);
      assert es == es[..n] + [es[n]];
    }
  }

  lemma KeysWithout(b: seq<Entry>, key: string)
    ensures Keys(Without(b, key)) == Keys(b) - {key}
  {
    WithoutElements(b, key);
    var r := Without(b, key);
    forall k ensures k in Keys(r) <==> k in Keys(b) - {key} {
      if i :| 0 <= i < |b| && b[i].key == k && k != key { assert b[i] in r; }
      if i :| 0 <= i < |r| && r[i].key == k { assert r[i] in r && r[i] in b; }
    }
  }

  /** The key of `op` moves, or comes, behind `e`. */
  lemma TouchBehind(a: seq<Entry>, e: Entry, b: seq<Entry>, x: Entry)
    requires e.key != x.key
    ensures Without(a + ([e] + b), x.key) + [x] == Without(a, x.key) + ([e] + (Without(b, x.key) + [x]))
    ensures Behind(Without(a + ([e] + b), x.key) + [x], e, Keys(b) + {x.key})
  {
    WithoutConcat(a, [e] + b, x.key);
    WithoutConcat([e], b, x.key);
    assert Without([e], x.key) == [e] + Without([], x.key) == [e];
    KeysWithout(b, x.key);
    KeysAppend(Without(b, x.key), x);
    BehindSplit(Without(a, x.key), e, Without(b, x.key) + [x]);
  }

  lemma EvictBehind(a: seq<Entry>, e: Entry, b: seq<Entry>, x: Entry)
    requires a != []
    ensures Behind((a + ([e] + b))[1..] + [x], e, Keys(b) + {x.key})
  {
    assert (a + ([e] + b))[1..] + [x] == a[1..] + ([e] + (b + [x]));
    KeysAppend(b, x);
    BehindSplit(a[1..], e, b + [x]);
  }

  lemma AppendBehind(a: seq<Entry>, e: Entry, b: seq<Entry>, x: Entry)
    ensures Behind((a + ([e] + b)) + [x], e, Keys(b) + {x.key})
  {
    assert (a + ([e] + b)) + [x] == a + ([e] + (b + [x]));
    KeysAppend(b, x);
    BehindSplit(a, e, b + [x]);
  }

  lemma BehindCount(es: seq<Entry>, e: Entry, used: set<string>)
    requires DistinctKeys(es) && Behind(es, e, used)
    ensures |used| < |es|
  {
    var i :| 0 <= i < |es| && es[i] == e && Keys(es[i + 1..]) == used;
    KeysCount(es[i + 1..]);
  }

  lemma FirstGoes(es: seq<Entry>, e: Entry, used: set<string>, x: Entry)
    requires es != [] && es[0] == e && DistinctKeys(es) && Behind(es, e, used) && !Keyed(es, x.key)
    ensures |used + {x.key}| == |es| && !Keyed(es[1..] + [x], e.key)
  {
    assert es == [e] + es[1..];
    var i :| 0 <= i < |es| && es[i] == e && Keys(es[i + 1..]) == used;
    KeysCount(es[1..]);
    assert x.key !in used;
    forall j | 0 <= j < |es| ensures (es[1..] + [x])[j].key != e.key {
      assert es[0].key == e.key;
      assert j < |es| - 1 ==> (es[1..] + [x])[j] == es[j + 1];
    }
  }

  lemma InsertBehind(capacity: nat, es: seq<Entry>, e: Entry, used: set<string>, x: Entry)
    requires DistinctKeys(es) && |es| <= capacity && Behind(es, e, used) && !Keyed(es, x.key) && x.key != e.key
    ensures var r, used' := After(capacity, es, CacheOp.Insert(x.key, x.value)), used + {x.key};
            if |es| == capacity && es[0] == e then |used'| >= capacity && !Keyed(r, e.key) else Behind(r, e, used')
  {
    if |es| == capacity && es[0] == e {
      FirstGoes(es, e, used, x);
    } else {
      var a, b := SplitAt(es, e, used);
      if |es| == capacity {
        assert a != [];
        EvictBehind(a, e, b, x);
      } else {
        AppendBehind(a, e, b, x);
      }
    }
  }

  ghost predicate HeldOrGone(capacity: nat, es: seq<Entry>, e: Entry, used: set<string>) {
    if |used| < capacity then Behind(es, e, used) else !Keyed(es, e.key)
  }

  lemma HeldStep(capacity: nat, es: seq<Entry>, e: Entry, used: set<string>, op: CacheOp)
    requires DistinctKeys(es) && |es| <= capacity && HeldOrGone(capacity, es, e, used) && op.key != e.key
    ensures HeldOrGone(capacity, After(capacity, es, op), e, used + NewlyUsed(es, op))
  {
    var r, used' := After(capacity, es, op), used + NewlyUsed(es, op);
    AfterKeepsValid(capacity, es, op);
    if |used| >= capacity {
      GoneStays(capacity, es, e, op);
      UnionGrows(used, NewlyUsed(es, op));
    } else {
      if Keyed(es, op.key) {
        var a, b := SplitAt(es, e, used);
        TouchBehind(a, e, b, r[|r| - 1]);
      } else if op.Get? {
        assert used' == used;
      } else {
        InsertBehind(capacity, es, e, used, Entry(op.key, op.value));
      }
      if Behind(r, e, used') { BehindCount(r, e, used'); }
    }
  }

  lemma UnionGrows(a: set<string>, b: set<string>)
    ensures |a + b| >= |a|
  {
    assert a + b == a + (b - a);
  }

  lemma GoneStays(capacity: nat, es: seq<Entry>, e: Entry, op: CacheOp)
    requires DistinctKeys(es) && |es| <= capacity && !Keyed(es, e.key) && op.key != e.key
    ensures !Keyed(After(capacity, es, op), e.key)
  {
    OtherKeysStay(capacity, es, op, e.key);
  }

  lemma {:induction false} HeldRun(capacity: nat, es: seq<Entry>, e: Entry, ops: seq<CacheOp>)
    requires DistinctKeys(es) && 0 < |es| <= capacity && es[|es| - 1] == e
    requires forall op :: op in ops ==> op.key != e.key
    ensures HeldOrGone(capacity, Run(capacity, es, ops), e, Used(capacity, es, ops))
    decreases |ops|
  {
    if ops == [] {
      assert es[|es| - 1 + 1..] == [];
    } else {
      var before, op := ops[..|ops| - 1], ops[|ops| - 1];
      assert op in ops;
      HeldRun(capacity, es, e, before);
      RunKeepsValid(capacity, es, before);
      HeldStep(capacity, Run(capacity, es, before), e, Used(capacity, es, before), op);
    }
  }

  /** The replacement policy, exactly: an entry just used is held, with its value, as long as
      fewer other keys than the capacity have been used since, and no longer. */
  lemma HeldIff(capacity: nat, es: seq<Entry>, e: Entry, ops: seq<CacheOp>)
    requires DistinctKeys(es) && 0 < |es| <= capacity && es[|es| - 1] == e
    requires forall op :: op in ops ==> op.key != e.key
    ensures Lookup(Run(capacity, es, ops), e.key)
         == if |Used(capacity, es, ops)| < capacity then Some(e.value) else None
  {
    HeldRun(capacity, es, e, ops);
    RunKeepsValid(capacity, es, ops);
    if |Used(capacity, es, ops)| < capacity { LookupOf(Run(capacity, es, ops), e); }
  }

  /** In every run from an empty cache, for a key that was inserted and not named again. */
  lemma InsertedIsHeldIff(capacity: nat, before: seq<CacheOp>, key: string, value: Vector, ops: seq<CacheOp>)
    requires capacity > 0 && forall op :: op in ops ==> op.key != key
    ensures var es := Run(capacity, [], before + [CacheOp.Insert(key, value)]);
            Lookup(Run(capacity, es, ops), key) == if |Used(capacity, es, ops)| < capacity then Some(value) else None
  {
    var all := before + [CacheOp.Insert(key, value)];
    assert all[..|all| - 1] == before;
    RunKeepsValid(capacity, [], before);
    RunKeepsValid(capacity, [], all);
    InsertIsHeld(capacity, Run(capacity, [], before), key, value);
    HeldIff(capacity, Run(capacity, [], all), Entry(key, value), ops);
  }
}
