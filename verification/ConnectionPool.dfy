/** The bounded connection pool (`src/graph/async_pool.rs`): a semaphore and an idle list,
    as steps of many calls over one shared state. */
module ConnectionPool {
  import opened Wrappers
  import opened Sorting

  type Conn = nat
  type CallId = nat

  /** Where a call of `with_conn` stands; from `Ready` to `Using` its blocking task runs. */
  datatype Phase =
    | Waiting             // for a permit
    | Ready               // the blocking task is spawned and has not taken a connection
    | Opening             // it found the idle list empty and opens a connection
    | Using(conn: Conn)   // the closure runs
    | Finished            // the closure is over, the permit not yet released
    | Done

  datatype Call = Call(phase: Phase, permit: bool)

  /** `cancelled` counts the futures dropped while their blocking task went on without them. */
  datatype State = State(idle: seq<Conn>, permits: nat, calls: map<CallId, Call>, nextConn: nat, cancelled: nat)

  datatype Step =
    | Start(c: CallId)
    | Acquire(c: CallId)
    | Take(c: CallId)
    | Open(c: CallId, ok: bool)
    | Run(c: CallId, panics: bool)
    | Release(c: CallId)
    | Cancel(c: CallId)

  function Permits(maxConns: nat): nat { if maxConns < 1 then 1 else maxConns }

  function Init(maxConns: nat): State { State([0], Permits(maxConns), map[], 1, 0) }

  predicate InPhase(s: State, c: CallId, p: Phase) { c in s.calls && s.calls[c].phase == p }

  /** The blocking task of a call is running or queued. */
  predicate InFlight(p: Phase) { p.Ready? || p.Opening? || p.Using? }

  predicate Enabled(s: State, step: Step) {
    var c := step.c;
    match step
    case Start(_) => c !in s.calls
    case Acquire(_) => InPhase(s, c, Waiting) && s.permits > 0
    case Take(_) => InPhase(s, c, Ready)
    case Open(_, _) => InPhase(s, c, Opening)
    case Run(_, _) => c in s.calls && s.calls[c].phase.Using?
    case Release(_) => InPhase(s, c, Finished)
    case Cancel(_) => c in s.calls && (s.calls[c].phase.Waiting? || (InFlight(s.calls[c].phase) && s.calls[c].permit))
  }

  function Put(s: State, c: CallId, call: Call): State { s.(calls := s.calls[c := call]) }

  function Next(s: State, step: Step): State
    requires Enabled(s, step)
  {
    var c := step.c;
    match step
    case Start(_) => Put(s, c, Call(Waiting, false))
    case Acquire(_) => Put(s, c, Call(Ready, true)).(permits := s.permits - 1)
    case Take(_) =>
      var n := |s.idle|;
      if n > 0 then Put(s, c, Call(Using(s.idle[n - 1]), s.calls[c].permit)).(idle := s.idle[..n - 1])
      else Put(s, c, Call(Opening, s.calls[c].permit))
    case Open(_, ok) =>
      if ok then Put(s, c, Call(Using(s.nextConn), s.calls[c].permit)).(nextConn := s.nextConn + 1)
      else Put(s, c, Call(Finished, s.calls[c].permit))
    case Run(_, panics) =>
      var conn := s.calls[c].phase.conn;
      Put(s, c, Call(Finished, s.calls[c].permit)).(idle := if panics then s.idle else s.idle + [conn])
    case Release(_) =>
      Put(s, c, Call(Done, false)).(permits := s.permits + if s.calls[c].permit then 1 else 0)
    case Cancel(_) =>
      if s.calls[c].phase.Waiting? then Put(s, c, Call(Done, false))
      else Put(s, c, Call(s.calls[c].phase, false)).(permits := s.permits + 1, cancelled := s.cancelled + 1)
  }

  /** The state after a run, if every step of it was enabled. */
  function After(s: State, steps: seq<Step>): Option<State> {
    if steps == [] then Some(s)
    else
      var n := |steps| - 1;
      match After(s, steps[..n])
      case Some(t) => if Enabled(t, steps[n]) then Some(Next(t, steps[n])) else None
      case None => None
  }

  // ── Counting calls ─────────────────────

  /** Calls that hold a permit. */
  function Holders(calls: map<CallId, Call>): set<CallId> { set c | c in calls && calls[c].permit }

  predicate Busy(p: Phase) { p.Opening? || p.Using? }

  /** Calls with a connection open or being opened. */
  function Busies(calls: map<CallId, Call>): set<CallId> { set c | c in calls && Busy(calls[c].phase) }

  /** Blocking tasks that go on without a permit. */
  function Orphans(calls: map<CallId, Call>): set<CallId> {
    set c | c in calls && InFlight(calls[c].phase) && !calls[c].permit
  }

  function Connections(s: State): nat { |s.idle| + |Busies(s.calls)| }

  function Flip(s: set<CallId>, c: CallId, member: bool): set<CallId> { if member then s + {c} else s - {c} }

  lemma PutCounts(calls: map<CallId, Call>, c: CallId, x: Call)
    ensures Holders(calls[c := x]) == Flip(Holders(calls), c, x.permit)
    ensures Busies(calls[c := x]) == Flip(Busies(calls), c, Busy(x.phase))
    ensures Orphans(calls[c := x]) == Flip(Orphans(calls), c, InFlight(x.phase) && !x.permit)
  {}

  function One(b: bool): nat { if b then 1 else 0 }

  // ── Invariants ─────────────────────────

  ghost predicate PermitsAccounted(s: State, total: nat) { s.permits + |Holders(s.calls)| == total }

  ghost predicate OrphansCounted(s: State) { |Orphans(s.calls)| <= s.cancelled }

  ghost predicate Bounded(s: State, total: nat) { Connections(s) <= total + s.cancelled }

  /** A permit is held from its acquisition to the release at the end. */
  ghost predicate PhasesHold(s: State) {
    forall c :: c in s.calls ==> (s.calls[c].permit ==> InFlight(s.calls[c].phase) || s.calls[c].phase.Finished?)
  }

  ghost predicate Inv(s: State, total: nat) {
    total >= 1 && PermitsAccounted(s, total) && OrphansCounted(s) && Bounded(s, total) && PhasesHold(s)
  }

  lemma BusyAreHoldersOrOrphans(s: State)
    ensures |Busies(s.calls)| <= |Holders(s.calls)| + |Orphans(s.calls)|
  {
    var all := Holders(s.calls) + Orphans(s.calls);
    assert Busies(s.calls) <= all;
    assert all == Busies(s.calls) + (all - Busies(s.calls));
    assert |all| <= |Holders(s.calls)| + |Orphans(s.calls)|;
  }

  /** What one update of one call does to the three counts. */
  lemma PutSizes(calls: map<CallId, Call>, c: CallId, x: Call)
    ensures |Holders(calls[c := x])| == |Holders(calls)| - One(c in Holders(calls)) + One(x.permit)
    ensures |Busies(calls[c := x])| == |Busies(calls)| - One(c in Busies(calls)) + One(Busy(x.phase))
    ensures |Orphans(calls[c := x])|
         == |Orphans(calls)| - One(c in Orphans(calls)) + One(InFlight(x.phase) && !x.permit)
  {
    PutCounts(calls, c, x);
  }

  lemma NextKeepsInv(s: State, step: Step, total: nat)
    requires Inv(s, total) && Enabled(s, step)
    ensures Inv(Next(s, step), total)
  {
    var c, t := step.c, Next(s, step);
    PutSizes(s.calls, c, t.calls[c]);
    if step.Take? && s.idle == [] {
      BusyAreHoldersOrOrphans(t);
    }
  }

  // ── Every run ──────────────────────────

  lemma {:induction false} RunKeepsInv(maxConns: nat, steps: seq<Step>)
    requires After(Init(maxConns), steps).Some?
    ensures Inv(After(Init(maxConns), steps).value, Permits(maxConns))
  {
    if steps == [] {
      assert Holders(map[]) == {} && Busies(map[]) == {} && Orphans(map[]) == {};
    } else {
      var n := |steps| - 1;
      RunKeepsInv(maxConns, steps[..n]);
      NextKeepsInv(After(Init(maxConns), steps[..n]).value, steps[n], Permits(maxConns));
    }
  }

  /** The step drops a future whose blocking task goes on. */
  predicate DropsInFlight(s: State, step: Step) {
    step.Cancel? && step.c in s.calls && InFlight(s.calls[step.c].phase)
  }

  /** Futures dropped in flight during a run. */
  function Drops(s: State, steps: seq<Step>): nat {
    if steps == [] then 0
    else
      var n := |steps| - 1;
      Drops(s, steps[..n]) + match After(s, steps[..n]) case Some(t) => One(DropsInFlight(t, steps[n])) case None => 0
  }

  lemma {:induction false} CancelledAreDrops(s: State, steps: seq<Step>)
    requires After(s, steps).Some?
    ensures After(s, steps).value.cancelled == s.cancelled + Drops(s, steps)
  {
    if steps != [] { CancelledAreDrops(s, steps[..|steps| - 1]); }
  }

  /** Idle, in-use and being-opened connections together never exceed the permits plus the
      futures dropped in flight, whatever opens fail and whatever closures panic; a future
      dropped while it waits for a permit costs nothing. */
  lemma PoolBound(maxConns: nat, steps: seq<Step>)
    requires After(Init(maxConns), steps).Some?
    ensures Connections(After(Init(maxConns), steps).value) 
         <= (if maxConns >= 1 then maxConns else 1) + Drops(Init(maxConns), steps)
  {
    RunKeepsInv(maxConns, steps);
    CancelledAreDrops(Init(maxConns), steps);
  }

  /** No permit is lost: when every call is done, all are back. */
  lemma PermitsComeBack(maxConns: nat, steps: seq<Step>)
    requires After(Init(maxConns), steps).Some?
    requires forall c :: c in After(Init(maxConns), steps).value.calls ==>
      After(Init(maxConns), steps).value.calls[c].phase.Done?
    ensures After(Init(maxConns), steps).value.permits == if maxConns >= 1 then maxConns else 1
  {
    var s := After(Init(maxConns), steps).value;
    RunKeepsInv(maxConns, steps);
    assert Holders(s.calls) == {};
  }

  // ── Progress ───────────────────────────

  /** What a call does next when nobody cancels it. */
  function Own(c: CallId, p: Phase): Option<Step> {
    match p
    case Waiting => Some(Acquire(c))
    case Ready => Some(Take(c))
    case Opening => Some(Open(c, true))
    case Using(_) => Some(Run(c, false))
    case Finished => Some(Release(c))
    case Done => None
  }

  /** While a call is unfinished some call can take its own next step: nobody waits for a
      permit that no one is going to release. */
  lemma NoDeadlock(maxConns: nat, steps: seq<Step>, c: CallId) returns (d: CallId)
    requires After(Init(maxConns), steps).Some?
    requires c in After(Init(maxConns), steps).value.calls
    requires !After(Init(maxConns), steps).value.calls[c].phase.Done?
    ensures var s := After(Init(maxConns), steps).value;
            d in s.calls && Own(d, s.calls[d].phase).Some? && Enabled(s, Own(d, s.calls[d].phase).value)
  {
    var s := After(Init(maxConns), steps).value;
    RunKeepsInv(maxConns, steps);
    d := c;
    if s.calls[c].phase.Waiting? && s.permits == 0 {
      assert |Holders(s.calls)| > 0;
      d :| d in Holders(s.calls);
    }
  }

  // ── Ownership ──────────────────────────

  ghost predicate IdleOwned(s: State) {
    Distinct(s.idle) && forall k :: k in s.idle ==> k < s.nextConn
  }

  ghost predicate UsedOwned(s: State, c: CallId) {
    c in s.calls && s.calls[c].phase.Using? ==>
      s.calls[c].phase.conn !in s.idle && s.calls[c].phase.conn < s.nextConn
  }

  ghost predicate Exclusive(s: State, c: CallId, d: CallId) {
    c in s.calls && d in s.calls && c != d && s.calls[c].phase.Using? && s.calls[d].phase.Using? ==>
      s.calls[c].phase.conn != s.calls[d].phase.conn
  }

  /** A connection is idle once or used by one call. */
  ghost predicate Owned(s: State) {
    && IdleOwned(s)
    && (forall c :: UsedOwned(s, c))
    && (forall c, d :: Exclusive(s, c, d))
  }

  lemma NextIdleOwned(s: State, step: Step)
    requires Owned(s) && Enabled(s, step)
    ensures IdleOwned(Next(s, step))
  {
    assert UsedOwned(s, step.c);
    forall k | k in Next(s, step).idle ensures k < Next(s, step).nextConn {
      assert k in s.idle || UsedOwned(s, step.c);
    }
    var t := Next(s, step).idle;
    assert t == s.idle || (s.idle != [] && t == s.idle[..|s.idle| - 1]) || t == s.idle + [s.calls[step.c].phase.conn];
  }

  lemma NextUsedOwned(s: State, step: Step, c: CallId)
    requires Owned(s) && Enabled(s, step)
    ensures UsedOwned(Next(s, step), c)
  {
    assert UsedOwned(s, c) && UsedOwned(s, step.c) && Exclusive(s, c, step.c);
    var n := |s.idle|;
    assert step.Take? && n > 0 ==> s.idle[n - 1] in s.idle && s.idle[n - 1] !in s.idle[..n - 1];
  }

  lemma NextExclusive(s: State, step: Step, c: CallId, d: CallId)
    requires Owned(s) && Enabled(s, step)
    ensures Exclusive(Next(s, step), c, d)
  {
    assert UsedOwned(s, c) && UsedOwned(s, d) && Exclusive(s, c, d);
    var n := |s.idle|;
    assert step.Take? && n > 0 ==> s.idle[n - 1] in s.idle;
  }

  lemma NextKeepsOwned(s: State, step: Step)
    requires Owned(s) && Enabled(s, step)
    ensures Owned(Next(s, step))
  {
    NextIdleOwned(s, step);
    forall c ensures UsedOwned(Next(s, step), c) { NextUsedOwned(s, step, c); }
    forall c, d ensures Exclusive(Next(s, step), c, d) { NextExclusive(s, step, c, d); }
  }

  /** In every run, cancelled calls included, no connection is shared. */
  lemma {:induction false} ConnectionsAreExclusive(maxConns: nat, steps: seq<Step>)
    requires After(Init(maxConns), steps).Some?
    ensures Owned(After(Init(maxConns), steps).value)
  {
    if steps != [] {
      var n := |steps| - 1;
      ConnectionsAreExclusive(maxConns, steps[..n]);
      NextKeepsOwned(After(Init(maxConns), steps[..n]).value, steps[n]);
    }
  }

  // ── The bound is exact ─────────────────

  /** `k` calls are in flight, each using a connection, and nothing is idle; the newest calls
      hold the permits, the others were cancelled. */
  ghost predicate Full(s: State, total: nat, k: nat) {
    && k > 0 && s.idle == []
    && s.permits == (if k < total then total - k else 0)
    && s.cancelled == (if k < total then 0 else k - total)
    && Connections(s) == k
    && (forall c: CallId :: c in s.calls <==> c < k)
    && s.calls[k - 1].phase.Using? && s.calls[k - 1].permit
  }

  /** A call gets a permit, finds nothing idle and opens a connection. */
  function Admitted(s: State, c: CallId): State
    requires s.permits > 0
  {
    Put(s, c, Call(Using(s.nextConn), true)).(permits := s.permits - 1, nextConn := s.nextConn + 1)
  }

  function Permitted(s: State, c: CallId): State
    requires s.permits > 0
  {
    Put(s, c, Call(Ready, true)).(permits := s.permits - 1)
  }

  lemma Then(s: State, steps: seq<Step>, t: State, step: Step) returns (more: seq<Step>)
    requires After(s, steps) == Some(t) && Enabled(t, step)
    ensures After(s, more) == Some(Next(t, step))
  {
    more := steps + [step];
    assert more[..|steps|] == steps;
  }

  lemma PutTwice(calls: map<CallId, Call>, c: CallId, x: Call, y: Call)
    ensures calls[c := x][c := y] == calls[c := y]
  {}

  lemma GetPermit(s: State, steps: seq<Step>, t: State, c: CallId) returns (more: seq<Step>)
    requires After(s, steps) == Some(t) && t.permits > 0 && c !in t.calls
    ensures After(s, more) == Some(Permitted(t, c))
  {
    more := Then(s, steps, t, Start(c));
    more := Then(s, more, Put(t, c, Call(Waiting, false)), Acquire(c));
    PutTwice(t.calls, c, Call(Waiting, false), Call(Ready, true));
  }

  function Opened(s: State, c: CallId): State
    requires s.permits > 0
  {
    Put(s, c, Call(Opening, true)).(permits := s.permits - 1)
  }

  lemma TakeNone(s: State, c: CallId)
    requires s.permits > 0 && s.idle == []
    ensures Enabled(Permitted(s, c), Take(c)) && Next(Permitted(s, c), Take(c)) == Opened(s, c)
  {
    PutTwice(s.calls, c, Call(Ready, true), Call(Opening, true));
  }

  lemma OpenNew(s: State, c: CallId)
    requires s.permits > 0
    ensures Enabled(Opened(s, c), Open(c, true)) && Next(Opened(s, c), Open(c, true)) == Admitted(s, c)
  {
    PutTwice(s.calls, c, Call(Opening, true), Call(Using(s.nextConn), true));
  }

  lemma Admit(s: State, steps: seq<Step>, t: State, c: CallId) returns (more: seq<Step>)
    requires After(s, steps) == Some(t) && t.permits > 0 && t.idle == [] && c !in t.calls
    ensures After(s, more) == Some(Admitted(t, c))
  {
    more := GetPermit(s, steps, t, c);
    TakeNone(t, c);
    more := Then(s, more, Permitted(t, c), Take(c));
    OpenNew(t, c);
    more := Then(s, more, Opened(t, c), Open(c, true));
  }

  lemma AdmittedIsFull(s: State, total: nat, k: nat)
    requires s.permits > 0 && s.idle == [] && (forall c: CallId :: c in s.calls <==> c < k)
    requires Connections(s) == k && s.cancelled == (if k < total then 0 else k + 1 - total)
    requires s.permits == (if k < total then total - k else 1)
    ensures Full(Admitted(s, k), total, k + 1)
  {
    var x := Call(Using(s.nextConn), true);
    PutCounts(s.calls, k, x);
  }

  lemma CancelNewest(s: State, total: nat, k: nat)
    requires Full(s, total, k) && k >= total
    ensures Enabled(s, Cancel(k - 1))
    ensures var t := Next(s, Cancel(k - 1));
            t.permits == 1 && t.idle == [] && t.cancelled == k + 1 - total && Connections(t) == k
            && forall c: CallId :: c in t.calls <==> c < k
  {
    PutSizes(s.calls, k - 1, Call(s.calls[k - 1].phase, false));
  }

  lemma FullGrows(s: State, steps: seq<Step>, t: State, total: nat, k: nat) returns (more: seq<Step>)
    requires After(s, steps) == Some(t) && Full(t, total, k)
    ensures After(s, more).Some? && Full(After(s, more).value, total, k + 1)
  {
    if k < total {
      more := Admit(s, steps, t, k);
      AdmittedIsFull(t, total, k);
    } else {
      CancelNewest(t, total, k);
      var u := Next(t, Cancel(k - 1));
      more := Admit(s, steps + [Cancel(k - 1)], u, k);
      AdmittedIsFull(u, total, k);
    }
  }

  lemma FirstIsFull(maxConns: nat, t: State)
    requires t == Put(Init(maxConns), 0, Call(Using(0), true)).(permits := Permits(maxConns) - 1, idle := [])
    ensures Full(t, Permits(maxConns), 1)
  {
    assert t.calls == map[0 := Call(Using(0), true)];
    assert Busies(t.calls) == {0};
  }

  lemma FirstCall(maxConns: nat) returns (steps: seq<Step>)
    ensures After(Init(maxConns), steps).Some? && Full(After(Init(maxConns), steps).value, Permits(maxConns), 1)
  {
    var s := Init(maxConns);
    steps := GetPermit(s, [], s, 0);
    steps := steps + [Take(0)];
    assert s.calls[0 := Call(Ready, true)][0 := Call(Using(0), true)] == s.calls[0 := Call(Using(0), true)];
    FirstIsFull(maxConns, After(s, steps).value);
  }

  lemma {:induction false} FullRun(maxConns: nat, k: nat) returns (steps: seq<Step>)
    requires k > 0
    ensures After(Init(maxConns), steps).Some? && Full(After(Init(maxConns), steps).value, Permits(maxConns), k)
  {
    if k == 1 {
      steps := FirstCall(maxConns);
    } else {
      steps := FullRun(maxConns, k - 1);
      steps := FullGrows(Init(maxConns), steps, After(Init(maxConns), steps).value, Permits(maxConns), k - 1);
    }
  }

  /** For every number of futures dropped in flight some run reaches the bound: a pool without
      them stays within its permits, and each may add a connection. */
  lemma BoundIsReached(maxConns: nat, drops: nat) returns (steps: seq<Step>)
    ensures After(Init(maxConns), steps).Some? && Drops(Init(maxConns), steps) == drops
    ensures Connections(After(Init(maxConns), steps).value) == (if maxConns >= 1 then maxConns else 1) + drops
  {
    steps := FullRun(maxConns, Permits(maxConns) + drops);
    CancelledAreDrops(Init(maxConns), steps);
  }

  // ── What becomes of connections ────────

  /** An open that fails leaves no connection, one that succeeds a new one in use. */
  lemma OpenMakesOne(s: State, c: CallId)
    requires InPhase(s, c, Opening)
    ensures var failed := Next(s, Open(c, false));
            failed.calls[c].phase == Finished && failed.idle == s.idle && failed.nextConn == s.nextConn
    ensures var success := Next(s, Open(c, true));
            success.calls[c].phase == Using(s.nextConn) && success.idle == s.idle && success.nextConn == s.nextConn + 1
  {}

  /** A connection goes back to the idle list after its closure, but not after a panic. */
  lemma PanicLosesConnection(s: State, c: CallId, conn: Conn)
    requires InPhase(s, c, Using(conn))
    ensures Next(s, Run(c, false)).idle == s.idle + [conn] && Next(s, Run(c, true)).idle == s.idle
    ensures Next(s, Run(c, false)).calls[c].phase == Next(s, Run(c, true)).calls[c].phase == Finished
  {}

  // ── The idle list ──────────────────────

  class PoolInner {
    var idle: seq<Conn>

    constructor (first: Conn)
      ensures idle == [first]
    {
      idle := [first];
    }

    /** `attempt` is what opening a connection would give.  The idle list changes as the `Take`
        step says, and an attempt is made only where that step begins one. */
    method TakeConn(attempt: Result<Conn>) returns (r: Result<Conn>)
      modifies this
      ensures old(idle) != [] ==> r == Ok(old(idle)[|old(idle)| - 1]) && idle == old(idle)[..|old(idle)| - 1]
      ensures old(idle) == [] ==> r == attempt && idle == []
      ensures forall s: State, c: CallId :: s.idle == old(idle) && InPhase(s, c, Ready) ==>
        var t := Next(s, Take(c));
        t.idle == idle && t.calls[c].phase == if old(idle) == [] then Opening else Using(r.value)
    {
      if |idle| > 0 {
        r := Ok(idle[|idle| - 1]);
        idle := idle[..|idle| - 1];
        return;
      }
      r := attempt;
    }

    method ReturnConn(conn: Conn)
      modifies this
      ensures idle == old(idle) + [conn]
      ensures forall s: State, c: CallId :: s.idle == old(idle) && InPhase(s, c, Using(conn)) ==>
        Next(s, Run(c, false)).idle == idle
    {
      idle := idle + [conn];
    }
  }
}
