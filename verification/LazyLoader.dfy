/** The lazy model loader of `src/embedding/lazy.rs`. */
module LazyLoader {
  import opened Wrappers

  const NANOS_PER_SEC := 1_000_000_000

  /** At least `secs + 1` whole seconds: the code compares whole seconds. */
  lemma WholeSeconds(nanos: nat, secs: nat)
    ensures nanos / NANOS_PER_SEC > secs <==> nanos >= (secs + 1) * 1_000_000_000
  {}

  type Thread = nat
  type Handle = nat

  datatype ModelState =
    | NotLoaded
    | Loading
    | Cached
    | Ready
    | Disabled
    | Failed(error: LoadError, panicked: bool)

  datatype LoadError = TimedOut | ModelDisabled | UnexpectedState | LoaderError(message: string)

  /** What `ensure_model` returns. */
  datatype Verdict = Success | Failure(error: LoadError)

  datatype Opts = Opts(idleTimeoutSecs: nat, loadTimeoutSecs: nat)

  /** The mutex-guarded fields. */
  datatype Shared = Shared(state: ModelState, provider: Option<Handle>, lastUsed: Option<nat>)

  /** How a load ends; a caught panic is a failure marked as such. */
  datatype LoadOutcome = Loaded(handle: Handle) | LoadFailed(message: string, panicked: bool)

  // ── Critical sections as functions of the guarded fields ───

  predicate Unloaded(state: ModelState) { state.NotLoaded? || state.Cached? }

  predicate IdleTooLong(opts: Opts, sh: Shared, now: nat) {
    && sh.state.Ready? && sh.lastUsed.Some? && opts.idleTimeoutSecs > 0
    && now >= sh.lastUsed.value
    && (now - sh.lastUsed.value) / NANOS_PER_SEC > opts.idleTimeoutSecs
  }

  /** The idle timeout is on, and at least one second more than it has passed: the code compares
      whole seconds. */
  predicate IdleSince(opts: Opts, used: nat, now: nat) {
    opts.idleTimeoutSecs > 0 && now >= used + (opts.idleTimeoutSecs + 1) * 1_000_000_000
  }

  lemma IdleTooLongIff(opts: Opts, sh: Shared, now: nat)
    requires sh.state.Ready? && sh.lastUsed.Some?
    ensures IdleTooLong(opts, sh, now) <==> IdleSince(opts, sh.lastUsed.value, now)
  {
    if now >= sh.lastUsed.value { WholeSeconds(now - sh.lastUsed.value, opts.idleTimeoutSecs); }
  }

  function AfterEviction(opts: Opts, sh: Shared, now: nat): Shared {
    if IdleTooLong(opts, sh, now) then Shared(Cached, None, None) else sh
  }

  /** On entry an idle session is dropped, then an unloaded model starts loading. */
  function AfterEnter(opts: Opts, sh: Shared, now: nat): Shared {
    var sh := AfterEviction(opts, sh, now);
    if Unloaded(sh.state) then sh.(state := Loading) else sh
  }

  function AfterFinish(sh: Shared, outcome: LoadOutcome, now: nat): Shared {
    match outcome
    case Loaded(handle) => Shared(Ready, Some(handle), Some(now))
    case LoadFailed(message, panicked) => sh.(state := Failed(LoaderError(message), panicked))
  }

  function AfterReset(sh: Shared, onDisk: bool): Shared {
    if sh.state.Failed? then sh.(state := if onDisk then Cached else NotLoaded) else sh
  }

  datatype Entry = Return(result: Verdict) | Park | Load

  /** What a caller does once it has run the entry section. */
  function EntryDecision(opts: Opts, sh: Shared, now: nat): Entry {
    match AfterEviction(opts, sh, now).state
    case Ready => Return(Success)
    case Disabled => Return(Failure(ModelDisabled))
    case Failed(error, _) => Return(Failure(error))
    case Loading => Park
    case NotLoaded => Load
    case Cached => Load
  }

  function WaitResult(state: ModelState): Verdict {
    match state
    case Ready => Success
    case Failed(error, _) => Failure(error)
    case _ => Failure(UnexpectedState)
  }

  /** The object itself: every locked section assigns its fields in place. */
  class LazyProvider {
    const opts: Opts
    var state: ModelState
    var provider: Option<Handle>
    var lastUsed: Option<nat>

    ghost function Fields(): Shared
      reads this
    {
      Shared(state, provider, lastUsed)
    }

    constructor (opts: Opts, onDisk: bool)
      ensures this.opts == opts && Fields() == Shared(if onDisk then Cached else NotLoaded, None, None)
    {
      this.opts := opts;
      state := if onDisk then Cached else NotLoaded;
      provider, lastUsed := None, None;
    }

    method EnterSection(now: nat) returns (d: Entry)
      modifies this
      ensures Fields() == AfterEnter(opts, old(Fields()), now)
      ensures d == EntryDecision(opts, old(Fields()), now)
      ensures old(state).Ready? && old(lastUsed).Some? && IdleSince(opts, old(lastUsed).value, now)
              ==> d == Load && Fields() == Shared(Loading, None, None)
      ensures old(state).Ready? && (old(lastUsed).None? || !IdleSince(opts, old(lastUsed).value, now))
              ==> d == Return(Success) && Fields() == old(Fields())
      ensures old(state).NotLoaded? || old(state).Cached?
              ==> d == Load && Fields() == Shared(Loading, old(provider), old(lastUsed))
      ensures old(state).Loading? ==> d == Park && Fields() == old(Fields())
      ensures old(state).Disabled? ==> d == Return(Failure(ModelDisabled)) && Fields() == old(Fields())
      ensures old(state).Failed? ==> d == Return(Failure(old(state).error)) && Fields() == old(Fields())
    {
      if state.Ready? && lastUsed.Some? { IdleTooLongIff(opts, Shared(state, provider, lastUsed), now); }
      if IdleTooLong(opts, Shared(state, provider, lastUsed), now) {
        provider := None;
        state := Cached;
        lastUsed := None;
      }
      match state
      case Ready => d := Return(Success);
      case Disabled => d := Return(Failure(ModelDisabled));
      case Failed(error, _) => d := Return(Failure(error));
      case Loading => d := Park;
      case _ =>
        state := Loading;
        d := Load;
    }

    method FinishSection(outcome: LoadOutcome, now: nat) returns (r: Verdict)
      modifies this
      ensures Fields() == AfterFinish(old(Fields()), outcome, now)
      ensures r == WaitResult(Fields().state)
      ensures outcome.Loaded? ==> r == Success && Fields() == Shared(Ready, Some(outcome.handle), Some(now))
      ensures outcome.LoadFailed? ==>
                r == Failure(LoaderError(outcome.message)) && provider == old(provider) && lastUsed == old(lastUsed)
                && state == Failed(LoaderError(outcome.message), outcome.panicked)
    {
      match outcome
      case Loaded(handle) =>
        state := Ready;
        provider := Some(handle);
        lastUsed := Some(now);
        r := Success;
      case LoadFailed(message, panicked) =>
        state := Failed(LoaderError(message), panicked);
        r := Failure(LoaderError(message));
    }

    /** After a wakeup: `None` means still loading and in time, so wait again. */
    method WakeSection(expired: bool) returns (r: Option<Verdict>)
      modifies this
      ensures !old(state).Loading? ==> Fields() == old(Fields()) && r == Some(WaitResult(state))
      ensures old(state).Loading? && expired ==>
                Fields() == old(Fields()).(state := Failed(TimedOut, false)) && r == Some(WaitResult(state))
      ensures old(state).Loading? && !expired ==> Fields() == old(Fields()) && r == None
      ensures old(state).Loading? && expired ==> r == Some(Failure(TimedOut))
      ensures old(state).Ready? ==> r == Some(Success)
      ensures old(state).Failed? ==> r == Some(Failure(old(state).error))
      ensures old(state).NotLoaded? || old(state).Cached? || old(state).Disabled? ==>
                r == Some(Failure(UnexpectedState))
    {
      if state.Loading? {
        if !expired {
          return None;
        }
        state := Failed(TimedOut, false);
      }
      r := Some(WaitResult(state));
    }

    method Reset(onDisk: bool)
      modifies this
      ensures Fields() == AfterReset(old(Fields()), onDisk)
      ensures !old(state).Failed? ==> Fields() == old(Fields())
      ensures old(state).Failed? ==>
                Fields() == Shared(if onDisk then Cached else NotLoaded, old(provider), old(lastUsed))
    {
      if state.Failed? {
        state := if onDisk then Cached else NotLoaded;
      }
    }
  }

  // ── The protocol ───────────────────────

  // `ensure_model`, `reset`, and the locked sections of `embed` are steps of any number of
  // threads over one mutex-guarded state.  Each step is one critical section (the mutex makes it
  // atomic).  The load runs between two steps, outside the lock.  A thread on the condition
  // variable is parked; a notification, an expired wait or a spurious wakeup makes it woken, and
  // it acts once it re-acquires the mutex.  Time is a clock in nanoseconds that never goes back.

  /** Where a thread stands inside `ensure_model`, or between its Ok and the use of the provider. */
  datatype Pc =
    | RunningLoad                  // outside the lock
    | Parked(since: nat)           // on the condition variable
    | Woken(since: nat)            // awake, about to re-acquire the mutex
    | Granted(evictions: nat)      // has its Ok; evictions so far at that moment

  /** History kept for the specification. */
  datatype Counts = Counts(
    starts: nat,
    resets: nat,                   // effective ones: out of `Failed`
    evictions: nat,
    timeouts: nat,
    overtaken: nat,                // loads that finished when the state was no longer `Loading`
    preempted: nat                 // those of them that found it unloaded again
  )

  datatype State = State(shared: Shared, clock: nat, pcs: map<Thread, Pc>, n: Counts)

  datatype Step =
    | Enter(t: Thread)
    | Finish(t: Thread, outcome: LoadOutcome)
    | Wake(t: Thread)
    | Recheck(t: Thread)
    | Use(t: Thread)
    | Reset(onDisk: bool)
    | Tick(elapsed: nat)

  ghost predicate Enabled(s: State, step: Step) {
    match step
    case Enter(t) => t !in s.pcs
    case Finish(t, _) => t in s.pcs && s.pcs[t].RunningLoad?
    case Wake(t) => t in s.pcs && s.pcs[t].Parked?
    case Recheck(t) => t in s.pcs && s.pcs[t].Woken?
    case Use(t) => t in s.pcs && s.pcs[t].Granted?
    case Reset(_) => true
    case Tick(_) => true
  }

  predicate Expired(opts: Opts, since: nat, now: nat) {
    now > since + opts.loadTimeoutSecs * NANOS_PER_SEC
  }

  function NotifyAll(pcs: map<Thread, Pc>): map<Thread, Pc> {
    map t | t in pcs :: if pcs[t].Parked? then Woken(pcs[t].since) else pcs[t]
  }

  /** A caller leaves `ensure_model`; on success it goes on to use the provider. */
  function Leave(pcs: map<Thread, Pc>, t: Thread, v: Verdict, evictions: nat): map<Thread, Pc> {
    if v.Success? then pcs[t := Granted(evictions)] else pcs - {t}
  }

  function NextEnter(opts: Opts, s: State, t: Thread): State {
    var evicted := One(IdleTooLong(opts, s.shared, s.clock));
    var n := s.n.(evictions := s.n.evictions + evicted);
    var shared := AfterEnter(opts, s.shared, s.clock);
    match EntryDecision(opts, s.shared, s.clock)
    case Return(v) => State(shared, s.clock, Leave(s.pcs, t, v, n.evictions), n)
    case Park => State(shared, s.clock, s.pcs[t := Parked(s.clock)], n)
    case Load => State(shared, s.clock, NotifyAll(s.pcs[t := RunningLoad]), n.(starts := n.starts + 1))
  }

  function NextFinish(s: State, t: Thread, outcome: LoadOutcome): State {
    var shared := AfterFinish(s.shared, outcome, s.clock);
    var n := s.n.(overtaken := s.n.overtaken + One(!s.shared.state.Loading?),
                  preempted := s.n.preempted + One(Unloaded(s.shared.state)));
    State(shared, s.clock, Leave(NotifyAll(s.pcs), t, WaitResult(shared.state), n.evictions), n)
  }

  function NextRecheck(opts: Opts, s: State, t: Thread): State
    requires t in s.pcs && s.pcs[t].Woken?
  {
    if !s.shared.state.Loading? then
      s.(pcs := Leave(s.pcs, t, WaitResult(s.shared.state), s.n.evictions))
    else if Expired(opts, s.pcs[t].since, s.clock) then
      State(s.shared.(state := Failed(TimedOut, false)), s.clock, NotifyAll(s.pcs - {t}),
            s.n.(timeouts := s.n.timeouts + 1))
    else
      s.(pcs := s.pcs[t := Parked(s.pcs[t].since)])
  }

  function Next(opts: Opts, s: State, step: Step): State
    requires Enabled(s, step)
  {
    match step
    case Enter(t) => NextEnter(opts, s, t)
    case Finish(t, outcome) => NextFinish(s, t, outcome)
    case Wake(t) => s.(pcs := s.pcs[t := Woken(s.pcs[t].since)])
    case Recheck(t) => NextRecheck(opts, s, t)
    case Use(t) => s.(pcs := s.pcs - {t}, shared := s.shared.(lastUsed := Some(s.clock)))
    case Reset(onDisk) =>
      s.(shared := AfterReset(s.shared, onDisk), n := s.n.(resets := s.n.resets + One(s.shared.state.Failed?)))
    case Tick(elapsed) => s.(clock := s.clock + elapsed)
  }

  /** What `ensure_model` returns in this step, if some call returns in it. */
  function Returned(opts: Opts, s: State, step: Step): Option<Verdict>
    requires Enabled(s, step)
  {
    match step
    case Enter(_) =>
      var d := EntryDecision(opts, s.shared, s.clock);
      if d.Return? then Some(d.result) else None
    case Finish(_, outcome) => Some(WaitResult(AfterFinish(s.shared, outcome, s.clock).state))
    case Recheck(t) =>
      if !s.shared.state.Loading? then Some(WaitResult(s.shared.state))
      else if Expired(opts, s.pcs[t].since, s.clock) then Some(Failure(TimedOut))
      else None
    case _ => None
  }

  ghost predicate Initial(s: State) {
    && Unloaded(s.shared.state) && s.shared.provider.None? && s.shared.lastUsed.None?
    && s.pcs == map[] && s.n == Counts(0, 0, 0, 0, 0, 0)
  }

  /** `steps` is a run from `s` to `e`: any interleaving of enabled steps. */
  ghost predicate IsRun(opts: Opts, s: State, steps: seq<Step>, e: State)
    decreases |steps|
  {
    if steps == [] then s == e
    else Enabled(s, steps[0]) && IsRun(opts, Next(opts, s, steps[0]), steps[1..], e)
  }

  ghost predicate Reachable(opts: Opts, e: State) {
    exists s, steps :: Initial(s) && IsRun(opts, s, steps, e)
  }

  // ── The invariant ──────────────────────

  function One(b: bool): nat { if b then 1 else 0 }

  ghost function Loads(pcs: map<Thread, Pc>): set<Thread> {
    set t | t in pcs && pcs[t].RunningLoad?
  }

  ghost function Waiters(pcs: map<Thread, Pc>): set<Thread> {
    set t | t in pcs && (pcs[t].Parked? || pcs[t].Woken?)
  }

  /** No lost wakeup: whoever is parked has a load in flight to be woken by. */
  ghost predicate WakeupInv(s: State) {
    && (forall t :: t in s.pcs && s.pcs[t].Parked? ==> s.shared.state.Loading?)
    && (s.shared.state.Loading? ==> Loads(s.pcs) != {})
  }

  /** Readiness is backed by a provider; nothing ever disables the model. */
  ghost predicate ReadyInv(s: State) {
    && (s.shared.state.Ready? ==> s.shared.provider.Some? && s.shared.lastUsed.Some?)
    && !s.shared.state.Disabled?
    && (s.shared.state.Failed? ==> s.shared.state.error.TimedOut? || s.shared.state.error.LoaderError?)
  }

  /** Loads in flight are the current one and those a timeout has disowned; every start uses up
      one unloaded period, and only resets and evictions open another. */
  ghost predicate CountInv(s: State) {
    && |Loads(s.pcs)| + s.n.overtaken == s.n.timeouts + One(s.shared.state.Loading?)
    && s.n.starts + s.n.preempted + One(Unloaded(s.shared.state)) == 1 + s.n.resets + s.n.evictions
    && (Loads(s.pcs) + Waiters(s.pcs) != {} ==> s.n.starts > 0)
  }

  /** The provider disappears only by eviction. */
  ghost predicate GrantInv(s: State) {
    forall t :: t in s.pcs && s.pcs[t].Granted? ==>
      s.pcs[t].evictions <= s.n.evictions && (s.shared.provider.None? ==> s.pcs[t].evictions < s.n.evictions)
  }

  ghost predicate Inv(s: State) {
    WakeupInv(s) && ReadyInv(s) && CountInv(s) && GrantInv(s)
  }

  lemma EnterReturnKeepsInv(opts: Opts, s: State, t: Thread)
    requires Inv(s) && t !in s.pcs && EntryDecision(opts, s.shared, s.clock).Return?
    ensures Inv(NextEnter(opts, s, t))
  {
    var e := NextEnter(opts, s, t);
    assert Loads(e.pcs) == Loads(s.pcs) && Waiters(e.pcs) == Waiters(s.pcs);
    assert e.shared == s.shared;
  }

  lemma EnterParkKeepsInv(opts: Opts, s: State, t: Thread)
    requires Inv(s) && t !in s.pcs && EntryDecision(opts, s.shared, s.clock).Park?
    ensures Inv(NextEnter(opts, s, t))
  {
    var e := NextEnter(opts, s, t);
    assert Loads(e.pcs) == Loads(s.pcs);
    assert e.shared == s.shared;
  }

  lemma EnterLoadKeepsInv(opts: Opts, s: State, t: Thread)
    requires Inv(s) && t !in s.pcs && EntryDecision(opts, s.shared, s.clock).Load?
    ensures Inv(NextEnter(opts, s, t))
  {
    LoadJoins(s.pcs, t);
    assert !s.shared.state.Loading?;
    assert NextEnter(opts, s, t).pcs == NotifyAll(s.pcs[t := RunningLoad]);
  }

  lemma LoadJoins(pcs: map<Thread, Pc>, t: Thread)
    requires t !in pcs
    ensures var after := NotifyAll(pcs[t := RunningLoad]);
            Loads(after) == Loads(pcs) + {t} && Waiters(after) == Waiters(pcs)
  {
    NotifyAllKeeps(pcs[t := RunningLoad]);
    assert Loads(pcs[t := RunningLoad]) == Loads(pcs) + {t} && Waiters(pcs[t := RunningLoad]) == Waiters(pcs);
  }

  lemma EnterKeepsInv(opts: Opts, s: State, t: Thread)
    requires Inv(s) && t !in s.pcs
    ensures Inv(NextEnter(opts, s, t))
  {
    match EntryDecision(opts, s.shared, s.clock)
    case Return(_) => EnterReturnKeepsInv(opts, s, t);
    case Park => EnterParkKeepsInv(opts, s, t);
    case Load => EnterLoadKeepsInv(opts, s, t);
  }

  lemma FinishKeepsInv(s: State, t: Thread, outcome: LoadOutcome)
    requires Inv(s) && t in s.pcs && s.pcs[t].RunningLoad?
    ensures Inv(NextFinish(s, t, outcome))
  {
    var e := NextFinish(s, t, outcome);
    NotifyAllKeeps(s.pcs);
    assert t in Loads(s.pcs);
    assert Loads(e.pcs) == Loads(s.pcs) - {t} && Waiters(e.pcs) == Waiters(s.pcs);
  }

  lemma RecheckReturnKeepsInv(opts: Opts, s: State, t: Thread)
    requires Inv(s) && t in s.pcs && s.pcs[t].Woken? && !s.shared.state.Loading?
    ensures Inv(NextRecheck(opts, s, t))
  {
    var e := NextRecheck(opts, s, t);
    assert Loads(e.pcs) == Loads(s.pcs);
    assert t in Waiters(s.pcs);
  }

  lemma RecheckTimeoutKeepsInv(opts: Opts, s: State, t: Thread)
    requires Inv(s) && t in s.pcs && s.pcs[t].Woken? && s.shared.state.Loading?
    requires Expired(opts, s.pcs[t].since, s.clock)
    ensures Inv(NextRecheck(opts, s, t))
  {
    NotifyAllKeeps(s.pcs - {t});
    assert Loads(s.pcs - {t}) == Loads(s.pcs);
    assert t in Waiters(s.pcs);
  }

  lemma RecheckParkKeepsInv(opts: Opts, s: State, t: Thread)
    requires Inv(s) && t in s.pcs && s.pcs[t].Woken? && s.shared.state.Loading?
    requires !Expired(opts, s.pcs[t].since, s.clock)
    ensures Inv(NextRecheck(opts, s, t))
  {
    var e := NextRecheck(opts, s, t);
    assert Loads(e.pcs) == Loads(s.pcs);
    assert t in Waiters(s.pcs);
  }

  lemma RecheckKeepsInv(opts: Opts, s: State, t: Thread)
    requires Inv(s) && t in s.pcs && s.pcs[t].Woken?
    ensures Inv(NextRecheck(opts, s, t))
  {
    if !s.shared.state.Loading? {
      RecheckReturnKeepsInv(opts, s, t);
    } else if Expired(opts, s.pcs[t].since, s.clock) {
      RecheckTimeoutKeepsInv(opts, s, t);
    } else {
      RecheckParkKeepsInv(opts, s, t);
    }
  }

  lemma WakeKeepsInv(opts: Opts, s: State, t: Thread)
    requires Inv(s) && Enabled(s, Wake(t))
    ensures Inv(Next(opts, s, Wake(t)))
  {
    var e := Next(opts, s, Wake(t));
    assert Loads(e.pcs) == Loads(s.pcs) && Waiters(e.pcs) == Waiters(s.pcs);
  }

  lemma UseKeepsInv(opts: Opts, s: State, t: Thread)
    requires Inv(s) && Enabled(s, Use(t))
    ensures Inv(Next(opts, s, Use(t)))
  {
    var e := Next(opts, s, Use(t));
    assert Loads(e.pcs) == Loads(s.pcs) && Waiters(e.pcs) == Waiters(s.pcs);
  }

  lemma StepKeepsInv(opts: Opts, s: State, step: Step)
    requires Inv(s) && Enabled(s, step)
    ensures Inv(Next(opts, s, step))
  {
    match step
    case Enter(t) => EnterKeepsInv(opts, s, t);
    case Finish(t, outcome) => FinishKeepsInv(s, t, outcome);
    case Recheck(t) => RecheckKeepsInv(opts, s, t);
    case Wake(t) => WakeKeepsInv(opts, s, t);
    case Use(t) => UseKeepsInv(opts, s, t);
    case Reset(_) =>
    case Tick(_) =>
  }

  lemma {:induction false} RunKeepsInv(opts: Opts, s: State, steps: seq<Step>, e: State)
    requires Inv(s) && IsRun(opts, s, steps, e)
    ensures Inv(e)
    decreases |steps|
  {
    if steps != [] {
      StepKeepsInv(opts, s, steps[0]);
      RunKeepsInv(opts, Next(opts, s, steps[0]), steps[1..], e);
    }
  }

  lemma ReachableInv(opts: Opts, e: State)
    requires Reachable(opts, e)
    ensures Inv(e)
  {
    var s, steps :| Initial(s) && IsRun(opts, s, steps, e);
    assert Inv(s) by {
      assert Loads(s.pcs) == {} && Waiters(s.pcs) == {};
    }
    RunKeepsInv(opts, s, steps, e);
  }

  // ── What every interleaving guarantees ───

  /** A parked caller always has a load in flight that will notify it. */
  lemma NoLostWakeup(opts: Opts, s: State, t: Thread)
    requires Reachable(opts, s) && t in s.pcs && s.pcs[t].Parked?
    ensures s.shared.state.Loading?
    ensures exists u :: u in s.pcs && s.pcs[u].RunningLoad?
  {
    ReachableInv(opts, s);
    var u :| u in Loads(s.pcs);
  }

  /** Two conservation laws, exact in every reachable state, and what follows from them: a
      second load can only run beside one that timed out, and loads start at most once per
      reset or eviction, plus once. */
  lemma LoadAccounting(opts: Opts, s: State)
    requires Reachable(opts, s)
    ensures |Loads(s.pcs)| + s.n.overtaken == s.n.timeouts + One(s.shared.state.Loading?)
    ensures s.n.starts + s.n.preempted + One(Unloaded(s.shared.state)) == 1 + s.n.resets + s.n.evictions
    ensures |Loads(s.pcs)| <= s.n.timeouts + One(s.shared.state.Loading?)
    ensures s.n.timeouts == 0 ==> |Loads(s.pcs)| == One(s.shared.state.Loading?) && s.n.overtaken == 0
    ensures s.n.starts <= 1 + s.n.resets + s.n.evictions
  {
    ReachableInv(opts, s);
    if s.shared.state.Loading? {
      assert |Loads(s.pcs)| > 0;
    }
  }

  /** `ensure_model` returns Ok only when the state is `Ready` and the provider present. */
  lemma OkMeansReady(opts: Opts, s: State, step: Step)
    requires Reachable(opts, s) && Enabled(s, step)
    requires Returned(opts, s, step) == Some(Success)
    ensures Next(opts, s, step).shared.state.Ready? && Next(opts, s, step).shared.provider.Some?
  {
    ReachableInv(opts, s);
    StepKeepsInv(opts, s, step);
  }

  /** A wait ends in the "unexpected state" error exactly when the model is unloaded again,
      which takes at least one reset or eviction. */
  lemma UnexpectedNeedsResetOrEviction(opts: Opts, s: State, t: Thread)
    requires Reachable(opts, s) && Enabled(s, Recheck(t))
    ensures Returned(opts, s, Recheck(t)) == Some(Failure(UnexpectedState)) <==> Unloaded(s.shared.state)
    ensures Unloaded(s.shared.state) ==> s.n.resets + s.n.evictions > 0
  {
    ReachableInv(opts, s);
    assert t in Waiters(s.pcs);
  }

  /** After an Ok, the provider can be missing at the time of use only if an eviction came
      in between. */
  lemma UseFailsOnlyAfterEviction(opts: Opts, s: State, t: Thread)
    requires Reachable(opts, s) && Enabled(s, Use(t))
    ensures s.shared.provider.None? ==> s.n.evictions > s.pcs[t].evictions
  {
    ReachableInv(opts, s);
  }

  /** That gap is real exactly when idle eviction is switched on: with an idle timeout, a caller
      granted the model can find it evicted by a second caller; without one, never. */
  lemma UseNeverFailsIffNoIdleTimeout(opts: Opts)
    ensures (forall s, t :: Reachable(opts, s) && Enabled(s, Use(t)) ==> s.shared.provider.Some?)
       <==> opts.idleTimeoutSecs == 0
  {
    if opts.idleTimeoutSecs == 0 {
      forall s, t | Reachable(opts, s) && Enabled(s, Use(t)) ensures s.shared.provider.Some? {
        var init, steps :| Initial(init) && IsRun(opts, init, steps, s);
        NoTimeoutNoEviction(opts, init, steps, s);
        ReachableInv(opts, s);
      }
    } else {
      var s := GrantThenEvict(opts);
      assert Reachable(opts, s) && Enabled(s, Use(1));
    }
  }

  lemma {:induction false} NoTimeoutNoEviction(opts: Opts, s: State, steps: seq<Step>, e: State)
    requires opts.idleTimeoutSecs == 0 && IsRun(opts, s, steps, e)
    ensures e.n.evictions == s.n.evictions
    decreases |steps|
  {
    if steps != [] {
      NoTimeoutNoEviction(opts, Next(opts, s, steps[0]), steps[1..], e);
    }
  }

  lemma GrantThenEvict(opts: Opts) returns (s: State)
    requires opts.idleTimeoutSecs > 0
    ensures Reachable(opts, s) && Enabled(s, Use(1)) && s.shared.provider.None?
  {
    var s0 := State(Shared(Cached, None, None), 0, map[], Counts(0, 0, 0, 0, 0, 0));
    var wait := Tick((opts.idleTimeoutSecs + 1) * NANOS_PER_SEC);
    LoadAlone(opts, s0, 1, 7);
    var s1 := Next(opts, s0, Enter(1));
    var s2 := Next(opts, s1, Finish(1, Loaded(7)));
    var s3 := Next(opts, s2, wait);
    EvictOnEntry(opts, s3, 1, 2);
    s := Next(opts, s3, Enter(2));
    RunPrepend(opts, s3, Enter(2), [], s);
    RunPrepend(opts, s2, wait, [Enter(2)] + [], s);
    RunPrepend(opts, s1, Finish(1, Loaded(7)), [wait] + ([Enter(2)] + []), s);
    RunPrepend(opts, s0, Enter(1), [Finish(1, Loaded(7))] + ([wait] + ([Enter(2)] + [])), s);
    assert Initial(s0);
  }

  lemma LoadAlone(opts: Opts, s: State, t: Thread, handle: Handle)
    requires s.pcs == map[] && s.shared.state.Cached?
    ensures var s1 := Next(opts, s, Enter(t));
            && Enabled(s1, Finish(t, Loaded(handle)))
            && var s2 := Next(opts, s1, Finish(t, Loaded(handle)));
               s2.clock == s.clock && s2.pcs == map[t := Granted(s.n.evictions)]
               && s2.shared == Shared(Ready, Some(handle), Some(s.clock))
  {
    var loading: map<Thread, Pc> := map[t := RunningLoad];
    assert NotifyAll(loading) == loading;
    assert s.pcs[t := RunningLoad] == loading;
  }

  lemma EvictOnEntry(opts: Opts, s: State, t: Thread, u: Thread)
    requires Enabled(s, Use(t)) && u !in s.pcs && IdleTooLong(opts, s.shared, s.clock)
    ensures var e := Next(opts, s, Enter(u)); Enabled(e, Use(t)) && e.shared.provider.None?
  {}

  // ── Nobody waits forever, as long as loads finish ───

  predicate Drains(step: Step) { step.Finish? || step.Recheck? }

  /** Only loads finishing and awakened waiters acting. */
  ghost predicate Draining(steps: seq<Step>) {
    forall i :: 0 <= i < |steps| ==> Drains(steps[i])
  }

  lemma FinishShrinks(s: State, t: Thread, outcome: LoadOutcome)
    requires t in Loads(s.pcs)
    ensures |Loads(NextFinish(s, t, outcome).pcs)| == |Loads(s.pcs)| - 1
    ensures Waiters(NextFinish(s, t, outcome).pcs) == Waiters(s.pcs)
  {
    NotifyAllKeeps(s.pcs);
    var after := NextFinish(s, t, outcome).pcs;
    assert Loads(after) == Loads(s.pcs) - {t};
  }

  lemma RecheckShrinks(opts: Opts, s: State, t: Thread)
    requires t in Waiters(s.pcs) && Loads(s.pcs) == {} && WakeupInv(s)
    ensures Enabled(s, Recheck(t)) && Loads(NextRecheck(opts, s, t).pcs) == {}
    ensures |Waiters(NextRecheck(opts, s, t).pcs)| == |Waiters(s.pcs)| - 1
  {
    assert s.pcs[t].Woken? && !s.shared.state.Loading?;
    var after := NextRecheck(opts, s, t).pcs;
    assert Waiters(after) == Waiters(s.pcs) - {t};
    forall u | u in after ensures !after[u].RunningLoad? {
      assert u !in Loads(s.pcs);
    }
  }

  lemma DrainPrepend(opts: Opts, s: State, step: Step, rest: seq<Step>, e: State)
    requires Drains(step) && Enabled(s, step)
    requires Draining(rest) && IsRun(opts, Next(opts, s, step), rest, e)
    ensures Draining([step] + rest) && IsRun(opts, s, [step] + rest, e)
  {
    RunPrepend(opts, s, step, rest, e);
  }

  /** From every state that satisfies the invariant, letting the loads in flight finish (however
      they end) and the awakened callers act releases every waiter, one step per thread inside. */
  lemma {:induction false} Drain(opts: Opts, s: State, outcome: LoadOutcome) returns (steps: seq<Step>, e: State)
    requires Inv(s)
    ensures IsRun(opts, s, steps, e) && Draining(steps) && |steps| == |Loads(s.pcs)| + |Waiters(s.pcs)|
    ensures Loads(e.pcs) == {} && Waiters(e.pcs) == {}
    decreases |Loads(s.pcs)| + |Waiters(s.pcs)|
  {
    if Loads(s.pcs) != {} {
      var t :| t in Loads(s.pcs);
      FinishKeepsInv(s, t, outcome);
      FinishShrinks(s, t, outcome);
      var rest;
      rest, e := Drain(opts, NextFinish(s, t, outcome), outcome);
      DrainPrepend(opts, s, Finish(t, outcome), rest, e);
      steps := [Finish(t, outcome)] + rest;
    } else if Waiters(s.pcs) != {} {
      var t :| t in Waiters(s.pcs);
      RecheckShrinks(opts, s, t);
      RecheckKeepsInv(opts, s, t);
      var rest;
      rest, e := Drain(opts, NextRecheck(opts, s, t), outcome);
      DrainPrepend(opts, s, Recheck(t), rest, e);
      steps := [Recheck(t)] + rest;
    } else {
      steps, e := [], s;
    }
  }

  ghost function Awake(pcs: map<Thread, Pc>): set<Thread> {
    set t | t in pcs && pcs[t].Woken?
  }

  /** Threads still inside, weighted so that one leaving outweighs any number waking up. */
  ghost function Budget(pcs: map<Thread, Pc>, weight: nat): nat {
    (|Loads(pcs)| + |Waiters(pcs)|) * weight + |Awake(pcs)|
  }

  lemma AwakeAreWaiters(pcs: map<Thread, Pc>)
    ensures |Awake(pcs)| <= |Waiters(pcs)|
  {
    assert Waiters(pcs) == Awake(pcs) + (Waiters(pcs) - Awake(pcs));
  }

  lemma OneFewer(n: nat, weight: nat)
    requires n > 0
    ensures n * weight == (n - 1) * weight + weight
  {}

  /** One thread gone, and no more awake than there are waiters, is less work left. */
  lemma LeavingPays(before: map<Thread, Pc>, after: map<Thread, Pc>, weight: nat)
    requires |Loads(after)| + |Waiters(after)| + 1 == |Loads(before)| + |Waiters(before)|
    requires |Waiters(after)| < weight
    ensures Budget(after, weight) < Budget(before, weight)
  {
    AwakeAreWaiters(after);
    OneFewer(|Loads(before)| + |Waiters(before)|, weight);
  }

  lemma RecheckLeavesOrParks(opts: Opts, s: State, t: Thread)
    requires t in s.pcs && s.pcs[t].Woken?
    ensures var after := NextRecheck(opts, s, t).pcs;
            && Loads(after) == Loads(s.pcs)
            && (Waiters(after) == Waiters(s.pcs) - {t}
                || (Waiters(after) == Waiters(s.pcs) && Awake(after) == Awake(s.pcs) - {t}))
  {
    var after := NextRecheck(opts, s, t).pcs;
    NotifyAllKeeps(s.pcs - {t});
    assert Loads(s.pcs - {t}) == Loads(s.pcs) && Waiters(s.pcs - {t}) == Waiters(s.pcs) - {t};
    if !s.shared.state.Loading? {
      assert Loads(after) == Loads(s.pcs) && Waiters(after) == Waiters(s.pcs) - {t};
    } else if !Expired(opts, s.pcs[t].since, s.clock) {
      assert Loads(after) == Loads(s.pcs) && Waiters(after) == Waiters(s.pcs) && Awake(after) == Awake(s.pcs) - {t};
    }
  }

  /** Every load that finishes and every awakened caller that acts is progress, in any order. */
  lemma DrainingStepPays(opts: Opts, s: State, step: Step, weight: nat)
    requires Enabled(s, step) && Drains(step) && |Waiters(s.pcs)| < weight
    ensures Budget(Next(opts, s, step).pcs, weight) < Budget(s.pcs, weight)
    ensures |Waiters(Next(opts, s, step).pcs)| <= |Waiters(s.pcs)|
  {
    var after := Next(opts, s, step).pcs;
    if step.Finish? {
      assert step.t in Loads(s.pcs);
      FinishShrinks(s, step.t, step.outcome);
      LeavingPays(s.pcs, after, weight);
    } else {
      var t := step.t;
      assert t in Waiters(s.pcs) && t in Awake(s.pcs);
      RecheckLeavesOrParks(opts, s, t);
      if Waiters(after) == Waiters(s.pcs) - {t} { LeavingPays(s.pcs, after, weight); }
    }
  }

  /** So every run of such steps is bounded by the work left at its start. */
  lemma {:induction false} EveryDrainEnds(opts: Opts, s: State, steps: seq<Step>, e: State, weight: nat)
    requires IsRun(opts, s, steps, e) && Draining(steps) && |Waiters(s.pcs)| < weight
    ensures |steps| + Budget(e.pcs, weight) <= Budget(s.pcs, weight)
    decreases |steps|
  {
    if steps != [] {
      DrainingStepPays(opts, s, steps[0], weight);
      EveryDrainEnds(opts, Next(opts, s, steps[0]), steps[1..], e, weight);
    }
  }

  /** Nothing more can finish or act. */
  ghost predicate Drained(s: State) { forall step :: Drains(step) ==> !Enabled(s, step) }

  lemma DrainedIsEmpty(s: State, outcome: LoadOutcome)
    requires Inv(s) && Drained(s)
    ensures Loads(s.pcs) == {} && Waiters(s.pcs) == {}
  {
    forall t ensures t !in Loads(s.pcs) { assert !Enabled(s, Finish(t, outcome)); }
    forall t ensures t !in Waiters(s.pcs) { assert !Enabled(s, Recheck(t)); }
  }

  /** Nobody waits for ever, as long as loads finish: in whatever order the loads in flight
      finish (however they end) and the awakened callers act, it comes to an end within a bound
      fixed at the start, and when nothing more can happen every caller is released. */
  lemma EveryWaiterIsReleased(opts: Opts, s: State, steps: seq<Step>, e: State, outcome: LoadOutcome)
    requires Reachable(opts, s) && IsRun(opts, s, steps, e) && Draining(steps)
    ensures |steps| <= Budget(s.pcs, |Waiters(s.pcs)| + 1)
    ensures (forall t, o :: !Enabled(e, Finish(t, o)) && !Enabled(e, Recheck(t))) ==>
              forall t :: t in e.pcs ==> e.pcs[t].Granted?
  {
    ReachableInv(opts, s);
    RunKeepsInv(opts, s, steps, e);
    EveryDrainEnds(opts, s, steps, e, |Waiters(s.pcs)| + 1);
    if forall t, o :: !Enabled(e, Finish(t, o)) && !Enabled(e, Recheck(t)) {
      forall step | Drains(step) ensures !Enabled(e, step) {
        match step
        case Finish(t, o) => assert !Enabled(e, Finish(t, o)) && !Enabled(e, Recheck(t));
        case Recheck(t) => assert !Enabled(e, Finish(t, outcome)) && !Enabled(e, Recheck(t));
        case _ =>
      }
      DrainedIsEmpty(e, outcome);
      forall t | t in e.pcs ensures e.pcs[t].Granted? { assert t !in Loads(e.pcs) && t !in Waiters(e.pcs); }
    }
  }

  // ── How long is idle, how long is too long to wait ───

  /** The steps that use the model or put it in place. */
  predicate Active(step: Step) { step.Use? || (step.Finish? && step.outcome.Loaded?) }

  /** The time of the last such step of a run, or `before` if it has none. */
  ghost function LastActive(opts: Opts, s: State, steps: seq<Step>, before: Option<nat>): Option<nat>
    decreases |steps|
  {
    if steps == [] || !Enabled(s, steps[0]) then before
    else LastActive(opts, Next(opts, s, steps[0]), steps[1..], if Active(steps[0]) then Some(s.clock) else before)
  }

  lemma ActiveStep(opts: Opts, s: State, step: Step, before: Option<nat>)
    requires Enabled(s, step) && (s.shared.state.Ready? ==> s.shared.lastUsed == before)
    ensures var e := Next(opts, s, step);
            e.shared.state.Ready? ==> e.shared.lastUsed == if Active(step) then Some(s.clock) else before
  {}

  lemma {:induction false} ReadySinceLastActive(opts: Opts, s: State, steps: seq<Step>, e: State, before: Option<nat>)
    requires IsRun(opts, s, steps, e) && (s.shared.state.Ready? ==> s.shared.lastUsed == before)
    ensures e.shared.state.Ready? ==> e.shared.lastUsed == LastActive(opts, s, steps, before)
    decreases |steps|
  {
    if steps != [] {
      ActiveStep(opts, s, steps[0], before);
      ReadySinceLastActive(opts, Next(opts, s, steps[0]), steps[1..], e,
                           if Active(steps[0]) then Some(s.clock) else before);
    }
  }

  /** In every run, an entry that finds the model ready evicts it and loads again if and only if
      an idle timeout is set and nobody has used or loaded the model for one second more than
      that; otherwise it changes nothing and succeeds. */
  lemma EntryEvictsIff(opts: Opts, s: State, steps: seq<Step>, e: State, t: Thread)
    requires Initial(s) && IsRun(opts, s, steps, e) && Enabled(e, Enter(t)) && e.shared.state.Ready?
    ensures LastActive(opts, s, steps, None).Some?
    ensures var last, span := LastActive(opts, s, steps, None).value, (opts.idleTimeoutSecs + 1) * 1_000_000_000;
            var idle := opts.idleTimeoutSecs > 0 && e.clock >= last + span;
            && (idle ==> Next(opts, e, Enter(t)).shared == Shared(Loading, None, None))
            && (!idle ==> Next(opts, e, Enter(t)).shared == e.shared
                          && Returned(opts, e, Enter(t)) == Some(Success))
  {
    RunKeepsInv(opts, s, steps, e);
    ReadySinceLastActive(opts, s, steps, e, None);
    IdleTooLongIff(opts, e.shared, e.clock);
  }

  ghost predicate WaitsSince(s: State, t: Thread, since: nat) {
    t in s.pcs && (s.pcs[t].Parked? || s.pcs[t].Woken?) ==> s.pcs[t].since == since
  }

  lemma WaitStep(opts: Opts, s: State, step: Step, t: Thread, since: nat)
    requires Enabled(s, step) && WaitsSince(s, t, since) && step != Enter(t)
    ensures WaitsSince(Next(opts, s, step), t, since)
  {}

  lemma {:induction false} StillWaitsSince(opts: Opts, s: State, steps: seq<Step>, e: State, t: Thread, since: nat)
    requires IsRun(opts, s, steps, e) && WaitsSince(s, t, since) && Enter(t) !in steps
    ensures WaitsSince(e, t, since)
    decreases |steps|
  {
    if steps != [] {
      assert steps[0] in steps;
      WaitStep(opts, s, steps[0], t, since);
      StillWaitsSince(opts, Next(opts, s, steps[0]), steps[1..], e, t, since);
    }
  }

  /** A caller that entered at `m` and waits gives up, with the load still going on, if and only
      if more than the load timeout has passed since it entered; until then it waits on. */
  lemma WaitTimesOutIff(opts: Opts, m: State, t: Thread, steps: seq<Step>, e: State)
    requires Enabled(m, Enter(t)) && IsRun(opts, Next(opts, m, Enter(t)), steps, e) && Enter(t) !in steps
    requires Enabled(e, Recheck(t)) && e.shared.state.Loading?
    ensures var late := e.clock > m.clock + opts.loadTimeoutSecs * 1_000_000_000;
            && (late ==> Returned(opts, e, Recheck(t)) == Some(Failure(TimedOut))
                         && Next(opts, e, Recheck(t)).shared.state == Failed(TimedOut, false))
            && (!late ==> Returned(opts, e, Recheck(t)) == None
                          && Next(opts, e, Recheck(t)) == e.(pcs := e.pcs[t := Parked(m.clock)]))
  {
    StillWaitsSince(opts, Next(opts, m, Enter(t)), steps, e, t, m.clock);
  }

  // ── Leaving `Ready` ────────────────────

  /** A loaded model stops being ready in two ways only: a caller evicts it as idle, or a load
      that a timeout had disowned finishes late and fails. */
  lemma ReadyIsLeftIff(opts: Opts, s: State, step: Step)
    requires Reachable(opts, s) && Enabled(s, step) && s.shared.state.Ready?
    ensures s.shared.lastUsed.Some?
    ensures !Next(opts, s, step).shared.state.Ready?
       <==> (step.Enter? && IdleSince(opts, s.shared.lastUsed.value, s.clock))
            || (step.Finish? && step.outcome.LoadFailed?)
    ensures step.Finish? ==> s.n.timeouts > s.n.overtaken
  {
    ReachableInv(opts, s);
    IdleTooLongIff(opts, s.shared, s.clock);
    if step.Finish? { assert step.t in Loads(s.pcs); }
  }

  /** Hence by eviction alone, as long as nothing has timed out. */
  lemma ReadyIsEvictedOnly(opts: Opts, s: State, step: Step)
    requires Reachable(opts, s) && Enabled(s, step) && s.shared.state.Ready? && s.n.timeouts == 0
    requires !Next(opts, s, step).shared.state.Ready?
    ensures step.Enter? && s.shared.lastUsed.Some? && IdleSince(opts, s.shared.lastUsed.value, s.clock)
  {
    ReadyIsLeftIff(opts, s, step);
  }

  /** A caller times out beside a load in flight, which thereby loses its claim. */
  lemma TimeOut(opts: Opts, s: State)
    requires s.pcs == map[1 := RunningLoad] && s.shared.state.Loading?
    ensures var wait := opts.loadTimeoutSecs * NANOS_PER_SEC + 1;
            var steps := [Enter(2)] + ([Tick(wait)] + ([Wake(2)] + ([Recheck(2)] + [])));
            var e := State(s.shared.(state := Failed(TimedOut, false)), s.clock + wait,
                           s.pcs, s.n.(timeouts := s.n.timeouts + 1));
            IsRun(opts, s, steps, e)
  {
    var wait := opts.loadTimeoutSecs * NANOS_PER_SEC + 1;
    var parked: map<Thread, Pc> := map[1 := RunningLoad, 2 := Parked(s.clock)];
    var woken: map<Thread, Pc> := map[1 := RunningLoad, 2 := Woken(s.clock)];
    var s1 := s.(pcs := parked);
    var s2 := s1.(clock := s.clock + wait);
    var s3 := s2.(pcs := woken);
    var e := State(s.shared.(state := Failed(TimedOut, false)), s2.clock, s.pcs, s.n.(timeouts := s.n.timeouts + 1));
    assert s.pcs[2 := Parked(s.clock)] == parked && parked[2 := Woken(s.clock)] == woken;
    assert woken - {2} == s.pcs && NotifyAll(s.pcs) == s.pcs;
    assert Next(opts, s, Enter(2)) == s1 && Next(opts, s1, Tick(wait)) == s2;
    assert Next(opts, s2, Wake(2)) == s3 && Next(opts, s3, Recheck(2)) == e;
    RunPrepend(opts, s3, Recheck(2), [], e);
    RunPrepend(opts, s2, Wake(2), [Recheck(2)] + [], e);
    RunPrepend(opts, s1, Tick(wait), [Wake(2)] + ([Recheck(2)] + []), e);
    RunPrepend(opts, s, Enter(2), [Tick(wait)] + ([Wake(2)] + ([Recheck(2)] + [])), e);
  }

  lemma {:induction false} RunsJoin(opts: Opts, s: State, a: seq<Step>, m: State, b: seq<Step>, e: State)
    requires IsRun(opts, s, a, m) && IsRun(opts, m, b, e)
    ensures IsRun(opts, s, a + b, e)
    decreases |a|
  {
    if a == [] {
      assert a + b == b;
    } else {
      RunsJoin(opts, Next(opts, s, a[0]), a[1..], m, b, e);
      assert (a + b)[1..] == a[1..] + b;
    }
  }

  lemma StillReachable(opts: Opts, m: State, b: seq<Step>, e: State)
    requires Reachable(opts, m) && IsRun(opts, m, b, e)
    ensures Reachable(opts, e)
  {
    var s, a :| Initial(s) && IsRun(opts, s, a, m);
    RunsJoin(opts, s, a, m, b, e);
  }

  lemma StepReachable(opts: Opts, m: State, step: Step)
    requires Reachable(opts, m) && Enabled(m, step)
    ensures Reachable(opts, Next(opts, m, step))
  {
    RunPrepend(opts, m, step, [], Next(opts, m, step));
    StillReachable(opts, m, [step] + [], Next(opts, m, step));
  }

  /** A disowned load runs on beside a fresh one that succeeds. */
  lemma LoadAgain(opts: Opts, s: State, handle: Handle) returns (e: State)
    requires Reachable(opts, s) && s.pcs == map[1 := RunningLoad] && s.shared.state.Failed?
    ensures Reachable(opts, e) && e.shared == Shared(Ready, Some(handle), Some(e.clock))
    ensures 1 in e.pcs && e.pcs[1].RunningLoad?
  {
    var both: map<Thread, Pc> := map[1 := RunningLoad, 3 := RunningLoad];
    assert NotifyAll(both) == both && s.pcs[3 := RunningLoad] == both;
    StepReachable(opts, s, Reset(true));
    var s1 := Next(opts, s, Reset(true));
    StepReachable(opts, s1, Enter(3));
    var s2 := Next(opts, s1, Enter(3));
    assert s2.pcs == both;
    StepReachable(opts, s2, Finish(3, Loaded(handle)));
    e := Next(opts, s2, Finish(3, Loaded(handle)));
  }

  /** The second way is real, whatever the timeouts: a load is disowned by a timeout, a reset
      lets a second one succeed, and the first then fails late and takes the ready model away
      while its provider stays in place. */
  lemma LateFailureLeavesReady(opts: Opts) returns (s: State)
    ensures Reachable(opts, s) && s.shared.state.Ready? && s.shared.provider.Some?
    ensures Enabled(s, Finish(1, LoadFailed("", false)))
    ensures var e := Next(opts, s, Finish(1, LoadFailed("", false))); e.shared.state.Failed? && e.shared.provider.Some?
  {
    var s0 := State(Shared(Cached, None, None), 0, map[], Counts(0, 0, 0, 0, 0, 0));
    var loading: map<Thread, Pc> := map[1 := RunningLoad];
    assert NotifyAll(loading) == loading;
    assert Initial(s0) && IsRun(opts, s0, [], s0);
    StepReachable(opts, s0, Enter(1));
    var s1 := Next(opts, s0, Enter(1));
    TimeOut(opts, s1);
    var wait := opts.loadTimeoutSecs * NANOS_PER_SEC + 1;
    var s2 := State(s1.shared.(state := Failed(TimedOut, false)), s1.clock + wait, s1.pcs,
                    s1.n.(timeouts := s1.n.timeouts + 1));
    StillReachable(opts, s1, [Enter(2)] + ([Tick(wait)] + ([Wake(2)] + ([Recheck(2)] + []))), s2);
    s := LoadAgain(opts, s2, 7);
  }

  // ── Runs and notifications ─────────────

  lemma RunPrepend(opts: Opts, s: State, step: Step, steps: seq<Step>, e: State)
    requires Enabled(s, step) && IsRun(opts, Next(opts, s, step), steps, e)
    ensures IsRun(opts, s, [step] + steps, e)
  {
    assert ([step] + steps)[1..] == steps;
  }

  lemma NotifyAllKeeps(pcs: map<Thread, Pc>)
    ensures Loads(NotifyAll(pcs)) == Loads(pcs) && Waiters(NotifyAll(pcs)) == Waiters(pcs)
  {}
}
