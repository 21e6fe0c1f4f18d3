/**
  The hand-built recursive lock of `CriticalSection`: an atomic counter `lock_queue_`, the plain
  fields `owning_thread_` and `recursion_`, and a counting semaphore used to hand the lock over.

  Every atomic access or plain read or write of shared state is one step of a state machine, and the
  steps of any number of threads interleave in any order.
 */
module CriticalSection {
  import opened Bytes
  import opened Sums

  /** How often `Enter` polls the lock before it queues up. */
  const SPIN_COUNT: nat := 3000

  /** The next step of a thread; the name says which access that step performs. */
  datatype Pc =
    | Outside                  // in no call; may start one
      // Enter
    | SpinOwner(spin: nat)     // owning_thread_ == self?
    | SpinLoad(spin: nat)      // lock_queue_ == 0?
    | SpinCas(spin: nat)       // compare-and-swap 0 -> 1
    | SpinYield(spin: nat)     // sched_yield, --spin
    | OwnerIncrement           // recursive entry: ++lock_queue_
    | Enqueue                  // ++lock_queue_ > 1?
    | CheckNotOwner            // assertion before waiting
    | Waiting                  // dispatch_semaphore_wait
    | CheckFree                // assertions after waking
    | SetOwner                 // owning_thread_ = self
    | IncrementRecursion       // ++recursion_, then return
      // TryEnter
    | TryOwner
    | TryCas
    | TrySetOwner
    | TryCheck                 // assertion that recursion_ is zero
    | TryIncrement
      // Leave
    | LeaveCheck               // assertions on entry
    | LeaveDecrement           // --recursion_
    | LeaveTest                // recursion_ == 0?
    | LeaveClear               // owning_thread_ = 0
    | LeaveQueue               // --lock_queue_ > 0?
    | LeaveRecheck             // recursion_ == 0? (read again, after the decrement)
    | LeaveSignal              // dispatch_semaphore_signal

  /** `holds` counts the entries that have returned and whose `Leave` has not yet finished. */
  datatype Thread = Thread(pc: Pc, holds: nat)

  datatype Call = Enter | TryEnter | Leave

  datatype State = State(
    threads: seq<Thread>,
    lockQueue: int,
    recursion: int,
    owner: Option<nat>,
    semaphore: nat,
    assertFailed: bool)

  function Init(n: nat): State {
    State(seq(n, _ => Thread(Outside, 0)), 0, 0, None, 0, false)
  }

  /** One scheduling decision: which thread moves, and which call it makes if it is outside. */
  datatype Action = Action(thread: nat, call: Call)

  /** Only a caller that holds the lock may call `Leave`; only the semaphore can block. */
  predicate Enabled(s: State, a: Action) {
    && a.thread < |s.threads|
    && match s.threads[a.thread].pc
       case Outside => a.call == Leave ==> s.threads[a.thread].holds > 0
       case Waiting => s.semaphore > 0
       case _ => true
  }

  function Goto(s: State, t: nat, pc: Pc): State
    requires t < |s.threads|
  {
    s.(threads := s.threads[t := s.threads[t].(pc := pc)])
  }

  function Check(s: State, ok: bool): State {
    s.(assertFailed := s.assertFailed || !ok)
  }

  function Return(s: State, t: nat, holds: nat): State
    requires t < |s.threads|
  {
    s.(threads := s.threads[t := Thread(Outside, holds)])
  }

  function Start(s: State, t: nat, call: Call): State
    requires t < |s.threads|
  {
    match call
    case Enter => Goto(s, t, SpinOwner(SPIN_COUNT))
    case TryEnter => Goto(s, t, TryOwner)
    case Leave => Goto(s, t, LeaveCheck)
  }

  function Next(s: State, a: Action): State
    requires Enabled(s, a)
  {
    var t := a.thread;
    var h := s.threads[t].holds;
    match s.threads[t].pc
    case Outside => Start(s, t, a.call)
    case SpinOwner(spin) => Goto(s, t, if s.owner == Some(t) then OwnerIncrement else SpinLoad(spin))
    case SpinLoad(spin) => Goto(s, t, if s.lockQueue == 0 then SpinCas(spin) else SpinYield(spin))
    case SpinCas(spin) =>
      if s.lockQueue == 0 then Goto(s.(lockQueue := 1), t, SetOwner) else Goto(s, t, SpinYield(spin))
    case SpinYield(spin) => Goto(s, t, if spin <= 1 then Enqueue else SpinOwner(spin - 1))
    case OwnerIncrement => Goto(s.(lockQueue := s.lockQueue + 1), t, SetOwner)
    case Enqueue =>
      Goto(s.(lockQueue := s.lockQueue + 1), t, if s.lockQueue + 1 > 1 then CheckNotOwner else SetOwner)
    case CheckNotOwner => Goto(Check(s, s.owner != Some(t)), t, Waiting)
    case Waiting => Goto(s.(semaphore := s.semaphore - 1), t, CheckFree)
    case CheckFree => Goto(Check(s, s.owner == None && s.recursion == 0), t, SetOwner)
    case SetOwner => Goto(s.(owner := Some(t)), t, IncrementRecursion)
    case IncrementRecursion => Return(s.(recursion := s.recursion + 1), t, h + 1)
    case TryOwner => Goto(s, t, if s.owner == Some(t) then TryIncrement else TryCas)
    case TryCas =>
      if s.lockQueue == 0 then Goto(s.(lockQueue := 1), t, TrySetOwner) else Return(s, t, h)
    case TrySetOwner => Goto(s.(owner := Some(t)), t, TryCheck)
    case TryCheck => Goto(Check(s, s.recursion == 0), t, IncrementRecursion)
    case TryIncrement => Goto(s.(lockQueue := s.lockQueue + 1), t, IncrementRecursion)
    case LeaveCheck => Goto(Check(s, s.owner == Some(t) && s.recursion >= 0), t, LeaveDecrement)
    case LeaveDecrement => Goto(s.(recursion := s.recursion - 1), t, LeaveTest)
    case LeaveTest => Goto(s, t, if s.recursion == 0 then LeaveClear else LeaveQueue)
    case LeaveClear => Goto(s.(owner := None), t, LeaveQueue)
    case LeaveQueue =>
      var s' := s.(lockQueue := s.lockQueue - 1);
      if s'.lockQueue > 0 then Goto(s', t, LeaveRecheck) else Return(s', t, if h == 0 then 0 else h - 1)
    case LeaveRecheck =>
      if s.recursion == 0 then Goto(s, t, LeaveSignal) else Return(s, t, if h == 0 then 0 else h - 1)
    case LeaveSignal => Return(s.(semaphore := s.semaphore + 1), t, if h == 0 then 0 else h - 1)
  }

  predicate Legal(s: State, schedule: seq<Action>)
    decreases |schedule|
  {
    schedule == [] || (Enabled(s, schedule[0]) && Legal(Next(s, schedule[0]), schedule[1..]))
  }

  function Execute(s: State, schedule: seq<Action>): State
    requires Legal(s, schedule)
    decreases |schedule|
  {
    if schedule == [] then s else Execute(Next(s, schedule[0]), schedule[1..])
  }

  // ---------------------------------------------------------------------------------------------
  // What each thread contributes to the shared counters
  // ---------------------------------------------------------------------------------------------

  /** The increments of `lock_queue_` this thread has made and not yet undone. */
  function QueueShare(th: Thread): nat {
    match th.pc
    case CheckNotOwner | Waiting | CheckFree | SetOwner | IncrementRecursion | TrySetOwner | TryCheck =>
      th.holds + 1
    case LeaveRecheck | LeaveSignal => if th.holds == 0 then 0 else th.holds - 1
    case _ => th.holds
  }

  /** A thread has the token from the step that acquires the lock to the step that gives it up:
      the decrement of `lock_queue_` to zero, or the signal to a waiter. */
  predicate InSection(th: Thread) {
    th.holds > 0 || th.pc in {CheckFree, SetOwner, IncrementRecursion, TrySetOwner, TryCheck}
  }

  function Token(th: Thread): nat {
    if InSection(th) then 1 else 0
  }

  function OwnerSeen(t: nat, th: Thread): Option<nat> {
    match th.pc
    case CheckFree | TrySetOwner => None
    case SetOwner => if th.holds == 0 then None else Some(t)
    case LeaveQueue | LeaveRecheck | LeaveSignal => if th.holds == 1 then None else Some(t)
    case _ => Some(t)
  }

  function RecursionSeen(th: Thread): int {
    match th.pc
    case LeaveTest | LeaveClear | LeaveQueue | LeaveRecheck | LeaveSignal => th.holds - 1
    case _ => th.holds
  }

  predicate ThreadOk(th: Thread) {
    match th.pc
    case SpinLoad(_) | SpinCas(_) | SpinYield(_) | Enqueue | CheckNotOwner | Waiting | CheckFree
      | TryCas | TrySetOwner | TryCheck => th.holds == 0
    case OwnerIncrement | TryIncrement | LeaveCheck | LeaveDecrement | LeaveTest | LeaveQueue
      | LeaveRecheck => th.holds > 0
    case LeaveClear | LeaveSignal => th.holds == 1
    case _ => true
  }

  // ---------------------------------------------------------------------------------------------
  // The invariant
  // ---------------------------------------------------------------------------------------------

  function Tokens(s: State): nat {
    s.semaphore + Total(s.threads, Token)
  }

  ghost predicate Inv(s: State) {
    && !s.assertFailed
    && (forall t | 0 <= t < |s.threads| :: ThreadOk(s.threads[t]))
    && s.lockQueue == Total(s.threads, QueueShare)
    && Tokens(s) == (if s.lockQueue > 0 then 1 else 0)
    && (forall t: nat | t < |s.threads| && InSection(s.threads[t]) ::
          s.owner == OwnerSeen(t, s.threads[t]) && s.recursion == RecursionSeen(s.threads[t]))
    && (Total(s.threads, Token) == 0 ==> s.owner == None && s.recursion == 0)
  }

  lemma InitInv(n: nat)
    ensures Inv(Init(n))
  {
    var ts := Init(n).threads;
    if Total(ts, QueueShare) > 0 { var t := TotalWitness(ts, QueueShare); }
    if Total(ts, Token) > 0 { var t := TotalWitness(ts, Token); }
  }

  lemma TokenUnique(s: State, t: nat, u: nat)
    requires Inv(s)
    requires t < |s.threads| && u < |s.threads|
    requires InSection(s.threads[t]) && InSection(s.threads[u])
    ensures t == u
  {
    if t < u { TotalTwo(s.threads, t, u, Token); }
    if u < t { TotalTwo(s.threads, u, t, Token); }
  }

  /** What the invariant says about one thread, with the tokens of all the others as a number. */
  ghost predicate Local(s: State, t: nat, others: nat)
    requires t < |s.threads|
  {
    var th := s.threads[t];
    && !s.assertFailed
    && ThreadOk(th)
    && QueueShare(th) <= s.lockQueue
    && s.semaphore + others + Token(th) == (if s.lockQueue > 0 then 1 else 0)
    && (InSection(th) ==> s.owner == OwnerSeen(t, th) && s.recursion == RecursionSeen(th))
    && (!InSection(th) ==> s.owner != Some(t))
    && (!InSection(th) && others == 0 ==> s.owner == None && s.recursion == 0)
  }

  /** How one thread may change its own part and the shared fields. */
  ghost predicate LocalChange(s: State, s': State, t: nat, others: nat)
    requires t < |s.threads|
  {
    && |s'.threads| == |s.threads|
    && s'.threads == s.threads[t := s'.threads[t]]
    && s'.lockQueue - QueueShare(s'.threads[t]) == s.lockQueue - QueueShare(s.threads[t])
    && Local(s', t, others)
    && (others > 0 ==> s'.owner == s.owner && s'.recursion == s.recursion)
  }

  lemma LocalStep(s: State, a: Action, others: nat)
    requires Enabled(s, a) && Local(s, a.thread, others)
    ensures LocalChange(s, Next(s, a), a.thread, others)
  {
    match s.threads[a.thread].pc
    case Outside | SpinOwner(_) | SpinLoad(_) | SpinCas(_) | SpinYield(_) | OwnerIncrement | Enqueue =>
      LocalStepQueueing(s, a, others);
    case CheckNotOwner | Waiting | CheckFree | SetOwner | IncrementRecursion =>
      LocalStepAcquiring(s, a, others);
    case TryOwner | TryCas | TrySetOwner | TryCheck | TryIncrement =>
      LocalStepTrying(s, a, others);
    case LeaveCheck | LeaveDecrement | LeaveTest | LeaveClear =>
      LocalStepClearing(s, a, others);
    case _ =>
      LocalStepLeaving(s, a, others);
  }

  lemma LocalStepQueueing(s: State, a: Action, others: nat)
    requires Enabled(s, a) && Local(s, a.thread, others)
    requires var pc := s.threads[a.thread].pc;
      pc.Outside? || pc.SpinOwner? || pc.SpinLoad? || pc.SpinCas? || pc.SpinYield?
      || pc.OwnerIncrement? || pc.Enqueue?
    ensures LocalChange(s, Next(s, a), a.thread, others)
  {
  }

  lemma LocalStepAcquiring(s: State, a: Action, others: nat)
    requires Enabled(s, a) && Local(s, a.thread, others)
    requires var pc := s.threads[a.thread].pc;
      pc.CheckNotOwner? || pc.Waiting? || pc.CheckFree? || pc.SetOwner? || pc.IncrementRecursion?
    ensures LocalChange(s, Next(s, a), a.thread, others)
  {
  }

  lemma LocalStepTrying(s: State, a: Action, others: nat)
    requires Enabled(s, a) && Local(s, a.thread, others)
    requires var pc := s.threads[a.thread].pc;
      pc.TryOwner? || pc.TryCas? || pc.TrySetOwner? || pc.TryCheck? || pc.TryIncrement?
    ensures LocalChange(s, Next(s, a), a.thread, others)
  {
  }

  lemma LocalStepClearing(s: State, a: Action, others: nat)
    requires Enabled(s, a) && Local(s, a.thread, others)
    requires var pc := s.threads[a.thread].pc;
      pc.LeaveCheck? || pc.LeaveDecrement? || pc.LeaveTest? || pc.LeaveClear?
    ensures LocalChange(s, Next(s, a), a.thread, others)
  {
  }

  lemma LocalStepLeaving(s: State, a: Action, others: nat)
    requires Enabled(s, a) && Local(s, a.thread, others)
    requires var pc := s.threads[a.thread].pc;
      pc.LeaveQueue? || pc.LeaveRecheck? || pc.LeaveSignal?
    ensures LocalChange(s, Next(s, a), a.thread, others)
  {
  }

  lemma ToLocal(s: State, t: nat)
    requires Inv(s) && t < |s.threads|
    ensures Token(s.threads[t]) <= Total(s.threads, Token)
    ensures Local(s, t, Total(s.threads, Token) - Token(s.threads[t]))
  {
    TotalUpdate(s.threads, t, s.threads[t], QueueShare);
    TotalUpdate(s.threads, t, s.threads[t], Token);
    if Total(s.threads, Token) > 0 {
      var u := TotalWitness(s.threads, Token);
      if InSection(s.threads[t]) { TokenUnique(s, t, u); }
    }
  }

  lemma FromLocal(s: State, s': State, t: nat)
    requires Inv(s) && t < |s.threads| && Token(s.threads[t]) <= Total(s.threads, Token)
    requires LocalChange(s, s', t, Total(s.threads, Token) - Token(s.threads[t]))
    ensures Inv(s')
  {
    TotalUpdate(s.threads, t, s'.threads[t], QueueShare);
    TotalUpdate(s.threads, t, s'.threads[t], Token);
    forall u: nat | u < |s.threads| && u != t && InSection(s.threads[u])
      ensures Total(s.threads, Token) - Token(s.threads[t]) > 0
    {
      if u < t { TotalTwo(s.threads, u, t, Token); } else { TotalTwo(s.threads, t, u, Token); }
    }
  }

  lemma NextInv(s: State, a: Action)
    requires Inv(s) && Enabled(s, a)
    ensures Inv(Next(s, a))
  {
    ToLocal(s, a.thread);
    LocalStep(s, a, Total(s.threads, Token) - Token(s.threads[a.thread]));
    FromLocal(s, Next(s, a), a.thread);
  }

  lemma {:induction false} ExecuteInv(s: State, schedule: seq<Action>)
    requires Inv(s) && Legal(s, schedule)
    ensures Inv(Execute(s, schedule))
    decreases |schedule|
  {
    if schedule != [] {
      NextInv(s, schedule[0]);
      ExecuteInv(Next(s, schedule[0]), schedule[1..]);
    }
  }

  // ---------------------------------------------------------------------------------------------
  // Safety of every run
  // ---------------------------------------------------------------------------------------------

  /** The state after `n` threads have taken the steps of `schedule`, starting from a new lock. */
  function After(n: nat, schedule: seq<Action>): State
    requires Legal(Init(n), schedule)
  {
    Execute(Init(n), schedule)
  }

  lemma AfterInv(n: nat, schedule: seq<Action>)
    requires Legal(Init(n), schedule)
    ensures Inv(After(n, schedule))
  {
    InitInv(n);
    ExecuteInv(Init(n), schedule);
  }

  /** At most one thread is between acquiring and releasing the lock, and no assertion in `Enter`,
      `TryEnter` or `Leave` has ever failed. */
  lemma MutualExclusion(n: nat, schedule: seq<Action>)
    requires Legal(Init(n), schedule)
    ensures !After(n, schedule).assertFailed
    ensures forall t: nat, u: nat | t < |After(n, schedule).threads| && u < |After(n, schedule).threads| ::
      InSection(After(n, schedule).threads[t]) && InSection(After(n, schedule).threads[u]) ==> t == u
  {
    AfterInv(n, schedule);
    var s := After(n, schedule);
    forall t: nat, u: nat |
      t < |s.threads| && u < |s.threads| && InSection(s.threads[t]) && InSection(s.threads[u])
      ensures t == u
    {
      TokenUnique(s, t, u);
    }
  }

  /** Threads that have queued up and do not have the lock yet. */
  function Queued(th: Thread): nat {
    if th.pc.Waiting? || th.pc.CheckNotOwner? then 1 else 0
  }

  lemma {:induction false} QueuedIsShare(ts: seq<Thread>)
    requires forall t | 0 <= t < |ts| :: ThreadOk(ts[t]) && !InSection(ts[t])
    ensures Total(ts, QueueShare) == Total(ts, Queued)
    decreases |ts|
  {
    if ts != [] {
      assert ThreadOk(ts[0]);
      QueuedIsShare(ts[1..]);
    }
  }

  /** With `lock_queue_` not zero the compare-and-swaps fail, and only a wake-up acquires. */
  lemma AcquireStep(s: State, a: Action)
    requires Enabled(s, a) && ThreadOk(s.threads[a.thread]) && s.lockQueue > 0
    requires !InSection(s.threads[a.thread]) && InSection(Next(s, a).threads[a.thread])
    ensures s.threads[a.thread].pc.Waiting? && s.semaphore > 0
  {
  }

  lemma OthersStay(s: State, a: Action, t: nat)
    requires Enabled(s, a) && t < |s.threads| && t != a.thread
    ensures |Next(s, a).threads| == |s.threads| && Next(s, a).threads[t] == s.threads[t]
  {
  }

  lemma SemaphoreMeansFree(s: State, t: nat)
    requires Inv(s) && s.semaphore > 0 && t < |s.threads|
    ensures !InSection(s.threads[t])
  {
    TotalUpdate(s.threads, t, s.threads[t], Token);
  }

  /** The step by which a thread comes to have the lock. */
  predicate Acquires(s: State, a: Action, t: nat)
    requires Enabled(s, a)
  {
    && t < |s.threads| && !InSection(s.threads[t])
    && t < |Next(s, a).threads| && InSection(Next(s, a).threads[t])
  }

  /** Nobody overtakes the queue: while a thread is queued, every step by which some thread comes to
      have the lock is the wake-up of a queued thread, and no thread had the lock before it. */
  lemma OnlyQueuedAcquire(n: nat, schedule: seq<Action>, w: nat, a: Action, t: nat)
    requires Legal(Init(n), schedule) && Enabled(After(n, schedule), a)
    requires w < |After(n, schedule).threads| && Queued(After(n, schedule).threads[w]) > 0
    requires Acquires(After(n, schedule), a, t)
    ensures t == a.thread && Queued(After(n, schedule).threads[t]) > 0
    ensures forall u: nat | u < |After(n, schedule).threads| :: !InSection(After(n, schedule).threads[u])
  {
    AfterInv(n, schedule);
    AcquiredFromQueue(After(n, schedule), w, a, t);
  }

  lemma AcquiredFromQueue(s: State, w: nat, a: Action, t: nat)
    requires Inv(s) && Enabled(s, a) && w < |s.threads| && Queued(s.threads[w]) > 0
    requires Acquires(s, a, t)
    ensures t == a.thread && Queued(s.threads[t]) > 0
    ensures forall u: nat | u < |s.threads| :: !InSection(s.threads[u])
  {
    TotalUpdate(s.threads, w, s.threads[w], QueueShare);
    if t != a.thread { OthersStay(s, a, t); }
    AcquireStep(s, a);
    forall u: nat | u < |s.threads| ensures !InSection(s.threads[u]) {
      SemaphoreMeansFree(s, u);
    }
  }

  /** `lock_queue_` is the holder's outstanding increments plus the number of queued threads. */
  lemma QueueCounts(n: nat, schedule: seq<Action>)
    requires Legal(Init(n), schedule)
    ensures var s := After(n, schedule);
      && (forall t: nat | t < |s.threads| && InSection(s.threads[t]) ::
            s.lockQueue == QueueShare(s.threads[t]) + Total(s.threads, Queued))
      && ((forall t | 0 <= t < |s.threads| :: !InSection(s.threads[t])) ==> s.lockQueue == Total(s.threads, Queued))
  {
    AfterInv(n, schedule);
    var s := After(n, schedule);
    if forall t | 0 <= t < |s.threads| :: !InSection(s.threads[t]) { QueuedIsShare(s.threads); }
    forall t: nat | t < |s.threads| && InSection(s.threads[t])
      ensures s.lockQueue == QueueShare(s.threads[t]) + Total(s.threads, Queued)
    {
      QueueBehind(s, t);
    }
  }

  lemma QueueBehind(s: State, t: nat)
    requires Inv(s) && t < |s.threads| && InSection(s.threads[t])
    ensures s.lockQueue == QueueShare(s.threads[t]) + Total(s.threads, Queued)
  {
    var rest := s.threads[t := Thread(Outside, 0)];
    forall u | 0 <= u < |rest| ensures ThreadOk(rest[u]) && !InSection(rest[u]) {
      if u != t && InSection(s.threads[u]) { TokenUnique(s, t, u); }
    }
    QueuedIsShare(rest);
    TotalUpdate(s.threads, t, Thread(Outside, 0), QueueShare);
    TotalUpdate(s.threads, t, Thread(Outside, 0), Queued);
  }

  /** Once every call has returned and every hold has been given back, the lock is as good as new:
      no unit is left in the semaphore and nobody is recorded as owner. */
  lemma QuiescentIsInitial(n: nat, schedule: seq<Action>)
    requires Legal(Init(n), schedule)
    requires forall t | 0 <= t < |After(n, schedule).threads| :: After(n, schedule).threads[t] == Thread(Outside, 0)
    ensures After(n, schedule) == Init(n)
  {
    AfterInv(n, schedule);
    var s := After(n, schedule);
    ThreadCountFixed(Init(n), schedule);
    assert s.threads == Init(n).threads;
    if Total(s.threads, QueueShare) > 0 { var t := TotalWitness(s.threads, QueueShare); }
  }

  lemma {:induction false} ThreadCountFixed(s: State, schedule: seq<Action>)
    requires Legal(s, schedule)
    ensures |Execute(s, schedule).threads| == |s.threads|
    decreases |schedule|
  {
    if schedule != [] { ThreadCountFixed(Next(s, schedule[0]), schedule[1..]); }
  }

  // ---------------------------------------------------------------------------------------------
  // No lost wake-up
  // ---------------------------------------------------------------------------------------------

  /** While a thread is queued there is exactly one token: one unit in the semaphore, or one thread
      that is in the section and so has still to hand the lock on. */
  lemma ExactlyOneToken(n: nat, schedule: seq<Action>, w: nat)
    requires Legal(Init(n), schedule)
    requires w < |After(n, schedule).threads| && Queued(After(n, schedule).threads[w]) > 0
    ensures var s := After(n, schedule);
      || (s.semaphore == 1 && forall t | 0 <= t < |s.threads| :: !InSection(s.threads[t]))
      || (s.semaphore == 0 && exists t: nat :: t < |s.threads| && InSection(s.threads[t])
                                          && forall u: nat | u < |s.threads| && InSection(s.threads[u]) :: u == t)
  {
    AfterInv(n, schedule);
    var s := After(n, schedule);
    TotalUpdate(s.threads, w, s.threads[w], QueueShare);
    if s.semaphore == 1 {
      forall t | 0 <= t < |s.threads| ensures !InSection(s.threads[t]) {
        TotalUpdate(s.threads, t, s.threads[t], Token);
      }
    } else {
      var t := TotalWitness(s.threads, Token);
      forall u: nat | u < |s.threads| && InSection(s.threads[u]) ensures u == t { TokenUnique(s, t, u); }
    }
  }

  /** An upper bound on the steps a thread in the section needs to release all its holds. */
  function StepsToRelease(th: Thread): nat {
    var h := 8 * th.holds;
    match th.pc
    case SpinOwner(_) | TryOwner => h + 12
    case OwnerIncrement | TryIncrement | CheckFree | TrySetOwner => h + 11
    case SetOwner | TryCheck => h + 10
    case IncrementRecursion => h + 9
    case LeaveCheck => if th.holds == 0 then 0 else h - 1
    case LeaveDecrement => if th.holds == 0 then 0 else h - 2
    case LeaveTest => if th.holds == 0 then 0 else h - 3
    case LeaveClear => if th.holds == 0 then 0 else h - 4
    case LeaveQueue => if th.holds == 0 then 0 else h - 5
    case LeaveRecheck => if th.holds == 0 then 0 else h - 6
    case LeaveSignal => if th.holds == 0 then 0 else h - 7
    case _ => h
  }

  /** A step towards the release: the thread gets closer to it, or it has put a unit in the semaphore. */
  ghost predicate CloserToRelease(s: State, s': State, u: nat)
    requires u < |s.threads|
  {
    && |s'.threads| == |s.threads|
    && (s'.semaphore > 0
        || (InSection(s'.threads[u]) && StepsToRelease(s'.threads[u]) < StepsToRelease(s.threads[u])))
  }

  lemma ReleaseStepClearing(s: State, u: nat)
    requires u < |s.threads| && Local(s, u, 0) && InSection(s.threads[u])
    requires var pc := s.threads[u].pc;
      pc.LeaveCheck? || pc.LeaveDecrement? || pc.LeaveTest? || pc.LeaveClear?
    ensures CloserToRelease(s, Next(s, Action(u, Leave)), u)
  {
  }

  lemma ReleaseStepLeaving(s: State, u: nat)
    requires u < |s.threads| && Local(s, u, 0) && InSection(s.threads[u])
    requires s.lockQueue > QueueShare(s.threads[u])
    requires var pc := s.threads[u].pc;
      pc.LeaveQueue? || pc.LeaveRecheck? || pc.LeaveSignal?
    ensures CloserToRelease(s, Next(s, Action(u, Leave)), u)
  {
  }

  /** Calling `Leave` whenever it is outside, the thread in the section comes closer to releasing,
      and if somebody else is queued the release is a signal. */
  lemma ReleaseStep(s: State, u: nat)
    requires u < |s.threads| && Local(s, u, 0) && InSection(s.threads[u])
    requires s.lockQueue > QueueShare(s.threads[u])
    ensures Enabled(s, Action(u, Leave))
    ensures CloserToRelease(s, Next(s, Action(u, Leave)), u)
  {
    match s.threads[u].pc
    case Outside | SpinOwner(_) | OwnerIncrement | CheckFree | SetOwner | IncrementRecursion =>
    case TryOwner | TrySetOwner | TryCheck | TryIncrement =>
    case LeaveCheck | LeaveDecrement | LeaveTest | LeaveClear => ReleaseStepClearing(s, u);
    case _ => ReleaseStepLeaving(s, u);
  }

  lemma ReleaseOne(s: State, w: nat, u: nat)
    requires Inv(s) && w < |s.threads| && s.threads[w].pc.Waiting?
    requires s.semaphore == 0 && u < |s.threads| && InSection(s.threads[u])
    ensures Enabled(s, Action(u, Leave))
    ensures var s' := Next(s, Action(u, Leave));
      Inv(s') && CloserToRelease(s, s', u) && w < |s'.threads| && s'.threads[w] == s.threads[w]
  {
    hide Local, CloserToRelease;
    assert ThreadOk(s.threads[w]);
    ToLocal(s, u);
    TotalUpdate(s.threads, u, s.threads[u], Token);
    if w < u { TotalTwo(s.threads, w, u, QueueShare); } else { TotalTwo(s.threads, u, w, QueueShare); }
    ReleaseStep(s, u);
    NextInv(s, Action(u, Leave));
    OthersStay(s, Action(u, Leave), w);
  }

  lemma {:induction false} ReleaseReaches(s: State, w: nat, u: nat) returns (schedule: seq<Action>)
    requires Inv(s) && w < |s.threads| && s.threads[w].pc.Waiting?
    requires s.semaphore > 0 || (u < |s.threads| && InSection(s.threads[u]))
    ensures Legal(s, schedule)
    ensures var s' := Execute(s, schedule);
      Inv(s') && |s'.threads| == |s.threads| && s'.threads[w] == s.threads[w] && s'.semaphore > 0
    decreases if s.semaphore > 0 then 0 else 1 + StepsToRelease(s.threads[u])
  {
    hide Inv, Enabled, Next, InSection, StepsToRelease;
    schedule := [];
    if s.semaphore == 0 {
      var a := Action(u, Leave);
      ReleaseOne(s, w, u);
      var rest := ReleaseReaches(Next(s, a), w, u);
      schedule := [a] + rest;
      assert schedule[1..] == rest;
    }
  }

  /** The four steps of a waiter that finds a unit in the semaphore. */
  lemma TakeOver(s: State, w: nat)
    requires Inv(s) && w < |s.threads| && s.threads[w].pc.Waiting? && s.semaphore > 0
    ensures var a := Action(w, Enter);
      && Legal(s, [a, a, a, a])
      && |Execute(s, [a, a, a, a]).threads| == |s.threads|
      && Execute(s, [a, a, a, a]).threads[w] == Thread(Outside, 1)
  {
    hide Enabled, Next;
    var a := Action(w, Enter);
    assert ThreadOk(s.threads[w]);
    var s1, s2, s3, s4 := TakeOverSteps(s, w);
    ExecuteFirst(s3, a, []);
    ExecuteFirst(s2, a, [a]);
    ExecuteFirst(s1, a, [a, a]);
    ExecuteFirst(s, a, [a, a, a]);
  }

  lemma TakeOverSteps(s: State, w: nat) returns (s1: State, s2: State, s3: State, s4: State)
    requires w < |s.threads| && s.threads[w] == Thread(Waiting, 0) && s.semaphore > 0
    ensures var a := Action(w, Enter);
      && Enabled(s, a) && s1 == Next(s, a) && Enabled(s1, a) && s2 == Next(s1, a)
      && Enabled(s2, a) && s3 == Next(s2, a) && Enabled(s3, a) && s4 == Next(s3, a)
    ensures |s4.threads| == |s.threads| && s4.threads[w] == Thread(Outside, 1)
  {
    var a := Action(w, Enter);
    s1 := Next(s, a);
    assert s1.threads[w] == Thread(CheckFree, 0);
    s2 := Next(s1, a);
    assert s2.threads[w] == Thread(SetOwner, 0);
    s3 := Next(s2, a);
    assert s3.threads[w] == Thread(IncrementRecursion, 0);
    s4 := Next(s3, a);
  }

  lemma ExecuteFirst(s: State, a: Action, rest: seq<Action>)
    requires Enabled(s, a) && Legal(Next(s, a), rest)
    ensures Legal(s, [a] + rest) && Execute(s, [a] + rest) == Execute(Next(s, a), rest)
  {
    hide Enabled, Next;
    assert ([a] + rest)[1..] == rest;
  }

  lemma {:induction false} ExecuteAppend(s: State, first: seq<Action>, second: seq<Action>)
    requires Legal(s, first) && Legal(Execute(s, first), second)
    ensures Legal(s, first + second)
    ensures Execute(s, first + second) == Execute(Execute(s, first), second)
    decreases |first|
  {
    hide Enabled, Next;
    if first == [] {
      assert first + second == second;
    } else {
      ExecuteAppend(Next(s, first[0]), first[1..], second);
      assert (first + second)[1..] == first[1..] + second;
    }
  }

  /** No run can strand a waiter: from every reachable state there is a continuation in which the
      waiting thread comes back from `Enter` with the lock. */
  lemma WaiterCanAlwaysAcquire(n: nat, schedule: seq<Action>, w: nat) returns (more: seq<Action>)
    requires Legal(Init(n), schedule)
    requires w < |After(n, schedule).threads| && After(n, schedule).threads[w].pc.Waiting?
    ensures Legal(Init(n), schedule + more)
    ensures w < |After(n, schedule + more).threads|
    ensures After(n, schedule + more).threads[w] == Thread(Outside, 1)
  {
    AfterInv(n, schedule);
    var s := After(n, schedule);
    TotalUpdate(s.threads, w, s.threads[w], QueueShare);
    var u := 0;
    if s.semaphore == 0 { u := TotalWitness(s.threads, Token); }
    var first := ReleaseReaches(s, w, u);
    TakeOver(Execute(s, first), w);
    var a := Action(w, Enter);
    ExecuteAppend(s, first, [a, a, a, a]);
    more := first + [a, a, a, a];
    ExecuteAppend(Init(n), schedule, more);
  }

  // ---------------------------------------------------------------------------------------------
  // What a call does when nobody interferes
  // ---------------------------------------------------------------------------------------------

  /** A bound on the number of steps up to the end of a call. */
  function StepsInCall(pc: Pc): nat {
    match pc
    case Outside => 0
    case SpinOwner(spin) => 4 * spin + 13
    case SpinLoad(spin) => 4 * spin + 12
    case SpinCas(spin) => 4 * spin + 11
    case SpinYield(spin) => 4 * spin + 10
    case Enqueue => 6
    case CheckNotOwner => 5
    case Waiting => 4
    case OwnerIncrement | CheckFree => 3
    case SetOwner => 2
    case IncrementRecursion => 1
    case TryOwner => 5
    case TryCas => 4
    case TrySetOwner => 3
    case TryCheck | TryIncrement => 2
    case LeaveCheck => 7
    case LeaveDecrement => 6
    case LeaveTest => 5
    case LeaveClear => 4
    case LeaveQueue => 3
    case LeaveRecheck => 2
    case LeaveSignal => 1
  }

  /** In the middle of a call, and not held up at the semaphore. */
  predicate CanStep(s: State, t: nat) {
    t < |s.threads| && !s.threads[t].pc.Outside? && (s.threads[t].pc.Waiting? ==> s.semaphore > 0)
  }

  /** The state when thread `t`, running alone, has come back from its call or is held up. */
  function RunAlone(s: State, t: nat, call: Call): State
    decreases if t < |s.threads| then StepsInCall(s.threads[t].pc) else 0
  {
    if CanStep(s, t) then RunAlone(Next(s, Action(t, call)), t, call) else s
  }

  /** Calls and runs alone. */
  function CallAlone(s: State, t: nat, call: Call): State
    requires Enabled(s, Action(t, call))
  {
    RunAlone(Next(s, Action(t, call)), t, call)
  }

  function Repeated(a: Action, k: nat): seq<Action> { seq(k, _ => a) }

  /** The number of steps it takes. */
  function LengthAlone(s: State, t: nat, call: Call): nat
    decreases if t < |s.threads| then StepsInCall(s.threads[t].pc) else 0
  {
    if CanStep(s, t) then 1 + LengthAlone(Next(s, Action(t, call)), t, call) else 0
  }

  lemma {:induction false} RunAloneIsRun(s: State, t: nat, call: Call, k: nat)
    requires k == LengthAlone(s, t, call)
    ensures Legal(s, Repeated(Action(t, call), k))
    ensures Execute(s, Repeated(Action(t, call), k)) == RunAlone(s, t, call)
    decreases k
  {
    hide Next, StepsInCall;
    if CanStep(s, t) {
      var a := Action(t, call);
      RunAloneIsRun(Next(s, a), t, call, k - 1);
      ExecuteFirst(s, a, Repeated(a, k - 1));
      assert [a] + Repeated(a, k - 1) == Repeated(a, k);
    }
  }

  /** What a thread does alone is a run of the lock. */
  lemma CallAloneIsRun(s: State, t: nat, call: Call) returns (k: nat)
    requires Enabled(s, Action(t, call))
    ensures k == 1 + LengthAlone(Next(s, Action(t, call)), t, call)
    ensures Legal(s, Repeated(Action(t, call), k))
    ensures Execute(s, Repeated(Action(t, call), k)) == CallAlone(s, t, call)
  {
    hide RunAlone, LengthAlone, Next;
    var a := Action(t, call);
    k := 1 + LengthAlone(Next(s, a), t, call);
    RunAloneIsRun(Next(s, a), t, call, k - 1);
    ExecuteFirst(s, a, Repeated(a, k - 1));
    assert [a] + Repeated(a, k - 1) == Repeated(a, k);
  }

  lemma RunStep(s: State, t: nat, call: Call, pc: Pc)
    requires t < |s.threads| && CanStep(Goto(s, t, pc), t)
    ensures RunAlone(Goto(s, t, pc), t, call) == RunAlone(Next(Goto(s, t, pc), Action(t, call)), t, call)
    ensures LengthAlone(Goto(s, t, pc), t, call) == 1 + LengthAlone(Next(Goto(s, t, pc), Action(t, call)), t, call)
  {
  }

  /** The last steps of every successful entry. */
  lemma TakeAlone(s: State, t: nat, call: Call)
    requires t < |s.threads|
    ensures RunAlone(Goto(s, t, IncrementRecursion), t, call).threads == s.threads[t := Thread(Outside, s.threads[t].holds + 1)]
    ensures RunAlone(Goto(s, t, SetOwner), t, call).threads == s.threads[t := Thread(Outside, s.threads[t].holds + 1)]
  {
    var own := s.(owner := Some(t));
    RunStep(s, t, call, IncrementRecursion);
    assert RunAlone(Goto(s, t, IncrementRecursion), t, call) == Return(s.(recursion := s.recursion + 1), t, s.threads[t].holds + 1);
    RunStep(s, t, call, SetOwner);
    assert Next(Goto(s, t, SetOwner), Action(t, call)) == Goto(own, t, IncrementRecursion);
    RunStep(own, t, call, IncrementRecursion);
    assert RunAlone(Goto(own, t, IncrementRecursion), t, call) == Return(own.(recursion := s.recursion + 1), t, s.threads[t].holds + 1);
  }

  // The calls, step by step. `s` is the state apart from the program counter of the caller.

  lemma TryAlone(s: State, t: nat)
    requires t < |s.threads| && (s.lockQueue == 0 ==> s.owner != Some(t))
    ensures RunAlone(Goto(s, t, TryOwner), t, TryEnter).threads ==
      s.threads[t := Thread(Outside, s.threads[t].holds + if s.owner == Some(t) || s.lockQueue == 0 then 1 else 0)]
  {
    hide RunAlone, LengthAlone;
    var a := Action(t, TryEnter);
    RunStep(s, t, TryEnter, TryOwner);
    if s.owner == Some(t) {
      var more := s.(lockQueue := s.lockQueue + 1);
      RunStep(s, t, TryEnter, TryIncrement);
      assert Next(Goto(s, t, TryOwner), a) == Goto(s, t, TryIncrement);
      assert Next(Goto(s, t, TryIncrement), a) == Goto(more, t, IncrementRecursion);
      TakeAlone(more, t, TryEnter);
    } else {
      assert Next(Goto(s, t, TryOwner), a) == Goto(s, t, TryCas);
      TrySwapAlone(s, t);
    }
  }

  lemma TrySwapAlone(s: State, t: nat)
    requires t < |s.threads|
    ensures RunAlone(Goto(s, t, TryCas), t, TryEnter).threads ==
      s.threads[t := Thread(Outside, s.threads[t].holds + if s.lockQueue == 0 then 1 else 0)]
  {
    hide RunAlone, LengthAlone;
    var a := Action(t, TryEnter);
    RunStep(s, t, TryEnter, TryCas);
    if s.lockQueue == 0 {
      var one := s.(lockQueue := 1);
      var own := one.(owner := Some(t));
      var checked := Check(own, own.recursion == 0);
      RunStep(one, t, TryEnter, TrySetOwner);
      RunStep(own, t, TryEnter, TryCheck);
      assert Next(Goto(s, t, TryCas), a) == Goto(one, t, TrySetOwner);
      assert Next(Goto(one, t, TrySetOwner), a) == Goto(own, t, TryCheck);
      assert Next(Goto(own, t, TryCheck), a) == Goto(checked, t, IncrementRecursion);
      TakeAlone(checked, t, TryEnter);
    } else {
      assert Next(Goto(s, t, TryCas), a) == Return(s, t, s.threads[t].holds);
      ReturnAlone(s, t, TryEnter, s.threads[t].holds);
    }
  }

  lemma ReturnAlone(s: State, t: nat, call: Call, holds: nat)
    requires t < |s.threads|
    ensures RunAlone(Return(s, t, holds), t, call) == Return(s, t, holds)
  {
  }

  /** While the lock is taken, polling changes nothing; each time takes three steps. */
  lemma {:induction false} SpinAlone(s: State, t: nat, spin: nat)
    requires t < |s.threads| && s.owner != Some(t) && s.lockQueue != 0
    ensures RunAlone(Goto(s, t, SpinOwner(spin)), t, Enter) == RunAlone(Goto(s, t, Enqueue), t, Enter)
    ensures LengthAlone(Goto(s, t, SpinOwner(spin)), t, Enter) == 3 * Max(spin, 1) + LengthAlone(Goto(s, t, Enqueue), t, Enter)
    decreases spin
  {
    hide RunAlone, LengthAlone;
    var a := Action(t, Enter);
    RunStep(s, t, Enter, SpinOwner(spin));
    RunStep(s, t, Enter, SpinLoad(spin));
    RunStep(s, t, Enter, SpinYield(spin));
    assert Next(Goto(s, t, SpinOwner(spin)), a) == Goto(s, t, SpinLoad(spin));
    assert Next(Goto(s, t, SpinLoad(spin)), a) == Goto(s, t, SpinYield(spin));
    assert Next(Goto(s, t, SpinYield(spin)), a) == Goto(s, t, if spin <= 1 then Enqueue else SpinOwner(spin - 1));
    if spin > 1 { SpinAlone(s, t, spin - 1); }
  }

  /** A thread that has queued up waits, unless a unit is there for it. */
  lemma QueueAlone(s: State, t: nat)
    requires t < |s.threads| && s.lockQueue > 0
    ensures RunAlone(Goto(s, t, Enqueue), t, Enter).threads ==
      s.threads[t := if s.semaphore > 0 then Thread(Outside, s.threads[t].holds + 1) else Thread(Waiting, s.threads[t].holds)]
    ensures s.semaphore == 0 ==> LengthAlone(Goto(s, t, Enqueue), t, Enter) == 2
  {
    hide RunAlone, LengthAlone;
    var a := Action(t, Enter);
    var more := s.(lockQueue := s.lockQueue + 1);
    var checked := Check(more, more.owner != Some(t));
    RunStep(s, t, Enter, Enqueue);
    RunStep(more, t, Enter, CheckNotOwner);
    assert Next(Goto(s, t, Enqueue), a) == Goto(more, t, CheckNotOwner);
    assert Next(Goto(more, t, CheckNotOwner), a) == Goto(checked, t, Waiting);
    if s.semaphore > 0 {
      var woken := checked.(semaphore := s.semaphore - 1);
      var free := Check(woken, woken.owner == None && woken.recursion == 0);
      RunStep(checked, t, Enter, Waiting);
      RunStep(woken, t, Enter, CheckFree);
      assert Next(Goto(checked, t, Waiting), a) == Goto(woken, t, CheckFree);
      assert Next(Goto(woken, t, CheckFree), a) == Goto(free, t, SetOwner);
      TakeAlone(free, t, Enter);
    } else {
      HeldUp(checked, t);
    }
  }

  lemma HeldUp(s: State, t: nat)
    requires t < |s.threads| && s.semaphore == 0
    ensures RunAlone(Goto(s, t, Waiting), t, Enter) == Goto(s, t, Waiting)
    ensures LengthAlone(Goto(s, t, Waiting), t, Enter) == 0
  {
  }

  /** A lock that is free, or one's own, is entered without queueing up. */
  lemma EnterAtOnce(s: State, t: nat)
    requires t < |s.threads| && (s.owner == Some(t) || s.lockQueue == 0)
    ensures RunAlone(Goto(s, t, SpinOwner(SPIN_COUNT)), t, Enter).threads ==
      s.threads[t := Thread(Outside, s.threads[t].holds + 1)]
  {
    hide RunAlone, LengthAlone;
    var a := Action(t, Enter);
    RunStep(s, t, Enter, SpinOwner(SPIN_COUNT));
    if s.owner == Some(t) {
      var more := s.(lockQueue := s.lockQueue + 1);
      RunStep(s, t, Enter, OwnerIncrement);
      assert Next(Goto(s, t, SpinOwner(SPIN_COUNT)), a) == Goto(s, t, OwnerIncrement);
      assert Next(Goto(s, t, OwnerIncrement), a) == Goto(more, t, SetOwner);
      TakeAlone(more, t, Enter);
    } else {
      var one := s.(lockQueue := 1);
      RunStep(s, t, Enter, SpinLoad(SPIN_COUNT));
      RunStep(s, t, Enter, SpinCas(SPIN_COUNT));
      assert Next(Goto(s, t, SpinOwner(SPIN_COUNT)), a) == Goto(s, t, SpinLoad(SPIN_COUNT));
      assert Next(Goto(s, t, SpinLoad(SPIN_COUNT)), a) == Goto(s, t, SpinCas(SPIN_COUNT));
      assert Next(Goto(s, t, SpinCas(SPIN_COUNT)), a) == Goto(one, t, SetOwner);
      TakeAlone(one, t, Enter);
    }
  }

  // When they succeed.

  /** Nobody is in the section. */
  predicate Vacant(s: State) {
    forall u | 0 <= u < |s.threads| :: !InSection(s.threads[u])
  }

  predicate NobodyQueued(s: State) {
    forall u | 0 <= u < |s.threads| :: Queued(s.threads[u]) == 0
  }

  lemma FreeIff(s: State)
    requires Inv(s)
    ensures s.lockQueue >= 0 && (s.lockQueue == 0 <==> Vacant(s) && NobodyQueued(s))
    ensures s.lockQueue > 0 ==> (s.semaphore > 0 <==> Vacant(s))
    ensures s.lockQueue == 0 ==> s.semaphore == 0
  {
    forall u: nat | u < |s.threads| && (InSection(s.threads[u]) || Queued(s.threads[u]) > 0) ensures s.lockQueue > 0 {
      TotalUpdate(s.threads, u, s.threads[u], QueueShare);
      TotalUpdate(s.threads, u, s.threads[u], Token);
    }
    if s.lockQueue > 0 {
      var u := TotalWitness(s.threads, QueueShare);
      assert ThreadOk(s.threads[u]);
      if s.semaphore > 0 {
        forall v: nat | v < |s.threads| ensures !InSection(s.threads[v]) { SemaphoreMeansFree(s, v); }
      } else {
        var v := TotalWitness(s.threads, Token);
      }
    }
  }

  lemma OutsideOwner(s: State, t: nat)
    requires Inv(s) && t < |s.threads| && s.threads[t].pc.Outside?
    ensures s.owner == Some(t) <==> s.threads[t].holds > 0
    ensures s.threads[t].holds > 0 ==> s.lockQueue > 0 && s.semaphore == 0
  {
    ToLocal(s, t);
  }

  /** `TryEnter` without interference, in every run: it succeeds exactly when the lock is free, with
      nobody in the section and nobody queued, or the caller's own; if not, nothing has happened. */
  lemma TryEnterAlone(n: nat, schedule: seq<Action>, t: nat)
    requires Legal(Init(n), schedule) && Enabled(After(n, schedule), Action(t, TryEnter))
    requires After(n, schedule).threads[t].pc.Outside?
    ensures var s := After(n, schedule);
      var h := s.threads[t].holds;
      var succeeds := h > 0 || (Vacant(s) && NobodyQueued(s));
      CallAlone(s, t, TryEnter).threads == s.threads[t := Thread(Outside, if succeeds then h + 1 else h)]
  {
    hide RunAlone, LengthAlone, Vacant, NobodyQueued, Inv;
    AfterInv(n, schedule);
    var s := After(n, schedule);
    FreeIff(s);
    OutsideOwner(s, t);
    assert Next(s, Action(t, TryEnter)) == Goto(s, t, TryOwner);
    TryAlone(s, t);
  }

  /** `Enter` without interference: it comes back with the lock exactly when nobody else is in the
      section; otherwise it comes to wait. */
  lemma EnterAlone(n: nat, schedule: seq<Action>, t: nat)
    requires Legal(Init(n), schedule) && Enabled(After(n, schedule), Action(t, Enter))
    requires After(n, schedule).threads[t].pc.Outside?
    ensures var s := After(n, schedule);
      var h := s.threads[t].holds;
      && CallAlone(s, t, Enter).threads == s.threads[t := if h > 0 || Vacant(s) then Thread(Outside, h + 1) else Thread(Waiting, 0)]
      // It has polled the lock 3000 times by then.
      && (h == 0 && !Vacant(s) ==> LengthAlone(Next(s, Action(t, Enter)), t, Enter) == 3 * 3000 + 2)
  {
    hide RunAlone, LengthAlone, Vacant, NobodyQueued, Inv;
    AfterInv(n, schedule);
    var s := After(n, schedule);
    FreeIff(s);
    OutsideOwner(s, t);
    assert Next(s, Action(t, Enter)) == Goto(s, t, SpinOwner(SPIN_COUNT));
    if s.owner == Some(t) || s.lockQueue == 0 {
      EnterAtOnce(s, t);
    } else {
      SpinAlone(s, t, SPIN_COUNT);
      QueueAlone(s, t);
    }
  }

  lemma LeaveAloneRecheck(s: State, t: nat)
    requires t < |s.threads| && s.threads[t].holds > 0
    ensures var r := RunAlone(Goto(s, t, LeaveRecheck), t, Leave);
      && r.threads == s.threads[t := Thread(Outside, s.threads[t].holds - 1)] && r.lockQueue == s.lockQueue
      && r.semaphore == s.semaphore + (if s.recursion == 0 then 1 else 0)
  {
    hide RunAlone, LengthAlone;
    var a, h := Action(t, Leave), s.threads[t].holds - 1;
    RunStep(s, t, Leave, LeaveRecheck);
    if s.recursion == 0 {
      var more := s.(semaphore := s.semaphore + 1);
      assert Next(Goto(s, t, LeaveRecheck), a) == Goto(s, t, LeaveSignal);
      RunStep(s, t, Leave, LeaveSignal);
      assert Next(Goto(s, t, LeaveSignal), a) == Return(more, t, h);
      ReturnAlone(more, t, Leave, h);
    } else {
      assert Next(Goto(s, t, LeaveRecheck), a) == Return(s, t, h);
      ReturnAlone(s, t, Leave, h);
    }
  }

  lemma LeaveAloneQueue(s: State, t: nat)
    requires t < |s.threads| && s.threads[t].holds > 0
    ensures var r := RunAlone(Goto(s, t, LeaveQueue), t, Leave);
      && r.threads == s.threads[t := Thread(Outside, s.threads[t].holds - 1)] && r.lockQueue == s.lockQueue - 1
      && r.semaphore == s.semaphore + (if s.lockQueue > 1 && s.recursion == 0 then 1 else 0)
  {
    hide RunAlone, LengthAlone;
    var a, h := Action(t, Leave), s.threads[t].holds - 1;
    var less := s.(lockQueue := s.lockQueue - 1);
    RunStep(s, t, Leave, LeaveQueue);
    if less.lockQueue > 0 {
      assert Next(Goto(s, t, LeaveQueue), a) == Goto(less, t, LeaveRecheck);
      LeaveAloneRecheck(less, t);
    } else {
      assert Next(Goto(s, t, LeaveQueue), a) == Return(less, t, h);
      ReturnAlone(less, t, Leave, h);
    }
  }

  lemma LeaveAloneTest(s: State, t: nat)
    requires t < |s.threads| && s.threads[t].holds > 0
    ensures var r := RunAlone(Goto(s, t, LeaveTest), t, Leave);
      && r.threads == s.threads[t := Thread(Outside, s.threads[t].holds - 1)] && r.lockQueue == s.lockQueue - 1
      && r.semaphore == s.semaphore + (if s.lockQueue > 1 && s.recursion == 0 then 1 else 0)
  {
    hide RunAlone, LengthAlone;
    var a := Action(t, Leave);
    RunStep(s, t, Leave, LeaveTest);
    if s.recursion == 0 {
      var clear := s.(owner := None);
      assert Next(Goto(s, t, LeaveTest), a) == Goto(s, t, LeaveClear);
      RunStep(s, t, Leave, LeaveClear);
      assert Next(Goto(s, t, LeaveClear), a) == Goto(clear, t, LeaveQueue);
      LeaveAloneQueue(clear, t);
    } else {
      assert Next(Goto(s, t, LeaveTest), a) == Goto(s, t, LeaveQueue);
      LeaveAloneQueue(s, t);
    }
  }

  lemma LeaveAloneFrom(s: State, t: nat)
    requires t < |s.threads| && s.threads[t].holds > 0
    ensures var r := RunAlone(Goto(s, t, LeaveCheck), t, Leave);
      && r.threads == s.threads[t := Thread(Outside, s.threads[t].holds - 1)] && r.lockQueue == s.lockQueue - 1
      && r.semaphore == s.semaphore + (if s.lockQueue > 1 && s.recursion == 1 then 1 else 0)
  {
    hide RunAlone, LengthAlone;
    var a := Action(t, Leave);
    var checked := Check(s, s.owner == Some(t) && s.recursion >= 0);
    var less := checked.(recursion := s.recursion - 1);
    RunStep(s, t, Leave, LeaveCheck);
    RunStep(checked, t, Leave, LeaveDecrement);
    assert Next(Goto(s, t, LeaveCheck), a) == Goto(checked, t, LeaveDecrement);
    assert Next(Goto(checked, t, LeaveDecrement), a) == Goto(less, t, LeaveTest);
    LeaveAloneTest(less, t);
  }

  lemma QueueBeyond(s: State, t: nat)
    requires Inv(s) && t < |s.threads| && s.threads[t].pc.Outside? && s.threads[t].holds > 0
    ensures s.recursion == s.threads[t].holds
    ensures s.recursion == 1 ==> (s.lockQueue > 1 <==> !NobodyQueued(s))
  {
    QueueBehind(s, t);
    if Total(s.threads, Queued) > 0 { var u := TotalWitness(s.threads, Queued); }
    forall u: nat | u < |s.threads| && Queued(s.threads[u]) > 0 ensures Total(s.threads, Queued) > 0 {
      TotalUpdate(s.threads, u, s.threads[u], Queued);
    }
  }

  /** `Leave` without interference: it gives up one hold, and with the last one puts a unit in the
      semaphore exactly when somebody is queued. */
  lemma LeaveAlone(n: nat, schedule: seq<Action>, t: nat)
    requires Legal(Init(n), schedule) && Enabled(After(n, schedule), Action(t, Leave))
    requires After(n, schedule).threads[t].pc.Outside?
    ensures var s := After(n, schedule);
      var h, r := s.threads[t].holds, CallAlone(s, t, Leave);
      && r.threads == s.threads[t := Thread(Outside, h - 1)]
      && r.semaphore == (if h == 1 && !NobodyQueued(s) then 1 else 0)
  {
    hide RunAlone, LengthAlone, NobodyQueued, Inv;
    AfterInv(n, schedule);
    var s := After(n, schedule);
    OutsideOwner(s, t);
    QueueBeyond(s, t);
    assert Next(s, Action(t, Leave)) == Goto(s, t, LeaveCheck);
    LeaveAloneFrom(s, t);
  }

  /** Contention happens: one thread enters a new lock, and another that enters after it comes to wait. */
  lemma SomebodyWaits(n: nat, t: nat, u: nat) returns (schedule: seq<Action>)
    requires t < n && u < n && t != u
    ensures Legal(Init(n), schedule)
    ensures After(n, schedule).threads == Init(n).threads[t := Thread(Outside, 1)][u := Thread(Waiting, 0)]
  {
    hide RunAlone, LengthAlone, Next;
    EnterAlone(n, [], t);
    var k := CallAloneIsRun(Init(n), t, Enter);
    var first := Repeated(Action(t, Enter), k);
    var s := After(n, first);
    assert InSection(s.threads[t]);
    EnterAlone(n, first, u);
    var m := CallAloneIsRun(s, u, Enter);
    var second := Repeated(Action(u, Enter), m);
    ExecuteAppend(Init(n), first, second);
    schedule := first + second;
  }
}
