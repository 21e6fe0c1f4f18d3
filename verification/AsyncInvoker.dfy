/**
  Shutting down an `AsyncInvoker`: the destructor cancels posted closures and waits, on an auto-reset
  event, until no closure is alive.

  The steps of the destructor and of any number of closures on other threads interleave in any order.
  Calls from outside are over before destruction begins, as the class asks of its users; closures that
  are running may go on calling `AsyncInvoke` at any time.

  The thread of the destructor does one thing at a time. It may start to destroy the invoker from
  inside a closure that it is running, but not in the middle of a call or of the deletion of a closure;
  and until the destructor ends, the closures that it was running do not go on.
 */
module AsyncInvoker {
  import opened Bytes
  import opened Sums

  /** Where a closure is in its life. While `AsyncInvoke` is still in progress the caller is recorded:
      none, or the running closure that makes the call. */
  datatype Phase =
    | Constructed(caller: Option<nat>)   // pending_invocations_ incremented; next: look at destroying_
    | Admitted(caller: Option<nat>)      // destroying_ was false; next: post
    | Dropped(caller: Option<nat>)       // destroying_ was true; next: decrement
    | DroppedSignal(caller: Option<nat>) // next: set the event, return from AsyncInvoke
    | Posted                             // in the queue of its thread
    | Running                            // OnMessage executes it
    | Finished                           // next: decrement
    | FinishedSignal                     // next: set the event
    | Taken                              // removed from a queue by the destructor; next: decrement
    | TakenSignal                        // next: set the event
    | Dead

  /** `own` closures are for the thread that runs the destructor. */
  datatype Closure = Closure(phase: Phase, own: bool)

  /** The next step of the destructor. */
  datatype Destructor =
    | NotStarted
    | ClearAll    // ThreadManager::Clear
    | Test        // pending_invocations_ > 0?
    | TakeOwn     // Thread::Current()->Clear removes what is in its queue ...
    | DeleteOwn   // ... and deletes it
    | Wait        // on the event, for ever
    | Done

  datatype State = State(
    pending: int,
    destroying: bool,
    signaled: bool,
    destructor: Destructor,
    closures: seq<Closure>)

  function Init(): State {
    State(0, false, false, NotStarted, [])
  }

  datatype Action =
    | InvokeOutside(own: bool)
    | InvokeInside(i: nat, own: bool)   // by the running closure `i`
    | Proceed(i: nat)                   // the next step of closure `i`, on its own thread or its caller's
    | Begin                             // the destructor stores destroying_
    | Cancel(i: nat)                    // ClearAll takes closure `i` from its queue
    | Delete(i: nat)                    // the destructor's next step in deleting closure `i`
    | Continue                          // the destructor's next step

  /** A call of `AsyncInvoke` by `caller` is in progress. */
  predicate CalledBy(p: Phase, caller: Option<nat>) {
    InCall(p) && p.caller == caller
  }

  predicate InCall(p: Phase) {
    p.Constructed? || p.Admitted? || p.Dropped? || p.DroppedSignal?
  }

  predicate Calling(s: State, caller: Option<nat>) {
    exists j | 0 <= j < |s.closures| :: CalledBy(s.closures[j].phase, caller)
  }

  predicate AnyIn(s: State, phase: Phase) {
    exists j | 0 <= j < |s.closures| :: s.closures[j].phase == phase
  }

  /** The thread that runs closure `i` is not busy with the destructor. */
  predicate ThreadFree(s: State, i: nat)
    requires i < |s.closures|
  {
    s.closures[i].own ==> s.destructor.NotStarted? || s.destructor.Done?
  }

  /** The destructor's thread is in no call of a closure that it runs, and is not deleting one. */
  predicate OwnThreadReady(s: State) {
    forall j | 0 <= j < |s.closures| :: OwnReady(s, s.closures[j])
  }

  predicate OwnReady(s: State, c: Closure) {
    && (c.own ==> !c.phase.Finished? && !c.phase.FinishedSignal?)
    && (InCall(c.phase) && c.phase.caller.Some? && c.phase.caller.value < |s.closures| ==>
         !s.closures[c.phase.caller.value].own)
  }

  /** The destructor's thread is in the middle of a closure. */
  predicate OwnRunning(s: State) {
    exists j | 0 <= j < |s.closures| :: s.closures[j].own && s.closures[j].phase.Running?
  }

  predicate Enabled(s: State, a: Action) {
    match a
    case InvokeOutside(_) => s.destructor.NotStarted?
    case InvokeInside(i, _) =>
      i < |s.closures| && s.closures[i].phase.Running? && ThreadFree(s, i) && !Calling(s, Some(i))
    case Proceed(i) =>
      i < |s.closures| &&
      (match s.closures[i].phase
       case Posted | Finished | FinishedSignal => ThreadFree(s, i)
       case Running => ThreadFree(s, i) && !Calling(s, Some(i))
       case Taken | TakenSignal | Dead => false
       case _ => true)
    case Begin => s.destructor.NotStarted? && !Calling(s, None) && OwnThreadReady(s)
    case Cancel(i) => i < |s.closures| && s.destructor.ClearAll? && s.closures[i].phase.Posted?
    case Delete(i) =>
      && i < |s.closures| && (s.destructor.ClearAll? || s.destructor.DeleteOwn?)
      && (s.closures[i].phase.Taken? || s.closures[i].phase.TakenSignal?)
    case Continue =>
      match s.destructor
      case NotStarted | Done => false
      case ClearAll | DeleteOwn => !AnyIn(s, Taken) && !AnyIn(s, TakenSignal)
      case Test | TakeOwn => true
      case Wait => s.signaled
  }

  function Enter(s: State, i: nat, phase: Phase): State
    requires i < |s.closures|
  {
    s.(closures := s.closures[i := s.closures[i].(phase := phase)])
  }

  /** The destructor empties the queue of its own thread. */
  function TakeOwnPosted(closures: seq<Closure>): (r: seq<Closure>)
    ensures |r| == |closures|
  {
    seq(|closures|, j requires 0 <= j < |closures| =>
      if closures[j].own && closures[j].phase.Posted? then Closure(Taken, true) else closures[j])
  }

  function OwnTaken(s: State): State {
    s.(destructor := DeleteOwn, closures := TakeOwnPosted(s.closures))
  }

  /** The next step of a closure that is not being cancelled. */
  function Advance(s: State, i: nat): State
    requires i < |s.closures|
  {
    match s.closures[i].phase
    case Constructed(c) => Enter(s, i, if s.destroying then Dropped(c) else Admitted(c))
    case Admitted(_) => Enter(s, i, Posted)
    case Dropped(c) => Enter(s.(pending := s.pending - 1), i, DroppedSignal(c))
    case DroppedSignal(_) => Enter(s.(signaled := true), i, Dead)
    case Posted => Enter(s, i, Running)
    case Running => Enter(s, i, Finished)
    case Finished => Enter(s.(pending := s.pending - 1), i, FinishedSignal)
    case FinishedSignal => Enter(s.(signaled := true), i, Dead)
    case Taken => Enter(s.(pending := s.pending - 1), i, TakenSignal)
    case TakenSignal => Enter(s.(signaled := true), i, Dead)
    case Dead => s
  }

  function Invoke(s: State, caller: Option<nat>, own: bool): State {
    s.(pending := s.pending + 1, closures := s.closures + [Closure(Constructed(caller), own)])
  }

  function Next(s: State, a: Action): State
    requires Enabled(s, a)
  {
    match a
    case InvokeOutside(own) => Invoke(s, None, own)
    case InvokeInside(i, own) => Invoke(s, Some(i), own)
    case Proceed(i) => Advance(s, i)
    case Begin => s.(destroying := true, destructor := ClearAll)
    case Cancel(i) => Enter(s, i, Taken)
    case Delete(i) => Advance(s, i)
    case Continue =>
      match s.destructor
      case NotStarted | Done => s
      case ClearAll => s.(destructor := Test)
      case Test => s.(destructor := if s.pending > 0 then TakeOwn else Done)
      case TakeOwn => OwnTaken(s)
      case DeleteOwn => s.(destructor := Wait)
      case Wait => s.(signaled := false, destructor := Test)
  }

  predicate Legal(s: State, schedule: seq<Action>)
    decreases |schedule|
  {
    schedule == [] || (Enabled(s, schedule[0]) && Legal(Next(s, schedule[0]), schedule[1..]))
  }

  function Execute(s: State, schedule: seq<Action>): State
    requires Legal(s, schedule)
    decreases |schedule|
  {
    if schedule == [] then s else Execute(Next(s, schedule[0]), schedule[1..])
  }

  // ---------------------------------------------------------------------------------------------
  // The invariant
  // ---------------------------------------------------------------------------------------------

  /** Alive: counted in `pending_invocations_`. Every further step of such a closure, except setting
      the event, may use the invoker. */
  function Alive(c: Closure): nat {
    if c.phase.DroppedSignal? || c.phase.FinishedSignal? || c.phase.TakenSignal? || c.phase.Dead? then 0 else 1
  }

  /** Some other thread has still to work on the closure, and will set the event when it is through. */
  predicate Active(c: Closure) {
    match c.phase
    case Dead | Taken | TakenSignal => false
    case Posted | Running => !c.own
    case _ => true
  }

  /** A call from inside a closure is made by a closure that is running. */
  predicate CallerOk(s: State, p: Phase) {
    InCall(p) && p.caller.Some? ==> p.caller.value < |s.closures| && s.closures[p.caller.value].phase.Running?
  }

  ghost predicate Counted(s: State) {
    && s.pending == Total(s.closures, Alive)
    && (s.destroying <==> !s.destructor.NotStarted?)
    && (s.destructor.Done? ==> s.pending == 0)
  }

  ghost predicate CallersOk(s: State) {
    && (forall i | 0 <= i < |s.closures| :: CallerOk(s, s.closures[i].phase))
    && (s.destroying ==> !Calling(s, None))
  }

  /** What the destructor's own thread does: it goes on with no closure, and it deletes what it has
      taken. */
  ghost predicate OwnThread(s: State) {
    && (s.destroying ==> OwnThreadReady(s))
    && (!s.destructor.ClearAll? && !s.destructor.DeleteOwn? ==> !AnyIn(s, Taken) && !AnyIn(s, TakenSignal))
  }

  ghost predicate Inv(s: State) {
    && Counted(s) && CallersOk(s) && OwnThread(s)
    && (s.destructor.DeleteOwn? || s.destructor.Wait? || s.destructor.TakeOwn? ==> Hopeful(s))
  }

  /** The destructor will not wait in vain: the event is set, or somebody will set it. When the
      destructor has just seen that closures are alive, that may be itself: it deletes what is in its
      own queue. All this unless it was started inside a closure. */
  ghost predicate Hopeful(s: State) {
    || s.signaled || OwnRunning(s)
    || (exists i | 0 <= i < |s.closures| :: Active(s.closures[i]))
    || AnyIn(s, Taken) || AnyIn(s, TakenSignal)
    || (s.destructor.TakeOwn? && exists i | 0 <= i < |s.closures| :: s.closures[i].own && s.closures[i].phase.Posted?)
  }

  lemma InitInv()
    ensures Inv(Init())
  {
  }

  /** A step of one closure from one phase to a later one. */
  ghost predicate Moved(s: State, s': State, i: nat, phase: Phase)
    requires i < |s.closures|
  {
    && s'.closures == s.closures[i := s.closures[i].(phase := phase)]
    && s'.destroying == s.destroying && s'.destructor == s.destructor
    && s'.pending == s.pending - Alive(s.closures[i]) + Alive(s'.closures[i])
    && Alive(s'.closures[i]) <= Alive(s.closures[i])
    && (InCall(phase) ==> InCall(s.closures[i].phase) && phase.caller == s.closures[i].phase.caller)
    && (s.closures[i].phase.Running? ==> !Calling(s, Some(i)))
    && (s.destroying && s.closures[i].own ==>
         !phase.Finished? && !phase.FinishedSignal? && !phase.Running? && !s.closures[i].phase.Running?)
    && (phase.Taken? || phase.TakenSignal? ==> s.destructor.ClearAll? || s.destructor.DeleteOwn?)
  }

  lemma MovedCounted(s: State, s': State, i: nat, phase: Phase)
    requires Counted(s) && i < |s.closures| && Moved(s, s', i, phase)
    ensures Counted(s')
  {
    TotalUpdate(s.closures, i, s'.closures[i], Alive);
  }

  lemma MovedCallers(s: State, s': State, i: nat, phase: Phase)
    requires CallersOk(s) && i < |s.closures| && Moved(s, s', i, phase)
    ensures CallersOk(s')
  {
    forall j | 0 <= j < |s'.closures| ensures CallerOk(s', s'.closures[j].phase) {
      assert CallerOk(s, s.closures[j].phase);
      assert CalledBy(s.closures[j].phase, Some(i)) ==> Calling(s, Some(i));
    }
  }

  lemma MovedOwnThread(s: State, s': State, i: nat, phase: Phase)
    requires OwnThread(s) && i < |s.closures| && Moved(s, s', i, phase)
    ensures OwnThread(s')
  {
  }

  lemma MovedInv(s: State, s': State, i: nat, phase: Phase)
    requires Inv(s) && i < |s.closures| && Moved(s, s', i, phase)
    requires s.destructor.DeleteOwn? || s.destructor.Wait? || s.destructor.TakeOwn? ==> Hopeful(s')
    ensures Inv(s')
  {
    MovedCounted(s, s', i, phase);
    MovedCallers(s, s', i, phase);
    MovedOwnThread(s, s', i, phase);
  }

  /** Nothing is alive behind the destructor, and before its end its thread goes on with no closure. */
  lemma ProceedOthers(s: State, i: nat)
    requires Inv(s) && Enabled(s, Proceed(i)) && s.destroying
    ensures s.closures[i].own ==> InCall(s.closures[i].phase)
  {
    if s.destructor.Done? { TotalUpdate(s.closures, i, s.closures[i], Alive); }
  }

  /** A closure on its way keeps the hope alive: it stays active, or it has set the event, or the
      closure that called it is still running. */
  lemma AdvanceHopeful(s: State, i: nat)
    requires Inv(s) && Hopeful(s) && s.destroying && i < |s.closures| && !s.closures[i].phase.Dead?
    requires s.closures[i].phase.Running? ==> !Calling(s, Some(i))
    requires s.closures[i].phase.Posted? || s.closures[i].phase.Running? ==> !s.closures[i].own
    ensures Hopeful(Advance(s, i))
  {
    var s', p := Advance(s, i), s.closures[i].phase;
    if j: nat :| j < |s.closures| && s.closures[j].own && s.closures[j].phase.Running? {
      assert s'.closures[j] == s.closures[j];
    } else if p.Admitted? {
      assert CallerOk(s, p);
      assert CalledBy(p, p.caller);
      assert p.caller != None by { if p.caller == None { assert Calling(s, None); } }
      assert OwnReady(s, s.closures[i]);
      assert Active(s'.closures[p.caller.value]);
    } else if p.Taken? {
      assert s'.closures[i].phase == TakenSignal;
    } else {
      assert s'.signaled || Active(s'.closures[i]);
    }
  }

  lemma AdvanceMoves(s: State, i: nat)
    requires i < |s.closures| && !s.closures[i].phase.Dead?
    requires s.closures[i].phase.Running? ==> !Calling(s, Some(i))
    requires s.destroying && s.closures[i].own ==>
      InCall(s.closures[i].phase) || s.closures[i].phase.Taken? || s.closures[i].phase.TakenSignal?
    requires s.closures[i].phase.Taken? ==> s.destructor.ClearAll? || s.destructor.DeleteOwn?
    ensures Moved(s, Advance(s, i), i, Advance(s, i).closures[i].phase)
  {
    hide Calling;
  }

  lemma ProceedInv(s: State, i: nat)
    requires Inv(s) && Enabled(s, Proceed(i))
    ensures Inv(Next(s, Proceed(i)))
  {
    hide Moved;
    var s' := Next(s, Proceed(i));
    if s.destroying { ProceedOthers(s, i); }
    if s.destroying && Hopeful(s) { AdvanceHopeful(s, i); }
    AdvanceMoves(s, i);
    MovedInv(s, s', i, s'.closures[i].phase);
  }

  lemma DeleteInv(s: State, i: nat)
    requires Inv(s) && Enabled(s, Delete(i))
    ensures Inv(Next(s, Delete(i)))
  {
    hide Moved;
    var s' := Next(s, Delete(i));
    if s.destroying && Hopeful(s) { AdvanceHopeful(s, i); }
    AdvanceMoves(s, i);
    MovedInv(s, s', i, s'.closures[i].phase);
  }

  lemma CancelInv(s: State, i: nat)
    requires Inv(s) && Enabled(s, Cancel(i))
    ensures Inv(Next(s, Cancel(i)))
  {
    var s' := Next(s, Cancel(i));
    assert Moved(s, s', i, Taken);
    MovedInv(s, s', i, Taken);
  }

  lemma InvokeInv(s: State, caller: Option<nat>, own: bool)
    requires Inv(s)
    requires caller.None? ==> s.destructor.NotStarted?
    requires caller.Some? ==>
      caller.value < |s.closures| && s.closures[caller.value].phase.Running? && ThreadFree(s, caller.value)
    ensures Inv(Invoke(s, caller, own))
  {
    var s' := Invoke(s, caller, own);
    var c := Closure(Constructed(caller), own);
    TotalAppend(s.closures, c, Alive);
    if caller.Some? { TotalUpdate(s.closures, caller.value, s.closures[caller.value], Alive); }
    forall j | 0 <= j < |s'.closures| ensures CallerOk(s', s'.closures[j].phase) {
      assert j < |s.closures| ==> CallerOk(s, s.closures[j].phase);
    }
    assert Active(s'.closures[|s.closures|]);
  }

  lemma BeginInv(s: State)
    requires Inv(s) && Enabled(s, Begin)
    ensures Inv(Next(s, Begin))
  {
  }

  /** At the test: closures that are alive and not on their way are in the destructor's own queue. */
  lemma TestHopeful(s: State)
    requires Inv(s) && s.destructor.Test? && s.pending > 0
    ensures Hopeful(s.(destructor := TakeOwn))
  {
    var i := TotalWitness(s.closures, Alive);
    assert !s.closures[i].phase.Taken?;
    assert Active(s.closures[i]) || (s.closures[i].own && (s.closures[i].phase.Posted? || s.closures[i].phase.Running?));
  }

  lemma {:induction false} TakeOwnTotal(closures: seq<Closure>)
    ensures Total(TakeOwnPosted(closures), Alive) == Total(closures, Alive)
    decreases |closures|
  {
    if closures != [] {
      TakeOwnTotal(closures[1..]);
      assert TakeOwnPosted(closures)[1..] == TakeOwnPosted(closures[1..]);
    }
  }

  lemma TakeOwnCallers(s: State)
    requires CallersOk(s)
    ensures CallersOk(OwnTaken(s))
  {
    var s' := OwnTaken(s);
    forall j | 0 <= j < |s'.closures| ensures CallerOk(s', s'.closures[j].phase) {
      assert CallerOk(s, s.closures[j].phase);
    }
  }

  lemma TakeOwnHopeful(s: State)
    requires Hopeful(s)
    ensures Hopeful(OwnTaken(s))
  {
    var s' := OwnTaken(s);
    if i: nat :| i < |s.closures| && Active(s.closures[i]) {
      assert Active(s'.closures[i]);
    } else if i: nat :| i < |s.closures| && s.closures[i].own && s.closures[i].phase.Posted? {
      assert s'.closures[i].phase == Taken;
    } else if i: nat :| i < |s.closures| && s.closures[i].own && s.closures[i].phase.Running? {
      assert s'.closures[i] == s.closures[i];
    } else if i: nat :| i < |s.closures| && (s.closures[i].phase.Taken? || s.closures[i].phase.TakenSignal?) {
      assert s'.closures[i] == s.closures[i];
    }
  }

  lemma TakeOwnThread(s: State)
    requires OwnThread(s) && s.destroying
    ensures OwnThread(OwnTaken(s))
  {
    var s' := OwnTaken(s);
    forall j | 0 <= j < |s'.closures| ensures OwnReady(s', s'.closures[j]) {
      assert OwnReady(s, s.closures[j]);
    }
  }

  lemma TakeOwnInv(s: State)
    requires Inv(s) && s.destructor.TakeOwn?
    ensures Inv(OwnTaken(s))
  {
    hide CallersOk, OwnThread, Hopeful;
    TakeOwnTotal(s.closures);
    TakeOwnCallers(s);
    TakeOwnThread(s);
    TakeOwnHopeful(s);
  }

  lemma ContinueInv(s: State)
    requires Inv(s) && Enabled(s, Continue)
    ensures Inv(Next(s, Continue))
  {
    if s.destructor.TakeOwn? {
      TakeOwnInv(s);
    } else if s.destructor.Test? && s.pending > 0 {
      TestHopeful(s);
    } else if s.destructor.Test? && Total(s.closures, Alive) > 0 {
      var i := TotalWitness(s.closures, Alive);
    }
  }

  lemma NextInv(s: State, a: Action)
    requires Inv(s) && Enabled(s, a)
    ensures Inv(Next(s, a))
  {
    match a
    case InvokeOutside(own) => InvokeInv(s, None, own);
    case InvokeInside(i, own) => InvokeInv(s, Some(i), own);
    case Proceed(i) => ProceedInv(s, i);
    case Begin => BeginInv(s);
    case Cancel(i) => CancelInv(s, i);
    case Delete(i) => DeleteInv(s, i);
    case Continue => ContinueInv(s);
  }

  lemma {:induction false} ExecuteInv(s: State, schedule: seq<Action>)
    requires Inv(s) && Legal(s, schedule)
    ensures Inv(Execute(s, schedule))
    decreases |schedule|
  {
    if schedule != [] {
      NextInv(s, schedule[0]);
      ExecuteInv(Next(s, schedule[0]), schedule[1..]);
    }
  }

  // ---------------------------------------------------------------------------------------------
  // What holds in every run
  // ---------------------------------------------------------------------------------------------

  /** The step uses the invoker: it reads `destroying_`, posts a message to it, delivers one, or changes
      `pending_invocations_`. */
  predicate UsesInvoker(s: State, a: Action)
    requires Enabled(s, a)
  {
    match a
    case InvokeOutside(_) | InvokeInside(_, _) => true
    case Proceed(i) => !s.closures[i].phase.DroppedSignal? && !s.closures[i].phase.FinishedSignal?
    case _ => false
  }

  /** Once the destructor's loop has ended no closure can do anything that uses the invoker, now or
      later: all that is left is setting the event, which the closures own a share of. */
  lemma NoUseAfterDestruction(schedule: seq<Action>, a: Action)
    requires Legal(Init(), schedule) && Execute(Init(), schedule).destructor.Done?
    requires Enabled(Execute(Init(), schedule), a)
    ensures !UsesInvoker(Execute(Init(), schedule), a)
    ensures Next(Execute(Init(), schedule), a).destructor.Done?
  {
    InitInv();
    ExecuteInv(Init(), schedule);
    var s := Execute(Init(), schedule);
    if a.Proceed? || a.InvokeInside? {
      TotalUpdate(s.closures, a.i, s.closures[a.i], Alive);
    }
  }

  // ---------------------------------------------------------------------------------------------
  // When the destructor can come to its end
  // ---------------------------------------------------------------------------------------------

  function StepsLeft(c: Closure): nat {
    match c.phase
    case Constructed(_) => 3
    case Admitted(_) => 6
    case Dropped(_) => 2
    case DroppedSignal(_) => 1
    case Posted => 5
    case Running => 4
    case Finished => 2
    case FinishedSignal => 1
    case Taken => 2
    case TakenSignal => 1
    case Dead => 0
  }

  function Distance(d: Destructor): nat {
    match d
    case NotStarted => 6
    case ClearAll => 5
    case TakeOwn => 4
    case DeleteOwn => 3
    case Wait => 2
    case Test => 1
    case Done => 0
  }

  function Work(s: State): nat { Total(s.closures, StepsLeft) }

  ghost predicate Closer(s: State, s': State) {
    Work(s') < Work(s) || (Work(s') == Work(s) && Distance(s'.destructor) < Distance(s.destructor))
  }

  lemma AdvanceLeaves(s: State, i: nat) returns (c: Closure)
    requires s.destroying && i < |s.closures| && !s.closures[i].phase.Dead?
    ensures Advance(s, i).closures == s.closures[i := c] && StepsLeft(c) < StepsLeft(s.closures[i])
    ensures Advance(s, i).destroying
  {
    c := Advance(s, i).closures[i];
  }

  lemma ProceedCloser(s: State, i: nat, a: Action)
    requires s.destroying && i < |s.closures| && (a == Proceed(i) || a == Delete(i)) && Enabled(s, a)
    ensures Closer(s, Next(s, a)) && Next(s, a).destroying
  {
    var c := AdvanceLeaves(s, i);
    TotalUpdate(s.closures, i, c, StepsLeft);
  }

  lemma {:induction false} TakeOwnWork(closures: seq<Closure>)
    ensures Total(TakeOwnPosted(closures), StepsLeft) <= Total(closures, StepsLeft)
    ensures (exists i | 0 <= i < |closures| :: closures[i].own && closures[i].phase.Posted?) ==>
      Total(TakeOwnPosted(closures), StepsLeft) < Total(closures, StepsLeft)
    decreases |closures|
  {
    if closures != [] {
      TakeOwnWork(closures[1..]);
      assert TakeOwnPosted(closures)[1..] == TakeOwnPosted(closures[1..]);
      if i: nat :| 0 < i < |closures| && closures[i].own && closures[i].phase.Posted? {
        assert closures[1..][i - 1].own;
      }
    }
  }

  /** While some other thread has work to do, it can do a step of it. */
  lemma OthersCanProceed(s: State) returns (a: Action)
    requires Inv(s) && s.destroying && exists i | 0 <= i < |s.closures| :: Active(s.closures[i])
    ensures Enabled(s, a) && Closer(s, Next(s, a)) && Next(s, a).destroying
  {
    var i: nat;
    if j: nat :| j < |s.closures| && InCall(s.closures[j].phase) {
      i := j;
    } else {
      i :| 0 <= i < |s.closures| && Active(s.closures[i]);
    }
    a := Proceed(i);
    ProceedCloser(s, i, a);
  }

  /** What the destructor's thread was running, it is running still. */
  lemma OwnRunningKept(s: State, a: Action)
    requires Inv(s) && s.destroying && Enabled(s, a)
    ensures Next(s, a).destroying && (OwnRunning(Next(s, a)) <==> OwnRunning(s))
  {
    var s' := Next(s, a);
    if a.Proceed? { ProceedOthers(s, a.i); }
    assert |s.closures| <= |s'.closures|;
    forall j | 0 <= j < |s.closures| && s.closures[j].own
      ensures s'.closures[j].own && (s'.closures[j].phase.Running? <==> s.closures[j].phase.Running?)
    {
    }
    assert forall j | |s.closures| <= j < |s'.closures| :: s'.closures[j].phase.Constructed?;
    assert forall j | 0 <= j < |s.closures| :: s'.closures[j].own == s.closures[j].own;
  }

  lemma {:induction false} OwnRunningKeptAll(s: State, schedule: seq<Action>)
    requires Inv(s) && s.destroying && Legal(s, schedule)
    ensures Execute(s, schedule).destroying && (OwnRunning(Execute(s, schedule)) <==> OwnRunning(s))
    decreases |schedule|
  {
    if schedule != [] {
      OwnRunningKept(s, schedule[0]);
      NextInv(s, schedule[0]);
      OwnRunningKeptAll(Next(s, schedule[0]), schedule[1..]);
    }
  }

  lemma ExecuteOne(s: State, a: Action)
    requires Enabled(s, a)
    ensures Legal(s, [a]) && Execute(s, [a]) == Next(s, a)
  {
    assert [a][1..] == [];
  }

  lemma {:induction false} ExecuteAppend(s: State, first: seq<Action>, second: seq<Action>)
    requires Legal(s, first) && Legal(Execute(s, first), second)
    ensures Legal(s, first + second)
    ensures Execute(s, first + second) == Execute(Execute(s, first), second)
    decreases |first|
  {
    hide Enabled, Next;
    if first == [] {
      assert first + second == second;
    } else {
      ExecuteAppend(Next(s, first[0]), first[1..], second);
      assert (first + second)[1..] == first[1..] + second;
    }
  }

  ghost predicate Idle(s: State) {
    forall i | 0 <= i < |s.closures| :: !Active(s.closures[i])
  }

  lemma CanDelete(s: State) returns (a: Action)
    requires Inv(s) && s.destroying && (AnyIn(s, Taken) || AnyIn(s, TakenSignal))
    ensures Enabled(s, a) && Closer(s, Next(s, a))
  {
    var i: nat :| i < |s.closures| && (s.closures[i].phase.Taken? || s.closures[i].phase.TakenSignal?);
    a := Delete(i);
    ProceedCloser(s, i, a);
  }

  /** Closures that are alive when nobody works on any are in the destructor's own queue. */
  lemma OwnPosted(s: State) returns (i: nat)
    requires Inv(s) && s.destructor.Test? && s.pending > 0 && Idle(s) && !OwnRunning(s)
    ensures i < |s.closures| && s.closures[i].own && s.closures[i].phase.Posted?
  {
    i := TotalWitness(s.closures, Alive);
    assert !s.closures[i].phase.Taken?;
  }

  lemma TestAndTake(s: State)
    requires Inv(s) && s.destructor.Test? && s.pending > 0 && Idle(s) && !OwnRunning(s)
    ensures Enabled(s, Continue) && Enabled(Next(s, Continue), Continue)
    ensures Closer(s, Next(Next(s, Continue), Continue))
  {
    var i := OwnPosted(s);
    TakeOwnWork(s.closures);
  }

  lemma ContinueCloser(s: State)
    requires Inv(s) && s.destroying && !s.destructor.Done? && Idle(s) && !OwnRunning(s)
    requires !AnyIn(s, Taken) && !AnyIn(s, TakenSignal) && !(s.destructor.Test? && s.pending > 0)
    ensures Enabled(s, Continue) && Closer(s, Next(s, Continue))
  {
    if s.destructor.TakeOwn? { TakeOwnWork(s.closures); }
  }

  /** When no other thread has anything to do, the destructor can go on by itself, if it was not started
      inside a closure. */
  lemma DestructorCanContinue(s: State) returns (steps: seq<Action>)
    requires Inv(s) && s.destroying && !s.destructor.Done? && Idle(s) && !OwnRunning(s)
    ensures Legal(s, steps) && Closer(s, Execute(s, steps))
  {
    hide Inv, Idle, OwnRunning, AnyIn, Enabled, Next, Closer;
    if AnyIn(s, Taken) || AnyIn(s, TakenSignal) {
      var a := CanDelete(s);
      ExecuteOne(s, a);
      steps := [a];
    } else if s.destructor.Test? && s.pending > 0 {
      TestAndTake(s);
      ExecuteOne(Next(s, Continue), Continue);
      steps := [Continue, Continue];
      assert steps[1..] == [Continue];
    } else {
      ContinueCloser(s);
      steps := [Continue];
      ExecuteOne(s, Continue);
    }
  }

  lemma {:induction false} FinishFrom(s: State) returns (schedule: seq<Action>)
    requires Inv(s) && s.destroying && !OwnRunning(s)
    ensures Legal(s, schedule) && Execute(s, schedule).destructor.Done?
    decreases Work(s), Distance(s.destructor)
  {
    schedule := [];
    if !s.destructor.Done? {
      var steps;
      if Idle(s) {
        steps := DestructorCanContinue(s);
      } else {
        var a := OthersCanProceed(s);
        ExecuteOne(s, a);
        steps := [a];
      }
      ExecuteInv(s, steps);
      OwnRunningKeptAll(s, steps);
      var rest := FinishFrom(Execute(s, steps));
      ExecuteAppend(s, steps, rest);
      schedule := steps + rest;
    }
  }

  // ---------------------------------------------------------------------------------------------
  // When the destructor waits for ever
  // ---------------------------------------------------------------------------------------------

  /** Nobody can do anything any more, and the destructor has not ended. */
  ghost predicate Stuck(s: State) {
    !s.destructor.Done? && forall a :: !Enabled(s, a)
  }

  function ToWait(d: Destructor): nat {
    match d
    case ClearAll => 4
    case Test => 3
    case TakeOwn => 2
    case DeleteOwn => 1
    case Wait => 0
    case NotStarted | Done => 5
  }

  function Signals(s: State): nat { if s.signaled then 1 else 0 }

  ghost predicate CloserToWait(s: State, s': State) {
    || Work(s') < Work(s)
    || (Work(s') == Work(s) && Signals(s') < Signals(s))
    || (Work(s') == Work(s) && Signals(s') == Signals(s) && ToWait(s'.destructor) < ToWait(s.destructor))
  }

  lemma OwnRunningCounts(s: State)
    requires Inv(s) && s.destroying && OwnRunning(s)
    ensures s.pending > 0 && !s.destructor.Done?
  {
    var i: nat :| i < |s.closures| && s.closures[i].own && s.closures[i].phase.Running?;
    TotalUpdate(s.closures, i, s.closures[i], Alive);
  }

  /** With nothing else left to do, the destructor goes back to waiting. */
  lemma CanGoOnToWait(s: State) returns (a: Action)
    requires Inv(s) && s.destroying && OwnRunning(s) && Idle(s) && !(s.destructor.Wait? && !s.signaled)
    ensures Enabled(s, a) && CloserToWait(s, Next(s, a))
  {
    OwnRunningCounts(s);
    if AnyIn(s, Taken) || AnyIn(s, TakenSignal) {
      a := CanDelete(s);
    } else {
      if s.destructor.TakeOwn? { TakeOwnWork(s.closures); }
      a := Continue;
    }
  }

  lemma WaitingIsStuck(s: State)
    requires Inv(s) && s.destructor.Wait? && !s.signaled && Idle(s)
    ensures Stuck(s)
  {
    forall a ensures !Enabled(s, a) {
      if a.Proceed? && a.i < |s.closures| { assert OwnReady(s, s.closures[a.i]); }
    }
  }

  lemma {:induction false} StuckFrom(s: State) returns (schedule: seq<Action>)
    requires Inv(s) && s.destroying && OwnRunning(s)
    ensures Legal(s, schedule) && Stuck(Execute(s, schedule))
    decreases Work(s), Signals(s), ToWait(s.destructor)
  {
    schedule := [];
    if Idle(s) && s.destructor.Wait? && !s.signaled {
      WaitingIsStuck(s);
    } else {
      var a;
      if Idle(s) {
        a := CanGoOnToWait(s);
      } else {
        a := OthersCanProceed(s);
        OwnRunningCounts(s);
      }
      OwnRunningKept(s, a);
      NextInv(s, a);
      var rest := StuckFrom(Next(s, a));
      schedule := [a] + rest;
      assert schedule[1..] == rest;
    }
  }

  // ---------------------------------------------------------------------------------------------
  // The two cases
  // ---------------------------------------------------------------------------------------------

  ghost predicate CanFinish(s: State) {
    exists more :: Legal(s, more) && Execute(s, more).destructor.Done?
  }

  ghost predicate CanGetStuck(s: State) {
    exists more :: Legal(s, more) && Stuck(Execute(s, more))
  }

  /** A run up to the start of the destructor, and on from there. */
  ghost predicate Destroys(before: seq<Action>, after: seq<Action>) {
    && Legal(Init(), before) && Enabled(Execute(Init(), before), Begin)
    && Legal(Next(Execute(Init(), before), Begin), after)
  }

  ghost function AtBegin(before: seq<Action>): State
    requires Legal(Init(), before)
  {
    Execute(Init(), before)
  }

  ghost function Later(before: seq<Action>, after: seq<Action>): State
    requires Destroys(before, after)
  {
    Execute(Next(AtBegin(before), Begin), after)
  }

  lemma LaterInv(before: seq<Action>, after: seq<Action>)
    requires Destroys(before, after)
    ensures Inv(Later(before, after)) && Later(before, after).destroying
    ensures OwnRunning(Later(before, after)) <==> OwnRunning(AtBegin(before))
  {
    InitInv();
    ExecuteInv(Init(), before);
    var s := Next(AtBegin(before), Begin);
    NextInv(AtBegin(before), Begin);
    assert s.closures == AtBegin(before).closures;
    ExecuteInv(s, after);
    OwnRunningKeptAll(s, after);
  }

  /** At any time after destruction has begun the destructor can still come to its end, exactly if it
      was not started inside a closure of the invoker. */
  lemma DestructorCanAlwaysFinish(before: seq<Action>, after: seq<Action>)
    requires Destroys(before, after)
    ensures CanFinish(Later(before, after)) <==> !OwnRunning(AtBegin(before))
  {
    LaterInv(before, after);
    var s := Later(before, after);
    if OwnRunning(s) {
      forall more | Legal(s, more) ensures !Execute(s, more).destructor.Done? {
        ExecuteInv(s, more);
        OwnRunningKeptAll(s, more);
        OwnRunningCounts(Execute(s, more));
      }
    } else {
      var more := FinishFrom(s);
    }
  }

  /** And it can come to wait for ever, with nobody left to wake it, exactly if it was. While it waits
      otherwise, the event is set or another thread has still to set it. */
  lemma NeverParkedForEver(before: seq<Action>, after: seq<Action>)
    requires Destroys(before, after)
    ensures CanGetStuck(Later(before, after)) <==> OwnRunning(AtBegin(before))
    ensures !OwnRunning(AtBegin(before)) ==>
      var s := Later(before, after); s.destructor.Wait? && !s.signaled ==> !Idle(s)
  {
    LaterInv(before, after);
    var s := Later(before, after);
    if OwnRunning(s) {
      var more := StuckFrom(s);
    } else {
      forall more | Legal(s, more) ensures !Stuck(Execute(s, more)) {
        ExecuteInv(s, more);
        OwnRunningKeptAll(s, more);
        var finish := FinishFrom(Execute(s, more));
        if finish != [] { assert Enabled(Execute(s, more), finish[0]); }
      }
    }
  }

  // The smallest case: a closure destroys the invoker on its own thread.

  /** One closure, for the destructor's thread. */
  function Alone(phase: Phase, destructor: Destructor): State {
    State(1, !destructor.NotStarted?, false, destructor, [Closure(phase, true)])
  }

  lemma ExecuteFirst(s: State, a: Action, rest: seq<Action>)
    requires Enabled(s, a) && Legal(Next(s, a), rest)
    ensures Legal(s, [a] + rest) && Execute(s, [a] + rest) == Execute(Next(s, a), rest)
  {
    assert ([a] + rest)[1..] == rest;
  }

  lemma ClosureStarts()
    ensures var before := [InvokeOutside(true), Proceed(0), Proceed(0), Proceed(0)];
      Legal(Init(), before) && Execute(Init(), before) == Alone(Running, NotStarted)
  {
    assert Next(Init(), InvokeOutside(true)) == Alone(Constructed(None), NotStarted);
    assert Next(Alone(Constructed(None), NotStarted), Proceed(0)) == Alone(Admitted(None), NotStarted);
    assert Next(Alone(Admitted(None), NotStarted), Proceed(0)) == Alone(Posted, NotStarted);
    assert Next(Alone(Posted, NotStarted), Proceed(0)) == Alone(Running, NotStarted);
    ExecuteFirst(Alone(Posted, NotStarted), Proceed(0), []);
    ExecuteFirst(Alone(Admitted(None), NotStarted), Proceed(0), [Proceed(0)]);
    ExecuteFirst(Alone(Constructed(None), NotStarted), Proceed(0), [Proceed(0), Proceed(0)]);
    ExecuteFirst(Init(), InvokeOutside(true), [Proceed(0), Proceed(0), Proceed(0)]);
  }

  lemma DestructorWaits()
    ensures var after := [Continue, Continue, Continue, Continue];
      Legal(Alone(Running, ClearAll), after) && Execute(Alone(Running, ClearAll), after) == Alone(Running, Wait)
  {
    assert Next(Alone(Running, TakeOwn), Continue) == Alone(Running, DeleteOwn);
    ExecuteFirst(Alone(Running, DeleteOwn), Continue, []);
    ExecuteFirst(Alone(Running, TakeOwn), Continue, [Continue]);
    ExecuteFirst(Alone(Running, Test), Continue, [Continue, Continue]);
    ExecuteFirst(Alone(Running, ClearAll), Continue, [Continue, Continue, Continue]);
  }

  lemma AloneStuck()
    ensures Enabled(Alone(Running, NotStarted), Begin)
    ensures Next(Alone(Running, NotStarted), Begin) == Alone(Running, ClearAll)
    ensures Inv(Alone(Running, Wait)) ==> Stuck(Alone(Running, Wait))
  {
    if Inv(Alone(Running, Wait)) { WaitingIsStuck(Alone(Running, Wait)); }
  }

  lemma DestroyedInsideItsClosure()
    ensures var before := [InvokeOutside(true), Proceed(0), Proceed(0), Proceed(0)];
      var after := [Continue, Continue, Continue, Continue];
      Destroys(before, after) && Stuck(Later(before, after))
  {
    var before := [InvokeOutside(true), Proceed(0), Proceed(0), Proceed(0)];
    var after := [Continue, Continue, Continue, Continue];
    hide Legal, Execute, Enabled, Next, Inv, Stuck, OwnRunning, Alone;
    ClosureStarts();
    DestructorWaits();
    AloneStuck();
    LaterInv(before, after);
  }

  // ---------------------------------------------------------------------------------------------
  // What becomes of a closure
  // ---------------------------------------------------------------------------------------------

  /** Nobody is in the middle of a call from a closure that is not running. */
  lemma NoCallFrom(s: State, i: nat)
    requires Inv(s) && i < |s.closures| && !s.closures[i].phase.Running?
    ensures !Calling(s, Some(i))
  {
    forall j | 0 <= j < |s.closures| ensures !CalledBy(s.closures[j].phase, Some(i)) {
      assert CallerOk(s, s.closures[j].phase);
    }
  }

  lemma StillNoCall(s: State, i: nat, phase: Phase)
    requires i < |s.closures| && !Calling(s, Some(i)) && !InCall(phase)
    ensures !Calling(Enter(s, i, phase), Some(i))
  {
    var s' := Enter(s, i, phase);
    forall j | 0 <= j < |s'.closures| ensures !CalledBy(s'.closures[j].phase, Some(i)) {
      assert !CalledBy(s.closures[j].phase, Some(i));
    }
  }

  function Times(a: Action, k: nat): seq<Action> { seq(k, _ => a) }

  lemma NoSteps(s: State, i: nat)
    ensures Legal(s, Times(Proceed(i), 0)) && Execute(s, Times(Proceed(i), 0)) == s
  {
  }

  /** One step of a closure, and then some more. */
  lemma OneMore(s: State, s': State, i: nat, k: nat)
    requires Enabled(s, Proceed(i)) && Next(s, Proceed(i)) == s' && Legal(s', Times(Proceed(i), k))
    ensures Legal(s, Times(Proceed(i), k + 1))
    ensures Execute(s, Times(Proceed(i), k + 1)) == Execute(s', Times(Proceed(i), k))
  {
    hide Enabled, Next;
    ExecuteFirst(s, Proceed(i), Times(Proceed(i), k));
    assert [Proceed(i)] + Times(Proceed(i), k) == Times(Proceed(i), k + 1);
  }

  lemma ClosureEnds(s: State, i: nat)
    requires i < |s.closures| && s.destructor.NotStarted? && !Calling(s, Some(i))
    ensures Legal(Enter(s, i, Running), Times(Proceed(i), 3))
    ensures Execute(Enter(s, i, Running), Times(Proceed(i), 3)) == Enter(s.(pending := s.pending - 1, signaled := true), i, Dead)
  {
    hide Legal, Execute, Calling;
    var less := s.(pending := s.pending - 1);
    var dead := Enter(less.(signaled := true), i, Dead);
    StillNoCall(s, i, Running);
    NoSteps(dead, i);
    OneMore(Enter(less, i, FinishedSignal), dead, i, 0);
    OneMore(Enter(s, i, Finished), Enter(less, i, FinishedSignal), i, 1);
    OneMore(Enter(s, i, Running), Enter(s, i, Finished), i, 2);
  }

  lemma ClosureStartsFrom(s: State, i: nat, k: nat)
    requires i < |s.closures| && s.destructor.NotStarted? && !s.destroying && s.closures[i].phase.Constructed?
    requires Legal(Enter(s, i, Running), Times(Proceed(i), k))
    ensures Legal(s, Times(Proceed(i), k + 3))
    ensures Execute(s, Times(Proceed(i), k + 3)) == Execute(Enter(s, i, Running), Times(Proceed(i), k))
  {
    hide Legal, Execute;
    var admitted := Enter(s, i, Admitted(s.closures[i].phase.caller));
    OneMore(Enter(s, i, Posted), Enter(s, i, Running), i, k);
    OneMore(admitted, Enter(s, i, Posted), i, k + 1);
    OneMore(s, admitted, i, k + 2);
  }

  /** A closure that is called for before destruction is posted and, left to itself, runs: it is running
      after three steps and gone after six, with the event set. */
  lemma ClosureRuns(schedule: seq<Action>, i: nat)
    requires Legal(Init(), schedule) && i < |Execute(Init(), schedule).closures|
    requires var s := Execute(Init(), schedule); s.closures[i].phase.Constructed? && !s.destroying
    ensures var s, a := Execute(Init(), schedule), Proceed(i);
      && Legal(s, Times(a, 3)) && Execute(s, Times(a, 3)) == Enter(s, i, Running)
      && Legal(s, Times(a, 6)) && Execute(s, Times(a, 6)) == Enter(s.(pending := s.pending - 1, signaled := true), i, Dead)
  {
    InitInv();
    ExecuteInv(Init(), schedule);
    var s := Execute(Init(), schedule);
    NoCallFrom(s, i);
    NoSteps(Enter(s, i, Running), i);
    ClosureEnds(s, i);
    ClosureStartsFrom(s, i, 0);
    ClosureStartsFrom(s, i, 3);
  }

  /** A closure that is still in its queue can be cancelled: then it is gone without having run. */
  lemma ClosureCancelled(s: State, i: nat)
    requires i < |s.closures| && s.closures[i].phase.Posted? && s.destructor.ClearAll?
    ensures Legal(s, [Cancel(i), Delete(i), Delete(i)])
    ensures Execute(s, [Cancel(i), Delete(i), Delete(i)]) == Enter(s.(pending := s.pending - 1, signaled := true), i, Dead)
  {
    hide Legal, Execute, Enabled, Next;
    var less := s.(pending := s.pending - 1);
    var taken, signal, dead := Enter(s, i, Taken), Enter(less, i, TakenSignal), Enter(less.(signaled := true), i, Dead);
    CancelSteps(s, i);
    ExecuteOne(signal, Delete(i));
    ExecuteFirst(taken, Delete(i), [Delete(i)]);
    ExecuteFirst(s, Cancel(i), [Delete(i), Delete(i)]);
    assert [Cancel(i)] + [Delete(i), Delete(i)] == [Cancel(i), Delete(i), Delete(i)];
    assert [Delete(i)] + [Delete(i)] == [Delete(i), Delete(i)];
  }

  lemma CancelSteps(s: State, i: nat)
    requires i < |s.closures| && s.closures[i].phase.Posted? && s.destructor.ClearAll?
    ensures Enabled(s, Cancel(i)) && Next(s, Cancel(i)) == Enter(s, i, Taken)
    ensures Enabled(Enter(s, i, Taken), Delete(i))
    ensures Next(Enter(s, i, Taken), Delete(i)) == Enter(s.(pending := s.pending - 1), i, TakenSignal)
    ensures Enabled(Enter(s.(pending := s.pending - 1), i, TakenSignal), Delete(i))
    ensures Next(Enter(s.(pending := s.pending - 1), i, TakenSignal), Delete(i)) ==
      Enter(s.(pending := s.pending - 1, signaled := true), i, Dead)
  {
  }

  lemma DropSteps(s: State, i: nat, c: Option<nat>)
    requires i < |s.closures| && s.closures[i].phase == Constructed(c) && s.destroying
    ensures Enabled(s, Proceed(i)) && Next(s, Proceed(i)) == Enter(s, i, Dropped(c))
    ensures Enabled(Enter(s, i, Dropped(c)), Proceed(i))
    ensures Next(Enter(s, i, Dropped(c)), Proceed(i)) == Enter(s.(pending := s.pending - 1), i, DroppedSignal(c))
    ensures Enabled(Enter(s.(pending := s.pending - 1), i, DroppedSignal(c)), Proceed(i))
    ensures Next(Enter(s.(pending := s.pending - 1), i, DroppedSignal(c)), Proceed(i)) ==
      Enter(s.(pending := s.pending - 1, signaled := true), i, Dead)
  {
  }

  /** A closure that is called for later is dropped: it is gone after three steps and has not run. */
  lemma ClosureDropped(s: State, i: nat)
    requires i < |s.closures| && s.closures[i].phase.Constructed? && s.destroying
    ensures Legal(s, Times(Proceed(i), 3))
    ensures Execute(s, Times(Proceed(i), 3)) == Enter(s.(pending := s.pending - 1, signaled := true), i, Dead)
    ensures Next(s, Proceed(i)).closures[i].phase.Dropped?
  {
    hide Legal, Execute, Enabled, Next;
    var c, less := s.closures[i].phase.caller, s.(pending := s.pending - 1);
    var dropped, signal, dead := Enter(s, i, Dropped(c)), Enter(less, i, DroppedSignal(c)), Enter(less.(signaled := true), i, Dead);
    NoSteps(dead, i);
    DropSteps(s, i, c);
    OneMore(signal, dead, i, 0);
    OneMore(dropped, signal, i, 1);
    OneMore(s, dropped, i, 2);
  }
}
