/** How threads lock the worker pool against its poller: the requests and acknowledgements of one poller
    and any number of threads, step by step. */
module PollerLock {
  import opened Basics

  /** Where a thread is in locking, holding and unlocking the pool. */
  datatype Thread = Outside | Wanting | Requesting | Waiting | Acked | Inside | Exiting | Halfway | Releasing

  /** Where the poller is. It is parked between its acknowledgement and the release. */
  datatype Poller = Top | Acking | Parked | Waking | Iterating | Dispatching

  datatype Pool = Pool(threads: seq<Thread>, poller: Poller, mutex: Option<nat>, lockState: bool, lockSafe: bool,
                       ack: bool, req: bool)

  datatype Event =
    | Test(i: nat)      // read lock_safe, skip the lock when it is set
    | Acquire(i: nat) | Request(i: nat) | SeeAck(i: nat) | ClearAck(i: nat)
    | TestAgain(i: nat) // read lock_safe, skip the unlock when it is set
    | First(i: nat) | Second(i: nat) | Unlock(i: nat)
    | Look | SignalAck | Wake | ClearReq | Dispatch | Finish | Loop

  predicate IsAt(s: Pool, i: nat, t: Thread) { i < |s.threads| && s.threads[i] == t }

  predicate Enabled(s: Pool, e: Event) {
    match e
    case Test(i) => IsAt(s, i, Outside)
    case Acquire(i) => IsAt(s, i, Wanting) && s.mutex.None?
    case Request(i) => IsAt(s, i, Requesting)
    case SeeAck(i) => IsAt(s, i, Waiting) && s.ack
    case ClearAck(i) => IsAt(s, i, Acked)
    case TestAgain(i) => IsAt(s, i, Inside)
    case First(i) => IsAt(s, i, Exiting)
    case Second(i) => IsAt(s, i, Halfway)
    case Unlock(i) => IsAt(s, i, Releasing)
    case Look => s.poller.Top?
    case SignalAck => s.poller.Acking?
    case Wake => s.poller.Parked? && s.req
    case ClearReq => s.poller.Waking?
    case Dispatch | Loop => s.poller.Iterating?
    case Finish => s.poller.Dispatching?
  }

  function At(s: Pool, i: nat, t: Thread): Pool
    requires i < |s.threads|
  {
    s.(threads := s.threads[i := t])
  }

  /** Unlocking signals the poller and then clears the request; corrected, it clears first. */
  function Step(b: Build, s: Pool, e: Event): Pool
    requires Enabled(s, e)
  {
    match e
    case Test(i) => At(s, i, if s.lockSafe then Inside else Wanting)
    case Acquire(i) => At(s, i, Requesting).(mutex := Some(i))
    case Request(i) => At(s, i, Waiting).(lockState := true)
    case SeeAck(i) => At(s, i, Acked)
    case ClearAck(i) => At(s, i, Inside).(ack := false)
    case TestAgain(i) => At(s, i, if s.lockSafe then Outside else Exiting)
    case First(i) => if b.AsWritten? then At(s, i, Halfway).(req := true) else At(s, i, Halfway).(lockState := false)
    case Second(i) =>
      if b.AsWritten? then At(s, i, Releasing).(lockState := false) else At(s, i, Releasing).(req := true)
    case Unlock(i) => At(s, i, Outside).(mutex := None)
    case Look => s.(poller := if s.lockState then Acking else Iterating)
    case SignalAck => s.(poller := Parked, ack := true)
    case Wake => s.(poller := Waking)
    case ClearReq => s.(poller := Iterating, req := false)
    case Dispatch => s.(poller := Dispatching, lockSafe := true)
    case Finish => s.(poller := Top, lockSafe := false)
    case Loop => s.(poller := Top)
  }

  /** A run: the states passed through and the events between them. */
  ghost predicate Trace(b: Build, ss: seq<Pool>, es: seq<Event>) {
    && |ss| == |es| + 1
    && forall k {:trigger es[k]} | 0 <= k < |es| :: Enabled(ss[k], es[k]) && ss[k + 1] == Step(b, ss[k], es[k])
  }

  function Start(n: nat): Pool { Pool(seq(n, _ => Outside), Top, None, false, false, false, false) }

  // ---------------------------------------------------------------------------------------------
  // Exclusion

  /** Between locking and unlocking, until the poller is let go. */
  predicate Locked(s: Pool, i: nat) { i < |s.threads| && (s.threads[i].Inside? || s.threads[i].Exiting?) }

  /** At most one thread has the pool locked, and while one has, the poller is parked. */
  ghost predicate Exclusive(s: Pool) {
    && (forall i, j :: Locked(s, i) && Locked(s, j) ==> i == j)
    && (forall i :: Locked(s, i) ==> s.poller.Parked?)
  }

  predicate Running(p: Poller) { p.Top? || p.Acking? || p.Iterating? || p.Dispatching? }

  function Holder(s: Pool): Thread {
    if s.mutex.Some? && s.mutex.value < |s.threads| then s.threads[s.mutex.value] else Outside
  }

  predicate Owner(b: Build, t: Thread) { t.Inside? || t.Exiting? || (b.Corrected? && t.Halfway?) }

  /** The right to touch the workers is in one place: with the poller, with the holder of the mutex, or
      under way in one of the two signals. */
  predicate OneToken(b: Build, s: Pool) {
    Int(Running(s.poller)) + Int(s.ack) + Int(Owner(b, Holder(s))) + Int(s.req) == 1
  }

  predicate Inv(b: Build, s: Pool) {
    && OneToken(b, s)
    && (forall i | 0 <= i < |s.threads| :: s.threads[i].Outside? || s.threads[i].Wanting? || s.mutex == Some(i))
    && (s.mutex.Some? ==> s.mutex.value < |s.threads| && !Holder(s).Outside? && !Holder(s).Wanting?)
    && (s.poller.Waking? ==> s.req)
    && (Holder(s).Acked? ==> s.ack)
    && (s.lockSafe <==> s.poller.Dispatching?)
  }

  /** A thread that is not the poller finds lock_safe set. */
  predicate Slips(s: Pool, e: Event) { e.Test? && s.lockSafe }

  /** No thread slips by among the first k events. */
  predicate Unslipped(ss: seq<Pool>, es: seq<Event>, k: nat)
    requires k <= |es| < |ss|
  {
    forall j {:trigger Slips(ss[j], es[j])} | 0 <= j < k :: !Slips(ss[j], es[j])
  }

  predicate OfPoller(e: Event) {
    e.Look? || e.SignalAck? || e.Wake? || e.ClearReq? || e.Dispatch? || e.Finish? || e.Loop?
  }

  lemma {:induction false} PollerKeepsInv(b: Build, s: Pool, e: Event)
    requires Inv(b, s) && Enabled(s, e) && OfPoller(e)
    ensures Inv(b, Step(b, s, e))
  {
  }

  lemma {:induction false} LockKeepsInv(b: Build, s: Pool, e: Event)
    requires Inv(b, s) && Enabled(s, e) && !Slips(s, e)
    requires e.Test? || e.Acquire? || e.Request? || e.SeeAck? || e.ClearAck?
    ensures Inv(b, Step(b, s, e))
  {
  }

  lemma {:induction false} UnlockKeepsInv(b: Build, s: Pool, e: Event)
    requires Inv(b, s) && Enabled(s, e)
    requires e.TestAgain? || e.First? || e.Second? || e.Unlock?
    ensures Inv(b, Step(b, s, e))
  {
  }

  lemma {:induction false} StepKeepsInv(b: Build, s: Pool, e: Event)
    requires Inv(b, s) && Enabled(s, e) && !Slips(s, e)
    ensures Inv(b, Step(b, s, e))
  {
    hide Inv, Step, Enabled, Slips;
    if OfPoller(e) {
      PollerKeepsInv(b, s, e);
    } else if e.TestAgain? || e.First? || e.Second? || e.Unlock? {
      UnlockKeepsInv(b, s, e);
    } else {
      LockKeepsInv(b, s, e);
    }
  }

  lemma {:induction false} InvIsExclusive(b: Build, s: Pool)
    requires Inv(b, s)
    ensures Exclusive(s)
  {
  }

  lemma {:induction false} SlippingBreaks(b: Build, s: Pool, e: Event)
    requires Inv(b, s) && Enabled(s, e) && Slips(s, e)
    ensures !Exclusive(Step(b, s, e))
  {
    assert Locked(Step(b, s, e), e.i);
  }

  lemma {:induction false} UnslippedInv(b: Build, n: nat, ss: seq<Pool>, es: seq<Event>, k: nat)
    requires Trace(b, ss, es) && ss[0] == Start(n) && k <= |es|
    requires Unslipped(ss, es, k)
    ensures Inv(b, ss[k])
    decreases k
  {
    if k > 0 {
      hide Inv, Step, Enabled, Slips;
      UnslippedInv(b, n, ss, es, k - 1);
      var e := es[k - 1];
      StepKeepsInv(b, ss[k - 1], e);
    }
  }

  lemma {:induction false} FirstSlip(ss: seq<Pool>, es: seq<Event>, from: nat) returns (k: nat)
    requires from <= |es| < |ss|
    requires Unslipped(ss, es, from)
    requires !Unslipped(ss, es, |es|)
    ensures k < |es| && Slips(ss[k], es[k])
    ensures Unslipped(ss, es, k)
    decreases |es| - from
  {
    hide Slips;
    if Slips(ss[from], es[from]) { k := from; } else { k := FirstSlip(ss, es, from + 1); }
  }

  /** With any number of threads: a run keeps exclusion throughout exactly when no thread but the poller
      ever looks at lock_safe while it is set. A stale acknowledgement does no harm. */
  lemma {:induction false} ExclusionExact(b: Build, n: nat, ss: seq<Pool>, es: seq<Event>)
    requires Trace(b, ss, es) && ss[0] == Start(n)
    ensures (forall k {:trigger Exclusive(ss[k])} | 0 <= k <= |es| :: Exclusive(ss[k])) <==> Unslipped(ss, es, |es|)
  {
    hide Inv, Step, Enabled, Exclusive, Slips;
    if Unslipped(ss, es, |es|) {
      forall k | 0 <= k <= |es| ensures Exclusive(ss[k]) {
        UnslippedInv(b, n, ss, es, k);
        InvIsExclusive(b, ss[k]);
      }
    } else {
      var k := FirstSlip(ss, es, 0);
      UnslippedInv(b, n, ss, es, k);
      SlippingBreaks(b, ss[k], es[k]);
      assert !Exclusive(ss[k + 1]);
    }
  }

  lemma {:induction false} Then(b: Build, ss: seq<Pool>, es: seq<Event>, e: Event)
      returns (ss2: seq<Pool>, es2: seq<Event>)
    requires Trace(b, ss, es) && Enabled(ss[|es|], e)
    ensures ss2 == ss + [Step(b, ss[|es|], e)] && es2 == es + [e] && Trace(b, ss2, es2)
  {
    hide Step, Enabled;
    ss2, es2 := ss + [Step(b, ss[|es|], e)], es + [e];
    OneMore((s, x, t) => Enabled(s, x) && t == Step(b, s, x), ss, es, e, Step(b, ss[|es|], e));
  }

  /** The poller handles an event while a thread comes to lock the pool. */
  lemma {:induction false} SlippingRun(b: Build, n: nat) returns (ss: seq<Pool>, es: seq<Event>)
    requires n > 0
    ensures Trace(b, ss, es) && ss[0] == Start(n) && es == [Look, Dispatch, Test(0)] && !Exclusive(ss[3])
  {
    ss, es := [Start(n)], [];
    ss, es := Then(b, ss, es, Look);
    ss, es := Then(b, ss, es, Dispatch);
    ss, es := Then(b, ss, es, Test(0));
    assert Locked(ss[3], 0);
  }

  lemma {:induction false} ThreadsStay(b: Build, ss: seq<Pool>, es: seq<Event>, k: nat)
    requires Trace(b, ss, es) && k <= |es|
    ensures |ss[k].threads| == |ss[0].threads|
    decreases k
  {
    if k > 0 {
      ThreadsStay(b, ss, es, k - 1);
      var e := es[k - 1];
    }
  }

  lemma {:induction false} NoThreads(s: Pool)
    requires |s.threads| == 0
    ensures Exclusive(s)
  {
  }

  /** Some run breaks exclusion exactly when there is a thread besides the poller at all. */
  lemma {:induction false} BrokenExactly(b: Build, n: nat)
    ensures (exists ss: seq<Pool>, es :: Trace(b, ss, es) && ss[0] == Start(n) && !Exclusive(ss[|es|])) <==> n > 0
  {
    hide Exclusive, Step, Enabled;
    if n > 0 {
      var ss, es := SlippingRun(b, n);
    } else {
      forall ss: seq<Pool>, es | Trace(b, ss, es) && ss[0] == Start(0) ensures Exclusive(ss[|es|]) {
        ThreadsStay(b, ss, es, |es|);
        NoThreads(ss[|es|]);
      }
    }
  }

  // ---------------------------------------------------------------------------------------------
  // What exclusion costs

  predicate AllOutside(s: Pool) { forall i | 0 <= i < |s.threads| :: s.threads[i].Outside? }

  /** Nothing but another thread's lock will ever move the poller again. */
  predicate Deserted(s: Pool) { AllOutside(s) && s.poller.Parked? && !s.req }

  /** With no thread about, the poller is deserted exactly when an acknowledgement was left behind. */
  lemma {:induction false} DesertedExactly(b: Build, s: Pool)
    requires Inv(b, s) && AllOutside(s)
    ensures Deserted(s) <==> s.ack
    ensures Deserted(s) ==> forall e :: Enabled(s, e) ==> e.Test?
  {
  }

  /** Clearing the request first, an acknowledgement is pending only for the thread that asked for it. */
  predicate Asked(s: Pool) {
    && (s.poller.Acking? || s.ack ==> Holder(s).Waiting? || Holder(s).Acked?)
    && (s.lockState <==> Holder(s).Waiting? || Holder(s).Acked? || Holder(s).Inside? || Holder(s).Exiting?)
  }

  lemma {:induction false} StepKeepsAsked(s: Pool, e: Event)
    requires Inv(Corrected, s) && Asked(s) && Enabled(s, e) && !Slips(s, e)
    ensures Asked(Step(Corrected, s, e))
  {
  }

  lemma {:induction false} UnslippedAsked(n: nat, ss: seq<Pool>, es: seq<Event>, k: nat)
    requires Trace(Corrected, ss, es) && ss[0] == Start(n) && k <= |es|
    requires Unslipped(ss, es, k)
    ensures Asked(ss[k])
    decreases k
  {
    if k > 0 {
      hide Inv, Step, Enabled, Asked, Slips;
      UnslippedAsked(n, ss, es, k - 1);
      UnslippedInv(Corrected, n, ss, es, k - 1);
      var e := es[k - 1];
      StepKeepsAsked(ss[k - 1], e);
    }
  }

  /** A run in which no thread slips past the lock. */
  ghost predicate Reaches(b: Build, n: nat, s: Pool) {
    exists ss: seq<Pool>, es ::
      Trace(b, ss, es) && ss[0] == Start(n) && ss[|es|] == s && Unslipped(ss, es, |es|)
  }

  lemma {:induction false} ReachedInv(b: Build, n: nat, s: Pool)
    requires Reaches(b, n, s)
    ensures Inv(b, s) && (b.Corrected? ==> Asked(s))
  {
    hide Inv, Asked, Slips, Step, Enabled;
    var ss: seq<Pool>, es :|
      Trace(b, ss, es) && ss[0] == Start(n) && ss[|es|] == s && Unslipped(ss, es, |es|);
    UnslippedInv(b, n, ss, es, |es|);
    if b.Corrected? { UnslippedAsked(n, ss, es, |es|); }
  }

  lemma {:induction false} ReachesNext(b: Build, n: nat, s: Pool, e: Event) returns (t: Pool)
    requires Reaches(b, n, s) && Enabled(s, e) && !Slips(s, e)
    ensures t == Step(b, s, e) && Reaches(b, n, t)
  {
    hide Step, Enabled, Slips;
    var ss: seq<Pool>, es :|
      Trace(b, ss, es) && ss[0] == Start(n) && ss[|es|] == s && Unslipped(ss, es, |es|);
    t := Step(b, s, e);
    var ss2, es2 := Then(b, ss, es, e);
    forall j | 0 <= j < |es2| ensures !Slips(ss2[j], es2[j]) {
      if j < |es| { assert es2[j] == es[j] && ss2[j] == ss[j]; }
    }
    assert ss2[|es2|] == t;
  }

  lemma {:induction false} ReachesStart(b: Build, n: nat)
    ensures Reaches(b, n, Start(n))
  {
    assert Trace(b, [Start(n)], []);
  }

  lemma {:induction false} OneThreadAsks() returns (s: Pool)
    ensures Reaches(AsWritten, 1, s) && s == Pool([Waiting], Acking, Some(0), true, false, false, false)
  {
    hide Reaches;
    s := Start(1);
    ReachesStart(AsWritten, 1);
    s := ReachesNext(AsWritten, 1, s, Test(0));
    s := ReachesNext(AsWritten, 1, s, Acquire(0));
    s := ReachesNext(AsWritten, 1, s, Request(0));
    s := ReachesNext(AsWritten, 1, s, Look);
  }

  lemma {:induction false} OneThreadInside() returns (s: Pool)
    ensures Reaches(AsWritten, 1, s) && s == Pool([Inside], Parked, Some(0), true, false, false, false)
  {
    hide Reaches;
    s := OneThreadAsks();
    s := ReachesNext(AsWritten, 1, s, SignalAck);
    s := ReachesNext(AsWritten, 1, s, SeeAck(0));
    s := ReachesNext(AsWritten, 1, s, ClearAck(0));
  }

  lemma {:induction false} PollerReleased() returns (s: Pool)
    ensures Reaches(AsWritten, 1, s) && s == Pool([Halfway], Top, Some(0), true, false, false, false)
  {
    hide Reaches;
    s := OneThreadInside();
    s := ReachesNext(AsWritten, 1, s, TestAgain(0));
    s := ReachesNext(AsWritten, 1, s, First(0));
    s := ReachesNext(AsWritten, 1, s, Wake);
    s := ReachesNext(AsWritten, 1, s, ClearReq);
    s := ReachesNext(AsWritten, 1, s, Loop);
  }

  /** One thread locks and unlocks; before it clears its request the poller comes round once more. */
  lemma {:induction false} AsWrittenDeserts() returns (s: Pool)
    ensures Reaches(AsWritten, 1, s) && Deserted(s)
  {
    hide Reaches;
    s := PollerReleased();
    s := ReachesNext(AsWritten, 1, s, Look);
    s := ReachesNext(AsWritten, 1, s, SignalAck);
    s := ReachesNext(AsWritten, 1, s, Second(0));
    s := ReachesNext(AsWritten, 1, s, Unlock(0));
  }

  /** The order of the last two steps of unlocking decides whether the poller can be deserted. */
  lemma {:induction false} DesertionExact(b: Build)
    ensures (exists n, s :: Reaches(b, n, s) && Deserted(s)) <==> b.AsWritten?
  {
    hide Reaches;
    if b.AsWritten? {
      var s := AsWrittenDeserts();
    } else {
      forall n, s | Reaches(b, n, s) ensures !Deserted(s) {
        ReachedInv(b, n, s);
        if AllOutside(s) { DesertedExactly(b, s); }
      }
    }
  }

  // ---------------------------------------------------------------------------------------------
  // One round of locking

  /** Nobody has or wants the pool, and the poller is about to look. */
  predicate AtRest(s: Pool) {
    s.poller.Top? && s.mutex.None? && !s.lockState && !s.lockSafe && !s.ack && !s.req
  }

  function LockedBy(s: Pool, i: nat): Pool
    requires i < |s.threads|
  {
    At(s, i, Inside).(mutex := Some(i), lockState := true, poller := Parked)
  }

  ghost predicate LeadsTo(b: Build, s: Pool, t: Pool) {
    exists ss: seq<Pool>, es :: Trace(b, ss, es) && ss[0] == s && ss[|es|] == t
  }

  lemma {:induction false} Onwards(b: Build, s: Pool, t: Pool, e: Event) returns (u: Pool)
    requires LeadsTo(b, s, t) && Enabled(t, e)
    ensures u == Step(b, t, e) && LeadsTo(b, s, u)
  {
    hide Step, Enabled;
    var ss: seq<Pool>, es :| Trace(b, ss, es) && ss[0] == s && ss[|es|] == t;
    var ss2, es2 := Then(b, ss, es, e);
    u := Step(b, t, e);
    assert ss2[|es2|] == u && ss2[0] == s;
  }

  lemma {:induction false} Already(b: Build, s: Pool)
    ensures LeadsTo(b, s, s)
  {
    var ss, es: seq<Event> := [s], [];
    assert Trace(b, ss, es) && ss[|es|] == s;
  }

  lemma {:induction false} LetsGo(b: Build, s: Pool, i: nat)
    requires IsAt(s, i, Inside) && !s.lockSafe
    ensures LeadsTo(b, s, At(s, i, Outside).(mutex := None, lockState := false, req := true))
  {
    hide LeadsTo;
    Already(b, s);
    var t := Onwards(b, s, s, TestAgain(i));
    t := Onwards(b, s, t, First(i));
    t := Onwards(b, s, t, Second(i));
    t := Onwards(b, s, t, Unlock(i));
    assert t.threads == At(s, i, Outside).threads;
  }

  lemma {:induction false} GoesOn(b: Build, s: Pool, l: Pool)
    requires AtRest(s) && LeadsTo(b, l, s.(poller := Parked, req := true))
    ensures LeadsTo(b, l, s)
  {
    hide LeadsTo;
    var t := Onwards(b, l, s.(poller := Parked, req := true), Wake);
    t := Onwards(b, l, t, ClearReq);
    t := Onwards(b, l, t, Loop);
  }

  lemma {:induction false} Asks(b: Build, s: Pool, i: nat)
    requires s.mutex.None? && !s.lockSafe && IsAt(s, i, Outside)
    ensures LeadsTo(b, s, At(s, i, Waiting).(mutex := Some(i), lockState := true))
  {
    hide LeadsTo;
    Already(b, s);
    var t := Onwards(b, s, s, Test(i));
    t := Onwards(b, s, t, Acquire(i));
    t := Onwards(b, s, t, Request(i));
    assert t.threads == At(s, i, Waiting).threads;
  }

  lemma {:induction false} Enters(b: Build, s: Pool, w: Pool, i: nat)
    requires LeadsTo(b, s, w) && w.poller.Top? && w.lockState && !w.ack && IsAt(w, i, Waiting)
    ensures LeadsTo(b, s, At(w, i, Inside).(poller := Parked))
  {
    hide LeadsTo;
    var t := Onwards(b, s, w, Look);
    t := Onwards(b, s, t, SignalAck);
    t := Onwards(b, s, t, SeeAck(i));
    t := Onwards(b, s, t, ClearAck(i));
    assert t.threads == At(w, i, Inside).threads;
  }

  lemma {:induction false} GetsInside(b: Build, s: Pool, i: nat)
    requires s.poller.Top? && s.mutex.None? && !s.lockSafe && !s.ack && IsAt(s, i, Outside)
    ensures LeadsTo(b, s, LockedBy(s, i))
  {
    hide LeadsTo;
    Asks(b, s, i);
    var w := At(s, i, Waiting).(mutex := Some(i), lockState := true);
    Enters(b, s, w, i);
    assert At(w, i, Inside).threads == At(s, i, Inside).threads;
  }

  /** From rest a thread gets inside with the poller parked, whatever other threads there are, and from there
      everything comes to be as it was. */
  lemma {:induction false} OneRound(b: Build, s: Pool, i: nat)
    requires AtRest(s) && IsAt(s, i, Outside)
    ensures LeadsTo(b, s, LockedBy(s, i)) && LeadsTo(b, LockedBy(s, i), s)
  {
    hide LeadsTo;
    GetsInside(b, s, i);
    LetsGo(b, LockedBy(s, i), i);
    assert At(LockedBy(s, i), i, Outside).threads == s.threads;
    GoesOn(b, s, LockedBy(s, i));
  }

  /** The poller in its own callbacks, or a thread that slips by, passes through while lock_safe is set and
      leaves no trace. */
  lemma {:induction false} SkipsBoth(b: Build, s: Pool, i: nat)
    requires s.lockSafe && IsAt(s, i, Outside)
    ensures Enabled(s, Test(i)) && Enabled(Step(b, s, Test(i)), TestAgain(i))
    ensures Step(b, Step(b, s, Test(i)), TestAgain(i)) == s
  {
    assert Step(b, Step(b, s, Test(i)), TestAgain(i)).threads == s.threads;
  }

  lemma {:induction false} SlipsIn(b: Build)
    ensures LeadsTo(b, Start(1), At(Start(1), 0, Inside))
  {
    hide LeadsTo;
    var s := Start(1);
    Already(b, s);
    var t := Onwards(b, s, s, Look);
    t := Onwards(b, s, t, Dispatch);
    t := Onwards(b, s, t, Test(0));
    t := Onwards(b, s, t, Finish);
  }

  /** A thread that slips by and finds lock_safe cleared on its way out gives back what it never had: the signal
      to go on is left over, with nobody inside. */
  lemma {:induction false} StrayRelease(b: Build)
    ensures LeadsTo(b, Start(1), At(Start(1), 0, Inside)) && LeadsTo(b, At(Start(1), 0, Inside), Start(1).(req := true))
  {
    hide LeadsTo;
    SlipsIn(b);
    LetsGo(b, At(Start(1), 0, Inside), 0);
    assert At(At(Start(1), 0, Inside), 0, Outside).threads == Start(1).threads;
  }

  lemma {:induction false} NotParked(s: Pool)
    requires Locked(s, 0) && !s.poller.Parked?
    ensures !Exclusive(s)
  {
  }

  /** The next thread then gets inside with the poller on its way, although it slipped by nothing. */
  lemma {:induction false} StraySignalBreaks(b: Build) returns (t: Pool)
    ensures LeadsTo(b, Start(1).(req := true), t) && Locked(t, 0) && !Exclusive(t) && !t.lockSafe
  {
    hide LeadsTo, Exclusive;
    var s := Start(1).(req := true);
    GetsInside(b, s, 0);
    t := Onwards(b, s, LockedBy(s, 0), Wake);
    NotParked(t);
  }
}
