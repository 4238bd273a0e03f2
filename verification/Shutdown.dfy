/** The end of a connection: from the stop request until the owner is told that it has stopped. */
module Shutdown {
  import opened Basics
  import opened MrModel
  import opened IngressModel
  import EgressFlow

  datatype Machine = Running | Stopping | Stopped | Aborted

  datatype Socket = Unopened | Connecting | Connected | Draining | Closing | Closed

  /** A timer told to stop is idle once its stopped event is delivered. */
  datatype Timer = Off | On | Winding

  /** What the shutdown sees of the sending side: credits in hand, and contexts in the ring and busy. */
  datatype Sends = Sends(max: nat, ring: nat, credits: nat, busy: nat)

  datatype Conn = Conn(machine: Machine, socket: Socket, keepalive: Timer, deadline: Timer, failed: bool,
                       sends: Sends, ingress: In, stops: nat)

  /** What becomes of a message staged before the connection was there. */
  datatype StagedSend = NothingStaged | Sent | NotSent

  datatype Event =
    | Established(a: Answer, staged: StagedSend)
    | Stop(failed: bool)
    | TxDone | TxFailed
    | RxAny
    | EqShutdown | EqError | EqOther
    | KeepaliveStopped
    | DeadlineFired | DeadlineStopped
    | Fetched(a: Answer)

  function Wind(t: Timer): Timer { if t.On? then Winding else t }

  predicate IngressEmpty(q: In) { |q.busy| == 0 && |q.pop| == 0 }

  /** Discards what is in flight, provided no context in front of the ring is free. */
  function Discard(s: Sends): Sends { if s.busy < s.ring then s else s.(credits := s.credits + s.busy, busy := 0) }

  predicate Quiet(c: Conn) {
    c.sends.credits == c.sends.max && IngressEmpty(c.ingress) && c.keepalive.Off? && c.deadline.Off?
  }

  /** The tail of the handler: waits, or takes the next phase. */
  function Advance(c: Conn): Conn {
    if !Quiet(c) then c
    else match c.socket
      case Connected => c.(socket := Draining, deadline := On)
      case Connecting => c.(socket := Closed, machine := Stopped, stops := c.stops + 1)
      case Closed => c.(machine := Stopped, stops := c.stops + 1)
      case _ => c.(machine := Aborted)
  }

  /** Completions after a failure are dropped: their credits do not come back. */
  function Drain(c: Conn, e: Event): Conn
    requires e.TxDone? || e.TxFailed?
    requires c.failed || c.sends.busy > 0
  {
    if c.failed then c
    else c.(sends := c.sends.(busy := c.sends.busy - 1, credits := c.sends.credits + Int(e.TxDone?)))
  }

  predicate Enabled(c: Conn, e: Event) {
    match e
    case Established(_, staged) =>
      && c.machine.Running? && c.socket.Connecting?
      && (staged.Sent? ==> c.sends.credits > 0 && c.sends.busy < c.sends.ring)
    case Stop(_) => c.machine.Running?
    case TxDone | TxFailed => c.machine.Stopping? && (c.failed || c.sends.busy > 0)
    case RxAny | EqShutdown | EqError | EqOther => c.machine.Stopping?
    case KeepaliveStopped => c.machine.Stopping? && c.keepalive.Winding?
    case DeadlineFired => c.machine.Stopping? && c.deadline.On?
    case DeadlineStopped => c.machine.Stopping? && c.deadline.Winding?
    case Fetched(_) => c.machine.Stopping? && c.ingress.flags.nnBusy
  }

  /** The stop request: on a failure what is in flight is discarded. */
  function StopNow(c: Conn, failed: bool): Conn {
    Advance(c.(machine := Stopping, failed := failed, keepalive := Wind(c.keepalive), ingress := Flush(c.ingress),
               sends := if failed then Discard(c.sends) else c.sends))
  }

  /** The connection is there: the keepalive timer runs, a receive is posted and what was staged is sent.
      Any of it that fails is a failure of the connection. */
  function Connect(c: Conn, a: Answer, staged: StagedSend): Conn
    requires staged.Sent? ==> c.sends.credits > 0
  {
    var (q, r) := PostOne(c.ingress, a);
    var d := c.(socket := Connected, keepalive := On, ingress := q);
    if !r.Ok? || staged.NotSent? then StopNow(d, true)
    else if staged.Sent? then d.(sends := d.sends.(credits := d.sends.credits - 1, busy := d.sends.busy + 1))
    else d
  }

  /** One call of the handler, or of the fetch that nanomsg owes. */
  function Step(c: Conn, e: Event): Conn
    requires Enabled(c, e)
  {
    match e
    case Established(a, staged) => Connect(c, a, staged)
    case Stop(failed) => StopNow(c, failed)
    case TxDone | TxFailed => Advance(Drain(c, e))
    case RxAny | EqError => Advance(c)
    case EqShutdown => Advance(c.(socket := Closed, deadline := Wind(c.deadline)))
    case EqOther => c.(machine := Aborted)
    case KeepaliveStopped => Advance(c.(keepalive := Off))
    case DeadlineFired => if c.socket.Closing? || c.socket.Draining? then c.(deadline := Winding) else c
    case DeadlineStopped =>
      var d := c.(deadline := Off);
      if c.socket.Draining? then c.(socket := Closing, deadline := On)
      else if c.socket.Closing? then Advance(d.(socket := Closed))
      else if c.socket.Closed? then Advance(d)
      else d.(machine := Aborted)
    case Fetched(a) => c.(ingress := Fetch(AsWritten, c.ingress, a))
  }

  /** A run: the states passed through and the events between them. */
  ghost predicate Trace(cs: seq<Conn>, es: seq<Event>) {
    && |cs| == |es| + 1
    && forall k {:trigger es[k]} | 0 <= k < |es| :: Enabled(cs[k], es[k]) && cs[k + 1] == Step(cs[k], es[k])
  }

  // ---------------------------------------------------------------------------------------------
  // What every run keeps

  /** A connection before its stop request: the deadline is not started, and credits and busy contexts
      are at most what there is of each. */
  predicate Live(c: Conn) {
    && c.machine.Running? && c.deadline.Off? && c.stops == 0
    && c.sends.credits + c.sends.busy <= c.sends.max && c.sends.busy <= c.sends.ring
    && c.socket in {Connecting, Connected, Closed}
    && (c.ingress.flags.nnLater ==> c.ingress.flags.nnBusy)
    && |c.ingress.pop| >= Int(c.ingress.flags.nnBusy) + Int(c.ingress.flags.nnLater)
  }

  /** The receiving side after the stop request: nothing is posted, and what is populated waits for
      nanomsg. */
  predicate Waiting(q: In) {
    && |q.busy| == 0
    && (q.flags.nnLater ==> q.flags.nnBusy)
    && (q.flags.nnBusy ==> q.flags.flush)
    && (!q.flags.nnBusy ==> |q.pop| == 0)
    && |q.pop| >= Int(q.flags.nnBusy) + Int(q.flags.nnLater)
  }

  predicate Phased(c: Conn) {
    match c.socket
    case Unopened => false
    case Connecting | Connected => c.deadline.Off?
    case Draining | Closing => !c.deadline.Off?
    case Closed => !c.deadline.On?
  }

  predicate Inv(c: Conn) {
    && (c.machine.Running? ==> Live(c))
    && (!c.machine.Running? ==> Waiting(c.ingress) && (c.machine.Aborted? || (!c.keepalive.On? && Phased(c))))
    && c.stops == Int(c.machine.Stopped?)
    && (c.machine.Stopped? ==> Quiet(c) && c.socket.Closed?)
    && c.sends.credits + c.sends.busy <= c.sends.max
  }

  lemma {:induction false} FlushWaits(q: In)
    requires q.flags.nnLater ==> q.flags.nnBusy
    requires |q.pop| >= Int(q.flags.nnBusy) + Int(q.flags.nnLater)
    ensures Waiting(Flush(q))
  {
  }

  lemma {:induction false} FlushShrinks(q: In)
    ensures |Flush(q).pop| <= |q.pop|
  {
  }

  lemma {:induction false} FetchWaits(q: In, a: Answer)
    requires Waiting(q) && q.flags.nnBusy
    ensures Waiting(Fetch(AsWritten, q, a)) && |Fetch(AsWritten, q, a).pop| < |q.pop|
  {
    hide Flush;
    var v := Rearm(AsWritten, PostLate(TakeFirst(q), a));
    FlushWaits(v);
    assert |Flush(v).pop| <= |v.pop| by { FlushShrinks(v); }
  }

  lemma {:induction false} StopKeepsInv(c: Conn, failed: bool)
    requires Live(c)
    ensures Inv(StopNow(c, failed)) && !StopNow(c, failed).machine.Running?
  {
    hide Flush, Waiting;
    FlushWaits(c.ingress);
  }

  lemma {:induction false} ConnectKeepsInv(c: Conn, a: Answer, staged: StagedSend)
    requires Live(c) && Enabled(c, Established(a, staged))
    ensures Inv(Connect(c, a, staged))
  {
    var d := c.(socket := Connected, keepalive := On, ingress := PostOne(c.ingress, a).0);
    assert Live(d);
    StopKeepsInv(d, true);
    hide StopNow, Waiting;
  }

  lemma {:induction false} StepKeepsInv(c: Conn, e: Event)
    requires Inv(c) && Enabled(c, e)
    ensures Inv(Step(c, e))
  {
    hide Flush, Fetch, Waiting, StopNow, Connect;
    if e.Stop? { StopKeepsInv(c, e.failed); }
    if e.Established? { ConnectKeepsInv(c, e.a, e.staged); }
    if e.Fetched? { FetchWaits(c.ingress, e.a); }
  }

  lemma {:induction false} TraceKeepsInv(cs: seq<Conn>, es: seq<Event>, k: nat)
    requires Trace(cs, es) && Live(cs[0]) && k <= |es|
    ensures Inv(cs[k])
    decreases k
  {
    if k > 0 {
      TraceKeepsInv(cs, es, k - 1);
      hide Step, Enabled, Inv, Live;
      var e := es[k - 1];
      StepKeepsInv(cs[k - 1], e);
    }
  }

  /** At every point of a run the owner has heard at most once that the connection stopped, and once it
      has, all credits are back, no buffer is posted or populated, both timers are idle and the socket
      is closed. */
  lemma {:induction false} StopsOnceAndClean(cs: seq<Conn>, es: seq<Event>, k: nat)
    requires Trace(cs, es) && Live(cs[0]) && k <= |es|
    ensures var d := cs[k];
            && d.stops <= 1 && (d.stops == 1 <==> d.machine.Stopped?)
            && (d.machine.Stopped? ==>
                  && d.sends.credits == d.sends.max && |d.ingress.busy| == 0 && |d.ingress.pop| == 0
                  && d.keepalive.Off? && d.deadline.Off? && d.socket.Closed?)
  {
    TraceKeepsInv(cs, es, k);
  }

  function Rank(s: Socket): nat {
    match s
    case Unopened => 0
    case Connecting => 1
    case Connected => 2
    case Draining => 3
    case Closing => 4
    case Closed => 5
  }

  lemma {:induction false} StepMovesForward(c: Conn, e: Event)
    requires Enabled(c, e)
    ensures Rank(c.socket) <= Rank(Step(c, e).socket)
  {
    hide Flush, Fetch;
  }

  /** Phases of the socket only move forward. */
  lemma {:induction false} PhasesMoveForward(cs: seq<Conn>, es: seq<Event>, i: nat, j: nat)
    requires Trace(cs, es) && i <= j <= |es|
    ensures Rank(cs[i].socket) <= Rank(cs[j].socket)
    decreases j - i
  {
    if i < j {
      PhasesMoveForward(cs, es, i, j - 1);
      var e := es[j - 1];
      StepMovesForward(cs[j - 1], e);
      hide Step, Enabled;
    }
  }

  // ---------------------------------------------------------------------------------------------
  // Progress

  function Weight(t: Timer): nat {
    match t
    case Off => 0
    case Winding => 1
    case On => 2
  }

  /** Sends in flight first, then the phases left, then the timers. */
  function Left(c: Conn): nat {
    (c.sends.busy * 6 + (5 - Rank(c.socket))) * 5 + Weight(c.keepalive) + Weight(c.deadline)
  }

  /** The events a closing connection waits for. */
  predicate Awaited(c: Conn, e: Event) {
    && c.machine.Stopping? && Enabled(c, e)
    && ((!c.failed && (e.TxDone? || e.TxFailed?)) || e.KeepaliveStopped? || e.DeadlineFired? || e.DeadlineStopped?)
  }

  lemma {:induction false} AwaitedFalls(c: Conn, e: Event)
    requires Inv(c) && Awaited(c, e)
    ensures Left(Step(c, e)) < Left(c)
  {
    hide Waiting, Live;
  }

  lemma {:induction false} NeverRises(c: Conn, e: Event)
    requires Inv(c) && c.machine.Stopping? && Enabled(c, e)
    ensures Left(Step(c, e)) <= Left(c)
  {
    hide Waiting, Live, Fetch;
  }

  /** How many of the first k events were awaited ones. */
  function AwaitedIn(cs: seq<Conn>, es: seq<Event>, k: nat): nat
    requires k <= |es| < |cs|
  {
    if k == 0 then 0 else AwaitedIn(cs, es, k - 1) + Int(Awaited(cs[k - 1], es[k - 1]))
  }

  lemma {:induction false} OnlyWhileStopping(c: Conn, e: Event)
    requires Enabled(c, e) && !c.machine.Running?
    ensures c.machine.Stopping? && !Step(c, e).machine.Running?
  {
  }

  lemma {:induction false} OneEvent(c: Conn, e: Event)
    requires Inv(c) && !c.machine.Running? && Enabled(c, e)
    ensures Inv(Step(c, e)) && !Step(c, e).machine.Running?
    ensures Int(Awaited(c, e)) + Left(Step(c, e)) <= Left(c)
  {
    hide Inv, Left, Step, Enabled, Awaited;
    OnlyWhileStopping(c, e);
    StepKeepsInv(c, e);
    NeverRises(c, e);
    if Awaited(c, e) { AwaitedFalls(c, e); }
  }

  /** However the other events fall, a closing connection sees only so many of the awaited ones. */
  lemma {:induction false} AwaitedAreBounded(cs: seq<Conn>, es: seq<Event>, k: nat)
    requires Trace(cs, es) && Inv(cs[0]) && cs[0].machine.Stopping? && k <= |es|
    ensures Inv(cs[k]) && !cs[k].machine.Running?
    ensures AwaitedIn(cs, es, k) + Left(cs[k]) <= Left(cs[0])
    decreases k
  {
    hide Inv, Left, Step, Enabled, Awaited;
    if k > 0 {
      AwaitedAreBounded(cs, es, k - 1);
      OneEvent(cs[k - 1], es[k - 1]);
    }
  }

  /** Every credit is in hand or in flight. */
  predicate CreditsAccounted(s: Sends) { s.credits + s.busy == s.max }

  /** What can still be stopped: all credits will come back. */
  predicate Recoverable(c: Conn) { CreditsAccounted(c.sends) && (c.failed ==> c.sends.busy == 0) }

  /** With no fetch outstanding, nothing more is awaited exactly when the connection is quiet. */
  lemma {:induction false} StrandedExactly(c: Conn)
    requires Inv(c) && c.machine.Stopping? && Recoverable(c) && !c.ingress.flags.nnBusy
    ensures (forall e :: !Awaited(c, e)) <==> Quiet(c)
  {
    hide Live;
    if !Quiet(c) {
      var e := if c.sends.busy > 0 then TxDone
               else if c.keepalive.Winding? then KeepaliveStopped
               else if c.deadline.On? then DeadlineFired else DeadlineStopped;
      assert Awaited(c, e);
    }
  }

  lemma {:induction false} LastFetchEmpties(q: In, a: Answer)
    requires Waiting(q) && q.flags.nnBusy && !q.flags.nnLater
    ensures IngressEmpty(Fetch(AsWritten, q, a)) && !Fetch(AsWritten, q, a).flags.nnBusy
  {
  }

  /** No event but a fetch leaves a closing connection quiet, ... */
  lemma {:induction false} OnlyFetchesStrand(c: Conn, e: Event)
    requires Inv(c) && Enabled(c, e) && !e.Fetched? && (c.machine.Stopping? ==> !Quiet(c))
    ensures Step(c, e).machine.Stopping? ==> !Quiet(Step(c, e))
  {
    hide Flush, Fetch, Waiting, Live;
  }

  /** ... and a fetch that empties the queue last of all does. */
  lemma {:induction false} LastFetchStrands(c: Conn, a: Answer)
    requires Inv(c) && Enabled(c, Fetched(a)) && Recoverable(c)
    requires c.sends.busy == 0 && c.keepalive.Off? && c.deadline.Off? && !c.ingress.flags.nnLater
    ensures var d := Step(c, Fetched(a));
            d.machine.Stopping? && Quiet(d) && !d.ingress.flags.nnBusy && forall e :: !Awaited(d, e)
  {
    FetchWaits(c.ingress, a);
    var d := Step(c, Fetched(a));
    StepKeepsInv(c, Fetched(a));
    LastFetchEmpties(c.ingress, a);
    hide Fetch, Live;
    StrandedExactly(d);
  }

  // ---------------------------------------------------------------------------------------------
  // When a connection can stop at all

  lemma {:induction false} LossIsForGood(c: Conn, e: Event)
    requires Inv(c) && c.machine.Stopping? && Enabled(c, e) && !Recoverable(c)
    ensures !Recoverable(Step(c, e)) && !Step(c, e).machine.Stopped?
  {
    hide Waiting, Live, Fetch;
  }

  lemma {:induction false} LossIsForever(cs: seq<Conn>, es: seq<Event>, k: nat)
    requires Trace(cs, es) && Inv(cs[0]) && cs[0].machine.Stopping? && !Recoverable(cs[0]) && k <= |es|
    ensures Inv(cs[k]) && !Recoverable(cs[k]) && !cs[k].machine.Stopped? && !cs[k].machine.Running?
    decreases k
  {
    if k > 0 {
      hide Inv, Recoverable, Step, Enabled;
      LossIsForever(cs, es, k - 1);
      var c, e := cs[k - 1], es[k - 1];
      OnlyWhileStopping(c, e);
      StepKeepsInv(c, e);
      LossIsForGood(c, e);
    }
  }

  /** The event that brings a recoverable connection nearer to its end. */
  function Next(c: Conn): Event {
    if c.ingress.flags.nnBusy then Fetched(Refused)
    else if c.sends.busy > 0 then TxDone
    else if c.keepalive.Winding? then KeepaliveStopped
    else if c.deadline.On? then DeadlineFired
    else if c.deadline.Winding? then DeadlineStopped
    else RxAny
  }

  lemma {:induction false} NextIsNearer(c: Conn)
    requires Inv(c) && c.machine.Stopping? && Recoverable(c)
    ensures Enabled(c, Next(c))
    ensures var d := Step(c, Next(c));
            && Recoverable(d) && (d.machine.Stopping? || d.machine.Stopped?)
            && (d.machine.Stopping? ==> Left(d) + |d.ingress.pop| < Left(c) + |c.ingress.pop|)
  {
    hide Live, Fetch;
    if c.ingress.flags.nnBusy { FetchWaits(c.ingress, Refused); }
  }

  /** A run that stops a recoverable connection. */
  lemma {:induction false} Ending(c: Conn) returns (cs: seq<Conn>, es: seq<Event>)
    requires Inv(c) && c.machine.Stopping? && Recoverable(c)
    ensures Trace(cs, es) && cs[0] == c && cs[|es|].machine.Stopped?
    decreases Left(c) + |c.ingress.pop|
  {
    hide Inv, Recoverable, Left, Enabled, Step, Next;
    NextIsNearer(c);
    StepKeepsInv(c, Next(c));
    var d := Step(c, Next(c));
    cs, es := [d], [];
    if d.machine.Stopping? { cs, es := Ending(d); }
    cs, es := [c] + cs, [Next(c)] + es;
  }

  ghost predicate CanStop(c: Conn) {
    exists cs: seq<Conn>, es :: Trace(cs, es) && cs[0] == c && cs[|es|].machine.Stopped?
  }

  /** Whether all credits will be back can be told before the stop request. */
  predicate WillRecover(s: Sends, failed: bool) {
    CreditsAccounted(s) && (failed ==> s.busy == 0 || s.busy == s.ring)
  }

  lemma {:induction false} StopSettles(c: Conn, failed: bool)
    requires Live(c)
    ensures var d := Step(c, Stop(failed));
            && (d.machine.Stopping? || d.machine.Stopped?)
            && (Recoverable(d) <==> WillRecover(c.sends, failed))
            && (!Recoverable(d) ==> d.machine.Stopping?)
  {
    hide Flush;
  }

  /** A connection asked to stop can reach its end exactly when no credit was lost before and, if it
      stops on a failure, all of the ring is in flight or none of it. */
  lemma {:induction false} StopsExactly(c: Conn, failed: bool)
    requires Live(c)
    ensures CanStop(Step(c, Stop(failed))) <==> WillRecover(c.sends, failed)
  {
    var d := Step(c, Stop(failed));
    StepKeepsInv(c, Stop(failed));
    StopSettles(c, failed);
    hide Inv, Recoverable, Step, Live;
    if WillRecover(c.sends, failed) {
      if d.machine.Stopping? {
        var cs, es := Ending(d);
      } else {
        assert Trace([d], []);
      }
    } else {
      forall cs: seq<Conn>, es | Trace(cs, es) && cs[0] == d ensures !cs[|es|].machine.Stopped? {
        LossIsForever(cs, es, |es|);
      }
    }
  }

  /** What takes the end away: a failed transmission on a clean shutdown, or an endpoint event that is not
      expected. */
  predicate Breaks(c: Conn, e: Event) { (e.TxFailed? && !c.failed) || e.EqOther? }

  ghost predicate Unbroken(cs: seq<Conn>, es: seq<Event>, k: nat)
    requires k <= |es| < |cs|
  {
    forall j {:trigger Breaks(cs[j], es[j])} | 0 <= j < k :: !Breaks(cs[j], es[j])
  }

  predicate Hopeful(c: Conn) { c.machine.Stopped? || (c.machine.Stopping? && Recoverable(c)) }

  lemma {:induction false} HopeStep(c: Conn, e: Event)
    requires Inv(c) && !c.machine.Running? && Enabled(c, e)
    ensures Hopeful(Step(c, e)) <==> Hopeful(c) && !Breaks(c, e)
  {
    hide Waiting, Live, Fetch;
  }

  lemma {:induction false} UnbrokenMore(cs: seq<Conn>, es: seq<Event>, k: nat)
    requires k < |es| < |cs|
    ensures Unbroken(cs, es, k + 1) <==> Unbroken(cs, es, k) && !Breaks(cs[k], es[k])
  {
    hide Breaks;
  }

  lemma {:induction false} HopeSoFar(cs: seq<Conn>, es: seq<Event>, k: nat)
    requires Trace(cs, es) && Inv(cs[0]) && !cs[0].machine.Running? && k <= |es| && Hopeful(cs[0])
    ensures Inv(cs[k]) && !cs[k].machine.Running? && (Hopeful(cs[k]) <==> Unbroken(cs, es, k))
    decreases k
  {
    if k > 0 {
      hide Inv, Step, Enabled, Hopeful, Breaks, Unbroken;
      HopeSoFar(cs, es, k - 1);
      UnbrokenMore(cs, es, k - 1);
      var e := es[k - 1];
      OnlyWhileStopping(cs[k - 1], e);
      StepKeepsInv(cs[k - 1], e);
      HopeStep(cs[k - 1], e);
    }
  }

  lemma {:induction false} HopeIsExact(c: Conn)
    requires Inv(c) && !c.machine.Running?
    ensures CanStop(c) <==> Hopeful(c)
  {
    hide Inv, Recoverable, Step;
    if c.machine.Stopped? {
      assert Trace([c], []);
    } else if c.machine.Stopping? && Recoverable(c) {
      var cs, es := Ending(c);
    } else {
      forall cs: seq<Conn>, es | Trace(cs, es) && cs[0] == c ensures !cs[|es|].machine.Stopped? {
        if c.machine.Stopping? {
          LossIsForever(cs, es, |es|);
        } else if |es| > 0 {
          var e := es[0];
          OnlyWhileStopping(c, e);
        }
      }
    }
  }

  /** From the stop request on, a connection that could end still can at point k exactly when up to there no
      transmission failed on a clean shutdown and no endpoint event came that was not expected. */
  lemma {:induction false} CanStillStopExactly(cs: seq<Conn>, es: seq<Event>, k: nat)
    requires Trace(cs, es) && Inv(cs[0]) && !cs[0].machine.Running? && CanStop(cs[0]) && k <= |es|
    ensures CanStop(cs[k]) <==> Unbroken(cs, es, k)
  {
    hide Inv, Step, Enabled, Hopeful, CanStop, Breaks;
    HopeIsExact(cs[0]);
    HopeSoFar(cs, es, k);
    HopeIsExact(cs[k]);
  }

  // ---------------------------------------------------------------------------------------------
  // The sending side in detail

  /** The credit of a message just posted counts as taken. */
  function SendsOf(f: EgressFlow.Flow, tx: nat, ring: nat): Sends
    requires f.credits >= Int(f.phase.Posted?)
  {
    Sends(tx, ring, f.credits - Int(f.phase.Posted?), |f.busy|)
  }

  /** What the shutdown needs to know of the sending side holds at every point of every run of it, and
      failed transmissions are exactly what makes credits go missing. */
  lemma {:induction false} SendsFromFlow(f: EgressFlow.Flow, tx: nat, ring: nat, slabSize: nat)
    requires tx > 0 && EgressFlow.Reaches(tx, ring, slabSize, f)
    ensures f.credits >= Int(f.phase.Posted?)
    ensures var s := SendsOf(f, tx, ring);
            s.credits + s.busy <= s.max && s.busy <= s.ring && s.max - (s.credits + s.busy) == f.lost
    ensures CreditsAccounted(SendsOf(f, tx, ring)) <==> f.lost == 0
    ensures f.failure == Some(EgressFlow.TxError) ==> f.lost == 1
  {
    hide EgressFlow.Inv, EgressFlow.Reaches;
    EgressFlow.ReachedInv(tx, ring, slabSize, f);
    EgressFlow.InvParts(f, tx, ring);
  }

  /** What it needs to know of the receiving side holds in every run of that one. */
  lemma {:induction false} WaitingFromIngress(ss: seq<In>, es: seq<IngressModel.Event>, k: nat, max: nat)
    requires IngressModel.Trace(AsWritten, ss, es) && k <= |es| && max > 0 && ss[0] == IngressModel.Start(max)
    ensures var q := ss[k];
            && (q.flags.nnLater ==> q.flags.nnBusy)
            && |q.pop| >= Int(q.flags.nnBusy) + Int(q.flags.nnLater)
            && Waiting(Flush(q))
  {
    Delivery(AsWritten, ss, es, k, max);
    FlushWaits(ss[k]);
  }

  /** A completion brings a credit back with its context, a failed transmission the context alone. */
  lemma {:induction false} RetireCounts(f: EgressFlow.Flow, i: nat)
    requires i < |f.busy| && CtxInRange(f.m, f.busy[i].t.ctx)
    ensures var g := EgressFlow.Complete(f, i);
            && |g.free| == |f.free| + 1 && |g.busy| == |f.busy| - 1 && g.credits == f.credits + 1
            && g.phase == f.phase && g.failure == f.failure
    ensures var g := EgressFlow.Retire(f, i);
            && |g.free| == |f.free| + 1 && |g.busy| == |f.busy| - 1 && g.credits == f.credits
            && g.phase == f.phase && g.failure == f.failure
  {
  }

  /** A staged message that is sent takes a context and a credit; one that is not takes neither. */
  lemma {:induction false} SentCounts(f: EgressFlow.Flow, fs: seq<Fabric>, sendOk: bool)
    requires f.failure.None? && f.phase.Staged? && |fs| == |f.phase.msg| && SlabsSized(f.m)
    ensures var g := EgressFlow.Post(f, fs, sendOk);
            if g.failure.Some? then
              |g.free| == |f.free| && |g.busy| == |f.busy| && g.credits == f.credits && g.phase == f.phase
            else
              var h := EgressFlow.Settle(g);
              && |h.free| + 1 == |f.free| && |h.busy| == |f.busy| + 1 && h.credits + 1 == f.credits
              && h.failure.None? && h.phase.Idle?
  {
    hide Describe, Release;
  }

  /** A connection that stops because a transmission failed never reaches its end. */
  lemma {:induction false} NeverStopsAfterTxError(c: Conn, f: EgressFlow.Flow, tx: nat, ring: nat, slabSize: nat)
    requires tx > 0 && EgressFlow.Reaches(tx, ring, slabSize, f) && f.failure == Some(EgressFlow.TxError)
    requires f.credits >= Int(f.phase.Posted?) && Live(c) && c.sends == SendsOf(f, tx, ring)
    ensures !CanStop(Step(c, Stop(true)))
  {
    SendsFromFlow(f, tx, ring, slabSize);
    StopsExactly(c, true);
  }

  /** Such connections are reached with any ring and any number of credits. */
  lemma {:induction false} NeverStopping(tx: nat, ring: nat, slabSize: nat, max: nat)
      returns (f: EgressFlow.Flow, c: Conn)
    requires tx > 0 && ring > 0 && max > 0
    ensures EgressFlow.Reaches(tx, ring, slabSize, f) && f.failure == Some(EgressFlow.TxError)
    ensures f.credits >= Int(f.phase.Posted?) && c.sends == SendsOf(f, tx, ring)
    ensures Live(c) && c.socket.Connected? && c.keepalive.On? && !CanStop(Step(c, Stop(true)))
  {
    hide EgressFlow.Reaches, CanStop;
    f := EgressFlow.FailedSend(tx, ring, slabSize);
    SendsFromFlow(f, tx, ring, slabSize);
    c := Conn(Running, Connected, On, Off, false, SendsOf(f, tx, ring), Start(max), 0);
    NeverStopsAfterTxError(c, f, tx, ring, slabSize);
  }

  /** The remote side is gone, no transmission failed, and part of the ring is in flight. */
  lemma {:induction false} NeverFlushed(tx: nat, ring: nat, slabSize: nat, max: nat)
      returns (f: EgressFlow.Flow, c: Conn)
    requires tx > 0 && ring > 1 && max > 0
    ensures EgressFlow.Reaches(tx, ring, slabSize, f) && f.failure.None? && f.lost == 0 && |f.busy| == 1
    ensures f.credits >= Int(f.phase.Posted?) && c.sends == SendsOf(f, tx, ring)
    ensures Live(c) && c.socket.Closed? && !CanStop(Step(c, Stop(true)))
  {
    hide EgressFlow.Reaches, EgressFlow.Inv, CanStop;
    f := EgressFlow.FillRuns(tx, ring, slabSize, 0);
    f := EgressFlow.OneMoreSend(f, tx, ring, slabSize, 0);
    EgressFlow.ReachedInv(tx, ring, slabSize, f);
    EgressFlow.InvParts(f, tx, ring);
    SendsFromFlow(f, tx, ring, slabSize);
    c := Conn(Running, Closed, On, Off, false, SendsOf(f, tx, ring), Start(max), 0);
    StopsExactly(c, true);
  }

  /** With every credit accounted for, the flush on a failure can keep a connection from its end exactly when
      the ring has two contexts or more. */
  lemma {:induction false} FlushFailsExactly(tx: nat, ring: nat, slabSize: nat)
    requires tx > 0
    ensures (exists f: EgressFlow.Flow, c: Conn ::
               && EgressFlow.Reaches(tx, ring, slabSize, f) && f.lost == 0 && f.credits >= Int(f.phase.Posted?)
               && Live(c) && c.sends == SendsOf(f, tx, ring) && !CanStop(Step(c, Stop(true))))
            <==> ring > 1
  {
    hide EgressFlow.Reaches, CanStop;
    if ring > 1 {
      var f, c := NeverFlushed(tx, ring, slabSize, 1);
    } else {
      forall f: EgressFlow.Flow, c: Conn |
        && EgressFlow.Reaches(tx, ring, slabSize, f) && f.lost == 0 && f.credits >= Int(f.phase.Posted?)
        && Live(c) && c.sends == SendsOf(f, tx, ring)
        ensures CanStop(Step(c, Stop(true)))
      {
        SendsFromFlow(f, tx, ring, slabSize);
        StopsExactly(c, true);
      }
    }
  }

  // ---------------------------------------------------------------------------------------------
  // The receiving side in detail

  /** What was fetched, followed by what is queued, begins what was received. */
  predicate InOrder(q: In) { q.fetched + Payloads(q.pop) <= q.received }

  lemma {:induction false} FlushInOrder(q: In)
    requires InOrder(q)
    ensures InOrder(Flush(q))
  {
    if !q.flags.nnBusy { assert Flush(q).fetched + Payloads(Flush(q).pop) == q.fetched; }
  }

  lemma {:induction false} FetchInOrder(q: In, a: Answer)
    requires InOrder(q)
    ensures InOrder(Fetch(AsWritten, q, a))
  {
    hide Flush;
    if |q.pop| > 0 {
      TakeFirstInOrder(q);
      FlushInOrder(Rearm(AsWritten, PostLate(TakeFirst(q), a)));
    }
  }

  lemma {:induction false} PostOneKeepsBufs(q: In, a: Answer)
    ensures AllBufs(PostOne(q, a).0) == AllBufs(q)
  {
  }

  lemma {:induction false} SameOrder(q: In, r: In)
    requires r.fetched == q.fetched && r.pop == q.pop && r.received == q.received
    ensures InOrder(q) ==> InOrder(r)
  {
  }

  lemma {:induction false} StepKeepsBufs(c: Conn, e: Event)
    requires Enabled(c, e)
    ensures AllBufs(Step(c, e).ingress) == AllBufs(c.ingress)
    ensures InOrder(c.ingress) ==> InOrder(Step(c, e).ingress)
  {
    hide AllBufs, InOrder, Flush, Fetch;
    match e
    case Established(a, staged) =>
      var q := PostOne(c.ingress, a).0;
      PostOneKeepsBufs(c.ingress, a);
      FlushKeepsBufs(q);
      assert InOrder(c.ingress) ==> InOrder(q) by { SameOrder(c.ingress, q); }
      if InOrder(q) { FlushInOrder(q); }
    case Stop(_) =>
      FlushKeepsBufs(c.ingress);
      if InOrder(c.ingress) { FlushInOrder(c.ingress); }
    case Fetched(a) =>
      FetchKeepsBufs(AsWritten, c.ingress, a);
      if InOrder(c.ingress) { FetchInOrder(c.ingress, a); }
    case _ =>
  }

  lemma {:induction false} BuffersKept(cs: seq<Conn>, es: seq<Event>, k: nat)
    requires Trace(cs, es) && k <= |es|
    ensures AllBufs(cs[k].ingress) == AllBufs(cs[0].ingress)
    ensures InOrder(cs[0].ingress) ==> InOrder(cs[k].ingress)
    decreases k
  {
    hide AllBufs, InOrder, Step, Enabled;
    if k > 0 {
      BuffersKept(cs, es, k - 1);
      var e := es[k - 1];
      StepKeepsBufs(cs[k - 1], e);
    }
  }

  /** From the stop request to the end, with a flush pending or not, no buffer is lost and none is in two
      lists; and nanomsg gets the messages in the order they came, none left out before the last. */
  lemma {:induction false} BuffersStay(cs: seq<Conn>, es: seq<Event>, k: nat, max: nat)
    requires Trace(cs, es) && k <= |es| && AllBufs(cs[0].ingress) == Range(max) && InOrder(cs[0].ingress)
    ensures AllBufs(cs[k].ingress) == Range(max) && InOrder(cs[k].ingress)
    ensures var q := cs[k].ingress;
            && |q.free| + |q.busy| + |q.pop| == max
            && forall x: nat | x < max :: multiset(q.free)[x] + multiset(q.busy)[x] + multiset(Bufs(q.pop))[x] == 1
  {
    BuffersKept(cs, es, k);
    hide Trace;
    EachOnce(cs[k].ingress, max);
  }

  /** The whole life of the buffers: an active run of the receiving side, then any run of the shutdown. */
  lemma {:induction false} BuffersForLife(ss: seq<In>, rs: seq<IngressModel.Event>, k: nat, max: nat,
                                          cs: seq<Conn>, es: seq<Event>, l: nat)
    requires IngressModel.Trace(AsWritten, ss, rs) && k <= |rs| && max > 0 && ss[0] == Start(max) && Active(rs, k)
    requires Trace(cs, es) && cs[0].ingress == ss[k] && l <= |es|
    ensures var q := cs[l].ingress;
            && (forall x: nat | x < max :: multiset(q.free)[x] + multiset(q.busy)[x] + multiset(Bufs(q.pop))[x] == 1)
            && q.fetched + Payloads(q.pop) <= q.received
  {
    TraceKeeps(AsWritten, ss, rs, k, max);
    hide AllBufs;
    BuffersStay(cs, es, l, max);
  }

  // ---------------------------------------------------------------------------------------------
  // Exactly which connections can be stranded

  /** Everything to wait for has happened, and the handler will not be called. */
  ghost predicate Stranded(c: Conn) {
    c.machine.Stopping? && Quiet(c) && !c.ingress.flags.nnBusy && forall e :: !Awaited(c, e)
  }

  ghost predicate CanStrand(c: Conn) {
    exists cs: seq<Conn>, es :: Trace(cs, es) && cs[0] == c && Stranded(cs[|es|])
  }

  /** The events that leave the fetches for last. */
  function Later(c: Conn): Event {
    if c.sends.busy > 0 then TxDone else if c.keepalive.Winding? then KeepaliveStopped else Fetched(Refused)
  }

  /** A connection on its way to being stranded: messages wait, and no phase of the socket has begun. */
  predicate Stranding(c: Conn) {
    && Inv(c) && c.machine.Stopping? && Recoverable(c) && c.deadline.Off? && c.ingress.flags.nnBusy
  }

  lemma {:induction false} StrandsLater(c: Conn)
    requires Stranding(c)
    ensures Enabled(c, Later(c))
    ensures var d := Step(c, Later(c));
            Inv(d) && (Stranding(d) || Stranded(d))
            && (Stranding(d) ==> Left(d) + |d.ingress.pop| < Left(c) + |c.ingress.pop|)
  {
    hide Live, Fetch;
    StepKeepsInv(c, Later(c));
    FetchWaits(c.ingress, Refused);
    hide Waiting;
    if !Stranding(Step(c, Later(c))) { StrandedExactly(Step(c, Later(c))); }
  }

  lemma {:induction false} Strands(c: Conn) returns (cs: seq<Conn>, es: seq<Event>)
    requires Stranding(c)
    ensures Trace(cs, es) && cs[0] == c && Stranded(cs[|es|])
    decreases Left(c) + |c.ingress.pop|
  {
    hide Stranding, Stranded, Inv, Left, Enabled, Step, Later;
    StrandsLater(c);
    var d := Step(c, Later(c));
    cs, es := [d], [];
    if Stranding(d) { cs, es := Strands(d); }
    cs, es := [c] + cs, [Later(c)] + es;
  }

  lemma {:induction false} NotBusyStays(c: Conn, e: Event)
    requires Inv(c) && !c.machine.Running? && Enabled(c, e) && !c.ingress.flags.nnBusy
    requires c.machine.Stopping? ==> !Quiet(c)
    ensures var d := Step(c, e); !d.ingress.flags.nnBusy && (d.machine.Stopping? ==> !Quiet(d))
  {
    OnlyFetchesStrand(c, e);
    hide Live, Waiting, Quiet;
  }

  lemma {:induction false} NeverStranded(cs: seq<Conn>, es: seq<Event>, k: nat)
    requires Trace(cs, es) && Inv(cs[0]) && !cs[0].machine.Running? && k <= |es|
    requires !cs[0].ingress.flags.nnBusy && (cs[0].machine.Stopping? ==> !Quiet(cs[0]))
    ensures var c := cs[k];
            Inv(c) && !c.machine.Running? && !c.ingress.flags.nnBusy && (c.machine.Stopping? ==> !Quiet(c))
    decreases k
  {
    hide Inv, Step, Enabled, Quiet;
    if k > 0 {
      NeverStranded(cs, es, k - 1);
      var c, e := cs[k - 1], es[k - 1];
      OnlyWhileStopping(c, e);
      StepKeepsInv(c, e);
      NotBusyStays(c, e);
    }
  }

  lemma {:induction false} StopLeaves(c: Conn, failed: bool)
    requires Live(c)
    ensures var d := StopNow(c, failed);
            && d.ingress.flags.nnBusy == c.ingress.flags.nnBusy
            && (c.ingress.flags.nnBusy ==> d.machine.Stopping? && d.deadline.Off?)
            && (d.machine.Stopping? ==> !Quiet(d))
  {
  }

  /** A connection that can reach its end can also be stranded on the way, exactly when nanomsg owes a fetch
      as it is asked to stop. */
  lemma {:induction false} StrandsExactly(c: Conn, failed: bool)
    requires Live(c) && WillRecover(c.sends, failed)
    ensures CanStrand(Step(c, Stop(failed))) <==> c.ingress.flags.nnBusy
  {
    var d := Step(c, Stop(failed));
    StopKeepsInv(c, failed);
    StopSettles(c, failed);
    StopLeaves(c, failed);
    hide Inv, Live, Step, Enabled, Quiet, Recoverable;
    if c.ingress.flags.nnBusy {
      var cs, es := Strands(d);
    } else {
      forall cs: seq<Conn>, es | Trace(cs, es) && cs[0] == d ensures !Stranded(cs[|es|]) {
        NeverStranded(cs, es, |es|);
      }
    }
  }

  lemma {:induction false} FlushedOnce(q: In)
    requires q.flags == Flags(false, true, false, false)
    ensures Flush(q).pop == q.pop && Flush(q).flags == Flags(false, true, false, true)
  {
  }

  lemma {:induction false} FirstMessage(max: nat, x: Bytes)
    requires max > 1 && x != KEEPALIVE
    ensures var q := Receive(Start(max), 0, x, Accepted, Accepted);
            |q.pop| == 1 && q.flags == Flags(false, true, false, false)
  {
    hide KEEPALIVE, OneTo;
    PayloadQueues(Start(max), x);
    assert |Start(max).free| > 0;
  }

  /** A stop, and the end of the keepalive timer, while nanomsg owes the one fetch. */
  lemma {:induction false} BeforeTheFetch(c: Conn)
    requires Live(c) && c.socket.Connected? && c.keepalive.On? && c.sends.credits == c.sends.max
    requires |c.ingress.pop| == 1 && c.ingress.flags == Flags(false, true, false, false)
    ensures var c1 := Step(c, Stop(false));
            && Enabled(c, Stop(false)) && Enabled(c1, KeepaliveStopped)
            && Step(c1, KeepaliveStopped)
               == c.(machine := Stopping, failed := false, keepalive := Off, ingress := Flush(c.ingress))
            && Inv(Step(c1, KeepaliveStopped))
  {
    StepKeepsInv(c, Stop(false));
    FlushedOnce(c.ingress);
    hide Flush, Live, Waiting;
    StepKeepsInv(Step(c, Stop(false)), KeepaliveStopped);
    hide Inv;
  }

  lemma {:induction false} AfterTheFetch(c: Conn, q: In)
    requires Inv(c) && c.machine.Stopping? && c.socket.Connected? && c.ingress == Flush(q) && CreditsAccounted(c.sends)
    requires q.flags == Flags(false, true, false, false)
    requires c.sends.busy == 0 && !c.failed && c.keepalive.Off? && c.deadline.Off?
    ensures Enabled(c, Fetched(Refused))
    ensures var d := Step(c, Fetched(Refused)); d.socket.Connected? && Stranded(d)
  {
    FlushedOnce(q);
    hide Flush, Fetch, Inv;
    LastFetchStrands(c, Refused);
  }

  /** One message arrives and is announced, the connection is asked to stop, its keepalive timer ends and
      nanomsg fetches the message: the socket is still connected, and nothing will move it on. */
  lemma {:induction false} LeftConnected(tx: nat, ring: nat, max: nat, x: Bytes)
      returns (cs: seq<Conn>, es: seq<Event>)
    requires max > 1 && x != KEEPALIVE
    ensures Trace(cs, es) && es == [Stop(false), KeepaliveStopped, Fetched(Refused)]
    ensures Live(cs[0]) && cs[0].ingress == Receive(Start(max), 0, x, Accepted, Accepted)
    ensures cs[3].socket.Connected? && Stranded(cs[3])
  {
    var q := Receive(Start(max), 0, x, Accepted, Accepted);
    FirstMessage(max, x);
    hide Receive, Start, KEEPALIVE;
    var c := Conn(Running, Connected, On, Off, false, Sends(tx, ring, tx, 0), q, 0);
    BeforeTheFetch(c);
    var c2 := c.(machine := Stopping, failed := false, keepalive := Off, ingress := Flush(q));
    AfterTheFetch(c2, q);
    hide Step, Enabled, Inv, Stranded;
    cs := [c, Step(c, Stop(false)), c2, Step(c2, Fetched(Refused))];
    es := [Stop(false), KeepaliveStopped, Fetched(Refused)];
  }
}
