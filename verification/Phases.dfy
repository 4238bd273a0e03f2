/** The phases of a closing connection: each in its turn, none skipped, and what ends each of them. */
module Phases {
  import opened Basics
  import opened Shutdown
  import IngressModel

  lemma {:induction false} OneAtATime(c: Conn, e: Event)
    requires Inv(c) && Enabled(c, e) && !e.EqShutdown? && Rank(c.socket) >= 2
    ensures Rank(c.socket) <= Rank(Step(c, e).socket) <= Rank(c.socket) + 1
  {
    hide IngressModel.Flush, IngressModel.Fetch, Waiting;
  }

  /** None of the events from i up to j is the end of the endpoint. */
  predicate StaysUp(es: seq<Event>, i: nat, j: nat)
    requires i <= j <= |es|
  {
    forall k | i <= k < j :: !es[k].EqShutdown?
  }

  /** While the endpoint does not shut down, a connection passes through every phase on its way. */
  lemma {:induction false} NoneSkipped(cs: seq<Conn>, es: seq<Event>, i: nat, j: nat, s: Socket)
    requires Trace(cs, es) && Live(cs[0]) && i <= j <= |es| && StaysUp(es, i, j)
    requires 2 <= Rank(cs[i].socket) <= Rank(s) <= Rank(cs[j].socket)
    ensures exists k :: i <= k <= j && cs[k].socket == s
    decreases j - i
  {
    hide Step, Enabled, Inv, Live;
    if Rank(s) == Rank(cs[i].socket) {
      assert cs[i].socket == s;
    } else {
      var e := es[i];
      TraceKeepsInv(cs, es, i);
      OneAtATime(cs[i], e);
      NoneSkipped(cs, es, i + 1, j, s);
    }
  }

  /** From the end of the endpoint on, the socket is closed. */
  lemma {:induction false} ShutdownCloses(cs: seq<Conn>, es: seq<Event>, i: nat, k: nat)
    requires Trace(cs, es) && i < k <= |es| && es[i].EqShutdown?
    ensures cs[k].socket.Closed?
  {
    PhasesMoveForward(cs, es, i + 1, k);
    var e := es[i];
    assert Rank(cs[i + 1].socket) == 5;
  }

  /** A connected socket drains before it closes, whatever happens in between. */
  lemma {:induction false} DrainsFirst(cs: seq<Conn>, es: seq<Event>, i: nat, j: nat)
    requires Trace(cs, es) && Live(cs[0]) && i < j <= |es| && cs[i].socket.Connected? && cs[j].socket.Closing?
    ensures exists k :: i < k < j && cs[k].socket.Draining?
  {
    hide Live, Inv;
    if l :| i <= l < j && es[l].EqShutdown? {
      ShutdownCloses(cs, es, l, j);
    } else {
      NoneSkipped(cs, es, i, j, Draining);
      var k :| i <= k <= j && cs[k].socket == Draining;
    }
  }

  predicate Unconnected(c: Conn) { !c.machine.Running? && (c.socket.Connecting? || c.socket.Closed?) }

  lemma {:induction false} UnconnectedStep(c: Conn, e: Event)
    requires Inv(c) && Enabled(c, e) && Unconnected(c)
    ensures Unconnected(Step(c, e))
  {
    hide Waiting;
  }

  /** A socket that had not connected by the stop request never drains: it only closes. */
  lemma {:induction false} UnconnectedOnlyCloses(cs: seq<Conn>, es: seq<Event>, i: nat, k: nat)
    requires Trace(cs, es) && Live(cs[0]) && i <= k <= |es| && cs[i].socket.Connecting? && !cs[i].machine.Running?
    ensures Unconnected(cs[k])
    decreases k
  {
    if k > i {
      hide Step, Enabled, Inv, Live, Unconnected;
      UnconnectedOnlyCloses(cs, es, i, k - 1);
      var c, e := cs[k - 1], es[k - 1];
      TraceKeepsInv(cs, es, k - 1);
      UnconnectedStep(c, e);
    }
  }

  // ---------------------------------------------------------------------------------------------
  // What begins and ends a phase

  /** Draining begins with its timer, once nothing is in flight, posted or queued and the keepalive timer is
      idle; it and closing end only when their own timer has stopped, or with the endpoint. */
  lemma {:induction false} PhasesExactly(c: Conn, e: Event)
    requires Inv(c) && Enabled(c, e)
    ensures var d := Step(c, e);
            && (d.socket.Draining? && !c.socket.Draining? ==>
                  c.socket.Connected? && d.deadline.On? && Quiet(d.(deadline := Off)) && d.sends.busy == 0)
            && (c.socket.Draining? && !d.socket.Draining? ==>
                  (e.DeadlineStopped? && d.socket.Closing? && d.deadline.On?) || (e.EqShutdown? && d.socket.Closed?))
            && (c.socket.Closing? && !d.socket.Closing? ==> d.socket.Closed? && (e.DeadlineStopped? || e.EqShutdown?))
            && (d.socket.Closing? && !c.socket.Closing? ==> c.socket.Draining?)
  {
    hide IngressModel.Flush, IngressModel.Fetch, Waiting;
  }

  /** How many of the events from i up to j end a timer of a phase. */
  function Expired(es: seq<Event>, i: nat, j: nat): nat
    requires i <= j <= |es|
    decreases j
  {
    if j == i then 0 else Expired(es, i, j - 1) + Int(es[j - 1].DeadlineStopped?)
  }

  /** The timers that have run by then. */
  predicate Clocked(c: Conn, n: nat) {
    match c.socket
    case Connected | Draining => n == 0
    case Closing => n == 1
    case Closed => n == 2 && c.deadline.Off?
    case _ => false
  }

  lemma {:induction false} StepClocked(c: Conn, e: Event, n: nat)
    requires Inv(c) && Enabled(c, e) && !e.EqShutdown? && Clocked(c, n) && !c.machine.Aborted?
    requires !Step(c, e).machine.Aborted?
    ensures Clocked(Step(c, e), n + Int(e.DeadlineStopped?))
  {
    hide IngressModel.Flush, IngressModel.Fetch, Waiting;
  }

  lemma {:induction false} NotAborted(c: Conn, e: Event)
    requires Enabled(c, e)
    ensures !c.machine.Aborted?
  {
  }

  /** While the endpoint does not shut down, a connected socket needs two timers to close: one for draining
      and one for closing. */
  lemma {:induction false} TwoTimers(cs: seq<Conn>, es: seq<Event>, i: nat, j: nat)
    requires Trace(cs, es) && Live(cs[0]) && i <= j <= |es| && cs[i].socket.Connected? && StaysUp(es, i, j)
    requires !cs[j].machine.Aborted?
    ensures Clocked(cs[j], Expired(es, i, j))
    decreases j
  {
    if j > i {
      var c, e := cs[j - 1], es[j - 1];
      NotAborted(c, e);
      hide Step, Enabled, Inv, Live, Clocked;
      TwoTimers(cs, es, i, j - 1);
      TraceKeepsInv(cs, es, j - 1);
      StepClocked(c, e, Expired(es, i, j - 1));
    }
  }

  // ---------------------------------------------------------------------------------------------
  // Before the stop request

  /** Running and connected, the keepalive timer is on and a receive is posted. */
  predicate Ready(c: Conn) {
    && (c.machine.Running? && c.socket.Connecting? ==> |c.ingress.busy| == 0)
    && (c.machine.Running? && c.socket.Connected? ==> c.keepalive.On? && |c.ingress.busy| == 1)
  }

  lemma {:induction false} StepReady(c: Conn, e: Event)
    requires Inv(c) && Enabled(c, e) && Ready(c)
    ensures Ready(Step(c, e))
  {
    if e.Stop? { StopKeepsInv(c, e.failed); }
    if e.Established? {
      var q := IngressModel.PostOne(c.ingress, e.a).0;
      StopKeepsInv(c.(socket := Connected, keepalive := On, ingress := q), true);
    }
    hide StopNow, Advance, Inv;
    if !c.machine.Running? { OnlyWhileStopping(c, e); }
  }

  /** In every run from a connection that is being established: while it runs and is connected, its keepalive
      timer is on and one receive is posted. */
  lemma {:induction false} ConnectedIsReady(cs: seq<Conn>, es: seq<Event>, k: nat)
    requires Trace(cs, es) && Live(cs[0]) && Ready(cs[0]) && k <= |es|
    ensures Ready(cs[k])
    decreases k
  {
    if k > 0 {
      hide Step, Enabled, Inv, Live, Ready;
      ConnectedIsReady(cs, es, k - 1);
      TraceKeepsInv(cs, es, k - 1);
      var e := es[k - 1];
      StepReady(cs[k - 1], e);
    }
  }

  /** Whatever part of establishing a connection fails, it stops on a failure, and only then. */
  lemma {:induction false} EstablishedExactly(c: Conn, a: IngressModel.Answer, staged: StagedSend)
    requires Live(c) && Enabled(c, Established(a, staged))
    ensures var d := Step(c, Established(a, staged));
            && d.socket.Connected?
            && (d.machine.Running? <==> |c.ingress.free| > 0 && a.Accepted? && !staged.NotSent?)
            && (!d.machine.Running? ==> d.machine.Stopping? && d.failed && d.keepalive.Winding?)
            && (d.machine.Running? ==> d.sends.busy == c.sends.busy + Int(staged.Sent?)
                                       && d.sends.credits + d.sends.busy == c.sends.credits + c.sends.busy)
  {
    hide IngressModel.Flush;
  }
}
