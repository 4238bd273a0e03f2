/** The shutdown handler in place, over the two queues of the connection. */
module ClosingDown {
  import opened Basics
  import opened Shutdown
  import opened MrModel
  import EgressFlow
  import EgressQueue
  import IngressModel
  import IngressQueue

  class Closer {
    const egress: EgressQueue.Egress
    const ingress: IngressQueue.Ingress
    const egressMax: nat
    var machine: Machine
    var socketState: Socket
    var keepalive: Timer
    var deadline: Timer
    var error: int
    ghost var stops: nat

    constructor (e: EgressQueue.Egress, q: IngressQueue.Ingress, max: nat)
      requires e.Valid() && q.Valid() && {q, q.next, q.prev, q.payload} !! e.Repr()
      requires |e.ring.order| >= 2 && e.counter >= Int(e.staged.Some?) && e.error.None?
      ensures Valid() && egress == e && ingress == q && egressMax == max
      ensures machine == Running && socketState == Connecting && keepalive == Off && deadline == Off
      ensures error == 0 && stops == 0
    {
      egress, ingress, egressMax := e, q, max;
      machine, socketState, keepalive, deadline := Running, Connecting, Off, Off;
      error, stops := 0, 0;
    }

    ghost function Repr(): set<object> { {this, ingress, ingress.next, ingress.prev, ingress.payload} + egress.Repr() }

    ghost predicate Valid()
      reads Repr()
    {
      && egress.Valid() && ingress.Valid()
      && {this, ingress, ingress.next, ingress.prev, ingress.payload} !! egress.Repr()
      && this !in {ingress, ingress.next, ingress.prev, ingress.payload}
      && |egress.ring.order| >= 2 && egress.counter >= Int(egress.staged.Some?) && egress.error.None?
    }

    ghost function View(): (r: Conn)
      requires Valid()
      reads Repr()
      ensures r.machine == machine && r.socket == socketState && r.keepalive == keepalive && r.deadline == deadline
      ensures r.failed == (error != 0) && r.stops == stops
      ensures r.sends.credits == egress.counter && r.sends.max == egressMax
    {
      Conn(machine, socketState, keepalive, deadline, error != 0,
           Sends(egressMax, |egress.ring.order|, egress.counter, |egress.ring.order| - egress.nfree),
           ingress.View(), stops)
    }

    method StopKeepalive()
      requires Valid()
      modifies this`keepalive
      ensures Valid() && View() == old(View()).(keepalive := Wind(old(View()).keepalive))
    {
      if keepalive == On { keepalive := Winding; }
    }

    method StopDeadline()
      requires Valid()
      modifies this`deadline
      ensures Valid() && View() == old(View()).(deadline := Wind(old(View()).deadline))
    {
      if deadline == On { deadline := Winding; }
    }

    method EnterClosing(cause: int)
      requires Valid()
      modifies this`error, this`machine
      ensures Valid() && View() == old(View()).(machine := Stopping, failed := cause != 0) && error == cause
    {
      error := cause;
      machine := Stopping;
    }

    method Move(s: Socket, t: Timer)
      requires Valid()
      modifies this`socketState, this`deadline
      ensures Valid() && View() == old(View()).(socket := s, deadline := t)
    {
      socketState, deadline := s, t;
    }

    method Leave(m: Machine)
      requires Valid()
      modifies this`machine, this`stops
      ensures Valid() && View() == old(View()).(machine := m, stops := old(View()).stops + Int(m.Stopped?))
    {
      hide EgressQueue.Egress.Valid, IngressQueue.Ingress.Valid, IngressQueue.Ingress.View;
      machine := m;
      stops := stops + Int(m.Stopped?);
    }

    method FlushIngress()
      requires Valid()
      modifies ingress, ingress.next, ingress.prev
      ensures Valid() && View() == old(View()).(ingress := IngressModel.Flush(old(View()).ingress))
    {
      hide EgressQueue.Egress.Valid, IngressQueue.Ingress.Valid, IngressQueue.Ingress.View, IngressModel.Flush;
      ingress.FlushAll();
    }

    method FlushEgress()
      requires Valid()
      modifies egress.Repr()
      ensures Valid() && View() == old(View()).(sends := Discard(old(View()).sends))
    {
      hide EgressQueue.Egress.Valid, EgressQueue.Egress.View, IngressQueue.Ingress.Valid, IngressQueue.Ingress.View;
      Sizes();
      egress.Flush();
      Sizes();
    }

    method IsQuiet() returns (quiet: bool)
      requires Valid()
      ensures Valid() && View() == old(View()) && (quiet <==> Quiet(View()))
    {
      ingress.PopHeadTells();
      ingress.BusyHeadTells();
      quiet := egress.counter == egressMax && ingress.popHead < 0 && ingress.bufBusy < 0
               && keepalive == Off && deadline == Off;
    }

    /** The tail of the handler. */
    method Proceed()
      requires Valid()
      modifies this`machine, this`socketState, this`deadline, this`stops
      ensures Valid() && View() == Advance(old(View()))
    {
      hide Valid, View, Quiet;
      var quiet := IsQuiet();
      if !quiet { return; }
      if socketState == Connected {
        Move(Draining, On);
        return;
      } else if socketState == Connecting {
        Move(Closed, deadline);
      } else if socketState != Closed {
        Leave(Aborted);
        return;
      }
      Leave(Stopped);
    }

    method StopRequested(cause: int)
      requires Valid() && Enabled(View(), Stop(cause != 0))
      modifies Repr()
      ensures Valid() && View() == Step(old(View()), Stop(cause != 0))
    {
      hide Valid, View, Advance;
      EnterClosing(cause);
      StopKeepalive();
      FlushIngress();
      if error != 0 { FlushEgress(); }
      Proceed();
    }

    method Turn(s: Socket, k: Timer)
      requires Valid()
      modifies this`socketState, this`keepalive
      ensures Valid() && View() == old(View()).(socket := s, keepalive := k)
    {
      socketState, keepalive := s, k;
    }

    method PostFirst(a: IngressModel.Answer) returns (r: IngressModel.PostResult)
      requires Valid()
      modifies ingress, ingress.next, ingress.prev
      ensures Valid() && egress.staged == old(egress.staged)
      ensures var (q, p) := IngressModel.PostOne(old(View()).ingress, a);
              View() == old(View()).(ingress := q) && r == p
    {
      hide EgressQueue.Egress.Valid, IngressQueue.Ingress.Valid, IngressQueue.Ingress.View, IngressModel.PostOne;
      r := ingress.PostReceive(a);
    }

    method SendStaged(fs: seq<Fabric>, sendOk: bool) returns (ok: bool)
      requires Valid() && egress.staged.Some? && |fs| == |egress.staged.value|
      modifies egress.Repr()
      ensures Valid()
      ensures var s := old(View()).sends;
              if ok then s.credits > 0 && s.busy < s.ring
                         && View() == old(View()).(sends := s.(credits := s.credits - 1, busy := s.busy + 1))
              else View() == old(View())
    {
      hide EgressQueue.Egress.Valid, EgressQueue.Egress.View, IngressQueue.Ingress.Valid, IngressQueue.Ingress.View;
      hide EgressFlow.Post, EgressFlow.Settle;
      Sizes();
      SentCounts(egress.View(), fs, sendOk);
      var failure := egress.SendStaged(fs, sendOk);
      Sizes();
      ok := failure.None?;
    }

    method Establish()
      requires Valid()
      modifies egress`outActive
      ensures Valid() && View() == old(View()) && egress.staged == old(egress.staged)
    {
      egress.Establish();
    }

    /** The connection is there; if the first receive or the staged message cannot be posted, it stops. */
    method EndpointConnected(a: IngressModel.Answer, fs: seq<Fabric>, sendOk: bool) returns (staged: StagedSend)
      requires Valid() && machine == Running && socketState == Connecting
      requires egress.staged.Some? ==> |fs| == |egress.staged.value|
      modifies Repr()
      ensures IngressModel.PostOne(old(View()).ingress, a).1.Ok? ==>
                (staged.NothingStaged? <==> old(egress.staged).None?)
      ensures Valid() && Enabled(old(View()), Established(a, staged))
      ensures View() == Step(old(View()), Established(a, staged))
    {
      hide Valid, View, Advance, StopNow, IngressModel.PostOne;
      var r := FirstReceive(a);
      if r != IngressModel.Ok {
        Fail();
        return NothingStaged;
      }
      staged := SendWaiting(fs, sendOk);
    }

    /** What was staged before is sent; if it cannot be, the connection stops. */
    method SendWaiting(fs: seq<Fabric>, sendOk: bool) returns (staged: StagedSend)
      requires Valid() && machine == Running
      requires egress.staged.Some? ==> |fs| == |egress.staged.value|
      modifies Repr()
      ensures Valid() && (staged.NothingStaged? <==> old(egress.staged).None?)
      ensures var c := old(View());
              && (staged.Sent? ==> c.sends.credits > 0 && c.sends.busy < c.sends.ring)
              && View() == match staged
                           case NothingStaged => c
                           case Sent => c.(sends := c.sends.(credits := c.sends.credits - 1, busy := c.sends.busy + 1))
                           case NotSent => StopNow(c, true)
    {
      hide Valid, View, Advance, StopNow;
      if egress.staged.None? { return NothingStaged; }
      var ok := SendStaged(fs, sendOk);
      if ok { return Sent; }
      Fail();
      return NotSent;
    }

    method Fail()
      requires Valid() && machine == Running
      modifies Repr()
      ensures Valid() && View() == StopNow(old(View()), true)
    {
      hide Valid, View, Advance, StopNow;
      StopRequested(1);
    }

    /** The keepalive timer runs, and a receive is posted. */
    method FirstReceive(a: IngressModel.Answer) returns (r: IngressModel.PostResult)
      requires Valid()
      modifies this`socketState, this`keepalive, egress`outActive, ingress, ingress.next, ingress.prev
      ensures Valid() && egress.staged == old(egress.staged)
      ensures var (q, p) := IngressModel.PostOne(old(View()).ingress, a);
              View() == old(View()).(socket := Connected, keepalive := On, ingress := q) && r == p
    {
      hide Valid, View, IngressModel.PostOne;
      Turn(Connected, On);
      Establish();
      r := PostFirst(a);
    }

    /** A receive ended, or the endpoint reports an error: only the tail runs. */
    method ReceiveEvent()
      requires Valid() && Enabled(View(), RxAny)
      modifies this
      ensures Valid() && View() == Step(old(View()), RxAny)
    {
      hide Valid, View, Advance;
      Proceed();
    }

    method EndpointError()
      requires Valid() && Enabled(View(), EqError)
      modifies this
      ensures Valid() && View() == Step(old(View()), EqError)
    {
      hide Valid, View, Advance;
      Proceed();
    }

    /** Any other endpoint event is a bad action. */
    method EndpointUnexpected()
      requires Valid() && Enabled(View(), EqOther)
      modifies this
      ensures Valid() && View() == Step(old(View()), EqOther)
    {
      hide Valid, View;
      Leave(Aborted);
    }

    /** A transmission ended; after a failure the event is dropped. */
    method TxEvent(completed: bool, ctx: nat, ghost pos: nat)
      requires Valid() && Enabled(View(), if completed then TxDone else TxFailed)
      requires error == 0 ==> egress.nfree <= pos < |egress.ring.order| && egress.ring.order[pos] == ctx
      modifies Repr()
      ensures Valid() && View() == Step(old(View()), if completed then TxDone else TxFailed)
    {
      hide Valid, View, Advance;
      if error == 0 { Handle(completed, ctx, pos); }
      Proceed();
    }

    method Handle(completed: bool, ctx: nat, ghost pos: nat)
      requires Valid() && egress.nfree <= pos < |egress.ring.order| && egress.ring.order[pos] == ctx
      modifies egress.Repr()
      ensures Valid()
      ensures var s := old(View()).sends;
              && s.busy > 0
              && View() == old(View()).(sends := s.(busy := s.busy - 1, credits := s.credits + Int(completed)))
    {
      hide EgressQueue.Egress.Valid, EgressQueue.Egress.View, IngressQueue.Ingress.Valid;
      hide EgressFlow.Complete, EgressFlow.Retire;
      Sizes();
      ghost var f, i := egress.View(), pos - egress.nfree;
      if completed {
        var alive := egress.HandleCompletion(ctx, pos);
      } else {
        var alive := egress.HandleError(ctx, pos);
      }
      RetireCounts(f, i);
      Sizes();
    }

    lemma {:induction false} Sizes()
      requires egress.Valid()
      ensures egress.Shape() && SlabsSized(egress.View().m)
      ensures |egress.View().free| == egress.nfree <= |egress.ring.order|
      ensures |egress.View().busy| == |egress.ring.order| - egress.nfree
    {
    }

    method EndpointShutdown()
      requires Valid() && Enabled(View(), EqShutdown)
      modifies this
      ensures Valid() && View() == Step(old(View()), EqShutdown)
    {
      hide Valid, View, Advance;
      Move(Closed, deadline);
      StopDeadline();
      Proceed();
    }

    method KeepaliveEvent()
      requires Valid() && Enabled(View(), KeepaliveStopped)
      modifies this
      ensures Valid() && View() == Step(old(View()), KeepaliveStopped)
    {
      hide Valid, View, Advance;
      KeepaliveOff();
      Proceed();
    }

    method KeepaliveOff()
      requires Valid()
      modifies this`keepalive
      ensures Valid() && View() == old(View()).(keepalive := Off)
    {
      keepalive := Off;
    }

    method DeadlineEvent(fired: bool)
      requires Valid() && Enabled(View(), if fired then DeadlineFired else DeadlineStopped)
      modifies this
      ensures Valid() && View() == Step(old(View()), if fired then DeadlineFired else DeadlineStopped)
    {
      hide Valid, View, Advance;
      if fired {
        if socketState == Closing {
          StopDeadline();
        } else if socketState == Draining {
          StopDeadline();
        }
        return;
      }
      if socketState == Draining {
        Move(Closing, On);
        return;
      } else if socketState == Closing {
        Move(Closed, Off);
      } else if socketState == Closed {
        Move(Closed, Off);
      } else {
        Move(socketState, Off);
        Leave(Aborted);
        return;
      }
      Proceed();
    }

    /** nanomsg fetches what it was told about; the handler is not called. */
    method Fetch(a: IngressModel.Answer) returns (m: Option<IngressModel.Bytes>)
      requires Valid() && Enabled(View(), Fetched(a))
      modifies ingress, ingress.next, ingress.prev
      ensures Valid() && View() == Step(old(View()), Fetched(a))
    {
      hide EgressQueue.Egress.Valid, IngressQueue.Ingress.Valid, IngressQueue.Ingress.View, IngressModel.Fetch;
      m := ingress.FetchMessage(a);
    }
  }
}
