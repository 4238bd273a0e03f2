/** What the sending side holds while its connection closes. The shutdown sees it in numbers; here the
    messages in flight, with their banks and slabs, go along with it. */
module ClosingBooks {
  import opened Basics
  import opened MrModel
  import opened MrCounts
  import opened EgressBooks
  import opened EgressFlow
  import Shutdown

  type Conn = Shutdown.Conn

  /** What the stop request makes of the sending side: a failure flushes a ring that is all in flight. */
  function Halted(f: Flow, ring: nat, failed: bool): Flow
    requires AllInRange(f)
  {
    (if failed && |f.busy| == ring then Flushed(f) else f).(closing := true)
  }

  function Ended(f: Flow, i: nat, completed: bool): Flow
    requires i < |f.busy| && CtxInRange(f.m, f.busy[i].t.ctx)
  {
    if completed then Complete(f, i) else CompleteWithError(f, i)
  }

  /** On a clean shutdown each transmission that ends is one in flight. After a failure its end is dropped. */
  ghost predicate Follows(c: Conn, e: Shutdown.Event, f: Flow, g: Flow) {
    if (e.TxDone? || e.TxFailed?) && !c.failed then
      exists i: nat :: i < |f.busy| && CtxInRange(f.m, f.busy[i].t.ctx) && g == Ended(f, i, e.TxDone?)
    else g == f
  }

  /** A run of the shutdown together with the sending side. */
  ghost predicate Joint(cs: seq<Conn>, es: seq<Shutdown.Event>, fs: seq<Flow>) {
    && Shutdown.Trace(cs, es) && |fs| == |cs|
    && forall k {:trigger es[k]} | 0 <= k < |es| :: Follows(cs[k], es[k], fs[k], fs[k + 1])
  }

  /** The stop request, for whatever cause, of a live connection whose sending side is in state f. */
  ghost predicate Stops(c: Conn, d: Conn, f: Flow, g: Flow, tx: nat, ring: nat, slabSize: nat, failed: bool)
    requires tx > 0
  {
    && Reaches(tx, ring, slabSize, f) && f.credits >= Int(f.phase.Posted?)
    && Shutdown.Live(c) && c.sends == Shutdown.SendsOf(f, tx, ring) && d == Shutdown.StopNow(c, failed)
    && AllInRange(f) && g == Halted(f, ring, failed)
  }

  /** The books balance, and the shutdown has the right numbers. */
  predicate Agrees(c: Conn, f: Flow, tx: nat, ring: nat) {
    && Books(f.m, Lives(f.busy)) && f.credits >= Int(f.phase.Posted?) && c.sends == Shutdown.SendsOf(f, tx, ring)
  }

  lemma {:induction false} FlushKeepsBooks(f: Flow)
    requires Books(f.m, Lives(f.busy)) && AllInRange(f)
    ensures Books(Flushed(f).m, [])
    decreases |f.busy|
  {
    hide Books, CtxInRange, Release;
    if |f.busy| > 0 {
      var live := Lives(f.busy);
      ReleaseKeepsBooks(f.m, live, 0);
      assert Lives(f.busy[1..]) == Without(live, 0);
      FlushKeepsBooks(FlushedOnce(f));
    } else {
      assert Lives(f.busy) == [];
    }
  }

  lemma {:induction false} HaltAgrees(c: Conn, f: Flow, tx: nat, ring: nat, failed: bool)
    requires Agrees(c, f, tx, ring) && |f.busy| <= ring
    requires AllInRange(f)
    ensures Agrees(Shutdown.StopNow(c, failed), Halted(f, ring, failed), tx, ring)
  {
    FlushKeepsBooks(f);
    hide Books, CtxInRange, Shutdown.Quiet;
    assert Lives([]) == [];
  }

  lemma {:induction false} EndAgrees(f: Flow, i: nat, completed: bool)
    requires Books(f.m, Lives(f.busy)) && i < |f.busy|
    ensures CtxInRange(f.m, f.busy[i].t.ctx)
    ensures var g := Ended(f, i, completed);
            && Books(g.m, Lives(g.busy)) && |g.busy| == |f.busy| - 1 && g.phase == f.phase
            && g.credits == f.credits + Int(completed)
  {
    RetireKeepsBooks(f, i);
    hide Books, CtxInRange, Retire;
  }

  lemma {:induction false} StepAgrees(c: Conn, e: Shutdown.Event, f: Flow, g: Flow, tx: nat, ring: nat)
    requires Agrees(c, f, tx, ring) && c.machine.Stopping? && Shutdown.Enabled(c, e) && Follows(c, e, f, g)
    ensures Agrees(Shutdown.Step(c, e), g, tx, ring)
  {
    hide Books, CtxInRange, Complete, CompleteWithError;
    if (e.TxDone? || e.TxFailed?) && !c.failed {
      var i: nat :| i < |f.busy| && CtxInRange(f.m, f.busy[i].t.ctx) && g == Ended(f, i, e.TxDone?);
      EndAgrees(f, i, e.TxDone?);
      hide Ended;
    }
  }

  /** Such a step is always there to follow. */
  lemma {:induction false} CanFollow(c: Conn, e: Shutdown.Event, f: Flow, tx: nat, ring: nat) returns (g: Flow)
    requires Agrees(c, f, tx, ring) && c.machine.Stopping? && Shutdown.Enabled(c, e)
    ensures Follows(c, e, f, g)
  {
    hide Books, CtxInRange, Complete, CompleteWithError;
    g := f;
    if (e.TxDone? || e.TxFailed?) && !c.failed {
      EndAgrees(f, 0, e.TxDone?);
      g := Ended(f, 0, e.TxDone?);
    }
  }

  lemma {:induction false} StopAgrees(c: Conn, d: Conn, f: Flow, g: Flow, tx: nat, ring: nat, slabSize: nat,
                                      failed: bool)
    requires tx > 0 && Stops(c, d, f, g, tx, ring, slabSize, failed)
    ensures Agrees(d, g, tx, ring) && Shutdown.Inv(d) && !d.machine.Running?
  {
    hide Reaches, Books;
    ReachedInv(tx, ring, slabSize, f);
    assert Books(f.m, Lives(f.busy)) && |f.busy| <= ring;
    HaltAgrees(c, f, tx, ring, failed);
    Shutdown.StopKeepsInv(c, failed);
    hide Inv;
  }

  lemma {:induction false} TraceAgrees(cs: seq<Conn>, es: seq<Shutdown.Event>, fs: seq<Flow>, k: nat, tx: nat,
                                       ring: nat)
    requires Joint(cs, es, fs) && k <= |es|
    requires Agrees(cs[0], fs[0], tx, ring) && Shutdown.Inv(cs[0]) && !cs[0].machine.Running?
    ensures Agrees(cs[k], fs[k], tx, ring) && Shutdown.Inv(cs[k]) && !cs[k].machine.Running?
    decreases k
  {
    if k > 0 {
      hide Agrees, Follows, Shutdown.Inv, Shutdown.Step, Shutdown.Enabled;
      TraceAgrees(cs, es, fs, k - 1, tx, ring);
      var c, e := cs[k - 1], es[k - 1];
      Shutdown.OnlyWhileStopping(c, e);
      Shutdown.StepKeepsInv(c, e);
      StepAgrees(c, e, fs[k - 1], fs[k], tx, ring);
    }
  }

  /** From the stop request on, the books agree at every point with the messages in flight, which are as many
      as the shutdown counts. Once the owner hears that the connection stopped, no bank is referenced and no
      slab is in use: the cache can be torn down. */
  lemma {:induction false} NothingHeldAtTheEnd(c: Conn, f: Flow, failed: bool, cs: seq<Conn>, es: seq<Shutdown.Event>,
                                               fs: seq<Flow>, k: nat, tx: nat, ring: nat, slabSize: nat)
    requires tx > 0 && Joint(cs, es, fs) && Stops(c, cs[0], f, fs[0], tx, ring, slabSize, failed) && k <= |es|
    ensures Counted(fs[k].m, Lives(fs[k].busy)) && cs[k].sends.busy == |fs[k].busy|
    ensures cs[k].machine.Stopped? ==>
              && (forall b | 0 <= b < |fs[k].m.banks| :: fs[k].m.banks[b].ref == 0)
              && (forall b | 0 <= b < |fs[k].m.slabs| :: !fs[k].m.slabs[b].inUse)
  {
    StopAgrees(c, cs[0], f, fs[0], tx, ring, slabSize, failed);
    TraceAgrees(cs, es, fs, k, tx, ring);
    hide Stops, Joint;
    if cs[k].machine.Stopped? { assert Lives(fs[k].busy) == []; }
  }

  /** Every run of the shutdown has a sending side that goes along with it. */
  lemma {:induction false} EveryRunJoins(cs: seq<Conn>, es: seq<Shutdown.Event>, g: Flow, tx: nat, ring: nat, k: nat)
      returns (fs: seq<Flow>)
    requires Shutdown.Trace(cs, es) && k <= |es|
    requires Agrees(cs[0], g, tx, ring) && Shutdown.Inv(cs[0]) && !cs[0].machine.Running?
    ensures Joint(cs[..k + 1], es[..k], fs) && fs[0] == g
    decreases k
  {
    hide Agrees, Follows, Shutdown.Inv, Shutdown.Step, Shutdown.Enabled;
    if k == 0 {
      fs := [g];
    } else {
      fs := EveryRunJoins(cs, es, g, tx, ring, k - 1);
      TraceAgrees(cs[..k], es[..k - 1], fs, k - 1, tx, ring);
      var c, e := cs[k - 1], es[k - 1];
      Shutdown.OnlyWhileStopping(c, e);
      var h := CanFollow(c, e, fs[k - 1], tx, ring);
      fs := fs + [h];
    }
  }

  /** The two reach the end together exactly when the shutdown can reach it alone. */
  lemma {:induction false} JoinedEndExactly(c: Conn, d: Conn, f: Flow, g: Flow, failed: bool, tx: nat, ring: nat,
                                            slabSize: nat)
    requires tx > 0 && Stops(c, d, f, g, tx, ring, slabSize, failed)
    ensures (exists cs: seq<Conn>, es, fs: seq<Flow> ::
               Joint(cs, es, fs) && cs[0] == d && fs[0] == g && cs[|es|].machine.Stopped?)
            <==> Shutdown.WillRecover(c.sends, failed)
  {
    StopAgrees(c, d, f, g, tx, ring, slabSize, failed);
    Shutdown.StopsExactly(c, failed);
    hide Agrees, Follows, Shutdown.Inv, Shutdown.WillRecover, Shutdown.StopNow;
    if Shutdown.WillRecover(c.sends, failed) {
      var cs: seq<Conn>, es :| Shutdown.Trace(cs, es) && cs[0] == d && cs[|es|].machine.Stopped?;
      var fs := EveryRunJoins(cs, es, g, tx, ring, |es|);
      assert cs[..|es| + 1] == cs && es[..|es|] == es;
    }
  }
}
