/** The sending side of a connection as a run of small steps: staging, posting, the credit decrement
    and completions, which may fall between any two of the others. */
module EgressFlow {
  import opened Basics
  import opened MrModel
  import opened MrCounts
  import opened EgressBooks
  import opened EgressGrants

  /** A busy context and the message it carries. */
  datatype Slot = Slot(ctx: nat, t: Transfer)

  datatype Phase = Idle | Staged(msg: seq<Iov>) | Posted

  datatype Failure = NoContext | NotDescribed(why: Described) | SendRefused | TxError

  /** `released` says that nanomsg may send; `accepted` and `sents` count the sends taken from it and
      the acknowledgements given back; `lost` counts the credits that failed transmissions kept. */
  datatype Flow = Flow(m: Mr, free: seq<nat>, busy: seq<Slot>, credits: int, phase: Phase, closing: bool,
                       released: bool, accepted: nat, sents: nat, lost: nat, failure: Option<Failure>)

  function Lives(busy: seq<Slot>): (r: seq<Transfer>)
    ensures |r| == |busy| && forall i | 0 <= i < |busy| :: r[i] == busy[i].t
  {
    seq(|busy|, i requires 0 <= i < |busy| => busy[i].t)
  }

  function Acknowledge(f: Flow): Flow { f.(released := true, sents := f.sents + 1) }

  function Stage(f: Flow, msg: seq<Iov>): Flow {
    f.(phase := Staged(msg), released := false, accepted := f.accepted + 1)
  }

  function Post(f: Flow, fs: seq<Fabric>, sendOk: bool): (r: Flow)
    requires f.phase.Staged? && |fs| == |f.phase.msg| && SlabsSized(f.m)
    ensures f.failure.None? ==> r.phase == if r.failure.Some? then f.phase else Posted
  {
    if |f.free| == 0 then f.(failure := Some(NoContext))
    else
      var (m, r) := Describe(AsWritten, f.m, f.phase.msg, fs);
      if !r.Done? then f.(m := m, failure := Some(NotDescribed(r)))
      else if !sendOk then f.(m := Release(m, r.ctx), failure := Some(SendRefused))
      else f.(m := m, free := f.free[1..], busy := f.busy + [Slot(f.free[0], Transfer(f.phase.msg, r.ctx))],
              phase := Posted)
  }

  function Settle(f: Flow): Flow {
    var g := f.(credits := f.credits - 1, phase := Idle);
    if f.credits > 1 then Acknowledge(g) else g
  }

  /** Takes the context of a finished transmission back to the front of the ring. */
  function Retire(f: Flow, i: nat): Flow
    requires i < |f.busy| && CtxInRange(f.m, f.busy[i].t.ctx)
  {
    f.(m := Release(f.m, f.busy[i].t.ctx), free := [f.busy[i].ctx] + f.free, busy := Without(f.busy, i))
  }

  function Complete(f: Flow, i: nat): Flow
    requires i < |f.busy| && CtxInRange(f.m, f.busy[i].t.ctx)
  {
    var g := Retire(f, i).(credits := f.credits + 1);
    if f.credits == 0 then Acknowledge(g) else g
  }

  /** A failed transmission gives everything back but the credit. While the connection closes, nothing
      more comes of it. */
  function CompleteWithError(f: Flow, i: nat): Flow
    requires i < |f.busy| && CtxInRange(f.m, f.busy[i].t.ctx)
  {
    Retire(f, i).(lost := f.lost + 1, failure := if f.closing then f.failure else Some(TxError))
  }

  predicate AllInRange(f: Flow) { forall i | 0 <= i < |f.busy| :: CtxInRange(f.m, f.busy[i].t.ctx) }

  /** Every message in flight, the oldest first, gives back what it holds and its credit. */
  function Flushed(f: Flow): (r: Flow)
    requires AllInRange(f)
    ensures r == f.(m := r.m, free := r.free, busy := [], credits := f.credits + |f.busy|)
    ensures |r.free| == |f.free| + |f.busy|
    decreases |f.busy|
  {
    if f.busy == [] then f else Flushed(FlushedOnce(f))
  }

  function FlushedOnce(f: Flow): (r: Flow)
    requires |f.busy| > 0 && AllInRange(f)
    ensures AllInRange(r)
  {
    var m, busy := Release(f.m, f.busy[0].t.ctx), f.busy[1..];
    assert forall i | 0 <= i < |busy| :: CtxInRange(f.m, busy[i].t.ctx);
    assert forall i | 0 <= i < |busy| :: CtxInRange(m, busy[i].t.ctx);
    f.(m := m, free := f.free + [f.busy[0].ctx], busy := busy, credits := f.credits + 1)
  }

  datatype Event =
    | Submit(msg: seq<Iov>)
    | DoPost(fs: seq<Fabric>, sendOk: bool)
    | DoSettle
    | Completed(i: nat)
    | Errored(i: nat)
    | Close

  /** nanomsg sends only when released; a message has a body, or an SP header and a body. A closing
      connection takes and posts nothing, and waits for what is in flight. Nothing follows a failure. */
  predicate Enabled(f: Flow, e: Event) {
    && f.failure.None?
    && match e
       case Submit(msg) => f.released && !f.closing && 1 <= |msg| <= 2
       case DoPost(fs, _) => f.phase.Staged? && !f.closing && |fs| == |f.phase.msg| && SlabsSized(f.m)
       case DoSettle => f.phase.Posted?
       case Completed(i) => i < |f.busy| && CtxInRange(f.m, f.busy[i].t.ctx)
       case Errored(i) => i < |f.busy| && CtxInRange(f.m, f.busy[i].t.ctx)
       case Close => !f.closing && !f.phase.Posted?
  }

  function Step(f: Flow, e: Event): Flow
    requires Enabled(f, e)
  {
    match e
    case Submit(msg) => Stage(f, msg)
    case DoPost(fs, sendOk) => Post(f, fs, sendOk)
    case DoSettle => Settle(f)
    case Completed(i) => Complete(f, i)
    case Errored(i) => CompleteWithError(f, i)
    case Close => f.(closing := true)
  }

  /** A run: the states passed through and the events between them. */
  ghost predicate Trace(fs: seq<Flow>, es: seq<Event>) {
    && |fs| == |es| + 1
    && forall k {:trigger es[k]} | 0 <= k < |es| :: Enabled(fs[k], es[k]) && fs[k + 1] == Step(fs[k], es[k])
  }

  /** A connected endpoint: tx credits, twice as many banks, and a ring of `ring` contexts. */
  function Start(tx: nat, ring: nat, slabSize: nat): Flow
    requires tx > 0
  {
    Flow(Fresh(2 * tx, tx, slabSize).m, seq(ring, i => i), [], tx, Idle, false, true, 0, 0, 0, None)
  }

  // ---------------------------------------------------------------------------------------------
  // What every run keeps

  predicate TwoBanks(live: seq<Transfer>) { forall j | 0 <= j < |live| :: |live[j].ctx.banks| <= 2 }

  predicate CreditsOk(f: Flow, tx: nat) {
    && f.credits + |f.busy| + f.lost == tx + Int(f.phase.Posted?)
    && f.credits >= Int(!f.phase.Idle?)
    && (f.lost > 0 ==> f.closing || f.failure == Some(TxError))
    && (f.failure == Some(TxError) ==> f.lost == 1)
  }

  /** The pipe is released exactly when there is a credit and nothing staged; every send but one in
      progress was acknowledged exactly once. */
  predicate PipeOk(f: Flow) {
    && (f.released <==> f.phase.Idle? && f.credits > 0)
    && f.accepted == f.sents + Int(!f.released)
  }

  predicate FailureOk(f: Flow, tx: nat, ring: nat) {
    && (f.failure == Some(NoContext) ==> ring < tx)
    && f.failure != Some(NotDescribed(NoBank)) && f.failure != Some(NotDescribed(TooBig))
  }

  predicate Inv(f: Flow, tx: nat, ring: nat) {
    && Books(f.m, Lives(f.busy)) && TwoBanks(Lives(f.busy)) && |f.m.banks| == 2 * tx
    && |f.free| + |f.busy| == ring
    && (f.phase.Staged? ==> 1 <= |f.phase.msg| <= 2)
    && CreditsOk(f, tx) && PipeOk(f) && FailureOk(f, tx, ring)
  }

  lemma {:induction false} RetireKeepsBooks(f: Flow, i: nat)
    requires Books(f.m, Lives(f.busy)) && i < |f.busy|
    ensures CtxInRange(f.m, f.busy[i].t.ctx)
    ensures var g := Retire(f, i);
            && g == f.(m := g.m, free := g.free, busy := Without(f.busy, i)) && |g.m.banks| == |f.m.banks|
            && |g.free| == |f.free| + 1 && Books(g.m, Lives(g.busy))
  {
    ReleaseKeepsBooks(f.m, Lives(f.busy), i);
    hide Books, CtxInRange;
    assert Lives(Without(f.busy, i)) == Without(Lives(f.busy), i);
  }

  lemma {:induction false} RetireKeeps(f: Flow, i: nat, tx: nat, ring: nat)
    requires Inv(f, tx, ring) && i < |f.busy|
    ensures CtxInRange(f.m, f.busy[i].t.ctx)
    ensures var g := Retire(f, i);
            && g == f.(m := g.m, free := g.free, busy := g.busy) && |g.busy| == |f.busy| - 1
            && Books(g.m, Lives(g.busy)) && TwoBanks(Lives(g.busy)) && |g.m.banks| == 2 * tx
            && |g.free| + |g.busy| == ring
  {
    RetireKeepsBooks(f, i);
    hide Books, CtxInRange, Retire;
  }

  /** Describing a message of one or two entries while a credit is left; a provider that grants everything
      makes it succeed. */
  lemma {:induction false} DescribeSuffices(m: Mr, live: seq<Transfer>, msg: seq<Iov>, fs: seq<Fabric>, tx: nat)
    requires Books(m, live) && TwoBanks(live) && |m.banks| == 2 * tx && |live| < tx
    requires 1 <= |msg| <= 2 && |fs| == |msg|
    ensures var (m2, r) := Describe(AsWritten, m, msg, fs);
            && |m2.banks| == 2 * tx && r != NoBank && r != TooBig && (Granted(fs) ==> r.Done?)
            && (if r.Done? then
                  && CtxInRange(m2, r.ctx)
                  && Books(m2, live + [Transfer(msg, r.ctx)]) && TwoBanks(live + [Transfer(msg, r.ctx)])
                else Books(m2, live))
  {
    DescribeKeepsBooks(AsWritten, m, live, msg, fs);
    TwoBanksEach(live);
    EmptyTransfer(m, live);
    assert msg[..0] == [];
    NeverOutOfBanks(AsWritten, m, msg, 0, fs, Ctx([], [], []), live);
    DescribeDoneExactly(AsWritten, m, live, msg, fs);
  }

  lemma {:induction false} UndoLast(m: Mr, live: seq<Transfer>, t: Transfer)
    requires Books(m, live + [t])
    ensures CtxInRange(m, t.ctx) && Books(Release(m, t.ctx), live)
  {
    ReleaseKeepsBooks(m, live + [t], |live|);
    assert Without(live + [t], |live|) == live;
  }

  lemma {:induction false} PostKeeps(f: Flow, fs: seq<Fabric>, sendOk: bool, tx: nat, ring: nat)
    requires Inv(f, tx, ring) && Enabled(f, DoPost(fs, sendOk))
    ensures Inv(Post(f, fs, sendOk), tx, ring)
  {
    hide Describe, Books, Release, TwoBanks, CtxInRange, SlabsSized;
    var live, msg := Lives(f.busy), f.phase.msg;
    DescribeSuffices(f.m, live, msg, fs, tx);
    var (m, r) := Describe(AsWritten, f.m, msg, fs);
    if |f.free| > 0 && r.Done? {
      var t := Transfer(msg, r.ctx);
      if sendOk {
        assert Lives(f.busy + [Slot(f.free[0], t)]) == live + [t];
      } else {
        UndoLast(m, live, t);
      }
    }
  }

  lemma {:induction false} CompleteKeeps(f: Flow, i: nat, tx: nat, ring: nat)
    requires Inv(f, tx, ring) && f.failure.None? && i < |f.busy| && CtxInRange(f.m, f.busy[i].t.ctx)
    ensures Inv(Complete(f, i), tx, ring)
  {
    RetireKeeps(f, i, tx, ring);
    hide Books, TwoBanks, CtxInRange, Retire, Lives;
    var g := Complete(f, i);
    assert g.phase == f.phase && g.credits == f.credits + 1 && |g.busy| == |f.busy| - 1;
    assert g.m == Retire(f, i).m && g.busy == Retire(f, i).busy && g.free == Retire(f, i).free;
    assert CreditsOk(g, tx) && PipeOk(g);
  }

  lemma {:induction false} ErrorKeeps(f: Flow, i: nat, tx: nat, ring: nat)
    requires Inv(f, tx, ring) && f.failure.None? && i < |f.busy| && CtxInRange(f.m, f.busy[i].t.ctx)
    ensures Inv(CompleteWithError(f, i), tx, ring)
  {
    RetireKeeps(f, i, tx, ring);
    hide Books, TwoBanks, CtxInRange, Retire, Lives;
  }

  lemma {:induction false} StepKeeps(f: Flow, e: Event, tx: nat, ring: nat)
    requires Inv(f, tx, ring) && Enabled(f, e)
    ensures Inv(Step(f, e), tx, ring)
  {
    hide Books, TwoBanks, CtxInRange, Post, Complete, CompleteWithError;
    match e
    case Submit(_) =>
    case DoPost(fs, sendOk) => PostKeeps(f, fs, sendOk, tx, ring);
    case DoSettle =>
    case Completed(i) => CompleteKeeps(f, i, tx, ring);
    case Errored(i) => ErrorKeeps(f, i, tx, ring);
    case Close =>
  }

  lemma {:induction false} TraceKeeps(fs: seq<Flow>, es: seq<Event>, k: nat, tx: nat, ring: nat, slabSize: nat)
    requires tx > 0 && Trace(fs, es) && fs[0] == Start(tx, ring, slabSize) && k <= |es|
    ensures Inv(fs[k], tx, ring)
    decreases k
  {
    if k > 0 {
      hide Inv, Step, Enabled;
      TraceKeeps(fs, es, k - 1, tx, ring, slabSize);
      var e := es[k - 1];
      StepKeeps(fs[k - 1], e, tx, ring);
    }
  }

  // ---------------------------------------------------------------------------------------------
  // Resource sufficiency

  ghost predicate Reaches(tx: nat, ring: nat, slabSize: nat, f: Flow)
    requires tx > 0
  {
    exists fs: seq<Flow>, es :: Trace(fs, es) && fs[0] == Start(tx, ring, slabSize) && fs[|es|] == f
  }

  lemma {:induction false} ReachesNext(tx: nat, ring: nat, slabSize: nat, f: Flow, e: Event)
    requires tx > 0 && Reaches(tx, ring, slabSize, f) && Enabled(f, e)
    ensures Reaches(tx, ring, slabSize, Step(f, e))
  {
    hide Step, Enabled;
    var fs: seq<Flow>, es :| Trace(fs, es) && fs[0] == Start(tx, ring, slabSize) && fs[|es|] == f;
    var fs2, es2 := fs + [Step(f, e)], es + [e];
    OneMore((s, x, t) => Enabled(s, x) && t == Step(s, x), fs, es, e, Step(f, e));
    assert Trace(fs2, es2) && fs2[|es2|] == Step(f, e);
  }

  ghost predicate CanFail(tx: nat, ring: nat, slabSize: nat, failure: Failure)
    requires tx > 0
  {
    exists f :: Reaches(tx, ring, slabSize, f) && f.failure == Some(failure)
  }

  const EMPTY_MESSAGE := [Iov(0, [])]

  lemma {:induction false} EmptyMessageNeedsNothing(m: Mr)
    requires SlabsSized(m)
    ensures Describe(AsWritten, m, EMPTY_MESSAGE, [Fabric(true, true)]) == (m, Done(Ctx([NoDesc], [], [])))
  {
    var fs, ctx := [Fabric(true, true)], Ctx([], [], []);
    assert Acquire(AsWritten, m, EMPTY_MESSAGE[0], fs[0]) == Acquired(m, Some(NoDesc), false);
    assert Extend(ctx, NoDesc) == Ctx([NoDesc], [], []);
    assert DescribeFrom(AsWritten, m, EMPTY_MESSAGE, fs, Extend(ctx, NoDesc)) == (m, Done(Ctx([NoDesc], [], [])));
    assert DescribeFrom(AsWritten, m, EMPTY_MESSAGE, fs, ctx) == (m, Done(Ctx([NoDesc], [], [])));
  }

  /** Nothing staged, nothing failed, and ring - k contexts free. */
  predicate Ready(f: Flow, tx: nat, ring: nat, k: nat) {
    && f.failure.None? && !f.closing && f.released && f.phase.Idle? && SlabsSized(f.m)
    && |f.free| + k == ring && |f.busy| == k && f.credits == tx - k
    && AllInRange(f)
  }

  lemma {:induction false} OneMoreSend(f: Flow, tx: nat, ring: nat, slabSize: nat, k: nat) returns (g: Flow)
    requires tx > 0 && Reaches(tx, ring, slabSize, f) && Ready(f, tx, ring, k) && k < ring && k < tx
    ensures Reaches(tx, ring, slabSize, g)
    ensures k + 1 < tx ==> Ready(g, tx, ring, k + 1)
    ensures g.failure.None? && !g.closing && g.phase.Idle? && |g.busy| == k + 1 && CtxInRange(g.m, g.busy[0].t.ctx)
  {
    hide Reaches;
    var a, b, c := Submit(EMPTY_MESSAGE), DoPost([Fabric(true, true)], true), DoSettle;
    EmptyMessageNeedsNothing(f.m);
    ReachesNext(tx, ring, slabSize, f, a);
    var f1 := Step(f, a);
    ReachesNext(tx, ring, slabSize, f1, b);
    var f2 := Step(f1, b);
    ReachesNext(tx, ring, slabSize, f2, c);
    g := Step(f2, c);
    hide Describe;
  }

  /** k empty messages sent and none completed yet. */
  lemma {:induction false} FillRuns(tx: nat, ring: nat, slabSize: nat, k: nat) returns (f: Flow)
    requires k <= ring && k < tx
    ensures Reaches(tx, ring, slabSize, f) && Ready(f, tx, ring, k)
  {
    if k == 0 {
      f := Start(tx, ring, slabSize);
      assert Trace([f], []);
    } else {
      hide Reaches, Ready;
      f := FillRuns(tx, ring, slabSize, k - 1);
      f := OneMoreSend(f, tx, ring, slabSize, k - 1);
    }
  }

  lemma {:induction false} OutOfContexts(tx: nat, ring: nat, slabSize: nat) returns (f: Flow)
    requires ring < tx
    ensures Reaches(tx, ring, slabSize, f) && f.failure == Some(NoContext)
  {
    hide Reaches;
    f := FillRuns(tx, ring, slabSize, ring);
    var a, b := Submit(EMPTY_MESSAGE), DoPost([Fabric(true, true)], true);
    ReachesNext(tx, ring, slabSize, f, a);
    f := Step(f, a);
    ReachesNext(tx, ring, slabSize, f, b);
    f := Step(f, b);
  }

  lemma {:induction false} FailedSend(tx: nat, ring: nat, slabSize: nat) returns (f: Flow)
    requires tx > 0 && ring > 0
    ensures Reaches(tx, ring, slabSize, f) && f.failure == Some(TxError) && !f.phase.Posted?
  {
    hide Reaches;
    f := FillRuns(tx, ring, slabSize, 0);
    f := OneMoreSend(f, tx, ring, slabSize, 0);
    ReachesNext(tx, ring, slabSize, f, Errored(0));
    f := Step(f, Errored(0));
    hide Retire;
  }

  lemma {:induction false} ReachedInv(tx: nat, ring: nat, slabSize: nat, f: Flow)
    requires tx > 0 && Reaches(tx, ring, slabSize, f)
    ensures Inv(f, tx, ring)
  {
    hide Inv, Start;
    var fs: seq<Flow>, es :| Trace(fs, es) && fs[0] == Start(tx, ring, slabSize) && fs[|es|] == f;
    TraceKeeps(fs, es, |es|, tx, ring, slabSize);
  }

  lemma {:induction false} InvParts(f: Flow, tx: nat, ring: nat)
    requires Inv(f, tx, ring)
    ensures FailureOk(f, tx, ring) && CreditsOk(f, tx) && |f.free| + |f.busy| == ring
  {
  }

  /** A send runs out of contexts in some run exactly when the ring is smaller than the number of
      credits; it never runs out of banks, and no message is too big for its context. */
  lemma {:induction false} ResourcesSuffice(tx: nat, ring: nat, slabSize: nat)
    requires tx > 0
    ensures CanFail(tx, ring, slabSize, NoContext) <==> ring < tx
    ensures !CanFail(tx, ring, slabSize, NotDescribed(NoBank)) && !CanFail(tx, ring, slabSize, NotDescribed(TooBig))
  {
    hide Inv, Start;
    forall f | Reaches(tx, ring, slabSize, f) ensures FailureOk(f, tx, ring) {
      ReachedInv(tx, ring, slabSize, f);
      InvParts(f, tx, ring);
    }
    hide Reaches;
    if ring < tx { var f := OutOfContexts(tx, ring, slabSize); }
  }

  lemma {:induction false} NeverSentBy(fs: seq<Flow>, es: seq<Event>, k: nat, tx: nat, slabSize: nat)
    requires tx > 0 && Trace(fs, es) && fs[0] == Start(tx, 0, slabSize) && k <= |es|
    ensures fs[k].failure != Some(TxError) && |fs[k].busy| == 0
    decreases k
  {
    TraceKeeps(fs, es, k, tx, 0, slabSize);
    InvParts(fs[k], tx, 0);
    hide Inv;
    if k > 0 {
      NeverSentBy(fs, es, k - 1, tx, slabSize);
      var e := es[k - 1];
      hide Describe;
    }
  }

  lemma {:induction false} NeverSent(tx: nat, slabSize: nat, f: Flow)
    requires tx > 0 && Reaches(tx, 0, slabSize, f)
    ensures f.failure != Some(TxError)
  {
    var fs: seq<Flow>, es :| Trace(fs, es) && fs[0] == Start(tx, 0, slabSize) && fs[|es|] == f;
    NeverSentBy(fs, es, |es|, tx, slabSize);
  }

  /** A transmission can fail in some run exactly when the ring has a context at all. */
  lemma {:induction false} TxErrorReached(tx: nat, ring: nat, slabSize: nat)
    requires tx > 0
    ensures CanFail(tx, ring, slabSize, TxError) <==> ring > 0
  {
    hide Reaches, Inv;
    if ring > 0 {
      var f := FailedSend(tx, ring, slabSize);
    } else {
      forall f | Reaches(tx, ring, slabSize, f) ensures f.failure != Some(TxError) {
        NeverSent(tx, slabSize, f);
      }
    }
  }

  // ---------------------------------------------------------------------------------------------
  // Credits

  /** Credits and acknowledgements at every point of a run, while the connection closes too. */
  lemma {:induction false} CreditFlow(fs: seq<Flow>, es: seq<Event>, k: nat, tx: nat, ring: nat, slabSize: nat)
    requires tx > 0 && Trace(fs, es) && fs[0] == Start(tx, ring, slabSize) && k <= |es|
    ensures var f := fs[k];
            && (f.released <==> f.phase.Idle? && f.credits > 0)
            && f.accepted == f.sents + Int(!f.released)
            && f.credits >= 0
            && f.credits + |f.busy| + f.lost == tx + Int(f.phase.Posted?)
            && (f.lost > 0 ==> f.closing || f.failure == Some(TxError))
            && |f.free| + |f.busy| == ring
  {
    TraceKeeps(fs, es, k, tx, ring, slabSize);
  }

  /** How many of the first k events are failed transmissions. */
  function ErroredIn(es: seq<Event>, k: nat): nat
    requires k <= |es|
  {
    if k == 0 then 0 else ErroredIn(es, k - 1) + Int(es[k - 1].Errored?)
  }

  lemma {:induction false} OneLost(f: Flow, e: Event)
    requires Enabled(f, e)
    ensures Step(f, e).lost == f.lost + Int(e.Errored?)
  {
    hide Describe, Release;
  }

  /** Each failed transmission costs one credit, and nothing else does. */
  lemma {:induction false} LostExactly(fs: seq<Flow>, es: seq<Event>, k: nat)
    requires Trace(fs, es) && k <= |es|
    ensures fs[k].lost == fs[0].lost + ErroredIn(es, k)
    decreases k
  {
    hide Step, Enabled;
    if k > 0 {
      LostExactly(fs, es, k - 1);
      var e := es[k - 1];
      OneLost(fs[k - 1], e);
    }
  }

  /** With nothing in flight no bank is referenced and no slab in use, whatever failed on the way. */
  lemma {:induction false} NothingHeldWhenIdle(fs: seq<Flow>, es: seq<Event>, k: nat, tx: nat, ring: nat,
                                               slabSize: nat)
    requires tx > 0 && Trace(fs, es) && fs[0] == Start(tx, ring, slabSize) && k <= |es| && |fs[k].busy| == 0
    ensures forall b | 0 <= b < |fs[k].m.banks| :: fs[k].m.banks[b].ref == 0
    ensures forall b | 0 <= b < |fs[k].m.slabs| :: !fs[k].m.slabs[b].inUse
  {
    TraceKeeps(fs, es, k, tx, ring, slabSize);
    assert Lives(fs[k].busy) == [];
  }
}
