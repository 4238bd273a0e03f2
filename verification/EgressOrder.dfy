/** What becomes of the messages nanomsg submits: each goes out as it was, in its turn, and ends once. */
module EgressOrder {
  import opened Basics
  import opened MrModel
  import opened EgressBooks
  import opened EgressGrants
  import opened EgressFlow

  type Message = seq<Iov>

  function Messages(busy: seq<Slot>): (r: seq<Message>)
    ensures |r| == |busy| && forall i | 0 <= i < |busy| :: r[i] == busy[i].t.msg
  {
    seq(|busy|, i requires 0 <= i < |busy| => busy[i].t.msg)
  }

  /** The messages of the first k submit events. */
  function Submitted(es: seq<Event>, k: nat): seq<Message>
    requires k <= |es|
  {
    if k == 0 then [] else Submitted(es, k - 1) + if es[k - 1].Submit? then [es[k - 1].msg] else []
  }

  /** The messages in flight in g that were not yet in f. */
  function Launched(f: Flow, g: Flow): seq<Message> {
    if |f.busy| < |g.busy| then Messages(g.busy[|f.busy|..]) else []
  }

  /** What the posts among the first k events put in flight. */
  function LaunchedBy(fs: seq<Flow>, es: seq<Event>, k: nat): seq<Message>
    requires k <= |es| < |fs|
  {
    if k == 0 then [] else LaunchedBy(fs, es, k - 1) + if es[k - 1].DoPost? then Launched(fs[k - 1], fs[k]) else []
  }

  function StagedIn(f: Flow): seq<Message> { if f.phase.Staged? then [f.phase.msg] else [] }

  lemma {:induction false} PostLaunches(f: Flow, fs: seq<Fabric>, sendOk: bool)
    requires Enabled(f, DoPost(fs, sendOk))
    ensures Launched(f, Post(f, fs, sendOk)) + StagedIn(Post(f, fs, sendOk)) == StagedIn(f)
  {
    hide Describe, Release;
    var g := Post(f, fs, sendOk);
    if g.failure.None? {
      assert g.busy[|f.busy|..] == [g.busy[|f.busy|]];
      assert Launched(f, g) == [f.phase.msg];
    }
  }

  lemma {:induction false} StepLaunches(f: Flow, e: Event)
    requires Enabled(f, e) && PipeOk(f)
    ensures (if e.DoPost? then Launched(f, Step(f, e)) else []) + StagedIn(Step(f, e))
            == StagedIn(f) + if e.Submit? then [e.msg] else []
  {
    hide Launched, Post, Release;
    var g := Step(f, e);
    match e
    case DoPost(fs, sendOk) => PostLaunches(f, fs, sendOk);
    case Submit(msg) => assert StagedIn(f) == [] && StagedIn(g) == [msg];
    case _ => assert StagedIn(g) == StagedIn(f);
  }

  lemma {:induction false} PipeFromInv(f: Flow, tx: nat, ring: nat)
    requires Inv(f, tx, ring)
    ensures PipeOk(f)
  {
  }

  lemma {:induction false} StepAccepts(f: Flow, e: Event)
    requires Enabled(f, e)
    ensures Step(f, e).accepted == f.accepted + Int(e.Submit?)
  {
    hide Describe, Release;
  }

  lemma {:induction false} Regrouped<T>(out: seq<T>, more: seq<T>, after: seq<T>, before: seq<T>, added: seq<T>)
    requires more + after == before + added
    ensures out + more + after == out + before + added
  {
    assert out + more + after == out + (more + after);
    assert out + before + added == out + (before + added);
  }

  /** At every point of a run, what was put in flight, followed by what is staged, is what nanomsg submitted:
      the same messages, entry by entry, in the same order. */
  lemma {:induction false} SentInOrder(fs: seq<Flow>, es: seq<Event>, k: nat, tx: nat, ring: nat, slabSize: nat)
    requires tx > 0 && Trace(fs, es) && fs[0] == Start(tx, ring, slabSize) && k <= |es|
    ensures LaunchedBy(fs, es, k) + StagedIn(fs[k]) == Submitted(es, k)
    ensures fs[k].accepted == |Submitted(es, k)|
    decreases k
  {
    hide Step, Enabled, Inv, Launched;
    if k > 0 {
      SentInOrder(fs, es, k - 1, tx, ring, slabSize);
      var f, e := fs[k - 1], es[k - 1];
      TraceKeeps(fs, es, k - 1, tx, ring, slabSize);
      PipeFromInv(f, tx, ring);
      StepLaunches(f, e);
      StepAccepts(f, e);
      Regrouped(LaunchedBy(fs, es, k - 1), if e.DoPost? then Launched(f, fs[k]) else [], StagedIn(fs[k]), StagedIn(f),
                if e.Submit? then [e.msg] else []);
      hide StagedIn;
    }
  }

  // ---------------------------------------------------------------------------------------------
  // Each message in flight ends once

  predicate Ends(f: Flow, e: Event) { (e.Completed? || e.Errored?) && e.i < |f.busy| }

  /** The messages whose end was reported by the first k events. */
  function EndedBy(fs: seq<Flow>, es: seq<Event>, k: nat): multiset<Message>
    requires k <= |es| < |fs|
  {
    if k == 0 then multiset{}
    else EndedBy(fs, es, k - 1)
         + if Ends(fs[k - 1], es[k - 1]) then multiset{fs[k - 1].busy[es[k - 1].i].t.msg} else multiset{}
  }

  function CtxsOf(busy: seq<Slot>): (r: seq<nat>)
    ensures |r| == |busy| && forall i | 0 <= i < |busy| :: r[i] == busy[i].ctx
  {
    seq(|busy|, i requires 0 <= i < |busy| => busy[i].ctx)
  }

  function Contexts(f: Flow): multiset<nat> { multiset(f.free) + multiset(CtxsOf(f.busy)) }

  lemma {:induction false} OneLess(busy: seq<Slot>, i: nat)
    requires i < |busy|
    ensures multiset(Messages(busy)) == multiset(Messages(Without(busy, i))) + multiset{busy[i].t.msg}
    ensures multiset(CtxsOf(busy)) == multiset(CtxsOf(Without(busy, i))) + multiset{busy[i].ctx}
  {
    assert Messages(Without(busy, i)) == Without(Messages(busy), i);
    assert CtxsOf(Without(busy, i)) == Without(CtxsOf(busy), i);
    hide Messages, CtxsOf;
    MultisetWithout(Messages(busy), i);
    MultisetWithout(CtxsOf(busy), i);
  }

  lemma {:induction false} OneAdded(busy: seq<Slot>, s: Slot)
    ensures multiset(Messages(busy + [s])) == multiset(Messages(busy)) + multiset{s.t.msg}
    ensures multiset(CtxsOf(busy + [s])) == multiset(CtxsOf(busy)) + multiset{s.ctx}
  {
    assert Messages(busy + [s]) == Messages(busy) + [s.t.msg];
    assert CtxsOf(busy + [s]) == CtxsOf(busy) + [s.ctx];
  }

  lemma {:induction false} Shifted(a: multiset<nat>, b: multiset<nat>, c: multiset<nat>)
    ensures b + (c + a) == a + b + c
  {
  }

  lemma {:induction false} PostTakesOne(f: Flow, fs: seq<Fabric>, sendOk: bool)
    requires Enabled(f, DoPost(fs, sendOk))
    ensures var g := Post(f, fs, sendOk);
            if g.failure.Some? then g.free == f.free && g.busy == f.busy
            else exists s: Slot :: f.free == [s.ctx] + g.free && g.busy == f.busy + [s]
  {
    hide Describe, Release;
    var g := Post(f, fs, sendOk);
    if g.failure.None? { assert g.busy == f.busy + [g.busy[|f.busy|]]; }
  }

  lemma {:induction false} PostMoves(f: Flow, g: Flow, s: Slot)
    requires f.free == [s.ctx] + g.free && g.busy == f.busy + [s]
    ensures multiset(Messages(g.busy)) == multiset(Messages(f.busy)) + multiset(Launched(f, g))
    ensures Contexts(g) == Contexts(f)
  {
    OneAdded(f.busy, s);
    assert g.busy[|f.busy|..] == [s] && Messages([s]) == [s.t.msg];
    hide Messages, CtxsOf;
    assert multiset(f.free) == multiset{s.ctx} + multiset(g.free);
    Shifted(multiset{s.ctx}, multiset(g.free), multiset(CtxsOf(f.busy)));
  }

  lemma {:induction false} RetireMoves(f: Flow, i: nat)
    requires i < |f.busy| && CtxInRange(f.m, f.busy[i].t.ctx)
    ensures var g := Retire(f, i);
            && multiset(Messages(f.busy)) == multiset(Messages(g.busy)) + multiset{f.busy[i].t.msg}
            && Contexts(g) == Contexts(f)
  {
    OneLess(f.busy, i);
    hide Messages, CtxsOf, Without, Release;
  }

  lemma {:induction false} SameContexts(f: Flow, g: Flow)
    requires f.free == g.free && f.busy == g.busy
    ensures Contexts(g) == Contexts(f) && Launched(f, g) == []
  {
  }

  lemma {:induction false} StepMoves(f: Flow, e: Event)
    requires Enabled(f, e)
    ensures var g := Step(f, e);
            && multiset(Messages(g.busy)) + (if Ends(f, e) then multiset{f.busy[e.i].t.msg} else multiset{})
               == multiset(Messages(f.busy)) + (if e.DoPost? then multiset(Launched(f, g)) else multiset{})
            && Contexts(g) == Contexts(f)
  {
    hide Post, Retire, Messages, CtxsOf, Contexts;
    var g := Step(f, e);
    if e.DoPost? {
      PostTakesOne(f, e.fs, e.sendOk);
      if g.failure.None? {
        var s: Slot :| f.free == [s.ctx] + g.free && g.busy == f.busy + [s];
        PostMoves(f, g, s);
      } else {
        SameContexts(f, g);
      }
    } else if !e.Completed? && !e.Errored? {
      SameContexts(f, g);
    }
    if e.Completed? || e.Errored? {
      RetireMoves(f, e.i);
      SameContexts(Retire(f, e.i), g);
    }
  }

  lemma {:induction false} LaunchedMore(fs: seq<Flow>, es: seq<Event>, k: nat)
    requires k < |es| < |fs|
    ensures multiset(LaunchedBy(fs, es, k + 1))
            == multiset(LaunchedBy(fs, es, k))
               + if es[k].DoPost? then multiset(Launched(fs[k], fs[k + 1])) else multiset{}
  {
    hide Launched;
  }

  lemma {:induction false} AllOf(free: seq<nat>, n: nat)
    requires n <= |free| && forall i | 0 <= i < |free| :: free[i] == i
    ensures multiset(free[..n]) == Range(n)
    decreases n
  {
    if n > 0 {
      AllOf(free, n - 1);
      assert Range(n) == Range(n - 1) + multiset{n - 1};
      hide Range;
      assert free[..n] == free[..n - 1] + [n - 1];
    }
  }

  lemma {:induction false} Balance<T>(now: multiset<T>, before: multiset<T>, ended: multiset<T>, out: multiset<T>,
                                      ends: multiset<T>, goes: multiset<T>)
    requires now + ends == before + goes && before + ended == out
    ensures now + (ended + ends) == out + goes
  {
    forall x ensures (now + (ended + ends))[x] == (out + goes)[x] {
      assert (now + ends)[x] == (before + goes)[x] && (before + ended)[x] == out[x];
    }
  }

  /** At every point of a run, closing or not: every message put in flight is still there or its end was
      reported, once; and every context of the ring is free or carries one message. */
  lemma {:induction false} EachEndsOnce(fs: seq<Flow>, es: seq<Event>, k: nat, tx: nat, ring: nat, slabSize: nat)
    requires tx > 0 && Trace(fs, es) && fs[0] == Start(tx, ring, slabSize) && k <= |es|
    ensures multiset(Messages(fs[k].busy)) + EndedBy(fs, es, k) == multiset(LaunchedBy(fs, es, k))
    ensures Contexts(fs[k]) == Range(ring)
    decreases k
  {
    if k == 0 {
      AllOf(fs[0].free, ring);
      assert fs[0].free[..ring] == fs[0].free;
      assert CtxsOf([]) == [] && Messages([]) == [];
    } else {
      var f, g, e := fs[k - 1], fs[k], es[k - 1];
      EachEndsOnce(fs, es, k - 1, tx, ring, slabSize);
      StepMoves(f, e);
      LaunchedMore(fs, es, k - 1);
      hide Step, Enabled, Launched, LaunchedBy, Messages, Contexts, Range;
      Balance(multiset(Messages(g.busy)), multiset(Messages(f.busy)), EndedBy(fs, es, k - 1),
              multiset(LaunchedBy(fs, es, k - 1)), if Ends(f, e) then multiset{f.busy[e.i].t.msg} else multiset{},
              if e.DoPost? then multiset(Launched(f, g)) else multiset{});
    }
  }

  /** At event j no context is taken and none comes back. */
  predicate Unmoved(fs: seq<Flow>, j: nat) { j + 1 < |fs| && |fs[j + 1].busy| == |fs[j].busy| }

  lemma {:induction false} FreeStays(f: Flow, e: Event)
    requires Enabled(f, e) && |Step(f, e).busy| == |f.busy|
    ensures Step(f, e).free == f.free
  {
    hide Describe, Release;
  }

  lemma {:induction false} FreeUnmoved(fs: seq<Flow>, es: seq<Event>, i: nat, k: nat)
    requires Trace(fs, es) && i <= k <= |es|
    requires forall j | i <= j < k :: Unmoved(fs, j)
    ensures fs[k].free == fs[i].free
    decreases k
  {
    if k > i {
      FreeUnmoved(fs, es, i, k - 1);
      assert Unmoved(fs, k - 1);
      var e := es[k - 1];
      hide Step, Enabled;
      FreeStays(fs[k - 1], e);
    }
  }

  /** The context that came free last is the next to be used. */
  lemma {:induction false} LastFreedIsNext(fs: seq<Flow>, es: seq<Event>, i: nat, k: nat)
    requires Trace(fs, es) && i < k < |es| && (es[i].Completed? || es[i].Errored?) && es[k].DoPost?
    requires forall j | i < j < k :: Unmoved(fs, j)
    requires |fs[k].busy| < |fs[k + 1].busy|
    ensures Enabled(fs[i], es[i]) && fs[k + 1].busy[|fs[k].busy|].ctx == fs[i].busy[es[i].i].ctx
  {
    FreeUnmoved(fs, es, i + 1, k);
    var e, x := es[i], es[k];
    assert Enabled(fs[i], e) && Enabled(fs[k], x) && fs[i + 1] == Step(fs[i], e) && fs[k + 1] == Step(fs[k], x);
    hide Describe, Release;
    assert fs[i + 1].free[0] == fs[i].busy[e.i].ctx;
  }

  // ---------------------------------------------------------------------------------------------
  // When everything the provider is asked for is granted

  /** Whatever is posted among the first k events is described and sent without a refusal. */
  ghost predicate Served(es: seq<Event>, k: nat)
    requires k <= |es|
  {
    forall j | 0 <= j < k && es[j].DoPost? :: Granted(es[j].fs) && es[j].sendOk
  }

  lemma {:induction false} ServedPost(f: Flow, fs: seq<Fabric>, tx: nat, ring: nat)
    requires Inv(f, tx, ring) && Enabled(f, DoPost(fs, true)) && Granted(fs)
    ensures Post(f, fs, true).failure == if |f.busy| < ring then None else Some(NoContext)
  {
    hide Describe, Books, TwoBanks, CtxInRange, SlabsSized, Release;
    DescribeSuffices(f.m, Lives(f.busy), f.phase.msg, fs, tx);
  }

  lemma {:induction false} ServedStep(f: Flow, e: Event, tx: nat, ring: nat)
    requires Inv(f, tx, ring) && Enabled(f, e) && (e.DoPost? ==> Granted(e.fs) && e.sendOk)
    ensures Step(f, e).failure in {None, Some(TxError), Some(NoContext)}
  {
    hide Inv, Post, Release;
    if e.DoPost? { ServedPost(f, e.fs, tx, ring); }
  }

  /** Then the only failures are of transmissions under way, and, with a ring shorter than the number of
      credits, of a send that finds all contexts busy. */
  lemma {:induction false} ServedRunsOn(fs: seq<Flow>, es: seq<Event>, k: nat, tx: nat, ring: nat, slabSize: nat)
    requires tx > 0 && Trace(fs, es) && fs[0] == Start(tx, ring, slabSize) && k <= |es| && Served(es, k)
    ensures fs[k].failure in {None, Some(TxError), Some(NoContext)}
    ensures fs[k].failure == Some(NoContext) ==> ring < tx
  {
    TraceKeeps(fs, es, k, tx, ring, slabSize);
    InvParts(fs[k], tx, ring);
    hide Inv, Step, Enabled;
    if k > 0 {
      TraceKeeps(fs, es, k - 1, tx, ring, slabSize);
      var e := es[k - 1];
      ServedStep(fs[k - 1], e, tx, ring);
    }
  }
}
