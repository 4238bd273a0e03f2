/** What the device reads of the messages in flight: the bytes nanomsg submitted, from the post to the end of
    each message. */
module EgressReads {
  import opened Basics
  import opened MrModel
  import MrCounts
  import opened MrRuns
  import opened EgressBooks
  import opened EgressFlow

  type Transfer = MrCounts.Transfer

  /** Where the message that is j-th in flight at point i is at point k; nowhere once its end was reported. */
  function PlaceOf(es: seq<Event>, i: nat, j: nat, k: nat): Option<nat>
    requires i <= k <= |es|
    decreases k
  {
    if k == i then Some(j)
    else
      var p := PlaceOf(es, i, j, k - 1);
      match es[k - 1]
      case Completed(x) => if p.None? || p.value == x then None else Some(if x < p.value then p.value - 1 else p.value)
      case Errored(x) => if p.None? || p.value == x then None else Some(if x < p.value then p.value - 1 else p.value)
      case _ => p
  }

  lemma {:induction false} SlotStays(f: Flow, e: Event, p: nat)
    requires Enabled(f, e) && p < |f.busy| && !((e.Completed? || e.Errored?) && e.i == p)
    ensures var g := Step(f, e);
            var q := if (e.Completed? || e.Errored?) && e.i < p then p - 1 else p;
            q < |g.busy| && g.busy[q] == f.busy[p]
  {
    hide Describe, Release;
  }

  lemma {:induction false} Grows(m: Mr, a: Mr, live: seq<Transfer>, t: Transfer)
    requires Books(m, live) && Books(a, live + [t]) && |a.banks| == |m.banks| && |a.slabs| == |m.slabs|
    ensures forall k | 0 <= k < |m.banks| :: a.banks[k].ref >= m.banks[k].ref
    ensures forall k | 0 <= k < |m.slabs| && m.slabs[k].inUse :: a.slabs[k].inUse
  {
    MrCounts.UseOfAppend(live, t);
  }

  lemma {:induction false} DescribeKeeps(m: Mr, msg: seq<Iov>, fs: seq<Fabric>)
    requires SlabsSized(m) && |msg| == |fs|
    ensures MrCounts.Keeps(m, Describe(AsWritten, m, msg, fs).0)
  {
    if |msg| <= MAX_PER_CONTEXT { LoopKeeps(AsWritten, m, msg, fs, Ctx([], [], [])); } else { KeepsSame(m); }
  }

  lemma {:induction false} SameSlabs(m: Mr, a: Mr)
    requires MrCounts.Keeps(m, a)
    ensures |a.banks| == |m.banks| && |a.slabs| == |m.slabs|
  {
  }

  lemma {:induction false} PostKeepsOthers(f: Flow, fs: seq<Fabric>, sendOk: bool)
    requires Books(f.m, Lives(f.busy)) && Enabled(f, DoPost(fs, sendOk))
    ensures MrCounts.Keeps(f.m, Post(f, fs, sendOk).m)
  {
    hide Describe, Release, Books, MrCounts.Keeps;
    var live, msg := Lives(f.busy), f.phase.msg;
    KeepsSame(f.m);
    DescribeKeeps(f.m, msg, fs);
    DescribeKeepsBooks(AsWritten, f.m, live, msg, fs);
    var (m, r) := Describe(AsWritten, f.m, msg, fs);
    if r.Done? {
      SameSlabs(f.m, m);
      Grows(f.m, m, live, MrCounts.Transfer(msg, r.ctx));
      ReleaseKeeps(m, r.ctx);
      KeepsMore(f.m, m, Release(m, r.ctx));
    }
  }

  lemma {:induction false} StepKeepsOthers(f: Flow, e: Event)
    requires Books(f.m, Lives(f.busy)) && Enabled(f, e)
    ensures MrCounts.Keeps(f.m, Step(f, e).m)
  {
    KeepsSame(f.m);
    hide Release, Books, MrCounts.Keeps, Post;
    match e
    case DoPost(fs, sendOk) => PostKeepsOthers(f, fs, sendOk);
    case Completed(i) => ReleaseKeeps(f.m, f.busy[i].t.ctx);
    case Errored(i) => ReleaseKeeps(f.m, f.busy[i].t.ctx);
    case _ =>
  }

  lemma {:induction false} SlotHeld(f: Flow, p: nat)
    requires Books(f.m, Lives(f.busy)) && p < |f.busy|
    ensures Held(f.m, f.busy[p].t.ctx) && MrCounts.Filled(f.busy[p].t)
  {
    LiveIsHeld(f.m, Lives(f.busy), p);
  }

  lemma {:induction false} StepReads(f: Flow, e: Event, p: nat, q: nat)
    requires Books(f.m, Lives(f.busy)) && Enabled(f, e) && Books(Step(f, e).m, Lives(Step(f, e).busy))
    requires p < |f.busy| && q < |Step(f, e).busy| && Step(f, e).busy[q] == f.busy[p]
    ensures Reads(Step(f, e).m, f.busy[p].t) <==> Reads(f.m, f.busy[p].t)
  {
    var g, t := Step(f, e), f.busy[p].t;
    hide Step, Enabled, Books, Held, MrCounts.Keeps, Gathered;
    SlotHeld(f, p);
    SlotHeld(g, q);
    StepKeepsOthers(f, e);
    hide MrCounts.Listed;
    GatheredStays(f.m, g.m, t, |t.msg|);
  }

  lemma {:induction false} PostReads(f: Flow, fs: seq<Fabric>, sendOk: bool)
    requires Books(f.m, Lives(f.busy)) && Enabled(f, DoPost(fs, sendOk)) && Post(f, fs, sendOk).failure.None?
    ensures var g := Post(f, fs, sendOk);
            && |g.busy| == |f.busy| + 1 && g.busy[|f.busy|].t.msg == f.phase.msg
            && (Reads(g.m, g.busy[|f.busy|].t) <==> DescribeWorks(AsWritten, f.m, f.phase.msg, fs))
  {
    DescribeReadsExactly(AsWritten, f.m, Lives(f.busy), f.phase.msg, fs);
    hide Describe, DescribeWorks, Books, Reads;
  }

  lemma {:induction false} BooksAt(fs: seq<Flow>, es: seq<Event>, k: nat, tx: nat, ring: nat, slabSize: nat)
    requires tx > 0 && Trace(fs, es) && fs[0] == Start(tx, ring, slabSize) && k <= |es|
    ensures Books(fs[k].m, Lives(fs[k].busy))
  {
    TraceKeeps(fs, es, k, tx, ring, slabSize);
    hide Books;
  }

  lemma {:induction false} ReadsStay(fs: seq<Flow>, es: seq<Event>, i: nat, j: nat, k: nat, tx: nat, ring: nat,
                                     slabSize: nat)
    requires tx > 0 && Trace(fs, es) && fs[0] == Start(tx, ring, slabSize) && i <= k <= |es| && j < |fs[i].busy|
    ensures var p := PlaceOf(es, i, j, k);
            p.Some? ==> p.value < |fs[k].busy| && fs[k].busy[p.value] == fs[i].busy[j]
                        && (Reads(fs[k].m, fs[i].busy[j].t) <==> Reads(fs[i].m, fs[i].busy[j].t))
    decreases k
  {
    hide Step, Enabled, Books, Reads;
    var p := PlaceOf(es, i, j, k);
    if k > i && p.Some? {
      var e, q := es[k - 1], PlaceOf(es, i, j, k - 1).value;
      ReadsStay(fs, es, i, j, k - 1, tx, ring, slabSize);
      BooksAt(fs, es, k - 1, tx, ring, slabSize);
      BooksAt(fs, es, k, tx, ring, slabSize);
      SlotStays(fs[k - 1], e, q);
      StepReads(fs[k - 1], e, q, p.value);
    }
  }

  /** A message put in flight at event i is the one that was staged; and at every point up to its end the
      device reads the bytes nanomsg submitted, exactly when its describe gave every entry a descriptor that
      works. */
  lemma {:induction false} SentReadsExactly(fs: seq<Flow>, es: seq<Event>, i: nat, k: nat, tx: nat, ring: nat,
                                            slabSize: nat)
    requires tx > 0 && Trace(fs, es) && fs[0] == Start(tx, ring, slabSize) && i < k <= |es|
    requires es[i].DoPost? && fs[i + 1].failure.None?
    ensures Enabled(fs[i], es[i])
    ensures var msg, p := fs[i].phase.msg, PlaceOf(es, i + 1, |fs[i].busy|, k);
            p.Some? ==>
              && p.value < |fs[k].busy| && fs[k].busy[p.value].t.msg == msg
              && (Reads(fs[k].m, fs[k].busy[p.value].t) <==> DescribeWorks(AsWritten, fs[i].m, msg, es[i].fs))
  {
    var f, e := fs[i], es[i];
    assert Enabled(f, e) && fs[i + 1] == Step(f, e);
    BooksAt(fs, es, i, tx, ring, slabSize);
    hide Books, Post, DescribeWorks, Reads;
    PostReads(f, e.fs, e.sendOk);
    ReadsStay(fs, es, i + 1, |f.busy|, k, tx, ring, slabSize);
  }

  // ---------------------------------------------------------------------------------------------
  // Slabs

  predicate OneSlabEach(busy: seq<Slot>) { forall i | 0 <= i < |busy| :: |busy[i].t.ctx.slabs| <= 1 }

  lemma {:induction false} SlabsBounded(live: seq<Transfer>)
    requires forall j | 0 <= j < |live| :: |live[j].ctx.slabs| <= 1
    ensures |MrCounts.SlabUse(live)| <= |live|
    decreases |live|
  {
    if |live| > 0 { SlabsBounded(live[..|live| - 1]); }
  }

  lemma {:induction false} SlabCount(f: Flow, tx: nat, ring: nat, n: nat)
    requires Inv(f, tx, ring) && |f.m.slabs| == n && |MrCounts.SlabUse(Lives(f.busy))| < n
    ensures exists s | 0 <= s < n :: !f.m.slabs[s].inUse
  {
    var use := MrCounts.SlabUse(Lives(f.busy));
    if forall s: nat | s < n :: f.m.slabs[s].inUse {
      forall s: nat | s < n ensures use[s] > 0 { assert f.m.slabs[s].inUse; }
      AllUsed(use, n);
      assert false;
    }
  }

  lemma {:induction false} SlabsAt(fs: seq<Flow>, es: seq<Event>, k: nat, tx: nat, ring: nat, slabSize: nat)
    requires tx > 0 && Trace(fs, es) && fs[0] == Start(tx, ring, slabSize) && k <= |es|
    ensures |fs[k].m.slabs| == tx
    decreases k
  {
    if k > 0 {
      hide Step, Enabled, Books;
      SlabsAt(fs, es, k - 1, tx, ring, slabSize);
      BooksAt(fs, es, k - 1, tx, ring, slabSize);
      var e := es[k - 1];
      StepKeepsOthers(fs[k - 1], e);
    }
  }

  /** There are as many slabs as credits: while a credit is left and no message in flight holds more than one
      slab, the next message finds one free for its header. */
  lemma {:induction false} SlabForHeader(fs: seq<Flow>, es: seq<Event>, k: nat, tx: nat, ring: nat, slabSize: nat)
    requires tx > 0 && Trace(fs, es) && fs[0] == Start(tx, ring, slabSize) && k <= |es|
    requires OneSlabEach(fs[k].busy) && fs[k].credits > 0 && !fs[k].phase.Posted?
    ensures exists s | 0 <= s < |fs[k].m.slabs| :: !fs[k].m.slabs[s].inUse
  {
    TraceKeeps(fs, es, k, tx, ring, slabSize);
    InvParts(fs[k], tx, ring);
    SlabsAt(fs, es, k, tx, ring, slabSize);
    hide Inv;
    SlabsBounded(Lives(fs[k].busy));
    SlabCount(fs[k], tx, ring, tx);
  }
}
