/** Transparency: what the device reads of a message in flight, from the describe to its own release. */
module MrRuns {
  import opened Basics
  import opened MrModel
  import opened MrMarks
  import opened MrCounts
  import opened MrLookups

  /** The bytes the device reads for one entry; None when its registration is gone or too small. */
  function ReadEntry(m: Mr, iov: Iov, d: Desc): Option<seq<bv8>> {
    match d
    case NoDesc => Some([])
    case SlabDesc(k) =>
      if k < |m.slabs| && m.slabs[k].inUse && |iov.bytes| <= |m.slabs[k].data| then Some(m.slabs[k].data[..|iov.bytes|])
      else None
    case BankDesc(k, mr) =>
      if k < |m.banks| && m.banks[k].registered && m.banks[k].mr == mr && m.banks[k].ref > 0
         && mr.Some? && mr.value.Covers(iov.base, |iov.bytes|) then Some(iov.bytes)
      else None
  }

  /** The first n entries gathered into one payload. */
  function Gathered(m: Mr, t: Transfer, n: nat): Option<seq<bv8>>
    requires n <= |t.msg| == |t.ctx.descs|
  {
    if n == 0 then Some([])
    else
      var head, last := Gathered(m, t, n - 1), ReadEntry(m, t.msg[n - 1], t.ctx.descs[n - 1]);
      if head.Some? && last.Some? then Some(head.value + last.value) else None
  }

  function Payload(msg: seq<Iov>, n: nat): seq<bv8>
    requires n <= |msg|
  {
    if n == 0 then [] else Payload(msg, n - 1) + msg[n - 1].bytes
  }

  /** The device reads the message as the caller wrote it. */
  predicate Reads(m: Mr, t: Transfer) {
    |t.msg| == |t.ctx.descs| && Gathered(m, t, |t.msg|) == Some(Payload(t.msg, |t.msg|))
  }

  // ---------------------------------------------------------------------------------------------
  // What a message holds stays as it is

  predicate Held(m: Mr, ctx: Ctx) {
    && (forall k | k in ctx.banks :: k < |m.banks| && m.banks[k].ref > 0)
    && (forall k | k in ctx.slabs :: k < |m.slabs| && m.slabs[k].inUse)
  }

  lemma {:induction false} LiveIsHeld(m: Mr, live: seq<Transfer>, j: nat)
    requires Counted(m, live) && j < |live|
    ensures Held(m, live[j].ctx) && Filled(live[j])
  {
    UseOfRemoval(live, j);
    var ctx := live[j].ctx;
    forall k | k in ctx.banks ensures k < |m.banks| && m.banks[k].ref > 0 {
      assert k in multiset(ctx.banks);
      assert BankUse(live)[k] > 0;
    }
    forall k | k in ctx.slabs ensures k < |m.slabs| && m.slabs[k].inUse {
      assert k in multiset(ctx.slabs);
      assert SlabUse(live)[k] > 0;
    }
  }

  lemma {:induction false} GatheredStays(m: Mr, m2: Mr, t: Transfer, n: nat)
    requires Keeps(m, m2) && Filled(t) && Held(m, t.ctx) && Held(m2, t.ctx) && n <= |t.msg|
    ensures Gathered(m2, t, n) == Gathered(m, t, n)
    decreases n
  {
    if n > 0 {
      GatheredStays(m, m2, t, n - 1);
      assert Listed(t.ctx, t.ctx.descs[n - 1]);
    }
  }

  lemma {:induction false} KeepsMore(m: Mr, a: Mr, m2: Mr)
    requires Keeps(m, a) && Keeps(a, m2)
    requires forall k | 0 <= k < |m.banks| :: a.banks[k].ref >= m.banks[k].ref
    requires forall k | 0 <= k < |m.slabs| && m.slabs[k].inUse :: a.slabs[k].inUse
    ensures Keeps(m, m2)
  {
  }

  lemma {:induction false} AcquireKeeps(build: Build, m: Mr, iov: Iov, f: Fabric)
    requires SlabsSized(m)
    ensures var a := Acquire(build, m, iov, f).m;
            && Keeps(m, a)
            && (forall k | 0 <= k < |m.banks| :: a.banks[k].ref >= m.banks[k].ref)
            && (forall k | 0 <= k < |m.slabs| && m.slabs[k].inUse :: a.slabs[k].inUse)
  {
    if NeedsBank(m, iov) { LookupKeeps(build, m, iov.base, |iov.bytes|, f); }
    AcquireBooks(build, m, iov, f);
  }

  lemma {:induction false} ReleaseKeeps(m: Mr, ctx: Ctx)
    requires CtxInRange(m, ctx)
    ensures Keeps(m, Release(m, ctx))
  {
    forall k | 0 <= k < |m.banks|
      ensures Release(m, ctx).banks[k].mr == m.banks[k].mr
      ensures Release(m, ctx).banks[k].registered == m.banks[k].registered
    {
      UnrefEach(m.banks, ctx.banks, k);
    }
    forall k | 0 <= k < |m.slabs| ensures Release(m, ctx).slabs[k].data == m.slabs[k].data {
      FreeSlabsEach(m.slabs, ctx.slabs, k);
    }
  }

  lemma {:induction false} KeepsSame(m: Mr)
    ensures Keeps(m, m)
  {
  }

  lemma {:induction false} LoopKeeps(build: Build, m: Mr, msg: seq<Iov>, fs: seq<Fabric>, ctx: Ctx)
    requires SlabsSized(m) && CtxInRange(m, ctx) && |ctx.descs| <= |msg| == |fs|
    ensures Keeps(m, DescribeFrom(build, m, msg, fs, ctx).0)
    decreases |msg| - |ctx.descs|
  {
    var i := |ctx.descs|;
    if i < |msg| {
      hide Acquire, Keeps, Release;
      AcquireKeeps(build, m, msg[i], fs[i]);
      var a := Acquire(build, m, msg[i], fs[i]);
      if a.got.Some? {
        LoopKeeps(build, a.m, msg, fs, Extend(ctx, a.got.value));
      } else {
        ReleaseKeeps(a.m, ctx);
      }
      KeepsMore(m, a.m, DescribeFrom(build, m, msg, fs, ctx).0);
    } else {
      KeepsSame(m);
    }
  }

  lemma {:induction false} InvalidateKeeps(m: Mr, base: nat, len: nat, closes: seq<bool>)
    requires |closes| == |m.banks|
    ensures Keeps(m, m.(banks := InvalidateFrom(m.banks, base, len, closes, 0).0))
  {
    InvalidateExact(m.banks, base, len, closes);
  }

  lemma {:induction false} MarkKeeps(build: Build, m: Mr, base: nat, len: nat, f: Fabric)
    ensures Keeps(m, Mark(build, m, base, len, f))
  {
  }

  /** No call changes what another message holds. */
  lemma {:induction false} StepKeeps(build: Build, w: World, e: Event)
    requires Enabled(w, e)
    ensures Keeps(w.m, Step(build, w, e).m)
  {
    hide Keeps, Release, Mark;
    match e
    case Send(msg, fs) =>
      if |msg| <= MAX_PER_CONTEXT { LoopKeeps(build, w.m, msg, fs, Ctx([], [], [])); } else { KeepsSame(w.m); }
    case Finish(i) => ReleaseKeeps(w.m, w.live[i].ctx);
    case MarkRegion(base, len, f) => MarkKeeps(build, w.m, base, len, f);
    case InvalidateRegion(base, len, closes) => InvalidateKeeps(w.m, base, len, closes);
  }

  /** Between its describe and its own release the device always reads the same of a message, whatever
      calls come between. */
  lemma {:induction false} ReadsTheSame(build: Build, ws: seq<World>, es: seq<Event>, i: nat, j: nat, k: nat)
    requires Trace(build, ws, es) && Counted(ws[0].m, ws[0].live) && i <= k <= |es| && j < |ws[i].live|
    ensures var p, t := Place(es, i, j, k), ws[i].live[j];
            p.Some? ==> p.value < |ws[k].live| && ws[k].live[p.value] == t && Filled(t)
                        && Gathered(ws[k].m, t, |t.msg|) == Gathered(ws[i].m, t, |t.msg|)
    decreases k
  {
    hide Counted, Step, Enabled, Keeps, Held, Filled;
    var t, p := ws[i].live[j], Place(es, i, j, k);
    LiveUntilReleased(build, ws, es, i, j, k);
    TraceCounts(build, ws, es, i);
    LiveIsHeld(ws[i].m, ws[i].live, j);
    if k > i && p.Some? {
      var e, q := es[k - 1], Place(es, i, j, k - 1).value;
      ReadsTheSame(build, ws, es, i, j, k - 1);
      TraceCounts(build, ws, es, k - 1);
      TraceCounts(build, ws, es, k);
      LiveIsHeld(ws[k - 1].m, ws[k - 1].live, q);
      LiveIsHeld(ws[k].m, ws[k].live, p.value);
      StepKeeps(build, ws[k - 1], e);
      GatheredStays(ws[k - 1].m, ws[k].m, t, |t.msg|);
    }
  }

  // ---------------------------------------------------------------------------------------------
  // Exactly which descriptors work

  /** Whether the entry, if it gets a descriptor, gets one the device can read through: it goes to a slab,
      hits a bank whose registration covers it, or (as written) takes a bank that had none. */
  predicate Works(build: Build, m: Mr, iov: Iov) {
    NeedsBank(m, iov) ==>
      var len, o := |iov.bytes|, Oldest(m.banks, |m.banks|);
      var h := FirstHit(m.banks, iov.base, len, 0);
      if h < |m.banks| then Covered(m.banks[h], iov.base, len)
      else build.Corrected? || o.None? || !m.banks[o.value].registered
  }

  lemma {:induction false} EntryReads(build: Build, m: Mr, iov: Iov, f: Fabric)
    requires SlabsSized(m) && forall k | 0 <= k < |m.banks| :: m.banks[k].ref >= 0
    ensures var a := Acquire(build, m, iov, f);
            a.got.Some? ==>
              ReadEntry(a.m, iov, a.got.value) == if Works(build, m, iov) then Some(iov.bytes) else None
  {
  }

  predicate LoopWorks(build: Build, m: Mr, msg: seq<Iov>, fs: seq<Fabric>, i: nat)
    requires SlabsSized(m) && i <= |msg| == |fs|
    decreases |msg| - i
  {
    i < |msg| ==>
      && Works(build, m, msg[i])
      && (var a := Acquire(build, m, msg[i], fs[i]); a.got.Some? ==> LoopWorks(build, a.m, msg, fs, i + 1))
  }

  /** What is gathered so far is what was written, or nothing. */
  predicate WholeOrNothing(m: Mr, t: Transfer)
    requires |t.msg| == |t.ctx.descs|
  {
    Gathered(m, t, |t.msg|).Some? ==> Gathered(m, t, |t.msg|) == Some(Payload(t.msg, |t.msg|))
  }

  lemma {:induction false} GatheredPrefix(m: Mr, t: Transfer, t2: Transfer, n: nat)
    requires n <= |t.msg| == |t.ctx.descs| && |t2.msg| == |t2.ctx.descs|
    requires t.msg <= t2.msg && t.ctx.descs <= t2.ctx.descs
    ensures Gathered(m, t2, n) == Gathered(m, t, n) && Payload(t2.msg, n) == Payload(t.msg, n)
    decreases n
  {
    if n > 0 { GatheredPrefix(m, t, t2, n - 1); }
  }

  lemma {:induction false} HeldBefore(m: Mr, ctx: Ctx, d: Desc)
    requires Held(m, Extend(ctx, d))
    ensures Held(m, ctx)
  {
    var x := Extend(ctx, d);
    forall k | k in ctx.banks ensures k in x.banks {}
    forall k | k in ctx.slabs ensures k in x.slabs {}
  }

  lemma {:induction false} TurnGathers(build: Build, m: Mr, msg: seq<Iov>, i: nat, f: Fabric, ctx: Ctx,
                                       live: seq<Transfer>)
    requires i < |msg| <= MAX_PER_CONTEXT && |ctx.descs| == i && SlabsSized(m)
    requires Counted(m, live + [Transfer(msg[..i], ctx)]) && Acquire(build, m, msg[i], f).got.Some?
    ensures var a, t := Acquire(build, m, msg[i], f), Transfer(msg[..i], ctx);
            var t2 := Transfer(msg[..i + 1], Extend(ctx, a.got.value));
            Gathered(a.m, t2, i) == Gathered(m, t, i) && Payload(t2.msg, i) == Payload(t.msg, i)
  {
    var a, t := Acquire(build, m, msg[i], f), Transfer(msg[..i], ctx);
    hide Acquire, Counted, Held, Filled, Keeps, Gathered, Payload;
    var t2 := Transfer(msg[..i + 1], Extend(ctx, a.got.value));
    TurnCounts(build, m, msg, i, f, ctx, live);
    LiveIsHeld(m, live + [t], |live|);
    LiveIsHeld(a.m, live + [t2], |live|);
    HeldBefore(a.m, ctx, a.got.value);
    AcquireKeeps(build, m, msg[i], f);
    GatheredStays(m, a.m, t, i);
    GatheredPrefix(a.m, t, t2, i);
  }

  lemma {:induction false} CountedRefs(m: Mr, live: seq<Transfer>)
    requires Counted(m, live)
    ensures SlabsSized(m) && forall k | 0 <= k < |m.banks| :: m.banks[k].ref >= 0
  {
  }

  lemma {:induction false} TurnReads(build: Build, m: Mr, msg: seq<Iov>, i: nat, f: Fabric, ctx: Ctx,
                                     live: seq<Transfer>)
    requires i < |msg| <= MAX_PER_CONTEXT && |ctx.descs| == i
    requires Counted(m, live + [Transfer(msg[..i], ctx)]) && WholeOrNothing(m, Transfer(msg[..i], ctx))
    ensures SlabsSized(m)
    ensures var a := Acquire(build, m, msg[i], f);
            a.got.Some? ==>
              var t2 := Transfer(msg[..i + 1], Extend(ctx, a.got.value));
              && WholeOrNothing(a.m, t2)
              && (Gathered(a.m, t2, i + 1).Some? <==>
                    Gathered(m, Transfer(msg[..i], ctx), i).Some? && Works(build, m, msg[i]))
  {
    var t, books := Transfer(msg[..i], ctx), live + [Transfer(msg[..i], ctx)];
    CountedRefs(m, books);
    var a := Acquire(build, m, msg[i], f);
    hide Acquire, Works, Counted;
    EntryReads(build, m, msg[i], f);
    if a.got.Some? { TurnGathers(build, m, msg, i, f, ctx, live); }
  }

  lemma {:induction false} LoopReads(build: Build, m: Mr, msg: seq<Iov>, i: nat, fs: seq<Fabric>, ctx: Ctx,
                                     live: seq<Transfer>)
    requires i <= |msg| == |fs| && |msg| <= MAX_PER_CONTEXT && |ctx.descs| == i
    requires SlabsSized(m) && CtxInRange(m, ctx)
    requires Counted(m, live + [Transfer(msg[..i], ctx)]) && WholeOrNothing(m, Transfer(msg[..i], ctx))
    ensures var (m2, r) := DescribeFrom(build, m, msg, fs, ctx);
            r.Done? ==> |r.ctx.descs| == |msg| &&
                        (Reads(m2, Transfer(msg, r.ctx)) <==>
                           Gathered(m, Transfer(msg[..i], ctx), i).Some? && LoopWorks(build, m, msg, fs, i))
    decreases |msg| - i
  {
    hide Acquire, Works, Counted;
    if i == |msg| {
      assert msg[..i] == msg;
    } else {
      TurnReads(build, m, msg, i, fs[i], ctx, live);
      TurnCounts(build, m, msg, i, fs[i], ctx, live);
      var a := Acquire(build, m, msg[i], fs[i]);
      hide Gathered;
      if a.got.Some? { LoopReads(build, a.m, msg, i + 1, fs, Extend(ctx, a.got.value), live); }
    }
  }

  predicate DescribeWorks(build: Build, m: Mr, msg: seq<Iov>, fs: seq<Fabric>)
    requires SlabsSized(m) && |msg| == |fs|
  {
    |msg| <= MAX_PER_CONTEXT ==> LoopWorks(build, m, msg, fs, 0)
  }

  /** From any state the books agree with, even one that a refused registration left behind: a message
      just described is read as it was written exactly when each of its entries got a descriptor that
      works. */
  lemma {:induction false} DescribeReadsExactly(build: Build, m: Mr, live: seq<Transfer>, msg: seq<Iov>,
                                                fs: seq<Fabric>)
    requires Counted(m, live) && |msg| == |fs|
    ensures SlabsSized(m)
    ensures var (m2, r) := Describe(build, m, msg, fs);
            r.Done? ==> (Reads(m2, Transfer(msg, r.ctx)) <==> DescribeWorks(build, m, msg, fs))
  {
    CountedSized(m, live);
    if |msg| <= MAX_PER_CONTEXT {
      EmptyTransfer(m, live);
      assert msg[..0] == [];
      hide Counted, Acquire, LoopWorks;
      LoopReads(build, m, msg, 0, fs, Ctx([], [], []), live);
    }
  }

  /** In every run, as written or corrected: a message that was accepted at point i is read as it was written
      at any point up to its own release exactly when its describe gave every entry a descriptor that works. */
  lemma {:induction false} TransparentExactly(build: Build, bankCount: nat, slabCount: nat, slabSize: nat,
                                              ws: seq<World>, es: seq<Event>, i: nat, k: nat)
    requires Trace(build, ws, es) && ws[0] == Fresh(bankCount, slabCount, slabSize) && i < k <= |es|
    requires es[i].Send? && |ws[i].live| < |ws[i + 1].live|
    ensures Enabled(ws[i], es[i])
    ensures var p := Place(es, i + 1, |ws[i].live|, k);
            p.Some? ==>
              && p.value < |ws[k].live| && ws[k].live[p.value].msg == es[i].msg
              && (Reads(ws[k].m, ws[k].live[p.value]) <==> DescribeWorks(build, ws[i].m, es[i].msg, es[i].fs))
  {
    FreshCounts(bankCount, slabCount, slabSize);
    hide Counted, Describe, DescribeWorks, Gathered;
    TraceCounts(build, ws, es, i);
    var e := es[i];
    assert ws[i + 1] == Step(build, ws[i], e);
    DescribeReadsExactly(build, ws[i].m, ws[i].live, e.msg, e.fs);
    ReadsTheSame(build, ws, es, i + 1, |ws[i].live|, k);
  }

  // ---------------------------------------------------------------------------------------------
  // Runs whose calls are all safe

  lemma {:induction false} SafeEntryWorks(build: Build, m: Mr, iov: Iov, f: Fabric)
    requires SlabsSized(m) && BanksOk(m.banks) && AcquireSafe(build, m, iov, f)
    requires Acquire(build, m, iov, f).got.Some?
    ensures Works(build, m, iov)
  {
    if NeedsBank(m, iov) {
      var h := FirstHit(m.banks, iov.base, |iov.bytes|, 0);
      if h < |m.banks| { assert BankOk(m.banks[h]); }
    }
  }

  lemma {:induction false} SafeLoopWorks(build: Build, m: Mr, msg: seq<Iov>, fs: seq<Fabric>, ctx: Ctx)
    requires SlabsSized(m) && CtxInRange(m, ctx) && |ctx.descs| <= |msg| == |fs| && BanksOk(m.banks)
    requires LoopSafe(build, m, msg, fs, |ctx.descs|) && DescribeFrom(build, m, msg, fs, ctx).1.Done?
    ensures LoopWorks(build, m, msg, fs, |ctx.descs|)
    decreases |msg| - |ctx.descs|
  {
    var i := |ctx.descs|;
    if i < |msg| {
      hide Acquire, BanksOk, Works, AcquireSafe;
      SafeEntryWorks(build, m, msg[i], fs[i]);
      AcquireKeepsBanks(build, m, msg[i], fs[i]);
      var a := Acquire(build, m, msg[i], fs[i]);
      SafeLoopWorks(build, a.m, msg, fs, Extend(ctx, a.got.value));
    }
  }

  predicate AllRead(w: World) { forall j | 0 <= j < |w.live| :: Reads(w.m, w.live[j]) }

  lemma {:induction false} FilledLength(t: Transfer)
    requires Filled(t)
    ensures |t.msg| == |t.ctx.descs|
  {
  }

  lemma {:induction false} OthersRead(build: Build, w: World, e: Event, p: nat, q: nat)
    requires Counted(w.m, w.live) && Enabled(w, e) && AllRead(w)
    requires var v := Step(build, w, e); p < |w.live| && q < |v.live| && v.live[q] == w.live[p]
    ensures Reads(Step(build, w, e).m, w.live[p])
  {
    hide Counted, Step, Gathered, Held, Filled, Enabled;
    var v := Step(build, w, e);
    StepCounts(build, w, e);
    StepKeeps(build, w, e);
    LiveIsHeld(w.m, w.live, p);
    LiveIsHeld(v.m, v.live, q);
    assert Filled(w.live[p]) && Reads(w.m, w.live[p]);
    FilledLength(w.live[p]);
    GatheredStays(w.m, v.m, w.live[p], |w.live[p].msg|);
  }

  lemma {:induction false} SentReads(build: Build, w: World, e: Event)
    requires Counted(w.m, w.live) && BanksOk(w.m.banks) && e.Send? && Enabled(w, e) && Safe(build, w, e)
    ensures var (m2, r) := Describe(build, w.m, e.msg, e.fs); r.Done? ==> Reads(m2, Transfer(e.msg, r.ctx))
  {
    hide Counted, Reads;
    DescribeReadsExactly(build, w.m, w.live, e.msg, e.fs);
    if |e.msg| <= MAX_PER_CONTEXT && Describe(build, w.m, e.msg, e.fs).1.Done? {
      if build.Corrected? { CorrectedLoopSafe(w.m, e.msg, e.fs, 0); }
      SafeLoopWorks(build, w.m, e.msg, e.fs, Ctx([], [], []));
    }
  }

  lemma {:induction false} StepReads(build: Build, w: World, e: Event)
    requires Counted(w.m, w.live) && BanksOk(w.m.banks) && Enabled(w, e) && Safe(build, w, e) && AllRead(w)
    ensures AllRead(Step(build, w, e))
  {
    hide Counted, BanksOk, Describe, Release, Mark, InvalidateFrom, Reads;
    var v := Step(build, w, e);
    forall q | 0 <= q < |v.live| ensures Reads(v.m, v.live[q]) {
      if e.Send? && q == |w.live| {
        SentReads(build, w, e);
      } else {
        OthersRead(build, w, e, if e.Finish? && q >= e.i then q + 1 else q, q);
      }
    }
  }

  /** Every message in flight, at every point of a run whose calls are safe, is read as it was written;
      all calls of the corrected code are. */
  lemma {:induction false} Transparent(build: Build, bankCount: nat, slabCount: nat, slabSize: nat,
                                       ws: seq<World>, es: seq<Event>, k: nat)
    requires Trace(build, ws, es) && ws[0] == Fresh(bankCount, slabCount, slabSize) && k <= |es|
    requires build.AsWritten? ==> SafeTrace(build, ws, es)
    ensures AllRead(ws[k])
    decreases k
  {
    FreshCounts(bankCount, slabCount, slabSize);
    FreshBanks(bankCount, slabCount, slabSize);
    if build.Corrected? { CorrectedRunsAreSafe(ws, es); }
    hide Counted, BanksOk, Step, Enabled, Safe, Reads;
    if k > 0 {
      Transparent(build, bankCount, slabCount, slabSize, ws, es, k - 1);
      TraceCounts(build, ws, es, k - 1);
      TraceKeepsBanks(build, ws, es, k - 1);
      var e := es[k - 1];
      StepReads(build, ws[k - 1], e);
    }
  }
}
