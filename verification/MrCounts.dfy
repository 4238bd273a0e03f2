/** Who holds which bank and slab of the registration cache: the counters and the messages in flight
    agree in every run, whatever the provider answers. */
module MrCounts {
  import opened Basics
  import opened MrModel
  import opened MrMarks

  /** A described message that has not been released yet. */
  datatype Transfer = Transfer(msg: seq<Iov>, ctx: Ctx)

  datatype World = World(m: Mr, live: seq<Transfer>)

  // ---------------------------------------------------------------------------------------------
  // Books

  function BankUse(live: seq<Transfer>): multiset<nat>
    decreases |live|
  {
    if |live| == 0 then multiset{}
    else BankUse(live[..|live| - 1]) + multiset(live[|live| - 1].ctx.banks)
  }

  function SlabUse(live: seq<Transfer>): multiset<nat>
    decreases |live|
  {
    if |live| == 0 then multiset{}
    else SlabUse(live[..|live| - 1]) + multiset(live[|live| - 1].ctx.slabs)
  }

  lemma {:induction false} UseOfAppend(live: seq<Transfer>, t: Transfer)
    ensures BankUse(live + [t]) == BankUse(live) + multiset(t.ctx.banks)
    ensures SlabUse(live + [t]) == SlabUse(live) + multiset(t.ctx.slabs)
  {
    assert (live + [t])[..|live|] == live;
  }

  /** The uses of all but the last, and those of the last. */
  lemma {:induction false} UseOfLast(live: seq<Transfer>, i: nat)
    requires i < |live| - 1
    ensures var n := |live| - 1;
            && BankUse(live) == BankUse(live[..n]) + multiset(live[n].ctx.banks)
            && SlabUse(live) == SlabUse(live[..n]) + multiset(live[n].ctx.slabs)
            && BankUse(Without(live, i)) == BankUse(Without(live[..n], i)) + multiset(live[n].ctx.banks)
            && SlabUse(Without(live, i)) == SlabUse(Without(live[..n], i)) + multiset(live[n].ctx.slabs)
  {
    var n := |live| - 1;
    assert Without(live, i) == Without(live[..n], i) + [live[n]];
    UseOfAppend(Without(live[..n], i), live[n]);
  }

  lemma {:induction false} UseOfRemoval(live: seq<Transfer>, i: nat)
    requires i < |live|
    ensures BankUse(live) == BankUse(Without(live, i)) + multiset(live[i].ctx.banks)
    ensures SlabUse(live) == SlabUse(Without(live, i)) + multiset(live[i].ctx.slabs)
    decreases |live|
  {
    var n := |live| - 1;
    if i == n {
      assert Without(live, i) == live[..n];
    } else {
      UseOfRemoval(live[..n], i);
      UseOfLast(live, i);
      var most, last := Without(live[..n], i), live[n].ctx;
      Swapped(BankUse(most), multiset(live[i].ctx.banks), multiset(last.banks));
      Swapped(SlabUse(most), multiset(live[i].ctx.slabs), multiset(last.slabs));
      hide BankUse, SlabUse, Without;
    }
  }

  /** A bank's reference count is its number of occurrences over all live contexts. */
  predicate RefsOk(banks: seq<Bank>, use: multiset<nat>) {
    && (forall k | 0 <= k < |banks| :: banks[k].ref == use[k])
    && (forall k | k in use :: k < |banks|)
  }

  /** A slab in use belongs to exactly one live context, a free one to none. */
  predicate SlabsOk(slabs: seq<Slab>, use: multiset<nat>) {
    && (forall k | 0 <= k < |slabs| :: use[k] == if slabs[k].inUse then 1 else 0)
    && (forall k | k in use :: k < |slabs|)
  }

  /** The context lists the bank or slab of a descriptor. */
  predicate Listed(ctx: Ctx, d: Desc) {
    (d.BankDesc? ==> d.bank in ctx.banks) && (d.SlabDesc? ==> d.slab in ctx.slabs)
  }

  /** Every entry has a descriptor, and the fixed arrays of the context hold what these need. */
  predicate Filled(t: Transfer) {
    && |t.ctx.descs| == |t.msg|
    && |t.ctx.banks| + |t.ctx.slabs| <= |t.msg| <= MAX_PER_CONTEXT
    && forall i | 0 <= i < |t.ctx.descs| :: Listed(t.ctx, t.ctx.descs[i])
  }

  predicate AllFilled(live: seq<Transfer>) { forall j | 0 <= j < |live| :: Filled(live[j]) }

  predicate Counted(m: Mr, live: seq<Transfer>) {
    SlabsSized(m) && RefsOk(m.banks, BankUse(live)) && SlabsOk(m.slabs, SlabUse(live)) && AllFilled(live)
  }

  lemma {:induction false} InRange(m: Mr, live: seq<Transfer>, i: nat)
    requires Counted(m, live) && i < |live|
    ensures CtxInRange(m, live[i].ctx)
  {
    UseOfRemoval(live, i);
    var ctx := live[i].ctx;
    forall j | 0 <= j < |ctx.banks| ensures ctx.banks[j] < |m.banks| {
      assert ctx.banks[j] in multiset(ctx.banks);
      assert ctx.banks[j] in BankUse(live);
    }
    forall j | 0 <= j < |ctx.slabs| ensures ctx.slabs[j] < |m.slabs| {
      assert ctx.slabs[j] in multiset(ctx.slabs);
      assert ctx.slabs[j] in SlabUse(live);
    }
  }

  // ---------------------------------------------------------------------------------------------
  // One entry

  /** Nothing a live context holds changed between m and m2. */
  predicate Keeps(m: Mr, m2: Mr) {
    && |m2.banks| == |m.banks| && |m2.slabs| == |m.slabs|
    && (forall k | 0 <= k < |m.banks| && m.banks[k].ref > 0 ::
          m2.banks[k].registered == m.banks[k].registered && m2.banks[k].mr == m.banks[k].mr)
    && (forall k | 0 <= k < |m.slabs| && m.slabs[k].inUse :: m2.slabs[k].data == m.slabs[k].data)
  }

  lemma {:induction false} LookupKeeps(build: Build, m: Mr, ptr: nat, len: nat, f: Fabric)
    ensures var (m2, out) := FindBank(build, m, ptr, len, f);
            && Keeps(m, m2) && m2.slabs == m.slabs && m2.slabSize == m.slabSize
            && |m2.banks| == |m.banks|
            && forall k | 0 <= k < |m.banks| :: m2.banks[k].ref == m.banks[k].ref
  {
  }

  /** Whether the entry goes to the bank lookup rather than to a slab (or to nothing). */
  predicate NeedsBank(m: Mr, iov: Iov) {
    |iov.bytes| > 0 && (|iov.bytes| > m.slabSize || FreeSlab(m.slabs, 0) == |m.slabs|)
  }

  /** The books after entry d: one more use of its bank or slab. */
  predicate Booked(m: Mr, m2: Mr, d: Desc) {
    && |m2.banks| == |m.banks| && |m2.slabs| == |m.slabs|
    && (d.BankDesc? ==> d.bank < |m.banks|)
    && (d.SlabDesc? ==> d.slab < |m.slabs| && !m.slabs[d.slab].inUse && m2.slabs[d.slab].inUse)
    && (forall k | 0 <= k < |m.banks| ::
          m2.banks[k].ref == m.banks[k].ref + if d.BankDesc? && d.bank == k then 1 else 0)
    && (forall k | 0 <= k < |m.slabs| && !(d.SlabDesc? && d.slab == k) :: m2.slabs[k].inUse == m.slabs[k].inUse)
  }

  lemma {:induction false} AcquireBooks(build: Build, m: Mr, iov: Iov, f: Fabric)
    requires SlabsSized(m)
    ensures var a := Acquire(build, m, iov, f); Booked(m, a.m, if a.got.Some? then a.got.value else NoDesc)
  {
    if NeedsBank(m, iov) { LookupKeeps(build, m, iov.base, |iov.bytes|, f); }
  }

  /** An entry takes nothing exactly when it is empty, and a slab exactly when it fits and one is free; only a
      lookup can fail, or touch the banks. */
  lemma {:induction false} AcquireExact(build: Build, m: Mr, iov: Iov, f: Fabric)
    requires SlabsSized(m)
    ensures var a, len := Acquire(build, m, iov, f), |iov.bytes|;
            var free := exists k | 0 <= k < |m.slabs| :: !m.slabs[k].inUse;
            && (a.got == Some(NoDesc) <==> len == 0)
            && (a.got.Some? && a.got.value.SlabDesc? <==> 0 < len <= m.slabSize && free)
            && (a.got.None? ==> len > m.slabSize || (len > 0 && !free))
            && (len == 0 || (len <= m.slabSize && free) ==> a.m.banks == m.banks && a.m.age == m.age)
            && (len == 0 || len > m.slabSize || !free ==> a.m.slabs == m.slabs)
  {
    if NeedsBank(m, iov) { LookupKeeps(build, m, iov.base, |iov.bytes|, f); }
  }

  function BankOf(d: Desc): multiset<nat> { if d.BankDesc? then multiset{d.bank} else multiset{} }

  function SlabOf(d: Desc): multiset<nat> { if d.SlabDesc? then multiset{d.slab} else multiset{} }

  lemma {:induction false} BookRefs(m: Mr, m2: Mr, d: Desc, use: multiset<nat>)
    requires Booked(m, m2, d) && RefsOk(m.banks, use)
    ensures RefsOk(m2.banks, use + BankOf(d))
  {
  }

  lemma {:induction false} BookSlabs(m: Mr, m2: Mr, d: Desc, use: multiset<nat>)
    requires Booked(m, m2, d) && SlabsOk(m.slabs, use)
    ensures SlabsOk(m2.slabs, use + SlabOf(d))
  {
  }

  lemma {:induction false} UseOfExtend(live: seq<Transfer>, t: Transfer, iov: Iov, d: Desc)
    ensures var t2 := Transfer(t.msg + [iov], Extend(t.ctx, d));
            && BankUse(live + [t2]) == BankUse(live + [t]) + BankOf(d)
            && SlabUse(live + [t2]) == SlabUse(live + [t]) + SlabOf(d)
  {
    var t2 := Transfer(t.msg + [iov], Extend(t.ctx, d));
    UseOfAppend(live, t);
    UseOfAppend(live, t2);
    assert multiset(t2.ctx.banks) == multiset(t.ctx.banks) + BankOf(d);
    assert multiset(t2.ctx.slabs) == multiset(t.ctx.slabs) + SlabOf(d);
  }

  lemma {:induction false} FilledMore(live: seq<Transfer>, t: Transfer, iov: Iov, d: Desc)
    requires AllFilled(live + [t]) && |t.msg| < MAX_PER_CONTEXT
    ensures AllFilled(live + [Transfer(t.msg + [iov], Extend(t.ctx, d))])
  {
    var t2 := Transfer(t.msg + [iov], Extend(t.ctx, d));
    assert Filled(t) by { assert (live + [t])[|live|] == t; }
    forall i | 0 <= i < |t2.ctx.descs| ensures Listed(t2.ctx, t2.ctx.descs[i]) {
      if i < |t.ctx.descs| { assert Listed(t.ctx, t.ctx.descs[i]); }
    }
    assert Filled(t2);
    forall j | 0 <= j < |live| ensures (live + [t2])[j] == (live + [t])[j] {}
  }

  /** One entry more is one reference or one slab more, and nothing else. */
  lemma {:induction false} AcquireCounts(build: Build, m: Mr, live: seq<Transfer>, t: Transfer, iov: Iov, f: Fabric)
    requires Counted(m, live + [t]) && |t.msg| < MAX_PER_CONTEXT
    ensures var a := Acquire(build, m, iov, f);
            Counted(a.m, live + [if a.got.Some? then Transfer(t.msg + [iov], Extend(t.ctx, a.got.value)) else t])
  {
    var a := Acquire(build, m, iov, f);
    AcquireBooks(build, m, iov, f);
    hide Acquire;
    var d := if a.got.Some? then a.got.value else NoDesc;
    BookRefs(m, a.m, d, BankUse(live + [t]));
    BookSlabs(m, a.m, d, SlabUse(live + [t]));
    hide Booked, RefsOk, SlabsOk;
    if a.got.Some? {
      UseOfExtend(live, t, iov, d);
      FilledMore(live, t, iov, d);
    } else {
      assert BankOf(d) == multiset{} && SlabOf(d) == multiset{};
    }
  }

  // ---------------------------------------------------------------------------------------------
  // Giving a context back

  /** Releasing takes one reference per occurrence and nothing else. */
  lemma {:induction false} UnrefEach(banks: seq<Bank>, ks: seq<nat>, k: nat)
    requires (forall j | 0 <= j < |ks| :: ks[j] < |banks|) && k < |banks|
    ensures Unref(banks, ks)[k] == banks[k].(ref := banks[k].ref - multiset(ks)[k])
    decreases |ks|
  {
    if |ks| > 0 {
      var n := |ks| - 1;
      UnrefEach(banks, ks[..n], k);
      assert ks == ks[..n] + [ks[n]];
    }
  }

  lemma {:induction false} FreeSlabsEach(slabs: seq<Slab>, ks: seq<nat>, k: nat)
    requires (forall j | 0 <= j < |ks| :: ks[j] < |slabs|) && k < |slabs|
    ensures FreeSlabs(slabs, ks)[k] == slabs[k].(inUse := slabs[k].inUse && k !in ks)
    decreases |ks|
  {
    if |ks| > 0 {
      var n := |ks| - 1;
      FreeSlabsEach(slabs, ks[..n], k);
      assert ks == ks[..n] + [ks[n]];
    }
  }

  lemma {:induction false} ReleaseRefs(banks: seq<Bank>, ks: seq<nat>, use: multiset<nat>)
    requires (forall j | 0 <= j < |ks| :: ks[j] < |banks|) && RefsOk(banks, use + multiset(ks))
    ensures RefsOk(Unref(banks, ks), use)
    ensures forall k | 0 <= k < |banks| :: Unref(banks, ks)[k] == banks[k].(ref := use[k])
  {
    forall k | 0 <= k < |banks| ensures Unref(banks, ks)[k] == banks[k].(ref := use[k]) { UnrefEach(banks, ks, k); }
    forall k | k in use ensures k < |banks| { assert k in use + multiset(ks); }
  }

  lemma {:induction false} ReleaseSlabs(slabs: seq<Slab>, ks: seq<nat>, use: multiset<nat>)
    requires (forall j | 0 <= j < |ks| :: ks[j] < |slabs|) && SlabsOk(slabs, use + multiset(ks))
    ensures SlabsOk(FreeSlabs(slabs, ks), use)
    ensures forall k | 0 <= k < |slabs| :: FreeSlabs(slabs, ks)[k].data == slabs[k].data
  {
    forall k | 0 <= k < |slabs|
      ensures FreeSlabs(slabs, ks)[k].data == slabs[k].data
      ensures use[k] == if FreeSlabs(slabs, ks)[k].inUse then 1 else 0
    {
      FreeSlabsEach(slabs, ks, k);
      assert k in ks <==> k in multiset(ks);
    }
    forall k | k in use ensures k < |slabs| { assert k in use + multiset(ks); }
  }

  lemma {:induction false} FilledWithout(live: seq<Transfer>, i: nat)
    requires AllFilled(live) && i < |live|
    ensures AllFilled(Without(live, i))
  {
    hide Filled;
  }

  lemma {:induction false} ReleaseCounts(m: Mr, live: seq<Transfer>, i: nat)
    requires Counted(m, live) && i < |live|
    ensures CtxInRange(m, live[i].ctx) && Counted(Release(m, live[i].ctx), Without(live, i))
    ensures Keeps(m, Release(m, live[i].ctx))
    ensures forall k | 0 <= k < |m.banks| ::
              Release(m, live[i].ctx).banks[k] == m.banks[k].(ref := BankUse(Without(live, i))[k])
  {
    InRange(m, live, i);
    var ctx := live[i].ctx;
    UseOfRemoval(live, i);
    ReleaseRefs(m.banks, ctx.banks, BankUse(Without(live, i)));
    ReleaseSlabs(m.slabs, ctx.slabs, SlabUse(Without(live, i)));
    FilledWithout(live, i);
    hide RefsOk, SlabsOk, BankUse, SlabUse, AllFilled, CtxInRange, Unref, FreeSlabs;
  }

  // ---------------------------------------------------------------------------------------------
  // The whole describe

  lemma {:induction false} CountedSized(m: Mr, live: seq<Transfer>)
    requires Counted(m, live)
    ensures SlabsSized(m)
  {
  }

  /** One turn of the loop: on to the next entry, or everything taken so far given back. */
  lemma {:induction false} TurnCounts(build: Build, m: Mr, msg: seq<Iov>, i: nat, f: Fabric, ctx: Ctx,
                                      live: seq<Transfer>)
    requires i < |msg| <= MAX_PER_CONTEXT && Counted(m, live + [Transfer(msg[..i], ctx)])
    ensures var a := Acquire(build, m, msg[i], f);
            if a.got.Some? then
              && CtxInRange(a.m, Extend(ctx, a.got.value))
              && Counted(a.m, live + [Transfer(msg[..i + 1], Extend(ctx, a.got.value))])
            else CtxInRange(a.m, ctx) && Counted(Release(a.m, ctx), live)
  {
    hide Counted, Acquire;
    var t := Transfer(msg[..i], ctx);
    CountedSized(m, live + [t]);
    AcquireCounts(build, m, live, t, msg[i], f);
    var a := Acquire(build, m, msg[i], f);
    if a.got.Some? {
      assert msg[..i] + [msg[i]] == msg[..i + 1];
      InRange(a.m, live + [Transfer(msg[..i + 1], Extend(ctx, a.got.value))], |live|);
    } else {
      ReleaseCounts(a.m, live + [t], |live|);
      assert Without(live + [t], |live|) == live;
    }
  }

  lemma {:induction false} LoopCounts(build: Build, m: Mr, msg: seq<Iov>, i: nat, fs: seq<Fabric>, ctx: Ctx,
                                      live: seq<Transfer>)
    requires i <= |msg| == |fs| && |msg| <= MAX_PER_CONTEXT
    requires SlabsSized(m) && CtxInRange(m, ctx) && |ctx.descs| == i
    requires Counted(m, live + [Transfer(msg[..i], ctx)])
    ensures var (m2, r) := DescribeFrom(build, m, msg, fs, ctx);
            Counted(m2, if r.Done? then live + [Transfer(msg, r.ctx)] else live)
    decreases |msg| - i
  {
    hide Counted, Acquire;
    if i == |msg| {
      assert msg[..i] == msg;
    } else {
      TurnCounts(build, m, msg, i, fs[i], ctx, live);
      var a := Acquire(build, m, msg[i], fs[i]);
      if a.got.Some? { LoopCounts(build, a.m, msg, i + 1, fs, Extend(ctx, a.got.value), live); }
    }
  }

  lemma {:induction false} EmptyTransfer(m: Mr, live: seq<Transfer>)
    requires Counted(m, live)
    ensures Counted(m, live + [Transfer([], Ctx([], [], []))])
  {
    UseOfAppend(live, Transfer([], Ctx([], [], [])));
  }

  /** A describe adds the message to the books, or leaves them as they were. */
  lemma {:induction false} DescribeCounts(build: Build, m: Mr, live: seq<Transfer>, msg: seq<Iov>, fs: seq<Fabric>)
    requires Counted(m, live) && |msg| == |fs|
    ensures var (m2, r) := Describe(build, m, msg, fs);
            Counted(m2, if r.Done? then live + [Transfer(msg, r.ctx)] else live)
  {
    if |msg| <= MAX_PER_CONTEXT {
      CountedSized(m, live);
      EmptyTransfer(m, live);
      assert msg[..0] == [];
      hide Counted;
      LoopCounts(build, m, msg, 0, fs, Ctx([], [], []), live);
    }
  }

  /** m2 is m without what ctx holds. */
  predicate Restored(m: Mr, m2: Mr, ctx: Ctx) {
    && |m2.banks| == |m.banks| && |m2.slabs| == |m.slabs|
    && (forall k | 0 <= k < |m.banks| :: m2.banks[k].ref == m.banks[k].ref - multiset(ctx.banks)[k])
    && (forall k | 0 <= k < |m.slabs| :: m2.slabs[k].inUse == (m.slabs[k].inUse && k !in ctx.slabs))
  }

  lemma {:induction false} RestoredBefore(m: Mr, a: Mr, m2: Mr, ctx: Ctx, d: Desc)
    requires Booked(m, a, d) && Restored(a, m2, Extend(ctx, d))
    ensures Restored(m, m2, ctx)
  {
    assert multiset(Extend(ctx, d).banks) == multiset(ctx.banks) + BankOf(d);
  }

  lemma {:induction false} RestoredAfter(m: Mr, a: Mr, m2: Mr, ctx: Ctx)
    requires Booked(m, a, NoDesc) && Restored(a, m2, ctx)
    ensures Restored(m, m2, ctx)
  {
  }

  lemma {:induction false} ReleaseEach(m: Mr, ctx: Ctx)
    requires CtxInRange(m, ctx)
    ensures Restored(m, Release(m, ctx), ctx)
  {
    forall k | 0 <= k < |m.banks| ensures Release(m, ctx).banks[k].ref == m.banks[k].ref - multiset(ctx.banks)[k] {
      UnrefEach(m.banks, ctx.banks, k);
    }
    forall k | 0 <= k < |m.slabs| ensures Release(m, ctx).slabs[k].inUse == (m.slabs[k].inUse && k !in ctx.slabs) {
      FreeSlabsEach(m.slabs, ctx.slabs, k);
    }
  }

  /** A describe that fails gives every reference and every slab back, whatever state it began in. */
  lemma {:induction false} RollbackExact(build: Build, m: Mr, msg: seq<Iov>, fs: seq<Fabric>, ctx: Ctx)
    requires SlabsSized(m) && CtxInRange(m, ctx) && |ctx.descs| <= |msg| == |fs|
    ensures var (m2, r) := DescribeFrom(build, m, msg, fs, ctx); !r.Done? ==> Restored(m, m2, ctx)
    decreases |msg| - |ctx.descs|
  {
    var i := |ctx.descs|;
    if i < |msg| {
      hide Acquire, Release, Booked, Restored;
      var a := Acquire(build, m, msg[i], fs[i]);
      AcquireBooks(build, m, msg[i], fs[i]);
      var (m2, r) := DescribeFrom(build, m, msg, fs, ctx);
      if a.got.Some? {
        var next := Extend(ctx, a.got.value);
        RollbackExact(build, a.m, msg, fs, next);
        if !r.Done? { RestoredBefore(m, a.m, m2, ctx, a.got.value); }
      } else {
        ReleaseEach(a.m, ctx);
        RestoredAfter(m, a.m, m2, ctx);
      }
    }
  }

  lemma {:induction false} FailedDescribeRestores(build: Build, m: Mr, msg: seq<Iov>, fs: seq<Fabric>)
    requires SlabsSized(m) && |msg| == |fs|
    ensures var (m2, r) := Describe(build, m, msg, fs);
            !r.Done? ==>
              && |m2.banks| == |m.banks| && |m2.slabs| == |m.slabs|
              && (forall k | 0 <= k < |m.banks| :: m2.banks[k].ref == m.banks[k].ref)
              && (forall k | 0 <= k < |m.slabs| :: m2.slabs[k].inUse == m.slabs[k].inUse)
  {
    if |msg| <= MAX_PER_CONTEXT { RollbackExact(build, m, msg, fs, Ctx([], [], [])); }
  }

  // ---------------------------------------------------------------------------------------------
  // Runs

  datatype Event =
    | Send(msg: seq<Iov>, fs: seq<Fabric>)
    | Finish(i: nat)
    | MarkRegion(base: nat, len: nat, f: Fabric)
    | InvalidateRegion(base: nat, len: nat, closes: seq<bool>)

  predicate Enabled(w: World, e: Event) {
    match e
    case Send(msg, fs) => |msg| == |fs| && SlabsSized(w.m)
    case Finish(i) => i < |w.live| && CtxInRange(w.m, w.live[i].ctx)
    case MarkRegion(_, _, _) => true
    case InvalidateRegion(_, _, closes) => |closes| == |w.m.banks|
  }

  function Step(build: Build, w: World, e: Event): World
    requires Enabled(w, e)
  {
    match e
    case Send(msg, fs) =>
      var (m2, r) := Describe(build, w.m, msg, fs);
      World(m2, if r.Done? then w.live + [Transfer(msg, r.ctx)] else w.live)
    case Finish(i) => World(Release(w.m, w.live[i].ctx), Without(w.live, i))
    case MarkRegion(base, len, f) => World(Mark(build, w.m, base, len, f), w.live)
    case InvalidateRegion(base, len, closes) =>
      World(w.m.(banks := InvalidateFrom(w.m.banks, base, len, closes, 0).0), w.live)
  }

  /** The manager right after initialisation. */
  function Fresh(bankCount: nat, slabCount: nat, slabSize: nat): World {
    World(Mr(seq(bankCount, _ => Bank(0, 0, 0, None, 0, false, false)),
             seq(slabCount, _ => Slab(false, seq(slabSize, _ => 0))), slabSize, 0), [])
  }

  /** A run: the states passed through and the events between them. */
  ghost predicate Trace(build: Build, ws: seq<World>, es: seq<Event>) {
    && |ws| == |es| + 1
    && forall k {:trigger es[k]} | 0 <= k < |es| :: Enabled(ws[k], es[k]) && ws[k + 1] == Step(build, ws[k], es[k])
  }

  lemma {:induction false} MarkCounts(build: Build, m: Mr, live: seq<Transfer>, base: nat, len: nat, f: Fabric)
    requires Counted(m, live)
    ensures Counted(Mark(build, m, base, len, f), live)
  {
  }

  lemma {:induction false} InvalidateCounts(m: Mr, live: seq<Transfer>, base: nat, len: nat, closes: seq<bool>)
    requires Counted(m, live) && |closes| == |m.banks|
    ensures Counted(m.(banks := InvalidateFrom(m.banks, base, len, closes, 0).0), live)
  {
    forall k | 0 <= k < |m.banks|
      ensures InvalidateFrom(m.banks, base, len, closes, 0).0[k].ref == m.banks[k].ref
    {
      InvalidateEach(m.banks, base, len, closes, 0, k);
    }
  }

  lemma {:induction false} StepCounts(build: Build, w: World, e: Event)
    requires Counted(w.m, w.live) && Enabled(w, e)
    ensures var v := Step(build, w, e); Counted(v.m, v.live)
  {
    hide Counted;
    match e
    case Send(msg, fs) => DescribeCounts(build, w.m, w.live, msg, fs);
    case Finish(i) => ReleaseCounts(w.m, w.live, i);
    case MarkRegion(base, len, f) => MarkCounts(build, w.m, w.live, base, len, f);
    case InvalidateRegion(base, len, closes) => InvalidateCounts(w.m, w.live, base, len, closes);
  }

  lemma {:induction false} TraceCounts(build: Build, ws: seq<World>, es: seq<Event>, k: nat)
    requires Trace(build, ws, es) && Counted(ws[0].m, ws[0].live) && k <= |es|
    ensures Counted(ws[k].m, ws[k].live)
    decreases k
  {
    hide Counted, Step, Enabled;
    if k > 0 {
      TraceCounts(build, ws, es, k - 1);
      var e := es[k - 1];
      StepCounts(build, ws[k - 1], e);
    }
  }

  lemma {:induction false} FreshCounts(bankCount: nat, slabCount: nat, slabSize: nat)
    ensures var w := Fresh(bankCount, slabCount, slabSize); Counted(w.m, w.live)
  {
  }

  /** At every point of every run, as written or corrected and whatever the provider answers, the counters
      agree with the contexts in flight, no slab has two owners and no context overruns its fixed arrays. */
  lemma {:induction false} BooksBalance(build: Build, bankCount: nat, slabCount: nat, slabSize: nat,
                                        ws: seq<World>, es: seq<Event>, k: nat)
    requires Trace(build, ws, es) && ws[0] == Fresh(bankCount, slabCount, slabSize) && k <= |es|
    ensures var w := ws[k];
            && (forall b | 0 <= b < |w.m.banks| :: w.m.banks[b].ref == BankUse(w.live)[b])
            && (forall b | 0 <= b < |w.m.slabs| :: SlabUse(w.live)[b] == Int(w.m.slabs[b].inUse))
            && (forall j | 0 <= j < |w.live| :: |w.live[j].ctx.banks| + |w.live[j].ctx.slabs| <= 16)
  {
    FreshCounts(bankCount, slabCount, slabSize);
    TraceCounts(build, ws, es, k);
    forall j | 0 <= j < |ws[k].live| ensures |ws[k].live[j].ctx.banks| + |ws[k].live[j].ctx.slabs| <= 16 {
      assert Filled(ws[k].live[j]);
    }
  }

  /** Where the message that is j-th in flight at point i is at point k; nowhere once it was released. */
  function Place(es: seq<Event>, i: nat, j: nat, k: nat): Option<nat>
    requires i <= k <= |es|
    decreases k
  {
    if k == i then Some(j)
    else
      var p := Place(es, i, j, k - 1);
      match es[k - 1]
      case Finish(f) =>
        if p.None? || p.value == f then None else Some(if f < p.value then p.value - 1 else p.value)
      case _ => p
  }

  lemma {:induction false} OthersStay(build: Build, w: World, e: Event, j: nat)
    requires Enabled(w, e) && j < |w.live| && !(e.Finish? && e.i == j)
    ensures var after := Step(build, w, e).live;
            var p := if e.Finish? && e.i < j then j - 1 else j;
            p < |after| && after[p] == w.live[j]
  {
  }

  /** A message leaves the books only through its own release. */
  lemma {:induction false} LiveUntilReleased(build: Build, ws: seq<World>, es: seq<Event>, i: nat, j: nat, k: nat)
    requires Trace(build, ws, es) && i <= k <= |es| && j < |ws[i].live|
    ensures var p := Place(es, i, j, k); p.Some? ==> p.value < |ws[k].live| && ws[k].live[p.value] == ws[i].live[j]
    decreases k
  {
    hide Step, Enabled;
    if k > i {
      LiveUntilReleased(build, ws, es, i, j, k - 1);
      var e := es[k - 1];
      var p := Place(es, i, j, k - 1);
      if p.Some? && !(e.Finish? && p.value == e.i) { OthersStay(build, ws[k - 1], e, p.value); }
    }
  }
}
