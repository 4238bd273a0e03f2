/** What the egress side needs of the registration cache, with the code as written and whatever the
    provider answers: reference counts add up, and enough banks mean a bank is always found. */
module EgressBooks {
  import opened Basics
  import opened MrModel
  import opened MrCounts
  import opened MrRuns

  predicate Volatile(banks: seq<Bank>) { forall k | 0 <= k < |banks| :: !banks[k].nonvolatile }

  /** The counters, without any claim about what the banks cover. */
  predicate Books(m: Mr, live: seq<Transfer>) { Counted(m, live) && Volatile(m.banks) }

  lemma {:induction false} AcquireKeepsVolatile(build: Build, m: Mr, iov: Iov, f: Fabric)
    requires SlabsSized(m) && Volatile(m.banks)
    ensures Volatile(Acquire(build, m, iov, f).m.banks)
  {
    var a := Acquire(build, m, iov, f);
    forall k | 0 <= k < |m.banks| ensures !a.m.banks[k].nonvolatile { assert !m.banks[k].nonvolatile; }
  }

  lemma {:induction false} ReleaseKeepsVolatile(m: Mr, ctx: Ctx)
    requires CtxInRange(m, ctx) && Volatile(m.banks)
    ensures Volatile(Release(m, ctx).banks)
  {
    forall k | 0 <= k < |m.banks| ensures !Release(m, ctx).banks[k].nonvolatile { UnrefEach(m.banks, ctx.banks, k); }
  }

  lemma {:induction false} LoopKeepsVolatile(build: Build, m: Mr, msg: seq<Iov>, fs: seq<Fabric>, ctx: Ctx)
    requires SlabsSized(m) && CtxInRange(m, ctx) && |ctx.descs| <= |msg| == |fs| && Volatile(m.banks)
    ensures Volatile(DescribeFrom(build, m, msg, fs, ctx).0.banks)
    decreases |msg| - |ctx.descs|
  {
    var i := |ctx.descs|;
    if i < |msg| {
      hide Volatile, Acquire;
      AcquireKeepsVolatile(build, m, msg[i], fs[i]);
      var a := Acquire(build, m, msg[i], fs[i]);
      if a.got.Some? {
        LoopKeepsVolatile(build, a.m, msg, fs, Extend(ctx, a.got.value));
      } else {
        ReleaseKeepsVolatile(a.m, ctx);
      }
    }
  }

  lemma {:induction false} DescribeKeepsBooks(build: Build, m: Mr, live: seq<Transfer>, msg: seq<Iov>, fs: seq<Fabric>)
    requires Books(m, live) && |msg| == |fs|
    ensures var (m2, r) := Describe(build, m, msg, fs);
            && |m2.banks| == |m.banks|
            && Books(m2, if r.Done? then live + [Transfer(msg, r.ctx)] else live)
            && (r.Done? ==> CtxInRange(m2, r.ctx) && |r.ctx.banks| <= |msg|)
  {
    hide Counted, Volatile;
    CountedSized(m, live);
    DescribeCounts(build, m, live, msg, fs);
    var (m2, r) := Describe(build, m, msg, fs);
    if |msg| <= MAX_PER_CONTEXT {
      LoopKeepsVolatile(build, m, msg, fs, Ctx([], [], []));
      LoopKeeps(build, m, msg, fs, Ctx([], [], []));
    }
    if r.Done? {
      InRange(m2, live + [Transfer(msg, r.ctx)], |live|);
      LiveIsHeld(m2, live + [Transfer(msg, r.ctx)], |live|);
    }
  }

  lemma {:induction false} ReleaseKeepsBooks(m: Mr, live: seq<Transfer>, i: nat)
    requires Books(m, live) && i < |live|
    ensures CtxInRange(m, live[i].ctx) && Books(Release(m, live[i].ctx), Without(live, i))
  {
    hide Counted, Volatile;
    ReleaseCounts(m, live, i);
    ReleaseKeepsVolatile(m, live[i].ctx);
  }

  /** Counting references: with fewer of them than banks, some bank has none. */
  lemma {:induction false} AllUsed(use: multiset<nat>, n: nat)
    requires forall k: nat | k < n :: use[k] > 0
    ensures |use| >= n
    decreases n
  {
    if n > 0 {
      var rest := use - multiset{n - 1};
      assert use == rest + multiset{n - 1};
      AllUsed(rest, n - 1);
    }
  }

  lemma {:induction false} SomeBankFree(m: Mr, live: seq<Transfer>)
    requires Books(m, live) && |BankUse(live)| < |m.banks|
    ensures Oldest(m.banks, |m.banks|).Some?
  {
    var use := BankUse(live);
    if forall k: nat | k < |m.banks| :: use[k] > 0 {
      AllUsed(use, |m.banks|);
      assert false;
    }
    var k: nat :| k < |m.banks| && use[k] == 0;
    assert m.banks[k].ref == use[k];
    assert Evictable(m.banks[k]);
  }

  lemma {:induction false} NotAgain(build: Build, m: Mr, iov: Iov, f: Fabric)
    requires SlabsSized(m) && Oldest(m.banks, |m.banks|).Some?
    ensures !Acquire(build, m, iov, f).again
  {
  }

  lemma {:induction false} EntryFindsBank(build: Build, m: Mr, msg: seq<Iov>, i: nat, fs: seq<Fabric>, ctx: Ctx,
                                          live: seq<Transfer>)
    requires i < |msg| == |fs| && |msg| <= MAX_PER_CONTEXT && |ctx.descs| == i
    requires SlabsSized(m) && CtxInRange(m, ctx) && Books(m, live + [Transfer(msg[..i], ctx)])
    requires |BankUse(live)| + |msg| <= |m.banks|
    ensures var a := Acquire(build, m, msg[i], fs[i]);
            && !a.again && |a.m.banks| == |m.banks|
            && (a.got.Some? ==> Books(a.m, live + [Transfer(msg[..i + 1], Extend(ctx, a.got.value))])
                                && CtxInRange(a.m, Extend(ctx, a.got.value)))
  {
    var t := Transfer(msg[..i], ctx);
    assert |ctx.banks| <= i by { assert Filled(t) by { assert (live + [t])[|live|] == t; } }
    UseOfAppend(live, t);
    SomeBankFree(m, live + [t]);
    hide Counted, Volatile, Oldest, Acquire;
    NotAgain(build, m, msg[i], fs[i]);
    TurnCounts(build, m, msg, i, fs[i], ctx, live);
    AcquireKeepsVolatile(build, m, msg[i], fs[i]);
    AcquireKeeps(build, m, msg[i], fs[i]);
  }

  /** As many banks as references in use and entries to come: the lookup never comes back with -EAGAIN. */
  lemma {:induction false} NeverOutOfBanks(build: Build, m: Mr, msg: seq<Iov>, i: nat, fs: seq<Fabric>, ctx: Ctx,
                                           live: seq<Transfer>)
    requires i <= |msg| == |fs| && |msg| <= MAX_PER_CONTEXT && |ctx.descs| == i
    requires SlabsSized(m) && CtxInRange(m, ctx) && Books(m, live + [Transfer(msg[..i], ctx)])
    requires |BankUse(live)| + |msg| <= |m.banks|
    ensures DescribeFrom(build, m, msg, fs, ctx).1 != NoBank
    decreases |msg| - i
  {
    hide Books, Acquire, Release, CtxInRange, SlabsSized;
    if i < |msg| {
      EntryFindsBank(build, m, msg, i, fs, ctx, live);
      var a := Acquire(build, m, msg[i], fs[i]);
      if a.got.Some? { NeverOutOfBanks(build, a.m, msg, i + 1, fs, Extend(ctx, a.got.value), live); }
    }
  }

  /** At most two banks a message: twice as many references as messages in flight. */
  lemma {:induction false} TwoBanksEach(live: seq<Transfer>)
    requires forall j | 0 <= j < |live| :: |live[j].ctx.banks| <= 2
    ensures |BankUse(live)| <= 2 * |live|
    decreases |live|
  {
    if |live| > 0 { TwoBanksEach(live[..|live| - 1]); }
  }
}
