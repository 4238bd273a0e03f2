/** What a bank records and what libfabric has registered: exactly when the two stay the same. */
module MrLookups {
  import opened Basics
  import opened MrModel
  import opened MrMarks
  import opened MrCounts

  /** What a bank records is what libfabric registered, or nothing. */
  predicate BankOk(b: Bank) {
    if b.registered then b.mr == Some(Region(b.base, b.len))
    else b.mr.None? && b.base == 0 && b.len == 0
  }

  predicate BanksOk(banks: seq<Bank>) { forall k | 0 <= k < |banks| :: BankOk(banks[k]) }

  // ---------------------------------------------------------------------------------------------
  // Looking up a bank: exactly when the code as written hands out a registration that works

  /** The branch of the lookup as written that ends well: a hit, no candidate, a candidate that was
      not registered and now is, or one whose old registration was closed and nothing new made. */
  predicate LookupSafe(m: Mr, ptr: nat, len: nat, f: Fabric) {
    || FirstHit(m.banks, ptr, len, 0) < |m.banks|
    || Oldest(m.banks, |m.banks|).None?
    || (var b := m.banks[Oldest(m.banks, |m.banks|).value];
        if b.registered then f.closeOk && !f.regOk else f.regOk)
  }

  /** A lookup ended well: every bank still records its own registration, and the one picked covers
      the request. */
  predicate LookupGood(m2: Mr, out: Outcome, ptr: nat, len: nat) {
    && BanksOk(m2.banks)
    && (out.Picked? ==>
          && out.bank < |m2.banks| && m2.banks[out.bank].registered
          && m2.banks[out.bank].mr.Some? && m2.banks[out.bank].mr.value.Covers(ptr, len))
  }

  lemma {:induction false} LookupExact(m: Mr, ptr: nat, len: nat, f: Fabric)
    requires BanksOk(m.banks) && len > 0
    ensures var (m2, out) := FindBank(AsWritten, m, ptr, len, f);
            LookupGood(m2, out, ptr, len) <==> LookupSafe(m, ptr, len, f)
  {
    var (m2, out) := FindBank(AsWritten, m, ptr, len, f);
    var h := FirstHit(m.banks, ptr, len, 0);
    if h < |m.banks| {
      assert BankOk(m.banks[h]);
    } else {
      match Oldest(m.banks, |m.banks|)
      case None =>
      case Some(o) =>
        assert BankOk(m.banks[o]) && !Contains(m.banks[o], ptr, len);
        assert BankOk(m2.banks[o]) <==> BanksOk(m2.banks);
    }
  }

  /** The corrected order always ends well. */
  lemma {:induction false} CorrectedLookup(m: Mr, ptr: nat, len: nat, f: Fabric)
    requires BanksOk(m.banks) && len > 0
    ensures var (m2, out) := FindBank(Corrected, m, ptr, len, f); LookupGood(m2, out, ptr, len)
  {
    var h := FirstHit(m.banks, ptr, len, 0);
    if h < |m.banks| { assert BankOk(m.banks[h]); }
  }

  /** When the provider never refuses, the code as written goes wrong exactly when it re-uses a bank:
      it closes the old registration after storing the new region, and so registers nothing. */
  lemma {:induction false} ReuseRegistersNothing(m: Mr, ptr: nat, len: nat)
    requires BanksOk(m.banks) && len > 0
    requires FirstHit(m.banks, ptr, len, 0) == |m.banks|
    requires Oldest(m.banks, |m.banks|).Some?
    requires m.banks[Oldest(m.banks, |m.banks|).value].registered
    ensures var (m2, out) := FindBank(AsWritten, m, ptr, len, Fabric(true, true));
            out.Picked? && m2.banks[out.bank].mr == Some(Region(0, 0))
  {
  }

  predicate Covered(b: Bank, ptr: nat, len: nat) { b.registered && b.mr.Some? && b.mr.value.Covers(ptr, len) }

  lemma {:induction false} SameOldest(a: seq<Bank>, b: seq<Bank>, n: nat)
    requires n <= |a| == |b|
    requires forall k | 0 <= k < n :: a[k].age == b[k].age && Evictable(a[k]) == Evictable(b[k])
    ensures Oldest(a, n) == Oldest(b, n)
    decreases n
  {
    if n > 0 { SameOldest(a, b, n - 1); }
  }

  /** The same request again after one that failed: as written it is handed a bank whose registration does
      not cover it exactly when the first left its region behind, that is unless an old registration was
      closed on the way. */
  lemma {:induction false} AgainAfterFailure(m: Mr, ptr: nat, len: nat, f: Fabric, g: Fabric)
    requires BanksOk(m.banks) && len > 0 && FindBank(AsWritten, m, ptr, len, f).1.Failed?
    ensures var (m2, out) := FindBank(AsWritten, FindBank(AsWritten, m, ptr, len, f).0, ptr, len, g);
            (out.Picked? && !(out.bank < |m2.banks| && Covered(m2.banks[out.bank], ptr, len)))
            <==> !LookupSafe(m, ptr, len, f)
  {
    var o := Oldest(m.banks, |m.banks|).value;
    assert BankOk(m.banks[o]) && !Contains(m.banks[o], ptr, len);
    var m1 := FindBank(AsWritten, m, ptr, len, f).0;
    assert m1.banks == m.banks[o := m1.banks[o]] && m1.banks[o].ref == 0 && m1.banks[o].age == m.banks[o].age;
    if LookupSafe(m, ptr, len, f) {
      assert FirstHit(m1.banks, ptr, len, 0) == |m1.banks|;
      SameOldest(m.banks, m1.banks, |m.banks|);
    } else {
      assert Contains(m1.banks[o], ptr, len);
      assert FirstHit(m1.banks, ptr, len, 0) == o;
    }
  }

  // ---------------------------------------------------------------------------------------------
  // Whole calls

  predicate AcquireSafe(build: Build, m: Mr, iov: Iov, f: Fabric) {
    build.AsWritten? && NeedsBank(m, iov) ==> LookupSafe(m, iov.base, |iov.bytes|, f)
  }

  lemma {:induction false} AcquireKeepsBanks(build: Build, m: Mr, iov: Iov, f: Fabric)
    requires SlabsSized(m) && BanksOk(m.banks) && AcquireSafe(build, m, iov, f)
    ensures BanksOk(Acquire(build, m, iov, f).m.banks)
  {
    if NeedsBank(m, iov) {
      var len := |iov.bytes|;
      if build.AsWritten? { LookupExact(m, iov.base, len, f); } else { CorrectedLookup(m, iov.base, len, f); }
    }
  }

  /** Every bank lookup of the loop takes a branch that ends well. */
  predicate LoopSafe(build: Build, m: Mr, msg: seq<Iov>, fs: seq<Fabric>, i: nat)
    requires SlabsSized(m) && i <= |msg| == |fs|
    decreases |msg| - i
  {
    i < |msg| ==>
      && AcquireSafe(build, m, msg[i], fs[i])
      && (var a := Acquire(build, m, msg[i], fs[i]); a.got.Some? ==> LoopSafe(build, a.m, msg, fs, i + 1))
  }

  lemma {:induction false} ReleaseKeepsBanks(m: Mr, ctx: Ctx)
    requires BanksOk(m.banks) && CtxInRange(m, ctx)
    ensures BanksOk(Release(m, ctx).banks)
  {
    forall k | 0 <= k < |m.banks| ensures BankOk(Release(m, ctx).banks[k]) {
      UnrefEach(m.banks, ctx.banks, k);
      assert BankOk(m.banks[k]);
    }
  }

  lemma {:induction false} LoopKeepsBanks(build: Build, m: Mr, msg: seq<Iov>, fs: seq<Fabric>, ctx: Ctx)
    requires SlabsSized(m) && CtxInRange(m, ctx) && |ctx.descs| <= |msg| == |fs|
    requires BanksOk(m.banks) && LoopSafe(build, m, msg, fs, |ctx.descs|)
    ensures BanksOk(DescribeFrom(build, m, msg, fs, ctx).0.banks)
    decreases |msg| - |ctx.descs|
  {
    var i := |ctx.descs|;
    if i < |msg| {
      hide Acquire, BanksOk;
      AcquireKeepsBanks(build, m, msg[i], fs[i]);
      var a := Acquire(build, m, msg[i], fs[i]);
      if a.got.Some? {
        LoopKeepsBanks(build, a.m, msg, fs, Extend(ctx, a.got.value));
      } else {
        ReleaseKeepsBanks(a.m, ctx);
      }
    }
  }

  predicate DescribeSafe(build: Build, m: Mr, msg: seq<Iov>, fs: seq<Fabric>)
    requires SlabsSized(m) && |msg| == |fs|
  {
    |msg| <= MAX_PER_CONTEXT ==> LoopSafe(build, m, msg, fs, 0)
  }

  lemma {:induction false} MarkKeepsBanks(build: Build, m: Mr, base: nat, len: nat, f: Fabric)
    requires BanksOk(m.banks)
    requires build.AsWritten? ==> f.regOk || FirstUnused(m.banks, 0) == |m.banks|
    ensures BanksOk(Mark(build, m, base, len, f).banks)
  {
    var k := FirstUnused(m.banks, 0);
    if k < |m.banks| { assert BankOk(m.banks[k]); }
  }

  /** Marking as written leaves a stale region behind exactly when its registration is refused. */
  lemma {:induction false} MarkExact(m: Mr, base: nat, len: nat, f: Fabric)
    requires BanksOk(m.banks)
    ensures BanksOk(Mark(AsWritten, m, base, len, f).banks) <==>
              f.regOk || FirstUnused(m.banks, 0) == |m.banks| || (base == 0 && len == 0)
  {
    var k := FirstUnused(m.banks, 0);
    if k < |m.banks| {
      assert BankOk(m.banks[k]);
      assert BankOk(Mark(AsWritten, m, base, len, f).banks[k]) <==> BanksOk(Mark(AsWritten, m, base, len, f).banks);
    }
  }

  lemma {:induction false} InvalidateKeepsBanks(banks: seq<Bank>, base: nat, len: nat, closes: seq<bool>)
    requires BanksOk(banks) && |closes| == |banks|
    ensures BanksOk(InvalidateFrom(banks, base, len, closes, 0).0)
  {
    forall k | 0 <= k < |banks| ensures BankOk(InvalidateFrom(banks, base, len, closes, 0).0[k]) {
      InvalidateEach(banks, base, len, closes, 0, k);
      assert BankOk(banks[k]);
    }
  }

  /** What the code as written needs of one call; the corrected order needs nothing. */
  predicate Safe(build: Build, w: World, e: Event)
    requires Enabled(w, e)
  {
    build.AsWritten? ==>
      match e
      case Send(msg, fs) => DescribeSafe(build, w.m, msg, fs)
      case MarkRegion(_, _, f) => f.regOk || FirstUnused(w.m.banks, 0) == |w.m.banks|
      case _ => true
  }

  lemma {:induction false} CorrectedLoopSafe(m: Mr, msg: seq<Iov>, fs: seq<Fabric>, i: nat)
    requires SlabsSized(m) && i <= |msg| == |fs|
    ensures LoopSafe(Corrected, m, msg, fs, i)
    decreases |msg| - i
  {
    if i < |msg| {
      var a := Acquire(Corrected, m, msg[i], fs[i]);
      if a.got.Some? { CorrectedLoopSafe(a.m, msg, fs, i + 1); }
    }
  }

  lemma {:induction false} StepKeepsBanks(build: Build, w: World, e: Event)
    requires Enabled(w, e) && BanksOk(w.m.banks) && Safe(build, w, e)
    ensures BanksOk(Step(build, w, e).m.banks)
  {
    hide BanksOk;
    match e
    case Send(msg, fs) =>
      if |msg| <= MAX_PER_CONTEXT {
        if build.Corrected? { CorrectedLoopSafe(w.m, msg, fs, 0); }
        LoopKeepsBanks(build, w.m, msg, fs, Ctx([], [], []));
      }
    case Finish(i) => ReleaseKeepsBanks(w.m, w.live[i].ctx);
    case MarkRegion(base, len, f) => MarkKeepsBanks(build, w.m, base, len, f);
    case InvalidateRegion(base, len, closes) => InvalidateKeepsBanks(w.m.banks, base, len, closes);
  }

  ghost predicate SafeTrace(build: Build, ws: seq<World>, es: seq<Event>)
    requires Trace(build, ws, es)
  {
    forall k | 0 <= k < |es| :: Safe(build, ws[k], es[k])
  }

  /** A bank records its own registration at every point of a run whose calls are safe. */
  lemma {:induction false} TraceKeepsBanks(build: Build, ws: seq<World>, es: seq<Event>, k: nat)
    requires Trace(build, ws, es) && SafeTrace(build, ws, es) && BanksOk(ws[0].m.banks) && k <= |es|
    ensures BanksOk(ws[k].m.banks)
    decreases k
  {
    hide BanksOk, Safe, Step, Enabled;
    if k > 0 {
      TraceKeepsBanks(build, ws, es, k - 1);
      var e := es[k - 1];
      StepKeepsBanks(build, ws[k - 1], e);
    }
  }

  /** With the two statements moved there is no condition left. */
  lemma {:induction false} CorrectedRunsAreSafe(ws: seq<World>, es: seq<Event>)
    requires Trace(Corrected, ws, es)
    ensures SafeTrace(Corrected, ws, es)
  {
  }

  lemma {:induction false} FreshBanks(bankCount: nat, slabCount: nat, slabSize: nat)
    ensures BanksOk(Fresh(bankCount, slabCount, slabSize).m.banks)
  {
  }
}
