/** The clock of the cache over whole runs: no bank is ever ahead of it before it wraps, so that what
    MrEviction proves holds of every state such a run comes to. */
module MrAges {
  import opened Basics
  import opened MrModel
  import opened MrMarks
  import MrCounts
  import opened MrEviction

  predicate Behind(m: Mr) { forall k | 0 <= k < |m.banks| :: m.banks[k].age <= m.age }

  /** a came from m by at most n registrations. */
  predicate Later(m: Mr, a: Mr, n: nat) { m.age <= a.age <= m.age + n && (Behind(m) ==> Behind(a)) }

  lemma {:induction false} AcquireLater(build: Build, m: Mr, iov: Iov, f: Fabric)
    requires SlabsSized(m) && m.age + 1 < 0x1_0000_0000
    ensures Later(m, Acquire(build, m, iov, f).m, 1)
  {
    AgesExactly(build, m, iov.base, |iov.bytes|, f);
  }

  lemma {:induction false} ReleaseSameAges(m: Mr, ctx: Ctx)
    requires CtxInRange(m, ctx)
    ensures Later(m, Release(m, ctx), 0)
  {
    forall k | 0 <= k < |m.banks| ensures Release(m, ctx).banks[k].age == m.banks[k].age {
      MrCounts.UnrefEach(m.banks, ctx.banks, k);
    }
  }

  lemma {:induction false} LoopLater(build: Build, m: Mr, msg: seq<Iov>, fs: seq<Fabric>, ctx: Ctx)
    requires SlabsSized(m) && CtxInRange(m, ctx) && |ctx.descs| <= |msg| == |fs|
    requires m.age + (|msg| - |ctx.descs|) < 0x1_0000_0000
    ensures Later(m, DescribeFrom(build, m, msg, fs, ctx).0, |msg| - |ctx.descs|)
    decreases |msg| - |ctx.descs|
  {
    var i := |ctx.descs|;
    if i < |msg| {
      AcquireLater(build, m, msg[i], fs[i]);
      hide Acquire, Behind, Release;
      var a := Acquire(build, m, msg[i], fs[i]);
      if a.got.Some? {
        LoopLater(build, a.m, msg, fs, Extend(ctx, a.got.value));
      } else {
        ReleaseSameAges(a.m, ctx);
      }
    }
  }

  lemma {:induction false} InvalidateSameAges(m: Mr, base: nat, len: nat, closes: seq<bool>)
    requires |closes| == |m.banks|
    ensures Later(m, m.(banks := InvalidateFrom(m.banks, base, len, closes, 0).0), 0)
  {
    forall k | 0 <= k < |m.banks|
      ensures InvalidateFrom(m.banks, base, len, closes, 0).0[k].age == m.banks[k].age
    {
      InvalidateEach(m.banks, base, len, closes, 0, k);
    }
  }

  lemma {:induction false} MarkLater(build: Build, m: Mr, base: nat, len: nat, f: Fabric)
    requires m.age + 1 < 0x1_0000_0000
    ensures Later(m, Mark(build, m, base, len, f), 1)
  {
  }

  lemma {:induction false} StepLater(build: Build, w: MrCounts.World, e: MrCounts.Event)
    requires MrCounts.Enabled(w, e) && w.m.age + 16 < 0x1_0000_0000
    ensures Later(w.m, MrCounts.Step(build, w, e).m, 16)
  {
    hide Behind, Release, Mark;
    match e
    case Send(msg, fs) => if |msg| <= MAX_PER_CONTEXT { LoopLater(build, w.m, msg, fs, Ctx([], [], [])); }
    case Finish(i) => ReleaseSameAges(w.m, w.live[i].ctx);
    case MarkRegion(base, len, f) => MarkLater(build, w.m, base, len, f);
    case InvalidateRegion(base, len, closes) => InvalidateSameAges(w.m, base, len, closes);
  }

  /** In a run of fewer than 2^28 calls no bank is ahead of the clock. */
  lemma {:induction false} AgesBehindClock(build: Build, bankCount: nat, slabCount: nat, slabSize: nat,
                                           ws: seq<MrCounts.World>, es: seq<MrCounts.Event>, k: nat)
    requires MrCounts.Trace(build, ws, es) && ws[0] == MrCounts.Fresh(bankCount, slabCount, slabSize)
    requires k <= |es| && k < 0x1000_0000
    ensures Behind(ws[k].m) && ws[k].m.age <= 16 * k
    decreases k
  {
    if k > 0 {
      AgesBehindClock(build, bankCount, slabCount, slabSize, ws, es, k - 1);
      hide MrCounts.Step, MrCounts.Enabled, Behind;
      var e := es[k - 1];
      StepLater(build, ws[k - 1], e);
    }
  }

  /** Whenever such a run comes to a state with no bank referenced or marked, the misses that follow pick
      different banks, up to their number. */
  lemma {:induction false} ReachedMissesPickDistinct(build: Build, bankCount: nat, slabCount: nat, slabSize: nat,
                                                     ws: seq<MrCounts.World>, es: seq<MrCounts.Event>, k: nat,
                                                     reqs: seq<Request>)
    requires MrCounts.Trace(build, ws, es) && ws[0] == MrCounts.Fresh(bankCount, slabCount, slabSize)
    requires k <= |es| && k < 0x1000_0000 && forall b | 0 <= b < |ws[k].m.banks| :: Evictable(ws[k].m.banks[b])
    requires var n := |MissOuts(build, ws[k].m, reqs)|; n <= |ws[k].m.banks| && 16 * k + n < 0x1_0000_0000
    ensures var outs := MissOuts(build, ws[k].m, reqs);
            && (forall j | 0 <= j < |outs| :: outs[j].Picked?)
            && (forall i, j | 0 <= i < j < |outs| :: outs[i].bank != outs[j].bank)
  {
    AgesBehindClock(build, bankCount, slabCount, slabSize, ws, es, k);
    MissesPickDistinctBanks(build, ws[k].m, reqs);
    hide MissOuts, MrCounts.Trace;
  }
}
