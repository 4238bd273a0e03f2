/** What a mark is for: the bank it took is not evicted, and keeps its region until that is invalidated. */
module MrHints {
  import opened Basics
  import opened MrModel
  import opened MrMarks
  import opened MrCounts

  /** The banks that are marked in b are the same in c, but for their counters. */
  predicate MarksStay(b: seq<Bank>, c: seq<Bank>) {
    |c| == |b| && forall k | 0 <= k < |b| && b[k].nonvolatile :: c[k] == b[k].(ref := c[k].ref)
  }

  lemma {:induction false} StayThrough(b: seq<Bank>, c: seq<Bank>, d: seq<Bank>)
    requires MarksStay(b, c) && MarksStay(c, d)
    ensures MarksStay(b, d)
  {
    forall k | 0 <= k < |b| && b[k].nonvolatile ensures d[k] == b[k].(ref := d[k].ref) { assert c[k].nonvolatile; }
  }

  lemma {:induction false} AcquireKeepsMarks(build: Build, m: Mr, iov: Iov, f: Fabric)
    requires SlabsSized(m)
    ensures MarksStay(m.banks, Acquire(build, m, iov, f).m.banks)
  {
  }

  lemma {:induction false} ReleaseKeepsMarks(m: Mr, ctx: Ctx)
    requires CtxInRange(m, ctx)
    ensures MarksStay(m.banks, Release(m, ctx).banks)
  {
    forall k | 0 <= k < |m.banks| ensures Release(m, ctx).banks[k] == m.banks[k].(ref := Release(m, ctx).banks[k].ref) {
      UnrefEach(m.banks, ctx.banks, k);
    }
  }

  lemma {:induction false} LoopKeepsMarks(build: Build, m: Mr, msg: seq<Iov>, fs: seq<Fabric>, ctx: Ctx)
    requires SlabsSized(m) && CtxInRange(m, ctx) && |ctx.descs| <= |msg| == |fs|
    ensures MarksStay(m.banks, DescribeFrom(build, m, msg, fs, ctx).0.banks)
    decreases |msg| - |ctx.descs|
  {
    var i := |ctx.descs|;
    if i < |msg| {
      hide Acquire, MarksStay, Release;
      AcquireKeepsMarks(build, m, msg[i], fs[i]);
      var a := Acquire(build, m, msg[i], fs[i]);
      if a.got.Some? {
        LoopKeepsMarks(build, a.m, msg, fs, Extend(ctx, a.got.value));
      } else {
        ReleaseKeepsMarks(a.m, ctx);
      }
      StayThrough(m.banks, a.m.banks, DescribeFrom(build, m, msg, fs, ctx).0.banks);
    }
  }

  lemma {:induction false} MarkKeepsMarks(build: Build, m: Mr, base: nat, len: nat, f: Fabric)
    ensures MarksStay(m.banks, Mark(build, m, base, len, f).banks)
  {
  }

  /** Bank k is marked and registered for the region. */
  predicate Pinned(b: Bank, base: nat, len: nat) {
    b.nonvolatile && b.registered && b.base == base && b.len == len && b.mr == Some(Region(base, len))
  }

  /** The event invalidates a region that meets bank k. */
  predicate Lifts(w: World, e: Event, k: nat)
    requires k < |w.m.banks|
  {
    e.InvalidateRegion? && Meets(w.m.banks[k], e.base, e.len)
  }

  lemma {:induction false} StepKeepsMark(build: Build, w: World, e: Event, k: nat)
    requires Enabled(w, e) && k < |w.m.banks| && w.m.banks[k].nonvolatile && !Lifts(w, e, k)
    ensures var b, v := w.m.banks[k], Step(build, w, e).m.banks;
            |v| == |w.m.banks| && v[k] == b.(ref := v[k].ref)
  {
    hide Release, Mark;
    match e
    case Send(msg, fs) => if |msg| <= MAX_PER_CONTEXT { LoopKeepsMarks(build, w.m, msg, fs, Ctx([], [], [])); }
    case Finish(i) => ReleaseKeepsMarks(w.m, w.live[i].ctx);
    case MarkRegion(base, len, f) => MarkKeepsMarks(build, w.m, base, len, f);
    case InvalidateRegion(base, len, closes) => InvalidateExact(w.m.banks, base, len, closes);
  }

  /** A mark that found a bank and whose registration was granted holds in every run, whatever messages come
      and go, until an invalidation meets its region: the bank keeps region and registration. */
  lemma {:induction false} MarkLasts(build: Build, ws: seq<World>, es: seq<Event>, i: nat, k: nat)
    requires Trace(build, ws, es) && i < k <= |es| && es[i].MarkRegion? && es[i].f.regOk
    requires var b := FirstUnused(ws[i].m.banks, 0);
             && b < |ws[i].m.banks|
             && forall j {:trigger es[j]} | i < j < k && b < |ws[j].m.banks| :: !Lifts(ws[j], es[j], b)
    ensures var b := FirstUnused(ws[i].m.banks, 0);
            b < |ws[k].m.banks| && Pinned(ws[k].m.banks[b], es[i].base, es[i].len)
    decreases k
  {
    var e, b := es[k - 1], FirstUnused(ws[i].m.banks, 0);
    if k > i + 1 {
      MarkLasts(build, ws, es, i, k - 1);
      hide Step, Enabled, Lifts;
      StepKeepsMark(build, ws[k - 1], e, b);
    }
  }
}
