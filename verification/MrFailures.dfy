/** Runs of the registration cache as written in which the device cannot read a message. */
module MrFailures {
  import opened Basics
  import opened MrModel
  import opened MrCounts
  import opened MrLookups
  import opened MrRuns

  const GRANTED := Fabric(true, true)

  /** The provider closes and registers whatever it is asked to. */
  ghost predicate Cooperative(es: seq<Event>) {
    forall k | 0 <= k < |es| ::
      match es[k]
      case Send(_, fs) => forall i | 0 <= i < |fs| :: fs[i] == GRANTED
      case Finish(_) => true
      case MarkRegion(_, _, f) => f == GRANTED
      case InvalidateRegion(_, _, closes) => forall i | 0 <= i < |closes| :: closes[i]
  }

  /** The k-th of a row of buffers, each just too large for a slab. */
  function Buffer(slabSize: nat, k: nat): (iov: Iov)
    ensures iov.base == k + 1 && |iov.bytes| == slabSize + 1
  {
    Iov(k + 1, seq(slabSize + 1, _ => 0))
  }

  function SendOf(slabSize: nat, k: nat, f: Fabric): Event { Send([Buffer(slabSize, k)], [f]) }

  lemma {:induction false} OneLarge(build: Build, m: Mr, iov: Iov, f: Fabric)
    requires SlabsSized(m) && |iov.bytes| > m.slabSize
    ensures var (m2, out) := FindBank(build, m, iov.base, |iov.bytes|, f);
            match out
            case Picked(k) =>
              k < |m2.banks| &&
              var b := m2.banks[k];
              Describe(build, m, [iov], [f]) ==
              (m2.(banks := m2.banks[k := b.(ref := b.ref + 1)]), Done(Ctx([BankDesc(k, b.mr)], [k], [])))
            case Again => Describe(build, m, [iov], [f]) == (m2, NoBank)
            case Failed => Describe(build, m, [iov], [f]) == (m2, FabricError)
  {
    var a, none := Acquire(build, m, iov, f), Ctx([], [], []);
    assert [iov][0] == iov && [f][0] == f;
    if a.got.Some? {
      var ctx := Extend(none, a.got.value);
      assert DescribeFrom(build, a.m, [iov], [f], ctx) == (a.m, Done(ctx));
      assert ctx == Ctx([a.got.value], [a.got.value.bank], []);
    } else {
      assert Release(a.m, none) == a.m;
    }
  }

  lemma {:induction false} Then(build: Build, ws: seq<World>, es: seq<Event>, e: Event)
      returns (ws2: seq<World>, es2: seq<Event>)
    requires Trace(build, ws, es) && Enabled(ws[|es|], e)
    ensures ws2 == ws + [Step(build, ws[|es|], e)] && es2 == es + [e] && Trace(build, ws2, es2)
  {
    hide Step, Enabled;
    ws2, es2 := ws + [Step(build, ws[|es|], e)], es + [e];
    OneMore((s, x, t) => Enabled(s, x) && t == Step(build, s, x), ws, es, e, Step(build, ws[|es|], e));
  }

  lemma {:induction false} NotRead(m: Mr, iov: Iov, t: Transfer)
    requires t.msg == [iov] && |t.ctx.descs| == 1 && ReadEntry(m, iov, t.ctx.descs[0]).None?
    ensures !Reads(m, t)
  {
    assert t.msg[0] == iov;
    assert Gathered(m, t, 1).None?;
  }

  lemma {:induction false} FirstOfFresh(bankCount: nat, n: nat)
    requires 0 < n <= bankCount
    ensures Oldest(Fresh(bankCount, 0, 0).m.banks, n) == Some(0)
  {
    var banks := Fresh(bankCount, 0, 0).m.banks;
    assert Evictable(banks[0]);
  }

  /** One buffer sent twice, with its registration refused the first time. */
  lemma {:induction false} RefusedThenSent(bankCount: nat, slabCount: nat, slabSize: nat)
      returns (ws: seq<World>, es: seq<Event>)
    requires bankCount > 0
    ensures Trace(AsWritten, ws, es) && ws[0] == Fresh(bankCount, slabCount, slabSize)
    ensures |es| == 2 && |ws[2].live| == 1 && !Reads(ws[2].m, ws[2].live[0])
  {
    var iov := Buffer(slabSize, 0);
    var w0, refused := Fresh(bankCount, slabCount, slabSize), Fabric(true, false);
    FirstOfFresh(bankCount, bankCount);
    OneLarge(AsWritten, w0.m, iov, refused);
    ws, es := Then(AsWritten, [w0], [], SendOf(slabSize, 0, refused));
    var w1 := ws[1];
    assert FirstHit(w1.m.banks, iov.base, |iov.bytes|, 0) == 0;
    OneLarge(AsWritten, w1.m, iov, GRANTED);
    ws, es := Then(AsWritten, ws, es, SendOf(slabSize, 0, GRANTED));
    NotRead(ws[2].m, iov, ws[2].live[0]);
  }

  // ---------------------------------------------------------------------------------------------
  // A provider that never refuses

  /** The first k banks each serve one buffer in flight, and the others are as they were. */
  predicate Serving(w: World, bankCount: nat, slabSize: nat, k: nat) {
    && |w.m.banks| == bankCount && w.m.slabSize == slabSize && SlabsSized(w.m) && |w.live| == k <= bankCount
    && (forall j | 0 <= j < k :: w.live[j].ctx.banks == [j] && w.live[j].ctx.slabs == [])
    && (forall j | 0 <= j < k ::
          var b := w.m.banks[j];
          b.ref == 1 && b.registered && !b.nonvolatile && b.base == j + 1 && b.len == slabSize + 1)
    && (forall j | k <= j < bankCount :: w.m.banks[j] == Bank(0, 0, 0, None, 0, false, false))
  }

  lemma {:induction false} FirstIdle(banks: seq<Bank>, k: nat)
    requires k < |banks| && forall j | 0 <= j < |banks| :: Evictable(banks[j]) <==> j >= k
    requires forall j | k <= j < |banks| :: banks[j].age == 0
    ensures Oldest(banks, |banks|) == Some(k)
  {
    assert Evictable(banks[k]);
  }

  lemma {:induction false} NextBank(m: Mr, iov: Iov, k: nat)
    requires k < |m.banks| && |iov.bytes| > 0 && FirstHit(m.banks, iov.base, |iov.bytes|, 0) == |m.banks|
    requires Oldest(m.banks, |m.banks|) == Some(k) && m.banks[k] == Bank(0, 0, 0, None, 0, false, false)
    ensures var age, len := NextAge(m.age), |iov.bytes|;
            var b := Bank(0, iov.base, len, Some(Region(iov.base, len)), age, false, true);
            FindBank(AsWritten, m, iov.base, len, GRANTED) == (m.(banks := m.banks[k := b], age := age), Picked(k))
  {
  }

  lemma {:induction false} NothingHit(w: World, bankCount: nat, slabSize: nat, k: nat)
    requires Serving(w, bankCount, slabSize, k) && k < bankCount
    ensures FirstHit(w.m.banks, k + 1, slabSize + 1, 0) == bankCount
  {
  }

  lemma {:induction false} ServesMore(w: World, bankCount: nat, slabSize: nat, k: nat)
    requires Serving(w, bankCount, slabSize, k) && k < bankCount
    ensures Serving(Served(w, slabSize, k), bankCount, slabSize, k + 1)
  {
    hide NextAge;
  }

  lemma {:induction false} NextServed(w: World, bankCount: nat, slabSize: nat, k: nat)
    requires Serving(w, bankCount, slabSize, k) && k < bankCount
    ensures Enabled(w, SendOf(slabSize, k, GRANTED))
    ensures Step(AsWritten, w, SendOf(slabSize, k, GRANTED)) == Served(w, slabSize, k)
    ensures Serving(Served(w, slabSize, k), bankCount, slabSize, k + 1)
  {
    var iov := Buffer(slabSize, k);
    NothingHit(w, bankCount, slabSize, k);
    FirstIdle(w.m.banks, k);
    NextBank(w.m, iov, k);
    OneLarge(AsWritten, w.m, iov, GRANTED);
    ServesMore(w, bankCount, slabSize, k);
    hide FindBank, Describe, Oldest, FirstHit, Serving;
  }

  /** The state after the k-th buffer was sent. */
  function Served(w: World, slabSize: nat, k: nat): World
    requires k < |w.m.banks|
  {
    var b := Bank(1, k + 1, slabSize + 1, Some(Region(k + 1, slabSize + 1)), NextAge(w.m.age), false, true);
    World(w.m.(banks := w.m.banks[k := b], age := NextAge(w.m.age)),
          w.live + [Transfer([Buffer(slabSize, k)], Ctx([BankDesc(k, b.mr)], [k], []))])
  }

  lemma {:induction false} Serve(bankCount: nat, slabCount: nat, slabSize: nat, k: nat)
      returns (ws: seq<World>, es: seq<Event>)
    requires k <= bankCount
    ensures Trace(AsWritten, ws, es) && ws[0] == Fresh(bankCount, slabCount, slabSize) && Cooperative(es)
    ensures |es| == k && Serving(ws[k], bankCount, slabSize, k)
  {
    if k == 0 {
      ws, es := [Fresh(bankCount, slabCount, slabSize)], [];
    } else {
      ws, es := Serve(bankCount, slabCount, slabSize, k - 1);
      hide Serving, Step, Enabled, Served;
      NextServed(ws[k - 1], bankCount, slabSize, k - 1);
      ws, es := Then(AsWritten, ws, es, SendOf(slabSize, k - 1, GRANTED));
    }
  }

  /** The bank of the message that was released serves another buffer: the empty region is registered. */
  lemma {:induction false} Reused(w: World, bankCount: nat, slabSize: nat)
    requires Serving(w, bankCount, slabSize, bankCount) && bankCount > 0
    ensures Enabled(w, Finish(0))
    ensures var v, e := Step(AsWritten, w, Finish(0)), SendOf(slabSize, bankCount, GRANTED);
            Enabled(v, e) && !AllRead(Step(AsWritten, v, e))
  {
    var v, iov := Step(AsWritten, w, Finish(0)), Buffer(slabSize, bankCount);
    assert w.live[0].ctx.banks == [0];
    forall j | 0 <= j < bankCount ensures v.m.banks[j] == w.m.banks[j].(ref := if j == 0 then 0 else 1) {
      UnrefEach(w.m.banks, w.live[0].ctx.banks, j);
    }
    assert v.m.slabs == w.m.slabs;
    assert FirstHit(v.m.banks, iov.base, |iov.bytes|, 0) == bankCount;
    assert Evictable(v.m.banks[0]);
    assert Oldest(v.m.banks, bankCount) == Some(0);
    OneLarge(AsWritten, v.m, iov, GRANTED);
    var u := Step(AsWritten, v, SendOf(slabSize, bankCount, GRANTED));
    NotRead(u.m, iov, u.live[|v.live|]);
  }

  lemma {:induction false} ReusedRun(bankCount: nat, slabCount: nat, slabSize: nat)
      returns (ws: seq<World>, es: seq<Event>)
    requires bankCount > 0
    ensures Trace(AsWritten, ws, es) && ws[0] == Fresh(bankCount, slabCount, slabSize) && Cooperative(es)
    ensures !AllRead(ws[|es|])
  {
    ws, es := Serve(bankCount, slabCount, slabSize, bankCount);
    hide Serving, Step, Enabled, AllRead;
    Reused(ws[bankCount], bankCount, slabSize);
    ws, es := Then(AsWritten, ws, es, Finish(0));
    ws, es := Then(AsWritten, ws, es, SendOf(slabSize, bankCount, GRANTED));
  }

  // ---------------------------------------------------------------------------------------------
  // Exactly when there are such runs

  lemma {:induction false} NoBanksSafeLoop(m: Mr, msg: seq<Iov>, fs: seq<Fabric>, i: nat)
    requires |m.banks| == 0 && SlabsSized(m) && i <= |msg| == |fs|
    ensures LoopSafe(AsWritten, m, msg, fs, i)
    decreases |msg| - i
  {
    if i < |msg| {
      var a := Acquire(AsWritten, m, msg[i], fs[i]);
      if a.got.Some? { NoBanksSafeLoop(a.m, msg, fs, i + 1); }
    }
  }

  lemma {:induction false} NoBanksStay(ws: seq<World>, es: seq<Event>, k: nat)
    requires Trace(AsWritten, ws, es) && |ws[0].m.banks| == 0 && k <= |es|
    ensures |ws[k].m.banks| == 0
    ensures k < |es| ==> Safe(AsWritten, ws[k], es[k])
    decreases k
  {
    if k > 0 {
      NoBanksStay(ws, es, k - 1);
      var e := es[k - 1];
      StepKeeps(AsWritten, ws[k - 1], e);
      hide Step;
    }
    if k < |es| && es[k].Send? { NoBanksSafeLoop(ws[k].m, es[k].msg, es[k].fs, 0); }
  }

  lemma {:induction false} FreshLength(bankCount: nat, slabCount: nat, slabSize: nat)
    ensures |Fresh(bankCount, slabCount, slabSize).m.banks| == bankCount
  {
  }

  /** A message that the device cannot read as it was written comes up in some run, even with a provider
      that never refuses, exactly with the cache as written and at least one bank. */
  lemma {:induction false} UnreadableExactly(build: Build, bankCount: nat, slabCount: nat, slabSize: nat)
    ensures (exists ws: seq<World>, es ::
               Trace(build, ws, es) && ws[0] == Fresh(bankCount, slabCount, slabSize) && !AllRead(ws[|es|]))
            <==> build.AsWritten? && bankCount > 0
    ensures build.AsWritten? && bankCount > 0 ==>
              exists ws: seq<World>, es ::
                && Trace(build, ws, es) && ws[0] == Fresh(bankCount, slabCount, slabSize)
                && Cooperative(es) && !AllRead(ws[|es|])
  {
    hide AllRead, Fresh, Step, Enabled, Safe;
    if build.AsWritten? && bankCount > 0 {
      var ws, es := ReusedRun(bankCount, slabCount, slabSize);
    } else {
      forall ws: seq<World>, es | Trace(build, ws, es) && ws[0] == Fresh(bankCount, slabCount, slabSize)
        ensures AllRead(ws[|es|])
      {
        FreshLength(bankCount, slabCount, slabSize);
        if build.AsWritten? { forall k | 0 <= k < |es| ensures Safe(build, ws[k], es[k]) { NoBanksStay(ws, es, k); } }
        Transparent(build, bankCount, slabCount, slabSize, ws, es, |es|);
      }
    }
  }
}
