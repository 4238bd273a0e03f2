/** What a describe comes to when the provider grants everything. */
module EgressGrants {
  import opened Basics
  import opened MrModel
  import opened MrCounts
  import opened EgressBooks

  /** The provider closes and registers whatever it is asked to. */
  predicate Granted(fs: seq<Fabric>) { forall i | 0 <= i < |fs| :: fs[i].closeOk && fs[i].regOk }

  lemma {:induction false} GrantedEntry(build: Build, m: Mr, iov: Iov, f: Fabric)
    requires SlabsSized(m) && f.closeOk && f.regOk
    ensures var a := Acquire(build, m, iov, f); a.got.Some? || a.again
  {
  }

  lemma {:induction false} GrantedLoop(build: Build, m: Mr, msg: seq<Iov>, fs: seq<Fabric>, ctx: Ctx)
    requires SlabsSized(m) && CtxInRange(m, ctx) && |ctx.descs| <= |msg| == |fs|
    ensures var r := DescribeFrom(build, m, msg, fs, ctx).1; !r.TooBig? && (Granted(fs) ==> !r.FabricError?)
    decreases |msg| - |ctx.descs|
  {
    var i := |ctx.descs|;
    if i < |msg| {
      hide Acquire, Release;
      if Granted(fs) { GrantedEntry(build, m, msg[i], fs[i]); }
      var a := Acquire(build, m, msg[i], fs[i]);
      if a.got.Some? { GrantedLoop(build, a.m, msg, fs, Extend(ctx, a.got.value)); }
    }
  }

  /** With a provider that grants everything and a bank for each entry to come, a describe succeeds exactly
      when the message has at most 16 entries; whatever the provider does, no other message is too big. */
  lemma {:induction false} DescribeDoneExactly(build: Build, m: Mr, live: seq<Transfer>, msg: seq<Iov>, fs: seq<Fabric>)
    requires Books(m, live) && |msg| == |fs|
    ensures SlabsSized(m)
    ensures Describe(build, m, msg, fs).1.TooBig? <==> |msg| > 16
    ensures Granted(fs) && |BankUse(live)| + |msg| <= |m.banks| ==>
              (Describe(build, m, msg, fs).1.Done? <==> |msg| <= 16)
  {
    if |msg| <= MAX_PER_CONTEXT {
      EmptyTransfer(m, live);
      assert msg[..0] == [];
      hide Counted, Acquire, Release;
      GrantedLoop(build, m, msg, fs, Ctx([], [], []));
      if |BankUse(live)| + |msg| <= |m.banks| { NeverOutOfBanks(build, m, msg, 0, fs, Ctx([], [], []), live); }
    }
  }
}
