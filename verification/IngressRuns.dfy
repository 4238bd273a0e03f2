/** What the receiving side makes of the events it sees: which messages it hands over, and whether it will
    ever receive again. */
module IngressRuns {
  import opened Basics
  import opened IngressModel

  // ---------------------------------------------------------------------------------------------
  // What arrived

  /** The payloads of the first k events, keepalives left out. */
  function Arrived(es: seq<Event>, k: nat): seq<Bytes>
    requires k <= |es|
  {
    if k == 0 then []
    else Arrived(es, k - 1) + if es[k - 1].Rx? && es[k - 1].bytes != KEEPALIVE then [es[k - 1].bytes] else []
  }

  function Taken(es: seq<Event>, k: nat): nat
    requires k <= |es|
  {
    if k == 0 then 0 else Taken(es, k - 1) + Int(es[k - 1].Take?)
  }

  lemma {:induction false} FlushHandsOver(s: In)
    ensures var t := Flush(s); t.received == s.received && t.fetched == s.fetched && t.fetches == s.fetches
  {
  }

  lemma {:induction false} StepHandsOver(b: Build, s: In, e: Event)
    requires Enabled(s, e) && (s.flags.nnBusy ==> |s.pop| > 0)
    ensures var t := Step(b, s, e);
            && t.received == s.received + (if e.Rx? && e.bytes != KEEPALIVE then [e.bytes] else [])
            && t.fetched == s.fetched + (if e.Take? then [s.pop[0].bytes] else [])
            && t.fetches == s.fetches + Int(e.Take?)
  {
    hide KEEPALIVE, Flush;
    match e
    case Rx(_, _, _, _) =>
    case Take(a) => FlushHandsOver(Rearm(b, PostLate(TakeFirst(s), a)));
    case Drop => FlushHandsOver(s);
  }

  lemma {:induction false} FromCore(b: Build, s: In, max: nat)
    requires Core(b, s, max)
    ensures s.flags.nnBusy ==> |s.pop| > 0
    ensures Told(b, s) ==> !s.flags.flush && s.fetched + Payloads(s.pop) == s.received
  {
  }

  lemma {:induction false} HandsOver(b: Build, ss: seq<In>, es: seq<Event>, k: nat, max: nat)
    requires Trace(b, ss, es) && k <= |es| && max > 0 && ss[0] == Start(max)
    ensures ss[k].received == Arrived(es, k) && |ss[k].fetched| == ss[k].fetches == Taken(es, k)
    decreases k
  {
    hide Step, Enabled, Core, Told, KEEPALIVE;
    if k > 0 {
      HandsOver(b, ss, es, k - 1, max);
      TraceKeeps(b, ss, es, k - 1, max);
      FromCore(b, ss[k - 1], max);
      var e := es[k - 1];
      StepHandsOver(b, ss[k - 1], e);
    }
  }

  /** At every point of a run each fetch was answered with one message, and until a flush the messages handed
      over, followed by those queued, are the ones that arrived, in order and without the keepalives. */
  lemma {:induction false} DeliveredInOrder(b: Build, ss: seq<In>, es: seq<Event>, k: nat, max: nat)
    requires Trace(b, ss, es) && k <= |es| && max > 0 && ss[0] == Start(max)
    ensures |ss[k].fetched| == ss[k].fetches == Taken(es, k)
    ensures Active(es, k) ==> ss[k].fetched + Payloads(ss[k].pop) == Arrived(es, k)
  {
    HandsOver(b, ss, es, k, max);
    TraceKeeps(b, ss, es, k, max);
    FromCore(b, ss[k], max);
    hide Core, Told, Payloads, Arrived, Taken;
  }

  // ---------------------------------------------------------------------------------------------
  // Whether a receive is posted, or put off

  /** One receive is posted, or the post is put off and none is. */
  predicate Armed(s: In) { |s.busy| == Int(!s.flags.postLater) }

  predicate Deaf(s: In) { |s.busy| == 0 && !s.flags.postLater }

  /** The provider does not refuse the buffer offered to it, and takes it if it was offered late. With -EAGAIN
      a receive event puts the post off; a fetch does not put it off again. */
  predicate Heeds(s: In, e: Event) {
    match e
    case Rx(_, bytes, _, a) => !a.Refused? || (|s.free| == 0 && bytes != KEEPALIVE)
    case Take(a) => a.Accepted? || !s.flags.postLater
    case Drop => false
  }

  /** It does so at each of the first k events. */
  predicate AllHeeded(ss: seq<In>, es: seq<Event>, k: nat)
    requires k <= |es| < |ss|
  {
    forall j {:trigger Heeds(ss[j], es[j])} | 0 <= j < k :: Heeds(ss[j], es[j])
  }

  lemma {:induction false} HandleFrees(s: In, i: nat, bytes: Bytes, late: Answer)
    requires |s.busy| == 1 && !s.flags.postLater && i == 0
    ensures var t := Handle(s, i, bytes, late);
            |t.busy| == 0 && !t.flags.postLater && |t.free| == |s.free| + Int(bytes == KEEPALIVE)
  {
    hide KEEPALIVE;
  }

  lemma {:induction false} PostArms(s: In, a: Answer)
    requires |s.busy| == 0 && !s.flags.postLater
    ensures var t := PostOrDefer(s, a);
            if !a.Refused? || |s.free| == 0 then Armed(t) else Deaf(t)
  {
  }

  lemma {:induction false} ReceiveArms(s: In, i: nat, bytes: Bytes, late: Answer, a: Answer)
    requires Armed(s) && i < |s.busy|
    ensures var t, h := Receive(s, i, bytes, late, a), Heeds(s, Rx(i, bytes, late, a));
            (h ==> Armed(t)) && (!h ==> Deaf(t))
  {
    HandleFrees(s, i, bytes, late);
    hide Handle, PostOrDefer, KEEPALIVE;
    PostArms(Handle(s, i, bytes, late), a);
  }

  lemma {:induction false} StepArms(b: Build, s: In, e: Event)
    requires Enabled(s, e) && !e.Drop? && !s.flags.flush && (s.flags.nnBusy ==> |s.pop| > 0)
    ensures Armed(s) && Heeds(s, e) ==> Armed(Step(b, s, e))
    ensures (Armed(s) && !Heeds(s, e)) || Deaf(s) ==> Deaf(Step(b, s, e))
  {
    hide Flush;
    match e
    case Rx(i, bytes, late, a) =>
      hide Receive, KEEPALIVE;
      if Armed(s) { ReceiveArms(s, i, bytes, late, a); }
    case Take(a) =>
  }

  /** At a point of an active run one receive is posted or put off exactly when the provider took or put off
      every buffer offered to it up to there, and took those offered late; otherwise none is posted, nor
      ever will be. */
  lemma {:induction false} ArmedExactly(b: Build, ss: seq<In>, es: seq<Event>, k: nat, max: nat)
    requires Trace(b, ss, es) && k <= |es| && max > 0 && ss[0] == Start(max) && Active(es, k)
    ensures Armed(ss[k]) <==> AllHeeded(ss, es, k)
    ensures !Armed(ss[k]) ==> Deaf(ss[k])
    decreases k
  {
    hide Step, Enabled, Heeds, Core, Told;
    if k > 0 {
      ArmedExactly(b, ss, es, k - 1, max);
      TraceKeeps(b, ss, es, k - 1, max);
      var e := es[k - 1];
      FromCore(b, ss[k - 1], max);
      StepArms(b, ss[k - 1], e);
    }
  }

  lemma {:induction false} TakePosts(b: Build, s: In)
    requires s.flags.postLater && |s.busy| == 0 && !s.flags.flush && |s.pop| > 0
    ensures var t := Fetch(b, s, Accepted); |t.busy| == 1 && !t.flags.postLater
  {
    hide Flush;
  }

  /** A late post is made at the next fetch: then one receive is posted again. */
  lemma {:induction false} LatePostArms(b: Build, ss: seq<In>, es: seq<Event>, k: nat, max: nat)
    requires Trace(b, ss, es) && k < |es| && max > 0 && ss[0] == Start(max) && Active(es, k)
    requires AllHeeded(ss, es, k) && ss[k].flags.postLater && es[k] == Take(Accepted)
    ensures |ss[k].busy| == 0 && |ss[k + 1].busy| == 1 && !ss[k + 1].flags.postLater
  {
    ArmedExactly(b, ss, es, k, max);
    TraceKeeps(b, ss, es, k, max);
    FromCore(b, ss[k], max);
    TakePosts(b, ss[k]);
    hide Flush, Core, Told;
  }

  /** A keepalive makes up for a post put off, and is never queued ... */
  lemma {:induction false} KeepaliveMakesUp(s: In, i: nat, a: Answer)
    requires i < |s.busy|
    ensures var t := Handle(s, i, KEEPALIVE, a);
            && t.pop == s.pop && t.received == s.received && t.notices == s.notices && !t.flags.postLater
            && |t.busy| == |s.busy| - 1 + Int(s.flags.postLater && a.Accepted?)
            && |t.free| + |t.busy| == |s.free| + |s.busy|
  {
    hide KEEPALIVE;
  }

  /** ... but in an active run a receive never completes while one is put off. */
  lemma {:induction false} NothingPutOffAtReceive(b: Build, ss: seq<In>, es: seq<Event>, k: nat, max: nat)
    requires Trace(b, ss, es) && k < |es| && max > 0 && ss[0] == Start(max) && Active(es, k) && es[k].Rx?
    ensures |ss[k].busy| == 1 && !ss[k].flags.postLater
  {
    ArmedExactly(b, ss, es, k, max);
    assert Enabled(ss[k], es[k]);
  }

  /** A receive is posted, or put off and a fetch to come will make up for it. */
  predicate Hears(s: In) { |s.busy| == 1 || (|s.busy| == 0 && s.flags.postLater && s.flags.nnBusy) }

  /** An active run goes on from the state to one with a receive posted. */
  ghost predicate CanReceive(b: Build, s: In) {
    exists ss: seq<In>, es :: Trace(b, ss, es) && ss[0] == s && Active(es, |es|) && |ss[|es|].busy| > 0
  }

  lemma {:induction false} SilenceStays(b: Build, s: In, e: Event)
    requires Enabled(s, e) && !e.Drop? && !s.flags.flush && |s.busy| == 0 && !(s.flags.postLater && s.flags.nnBusy)
    ensures var t := Step(b, s, e); !t.flags.flush && |t.busy| == 0 && !(t.flags.postLater && t.flags.nnBusy)
  {
  }

  lemma {:induction false} SilentForGood(b: Build, ss: seq<In>, es: seq<Event>, k: nat)
    requires Trace(b, ss, es) && k <= |es| && Active(es, k)
    requires var s := ss[0]; !s.flags.flush && |s.busy| == 0 && !(s.flags.postLater && s.flags.nnBusy)
    ensures var s := ss[k]; !s.flags.flush && |s.busy| == 0 && !(s.flags.postLater && s.flags.nnBusy)
    decreases k
  {
    if k > 0 {
      hide Step, Enabled;
      SilentForGood(b, ss, es, k - 1);
      var e := es[k - 1];
      SilenceStays(b, ss[k - 1], e);
    }
  }

  lemma {:induction false} HearingReceives(b: Build, s: In)
    requires Hears(s) && !s.flags.flush && (s.flags.nnBusy ==> |s.pop| > 0)
    ensures CanReceive(b, s)
  {
    if |s.busy| == 1 {
      var none: seq<Event> := [];
      assert Trace(b, [s], none) && [s][|none|] == s;
    } else {
      TakePosts(b, s);
      hide Fetch;
      var ss, es := [s, Fetch(b, s, Accepted)], [Take(Accepted)];
      assert Trace(b, ss, es) && ss[|es|] == Fetch(b, s, Accepted);
    }
  }

  /** At a point of an active run the connection can receive again exactly when a receive is posted, or was put
      off and nanomsg still owes a fetch. */
  lemma {:induction false} ReceivesAgainExactly(b: Build, ss: seq<In>, es: seq<Event>, k: nat, max: nat)
    requires Trace(b, ss, es) && k <= |es| && max > 0 && ss[0] == Start(max) && Active(es, k)
    ensures CanReceive(b, ss[k]) <==> Hears(ss[k])
  {
    var s := ss[k];
    ArmedExactly(b, ss, es, k, max);
    TraceKeeps(b, ss, es, k, max);
    FromCore(b, s, max);
    hide Core, Told, Step, Enabled;
    if Hears(s) {
      HearingReceives(b, s);
    } else {
      forall us: seq<In>, fs | Trace(b, us, fs) && us[0] == s && Active(fs, |fs|) ensures |us[|fs|].busy| == 0 {
        SilentForGood(b, us, fs, |fs|);
      }
    }
  }

  /** A keepalive whose post is put off with nothing queued: no fetch will come, and the connection never
      receives again. */
  lemma {:induction false} DeafAfterKeepalive(b: Build, max: nat) returns (ss: seq<In>, es: seq<Event>)
    requires max > 0
    ensures Trace(b, ss, es) && ss[0] == Start(max) && es == [Rx(0, KEEPALIVE, Accepted, TryAgain)]
    ensures Armed(ss[1]) && !CanReceive(b, ss[1])
  {
    var s, e := Start(max), Rx(0, KEEPALIVE, Accepted, TryAgain);
    ss, es := [s, Step(b, s, e)], [e];
    ReceivesAgainExactly(b, ss, es, 1, max);
    hide CanReceive, KEEPALIVE;
  }

  // ---------------------------------------------------------------------------------------------
  // After a flush

  /** Nothing is posted, and what is queued waits for nanomsg; without an announcement all is free. */
  predicate Flushed(s: In) {
    && |s.busy| == 0
    && (s.flags.nnBusy ==> s.flags.flush)
    && (!s.flags.nnBusy ==> |s.pop| == 0 && !s.flags.postLater && !s.flags.nnLater)
  }

  lemma {:induction false} StepStaysFlushed(b: Build, s: In, e: Event)
    requires Flushed(s) && Enabled(s, e)
    ensures Flushed(Step(b, s, e))
  {
  }

  /** From a flush on, nothing is ever posted again, and once nanomsg has fetched what it was told about all
      buffers are free. */
  lemma {:induction false} FlushedForGood(b: Build, ss: seq<In>, es: seq<Event>, i: nat, k: nat, max: nat)
    requires Trace(b, ss, es) && i < k <= |es| && max > 0 && ss[0] == Start(max) && es[i].Drop?
    ensures var s := ss[k];
            && |s.busy| == 0 && (!s.flags.nnBusy ==> |s.free| == max && !s.flags.postLater && !s.flags.nnLater)
    ensures Flushed(ss[k])
    decreases k
  {
    Delivery(b, ss, es, k, max);
    if k > i + 1 {
      FlushedForGood(b, ss, es, i, k - 1, max);
      hide Step, Enabled;
      var e := es[k - 1];
      StepStaysFlushed(b, ss[k - 1], e);
    }
  }
}
