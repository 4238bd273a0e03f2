/** Two peers that keep a connection alive: the tick counters of each, and what is on the wire. */
module Keepalive {
  import opened Basics

  /** Ticks without a send before a keepalive, and without an arrival before the connection is dropped. */
  const OUT_TICKS := 2
  const IN_TICKS := 4

  datatype Peer = Peer(ticksIn: nat, ticksOut: nat)

  datatype Outcome = Expired | SendsKeepalive | Nothing

  /** The tick of one peer. */
  function Ticked(p: Peer): (Peer, Outcome) {
    if p.ticksIn + 1 > IN_TICKS then (p.(ticksIn := 0), Expired)
    else if p.ticksOut + 1 > OUT_TICKS then (Peer(p.ticksIn + 1, 0), SendsKeepalive)
    else (Peer(p.ticksIn + 1, p.ticksOut + 1), Nothing)
  }

  /** Frames on their way and sends not yet completed, oldest first, by the ticks since they were sent. */
  datatype Wire = Wire(flight: seq<nat>, pending: seq<nat>)

  datatype State = Alive | TimedOut | PostFailed

  datatype Link = Link(a: Peer, b: Peer, ab: Wire, ba: Wire, state: State)

  /** A tick says of each peer whether a keepalive, if one is due, can be posted. Sends complete in any
      order, and frames arrive in the order they were sent. */
  datatype Event =
    | Tick(postsA: bool, postsB: bool) | Send(fromA: bool) | Complete(fromA: bool, k: nat) | Deliver(fromA: bool)

  /** A frame is delivered within `delay` full ticks and a send completed within `late`. */
  datatype Bounds = Bounds(delay: nat, late: nat)

  predicate MayTick(d: Bounds, w: Wire) {
    && (forall k | 0 <= k < |w.flight| :: w.flight[k] < d.delay)
    && (forall k | 0 <= k < |w.pending| :: w.pending[k] < d.late)
  }

  predicate Enabled(d: Bounds, s: Link, e: Event) {
    && s.state.Alive?
    && match e
       case Tick(_, _) => MayTick(d, s.ab) && MayTick(d, s.ba)
       case Send(_) => true
       case Complete(fromA, k) => k < |(if fromA then s.ab else s.ba).pending|
       case Deliver(fromA) => |(if fromA then s.ab else s.ba).flight| > 0
  }

  function Aged(s: seq<nat>): (r: seq<nat>)
    ensures |r| == |s| && forall k | 0 <= k < |s| :: r[k] == s[k] + 1
  {
    seq(|s|, k requires 0 <= k < |s| => s[k] + 1)
  }

  function AgedWire(w: Wire, o: Outcome): Wire {
    Wire(Aged(w.flight) + if o.SendsKeepalive? then [0] else [], Aged(w.pending))
  }

  function Ending(x: Outcome, y: Outcome, postsA: bool, postsB: bool): State {
    if x.Expired? || y.Expired? then TimedOut
    else if (x.SendsKeepalive? && !postsA) || (y.SendsKeepalive? && !postsB) then PostFailed
    else Alive
  }

  function Completed(w: Wire, k: nat): Wire
    requires k < |w.pending|
  {
    w.(pending := Without(w.pending, k))
  }

  /** Data traffic: a send and its completion restart the one counter, an arrival the other. A keepalive
      is sent without a completion. */
  function Step(d: Bounds, s: Link, e: Event): Link
    requires Enabled(d, s, e)
  {
    match e
    case Tick(postsA, postsB) =>
      var (a, x) := Ticked(s.a);
      var (b, y) := Ticked(s.b);
      Link(a, b, AgedWire(s.ab, x), AgedWire(s.ba, y), Ending(x, y, postsA, postsB))
    case Send(true) => s.(a := s.a.(ticksOut := 0), ab := Wire(s.ab.flight + [0], s.ab.pending + [0]))
    case Send(false) => s.(b := s.b.(ticksOut := 0), ba := Wire(s.ba.flight + [0], s.ba.pending + [0]))
    case Complete(true, k) => s.(a := s.a.(ticksOut := 0), ab := Completed(s.ab, k))
    case Complete(false, k) => s.(b := s.b.(ticksOut := 0), ba := Completed(s.ba, k))
    case Deliver(true) => s.(b := s.b.(ticksIn := 0), ab := s.ab.(flight := s.ab.flight[1..]))
    case Deliver(false) => s.(a := s.a.(ticksIn := 0), ba := s.ba.(flight := s.ba.flight[1..]))
  }

  /** A run: the states passed through and the events between them. */
  ghost predicate Trace(d: Bounds, ls: seq<Link>, es: seq<Event>) {
    && |ls| == |es| + 1
    && forall k {:trigger es[k]} | 0 <= k < |es| :: Enabled(d, ls[k], es[k]) && ls[k + 1] == Step(d, ls[k], es[k])
  }

  const START := Link(Peer(0, 0), Peer(0, 0), Wire([], []), Wire([], []), Alive)

  // ---------------------------------------------------------------------------------------------
  // One direction: the counter of the sender, the counter of the receiver, and the wire between

  /** The arrivals that are due come before the receiver gives up. */
  predicate Due(d: Bounds, ticksOut: nat, ticksIn: nat, w: Wire) {
    && ticksOut <= OUT_TICKS
    && ticksIn <= IN_TICKS
    && (forall k | 0 <= k < |w.flight| :: w.flight[k] <= d.delay)
    && (forall k | 0 <= k < |w.pending| :: w.pending[k] <= d.late)
    && (forall i, j | 0 <= i < j < |w.pending| :: w.pending[j] <= w.pending[i])
    && (if |w.flight| > 0 then ticksIn + d.delay <= 4 + w.flight[0]
        else if |w.pending| > 0 then ticksIn + d.delay + d.late <= 1 + w.pending[|w.pending| - 1]
        else ticksIn + d.delay <= 1 + ticksOut)
  }

  predicate Inv(d: Bounds, s: Link) {
    && !s.state.TimedOut?
    && s.a.ticksIn <= IN_TICKS && s.b.ticksIn <= IN_TICKS && s.a.ticksOut <= OUT_TICKS && s.b.ticksOut <= OUT_TICKS
    && (s.state.Alive? ==> Due(d, s.a.ticksOut, s.b.ticksIn, s.ab) && Due(d, s.b.ticksOut, s.a.ticksIn, s.ba))
  }

  lemma {:induction false} AgedInOrder(s: seq<nat>, n: nat)
    requires forall k | 0 <= k < |s| :: s[k] < n
    requires forall i, j | 0 <= i < j < |s| :: s[j] <= s[i]
    ensures forall k | 0 <= k < |s| :: Aged(s)[k] <= n
    ensures forall i, j | 0 <= i < j < |s| :: Aged(s)[j] <= Aged(s)[i]
  {
  }

  lemma {:induction false} WireAges(d: Bounds, w: Wire, o: Outcome)
    requires MayTick(d, w) && forall i, j | 0 <= i < j < |w.pending| :: w.pending[j] <= w.pending[i]
    ensures var v, n := AgedWire(w, o), |w.pending|;
            && (forall k | 0 <= k < |v.flight| :: v.flight[k] <= d.delay)
            && (forall k | 0 <= k < |v.pending| :: v.pending[k] <= d.late)
            && (forall i, j | 0 <= i < j < |v.pending| :: v.pending[j] <= v.pending[i])
            && |v.flight| == |w.flight| + Int(o.SendsKeepalive?) && |v.pending| == n
            && (|v.flight| > 0 ==> v.flight[0] == if |w.flight| > 0 then w.flight[0] + 1 else 0)
            && (n > 0 ==> v.pending[n - 1] == w.pending[n - 1] + 1)
  {
    hide Aged;
    AgedInOrder(w.pending, d.late);
  }

  lemma {:induction false} TickInTime(d: Bounds, sender: Peer, receiver: Peer, w: Wire)
    requires d.delay + d.late <= 1 && Due(d, sender.ticksOut, receiver.ticksIn, w) && MayTick(d, w)
    ensures !Ticked(receiver).1.Expired?
  {
  }

  lemma {:induction false} TickKeepsDue(d: Bounds, sender: Peer, receiver: Peer, w: Wire)
    requires d.delay + d.late <= 1 && Due(d, sender.ticksOut, receiver.ticksIn, w) && MayTick(d, w)
    requires !Ticked(sender).1.Expired?
    ensures !Ticked(receiver).1.Expired?
    ensures Due(d, Ticked(sender).0.ticksOut, Ticked(receiver).0.ticksIn, AgedWire(w, Ticked(sender).1))
  {
    hide AgedWire, MayTick;
    TickInTime(d, sender, receiver, w);
    WireAges(d, w, Ticked(sender).1);
  }

  lemma {:induction false} CompleteKeepsDue(d: Bounds, ticksOut: nat, ticksIn: nat, w: Wire, k: nat)
    requires d.delay + d.late <= 1 && Due(d, ticksOut, ticksIn, w) && k < |w.pending|
    ensures Due(d, 0, ticksIn, Completed(w, k))
  {
    var v, n := Completed(w, k), |w.pending|;
    assert forall i | 0 <= i < |v.pending| :: v.pending[i] == w.pending[if i < k then i else i + 1];
    assert w.pending[n - 1] <= d.late;
    if n > 1 { assert v.pending[n - 2] >= w.pending[n - 1]; }
  }

  lemma {:induction false} SendKeepsDue(d: Bounds, ticksOut: nat, ticksIn: nat, w: Wire)
    requires d.delay + d.late <= 1 && Due(d, ticksOut, ticksIn, w)
    ensures Due(d, 0, ticksIn, Wire(w.flight + [0], w.pending + [0]))
  {
    if |w.pending| > 0 { assert w.pending[|w.pending| - 1] <= d.late; }
  }

  lemma {:induction false} DeliverKeepsDue(d: Bounds, ticksOut: nat, ticksIn: nat, w: Wire)
    requires d.delay + d.late <= 1 && Due(d, ticksOut, ticksIn, w) && |w.flight| > 0
    ensures Due(d, ticksOut, 0, w.(flight := w.flight[1..]))
  {
  }

  lemma {:induction false} StepKeepsInv(d: Bounds, s: Link, e: Event)
    requires d.delay + d.late <= 1 && Inv(d, s) && Enabled(d, s, e)
    ensures Inv(d, Step(d, s, e))
  {
    hide Due, Completed;
    match e
    case Tick(_, _) =>
      TickInTime(d, s.a, s.b, s.ab);
      TickInTime(d, s.b, s.a, s.ba);
      TickKeepsDue(d, s.a, s.b, s.ab);
      TickKeepsDue(d, s.b, s.a, s.ba);
    case Send(true) => SendKeepsDue(d, s.a.ticksOut, s.b.ticksIn, s.ab);
    case Send(false) => SendKeepsDue(d, s.b.ticksOut, s.a.ticksIn, s.ba);
    case Complete(true, k) => CompleteKeepsDue(d, s.a.ticksOut, s.b.ticksIn, s.ab, k);
    case Complete(false, k) => CompleteKeepsDue(d, s.b.ticksOut, s.a.ticksIn, s.ba, k);
    case Deliver(true) => DeliverKeepsDue(d, s.a.ticksOut, s.b.ticksIn, s.ab);
    case Deliver(false) => DeliverKeepsDue(d, s.b.ticksOut, s.a.ticksIn, s.ba);
  }

  lemma {:induction false} TraceKeepsInv(d: Bounds, ls: seq<Link>, es: seq<Event>, k: nat)
    requires d.delay + d.late <= 1 && Trace(d, ls, es) && ls[0] == START && k <= |es|
    ensures Inv(d, ls[k])
    decreases k
  {
    if k > 0 {
      hide Inv, Step, Enabled;
      TraceKeepsInv(d, ls, es, k - 1);
      var e := es[k - 1];
      StepKeepsInv(d, ls[k - 1], e);
    }
  }

  /** Whatever traffic is mixed in, no peer counts beyond its limits. */
  lemma {:induction false} CountersBounded(d: Bounds, ls: seq<Link>, es: seq<Event>, k: nat)
    requires d.delay + d.late <= 1 && Trace(d, ls, es) && ls[0] == START && k <= |es|
    ensures var s := ls[k];
            && s.a.ticksIn <= IN_TICKS && s.b.ticksIn <= IN_TICKS
            && s.a.ticksOut <= OUT_TICKS && s.b.ticksOut <= OUT_TICKS
  {
    TraceKeepsInv(d, ls, es, k);
  }

  // ---------------------------------------------------------------------------------------------
  // The exact bound

  ghost predicate Reaches(d: Bounds, s: Link) {
    exists ls: seq<Link>, es :: Trace(d, ls, es) && ls[0] == START && ls[|es|] == s
  }

  lemma {:induction false} Next(d: Bounds, s: Link, e: Event) returns (t: Link)
    requires Reaches(d, s) && Enabled(d, s, e)
    ensures t == Step(d, s, e) && Reaches(d, t)
  {
    hide Step, Enabled;
    var ls: seq<Link>, es :| Trace(d, ls, es) && ls[0] == START && ls[|es|] == s;
    t := Step(d, s, e);
    var ls2, es2 := ls + [t], es + [e];
    OneMore((x, y, z) => Enabled(d, x, y) && z == Step(d, x, y), ls, es, e, t);
    assert Trace(d, ls2, es2) && ls2[|es2|] == t;
  }

  /** One send, delivered at once; the other side says nothing. */
  lemma {:induction false} OneDelivered(d: Bounds) returns (s: Link)
    ensures Reaches(d, s) && s == START.(ab := Wire([], [0]))
  {
    assert Trace(d, [START], []);
    hide Reaches;
    s := Next(d, START, Send(true));
    s := Next(d, s, Deliver(true));
    assert s.ab.flight == [];
  }

  /** Two ticks before the completion and three more before the keepalive: the other side hears nothing
      for five. */
  lemma {:induction false} LateByTwo(d: Bounds) returns (s: Link)
    requires d.late >= 2
    ensures Reaches(d, s) && s.state.TimedOut?
  {
    hide Reaches;
    s := OneDelivered(d);
    s := Next(d, s, Tick(true, true));
    s := Next(d, s, Tick(true, true));
    s := Next(d, s, Complete(true, 0));
    s := Next(d, s, Tick(true, true));
    s := Next(d, s, Deliver(false));
    s := Next(d, s, Tick(true, true));
    s := Next(d, s, Tick(true, true));
  }

  lemma {:induction false} LateAndDelayed(d: Bounds) returns (s: Link)
    requires d.late >= 1 && d.delay >= 1
    ensures Reaches(d, s) && s.state.TimedOut?
  {
    hide Reaches;
    s := OneDelivered(d);
    s := Next(d, s, Tick(true, true));
    s := Next(d, s, Complete(true, 0));
    s := Next(d, s, Tick(true, true));
    s := Next(d, s, Tick(true, true));
    s := Next(d, s, Deliver(false));
    s := Next(d, s, Tick(true, true));
    s := Next(d, s, Tick(true, true));
  }

  lemma {:induction false} DelayedByTwo(d: Bounds) returns (s: Link)
    requires d.delay >= 2
    ensures Reaches(d, s) && s.state.TimedOut?
  {
    hide Reaches;
    s := OneDelivered(d);
    s := Next(d, s, Complete(true, 0));
    s := Next(d, s, Tick(true, true));
    s := Next(d, s, Tick(true, true));
    s := Next(d, s, Tick(true, true));
    s := Next(d, s, Deliver(false));
    s := Next(d, s, Tick(true, true));
    s := Next(d, s, Tick(true, true));
  }

  /** No run lets the connection time out exactly when delay and lateness come to at most one tick
      together. */
  lemma {:induction false} NeverDropsExactly(d: Bounds)
    ensures (forall s :: Reaches(d, s) ==> !s.state.TimedOut?) <==> d.delay + d.late <= 1
  {
    if d.delay + d.late <= 1 {
      forall s | Reaches(d, s) ensures !s.state.TimedOut? {
        var ls: seq<Link>, es :| Trace(d, ls, es) && ls[0] == START && ls[|es|] == s;
        TraceKeepsInv(d, ls, es, |es|);
      }
    } else {
      var s;
      if d.late >= 2 {
        s := LateByTwo(d);
      } else if d.delay >= 2 {
        s := DelayedByTwo(d);
      } else {
        s := LateAndDelayed(d);
      }
    }
  }

  // ---------------------------------------------------------------------------------------------
  // The counters in place

  class Counters {
    var ticksIn: nat
    var ticksOut: nat

    constructor ()
      ensures View() == Peer(0, 0)
    {
      ticksIn, ticksOut := 0, 0;
    }

    function View(): Peer
      reads this
    {
      Peer(ticksIn, ticksOut)
    }

    /** One keepalive tick; neither counter leaves eight bits. */
    method OnTick() returns (o: Outcome)
      modifies this
      ensures (View(), o) == Ticked(old(View()))
      ensures ticksIn <= IN_TICKS && (old(ticksOut) <= OUT_TICKS ==> ticksOut <= OUT_TICKS)
    {
      ticksIn := ticksIn + 1;
      if ticksIn > IN_TICKS {
        ticksIn := 0;
        return Expired;
      }
      ticksOut := ticksOut + 1;
      if ticksOut > OUT_TICKS {
        ticksOut := 0;
        return SendsKeepalive;
      }
      return Nothing;
    }

    /** A send, or the completion of one. */
    method OnSent()
      modifies this`ticksOut
      ensures View() == old(View()).(ticksOut := 0)
    {
      ticksOut := 0;
    }

    method OnReceived()
      modifies this`ticksIn
      ensures View() == old(View()).(ticksIn := 0)
    {
      ticksIn := 0;
    }
  }

  // ---------------------------------------------------------------------------------------------
  // The counters as the events tell them

  /** The peer's own traffic, which restarts its one counter. */
  predicate Touches(e: Event, a: bool) { (e.Send? || e.Complete?) && e.fromA == a }

  /** A frame reaches the peer. */
  predicate Arrives(e: Event, a: bool) { e.Deliver? && e.fromA != a }

  /** Ticks among the first k events since the last own traffic. */
  function SinceOut(es: seq<Event>, k: nat, a: bool): nat
    requires k <= |es|
  {
    if k == 0 || Touches(es[k - 1], a) then 0 else SinceOut(es, k - 1, a) + Int(es[k - 1].Tick?)
  }

  /** Ticks among the first k events since the last arrival. */
  function SinceIn(es: seq<Event>, k: nat, a: bool): nat
    requires k <= |es|
  {
    if k == 0 || Arrives(es[k - 1], a) then 0 else SinceIn(es, k - 1, a) + Int(es[k - 1].Tick?)
  }

  function PeerOf(s: Link, a: bool): Peer { if a then s.a else s.b }

  function WireOf(s: Link, a: bool): Wire { if a then s.ab else s.ba }

  lemma {:induction false} StepCounts(d: Bounds, s: Link, e: Event, a: bool)
    requires Enabled(d, s, e) && PeerOf(s, a).ticksOut <= OUT_TICKS && Step(d, s, e).state.Alive?
    ensures PeerOf(Step(d, s, e), a).ticksIn == if Arrives(e, a) then 0 else PeerOf(s, a).ticksIn + Int(e.Tick?)
    ensures PeerOf(Step(d, s, e), a).ticksOut
            == if Touches(e, a) then 0 else (PeerOf(s, a).ticksOut + Int(e.Tick?)) % 3
  {
    hide Aged, Completed;
  }

  lemma {:induction false} AliveBefore(d: Bounds, s: Link, e: Event)
    requires Enabled(d, s, e)
    ensures s.state.Alive?
  {
  }

  lemma {:induction false} ThirdTicks(n: nat, t: nat)
    ensures (n % 3 + t) % 3 == (n + t) % 3
  {
  }

  lemma {:induction false} CountersTell(d: Bounds, ls: seq<Link>, es: seq<Event>, k: nat, a: bool)
    requires Trace(d, ls, es) && ls[0] == START && k <= |es| && ls[k].state.Alive?
    ensures PeerOf(ls[k], a).ticksIn == SinceIn(es, k, a) && PeerOf(ls[k], a).ticksOut == SinceOut(es, k, a) % 3
    decreases k
  {
    hide Step, Enabled;
    if k > 0 {
      var e := es[k - 1];
      AliveBefore(d, ls[k - 1], e);
      CountersTell(d, ls, es, k - 1, a);
      StepCounts(d, ls[k - 1], e, a);
      ThirdTicks(SinceOut(es, k - 1, a), Int(e.Tick?));
    }
  }

  /** A tick drops the connection exactly when one of the peers saw no arrival for four ticks before it;
      otherwise it fails exactly when a peer's keepalive is due and cannot be posted. */
  lemma {:induction false} DropsExactly(d: Bounds, ls: seq<Link>, es: seq<Event>, k: nat)
    requires Trace(d, ls, es) && ls[0] == START && k < |es| && es[k].Tick?
    ensures ls[k + 1].state.TimedOut? <==> SinceIn(es, k, true) >= 4 || SinceIn(es, k, false) >= 4
    ensures !ls[k + 1].state.TimedOut? ==>
              (ls[k + 1].state.PostFailed? <==> (SinceOut(es, k, true) % 3 == 2 && !es[k].postsA)
                                                || (SinceOut(es, k, false) % 3 == 2 && !es[k].postsB))
  {
    var e := es[k];
    assert ls[k].state.Alive?;
    CountersTell(d, ls, es, k, true);
    CountersTell(d, ls, es, k, false);
    hide Aged;
  }

  /** A tick that drops nothing puts a keepalive on the wire of a peer exactly when it is every third tick
      since that peer's own traffic. */
  lemma {:induction false} KeepalivesExactly(d: Bounds, ls: seq<Link>, es: seq<Event>, k: nat, a: bool)
    requires Trace(d, ls, es) && ls[0] == START && k < |es| && es[k].Tick? && !ls[k + 1].state.TimedOut?
    ensures |WireOf(ls[k + 1], a).flight| == |WireOf(ls[k], a).flight| + Int(SinceOut(es, k, a) % 3 == 2)
  {
    var e := es[k];
    assert ls[k].state.Alive?;
    CountersTell(d, ls, es, k, a);
  }
}
