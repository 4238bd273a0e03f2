/** Stopping and starting one worker while the poller walks over all of them, step by step. */
module WorkerStop {
  import opened Basics

  /** The poller tests a stopping worker and signals it in two steps; taken as one, it cannot be late. */
  datatype Grain = Split | Whole

  /** Where the poller is: past the first test of the worker (Low), about to signal (SawStopping), in its
      items, handling one of its events, on the way out after the handler stopped the worker, or handling
      an event of another worker. */
  datatype Poller = Away | Low | SawStopping | InItems | Dispatching | Departing | Elsewhere

  /** Where the thread that stops the worker from outside is; at rest it is not in the call. */
  datatype Caller = Rest | Testing | Raising | Waiting | Lowering | Clearing

  datatype Worker = Worker(active: nat, sync: bool, lockSafe: bool, poller: Poller, caller: Caller)

  datatype Event =
    | Visit | ReadOne | Signal | LeaveItems | Dispatch | DispatchOther | Finish
    | StopCall | TestSafe | Raise | See | Lower | Clear
    | StartCall
    | InnerStop | InnerStart // by the handler, on the poller itself

  predicate Handling(p: Poller) { p.Dispatching? || p.Departing? || p.Elsewhere? }

  /** The contexts of the library keep the handler and an outside caller apart. */
  predicate Enabled(w: Worker, e: Event) {
    match e
    case Visit | DispatchOther => w.poller.Away?
    case ReadOne => w.poller.Low?
    case Signal => w.poller.SawStopping?
    case LeaveItems | Dispatch => w.poller.InItems?
    case Finish => Handling(w.poller)
    case StopCall | StartCall => w.caller.Rest?
    case TestSafe => w.caller.Testing?
    case Raise => w.caller.Raising?
    case See => w.caller.Waiting? && w.sync
    case Lower => w.caller.Lowering?
    case Clear => w.caller.Clearing?
    case InnerStop | InnerStart => w.caller.Rest? && Handling(w.poller)
  }

  function Step(g: Grain, w: Worker, e: Event): Worker
    requires Enabled(w, e)
  {
    match e
    case Visit =>
      if w.active >= 2 then w.(poller := InItems)
      else if g.Split? then w.(poller := Low)
      else if w.active == 1 then w.(sync := true)
      else w
    case ReadOne => w.(poller := if w.active == 1 then SawStopping else Away)
    case Signal => w.(poller := Away, sync := true)
    case LeaveItems => w.(poller := Away)
    case Dispatch => w.(poller := Dispatching, lockSafe := true)
    case DispatchOther => w.(poller := Elsewhere, lockSafe := true)
    case Finish => w.(poller := Away, lockSafe := false)
    case StopCall => if w.active != 2 then w else w.(caller := Testing)
    case TestSafe => if w.lockSafe then w.(active := 0, caller := Rest) else w.(caller := Raising)
    case Raise => w.(active := 1, caller := Waiting)
    case See => w.(caller := Lowering)
    case Lower => w.(active := 0, caller := Clearing)
    case Clear => w.(sync := false, caller := Rest)
    case StartCall | InnerStart => w.(active := 2)
    case InnerStop =>
      if w.active != 2 then w else w.(active := 0, poller := if w.poller.Dispatching? then Departing else w.poller)
  }

  /** A run: the states passed through and the events between them. */
  ghost predicate Trace(g: Grain, ws: seq<Worker>, es: seq<Event>) {
    && |ws| == |es| + 1
    && forall k {:trigger es[k]} | 0 <= k < |es| :: Enabled(ws[k], es[k]) && ws[k + 1] == Step(g, ws[k], es[k])
  }

  /** A new worker. */
  const NEW := Worker(0, false, false, Away, Rest)

  predicate Inside(p: Poller) { p.InItems? || p.Dispatching? }

  /** A stop has returned and the poller is still among the items of the worker. */
  predicate Broken(w: Worker) { w.caller.Rest? && w.active == 0 && Inside(w.poller) }

  /** A stop from outside finds lock_safe set because the poller is handling an event of this worker. */
  predicate Slips(w: Worker, e: Event) { e.TestSafe? && w.lockSafe && w.poller.Dispatching? }

  // ---------------------------------------------------------------------------------------------
  // Test and signal in one step

  predicate Inv(w: Worker) {
    && (match w.caller
        case Rest => w.active == 0 || w.active == 2
        case Testing | Raising => w.active == 2
        case Waiting | Lowering => w.active == 1
        case Clearing => w.active == 0)
    && (w.lockSafe <==> Handling(w.poller))
    && ((w.caller.Lowering? || w.caller.Clearing? || (w.caller.Rest? && w.active == 0)) ==> !Inside(w.poller))
  }

  predicate InvWhole(w: Worker) {
    && Inv(w)
    && !w.poller.Low? && !w.poller.SawStopping?
    && (w.sync ==> (w.caller.Waiting? || w.caller.Lowering? || w.caller.Clearing?) && !Inside(w.poller))
  }

  lemma {:induction false} WholeKeeps(w: Worker, e: Event)
    requires InvWhole(w) && Enabled(w, e) && !Slips(w, e)
    ensures InvWhole(Step(Whole, w, e))
  {
  }

  /** None of the first k events takes the short way. */
  predicate Unslipped(ws: seq<Worker>, es: seq<Event>, k: nat)
    requires k <= |es| < |ws|
  {
    forall j {:trigger Slips(ws[j], es[j])} | 0 <= j < k :: !Slips(ws[j], es[j])
  }

  lemma {:induction false} SlippingBreaks(g: Grain, w: Worker, e: Event)
    requires Enabled(w, e) && Slips(w, e)
    ensures Broken(Step(g, w, e))
  {
  }

  lemma {:induction false} UnslippedWhole(ws: seq<Worker>, es: seq<Event>, k: nat)
    requires Trace(Whole, ws, es) && InvWhole(ws[0]) && k <= |es|
    requires Unslipped(ws, es, k)
    ensures InvWhole(ws[k])
    decreases k
  {
    if k > 0 {
      hide InvWhole, Step, Enabled, Slips;
      UnslippedWhole(ws, es, k - 1);
      var e := es[k - 1];
      WholeKeeps(ws[k - 1], e);
    }
  }

  lemma {:induction false} WholeIsQuiet(w: Worker)
    requires InvWhole(w)
    ensures !Broken(w)
  {
  }

  /** A run of any number of starts and stops breaks a stop exactly when one from outside takes the
      short way because the poller is handling an event of the worker. */
  lemma {:induction false} QuiescenceWhole(ws: seq<Worker>, es: seq<Event>)
    requires Trace(Whole, ws, es) && InvWhole(ws[0])
    ensures (forall k {:trigger Broken(ws[k])} | 0 <= k <= |es| :: !Broken(ws[k])) <==> Unslipped(ws, es, |es|)
  {
    hide Step, Enabled, Slips, Broken, InvWhole;
    if !Unslipped(ws, es, |es|) {
      var k :| 0 <= k < |es| && Slips(ws[k], es[k]);
      SlippingBreaks(Whole, ws[k], es[k]);
      assert Broken(ws[k + 1]);
    } else {
      forall k | 0 <= k <= |es| ensures !Broken(ws[k]) {
        UnslippedWhole(ws, es, k);
        WholeIsQuiet(ws[k]);
      }
    }
  }

  lemma {:induction false} Then(g: Grain, ws: seq<Worker>, es: seq<Event>, e: Event)
      returns (ws2: seq<Worker>, es2: seq<Event>)
    requires Trace(g, ws, es) && Enabled(ws[|es|], e)
    ensures ws2 == ws + [Step(g, ws[|es|], e)] && es2 == es + [e] && Trace(g, ws2, es2)
  {
    hide Step, Enabled;
    ws2, es2 := ws + [Step(g, ws[|es|], e)], es + [e];
    OneMore((s, x, t) => Enabled(s, x) && t == Step(g, s, x), ws, es, e, Step(g, ws[|es|], e));
  }

  /** The short way is taken in some run, whether test and signal are one step or two. */
  lemma {:induction false} ShortWayRun(g: Grain) returns (ws: seq<Worker>, es: seq<Event>)
    ensures Trace(g, ws, es) && ws[0] == NEW && es == [StartCall, Visit, Dispatch, StopCall, TestSafe]
    ensures Slips(ws[4], es[4]) && Broken(ws[5])
  {
    ws, es := [NEW], [];
    ws, es := Then(g, ws, es, StartCall);
    ws, es := Then(g, ws, es, Visit);
    ws, es := Then(g, ws, es, Dispatch);
    ws, es := Then(g, ws, es, StopCall);
    ws, es := Then(g, ws, es, TestSafe);
  }

  // ---------------------------------------------------------------------------------------------
  // As written: test and signal in two steps

  predicate Starts(e: Event) { e.StartCall? || e.InnerStart? }

  /** The worker is not started again, and no stop takes the short way from outside. */
  ghost predicate Clean(ws: seq<Worker>, es: seq<Event>)
    requires |es| < |ws|
  {
    Unslipped(ws, es, |es|) && forall k {:trigger Starts(es[k])} | 0 <= k < |es| :: !Starts(es[k])
  }

  ghost predicate CanBreak(g: Grain, w: Worker) {
    exists ws: seq<Worker>, es :: Trace(g, ws, es) && ws[0] == w && Clean(ws, es) && Broken(ws[|es|])
  }

  /** What the next stop keeps when it starts with no signal pending or under way. */
  predicate NextStopHolds(w: Worker) {
    && Inv(w)
    && (w.caller.Testing? || w.caller.Raising? || (w.caller.Rest? && w.active == 2) ==>
          !w.sync && !w.poller.SawStopping?)
    && (w.caller.Waiting? && (w.sync || w.poller.SawStopping?) ==> !Inside(w.poller))
  }

  lemma {:induction false} NextStopKeeps(g: Grain, w: Worker, e: Event)
    requires NextStopHolds(w) && Enabled(w, e) && !Starts(e) && !Slips(w, e)
    ensures NextStopHolds(Step(g, w, e)) && !Broken(Step(g, w, e))
  {
  }

  lemma {:induction false} NextStopSafe(g: Grain, ws: seq<Worker>, es: seq<Event>, k: nat)
    requires Trace(g, ws, es) && Clean(ws, es) && NextStopHolds(ws[0]) && k <= |es|
    ensures NextStopHolds(ws[k]) && (k > 0 ==> !Broken(ws[k]))
    decreases k
  {
    if k > 0 {
      hide NextStopHolds, Step, Enabled, Broken;
      NextStopSafe(g, ws, es, k - 1);
      var e := es[k - 1];
      NextStopKeeps(g, ws[k - 1], e);
    }
  }

  lemma {:induction false} Before(g: Grain, w: Worker, e: Event, ws: seq<Worker>, es: seq<Event>)
    requires Enabled(w, e) && Trace(g, ws, es) && ws[0] == Step(g, w, e)
    ensures Trace(g, [w] + ws, [e] + es)
  {
    hide Step, Enabled;
    OneBefore((s, x, t) => Enabled(s, x) && t == Step(g, s, x), w, e, ws, es);
  }

  lemma {:induction false} CleanBefore(w: Worker, e: Event, ws: seq<Worker>, es: seq<Event>)
    requires |es| < |ws| && Clean(ws, es) && !Starts(e) && !Slips(w, e)
    ensures Clean([w] + ws, [e] + es)
  {
    hide Starts, Slips;
    var ws2, es2 := [w] + ws, [e] + es;
    forall k | 0 <= k < |es2| ensures !Starts(es2[k]) && !Slips(ws2[k], es2[k]) {
      if k > 0 { assert es2[k] == es[k - 1] && ws2[k] == ws[k - 1]; }
    }
  }

  lemma {:induction false} CanBreakLater(g: Grain, w: Worker, e: Event)
    requires Enabled(w, e) && !Starts(e) && !Slips(w, e) && CanBreak(g, Step(g, w, e))
    ensures CanBreak(g, w)
  {
    hide Step, Enabled, Starts, Slips, Broken, Clean;
    var ws: seq<Worker>, es :|
      Trace(g, ws, es) && ws[0] == Step(g, w, e) && Clean(ws, es) && Broken(ws[|es|]);
    Before(g, w, e, ws, es);
    CleanBefore(w, e, ws, es);
    hide Trace;
    assert ([w] + ws)[0] == w && ([w] + ws)[|[e] + es|] == ws[|es|];
  }

  lemma {:induction false} CanBreakNow(g: Grain, w: Worker)
    requires Broken(w)
    ensures CanBreak(g, w)
  {
    assert Trace(g, [w], []) && Clean([w], []);
  }

  lemma {:induction false} StaleSignalBreaks(g: Grain, w: Worker)
    requires w.sync && w.poller.InItems? && !w.lockSafe && w.active == 2 && w.caller.Rest?
    ensures CanBreak(g, w)
  {
    hide CanBreak;
    var w1 := Step(g, w, StopCall);
    var w2 := Step(g, w1, TestSafe);
    var w3 := Step(g, w2, Raise);
    var w4 := Step(g, w3, See);
    var w5 := Step(g, w4, Lower);
    CanBreakNow(g, Step(g, w5, Clear));
    CanBreakLater(g, w5, Clear);
    CanBreakLater(g, w4, Lower);
    CanBreakLater(g, w3, See);
    CanBreakLater(g, w2, Raise);
    CanBreakLater(g, w1, TestSafe);
    CanBreakLater(g, w, StopCall);
  }

  /** The poller can always come to the items of a running worker. */
  lemma {:induction false} StaleSignalFindsPoller(g: Grain, w: Worker)
    requires Inv(w) && w.sync && w.active == 2 && w.caller.Rest?
    ensures CanBreak(g, w)
    decreases if w.poller.InItems? then 0 else if w.poller.Away? then 1 else 2
  {
    hide CanBreak;
    if w.poller.InItems? {
      StaleSignalBreaks(g, w);
    } else {
      var e := match w.poller
        case Away => Visit
        case Low => ReadOne
        case SawStopping => Signal
        case _ => Finish;
      StaleSignalFindsPoller(g, Step(g, w, e));
      CanBreakLater(g, w, e);
    }
  }

  /** The next stop of a running worker can break exactly when a signal is left over or about to be given. */
  lemma {:induction false} NextStopExact(g: Grain, w: Worker)
    requires Inv(w) && w.active == 2 && w.caller.Rest?
    ensures CanBreak(g, w) <==> w.sync || w.poller.SawStopping?
  {
    if w.sync {
      StaleSignalFindsPoller(g, w);
    } else if w.poller.SawStopping? {
      StaleSignalFindsPoller(g, Step(g, w, Signal));
      CanBreakLater(g, w, Signal);
    } else {
      hide Step, Enabled;
      forall ws: seq<Worker>, es | Trace(g, ws, es) && ws[0] == w && Clean(ws, es) ensures !Broken(ws[|es|]) {
        NextStopSafe(g, ws, es, |es|);
      }
    }
  }

  /** Reached with no stop taking the short way from outside. */
  ghost predicate Reaches(g: Grain, w: Worker) {
    exists ws: seq<Worker>, es ::
      Trace(g, ws, es) && ws[0] == NEW && ws[|es|] == w && Unslipped(ws, es, |es|)
  }

  lemma {:induction false} ReachesNext(g: Grain, w: Worker, e: Event) returns (v: Worker)
    requires Reaches(g, w) && Enabled(w, e) && !Slips(w, e)
    ensures v == Step(g, w, e) && Reaches(g, v)
  {
    hide Step, Enabled, Slips;
    var ws: seq<Worker>, es :|
      Trace(g, ws, es) && ws[0] == NEW && ws[|es|] == w && Unslipped(ws, es, |es|);
    v := Step(g, w, e);
    var ws2, es2 := Then(g, ws, es, e);
    forall k | 0 <= k < |es2| ensures !Slips(ws2[k], es2[k]) {
      if k < |es| { assert es2[k] == es[k] && ws2[k] == ws[k]; }
    }
    assert ws2[|es2|] == v;
  }

  lemma {:induction false} ReachesNew(g: Grain)
    ensures Reaches(g, NEW)
  {
    assert Trace(g, [NEW], []);
  }

  /** A poller that tests a stopping worker a second time ... */
  lemma {:induction false} SecondVisit() returns (w: Worker)
    ensures Reaches(Split, w) && w == Worker(1, true, false, SawStopping, Lowering)
  {
    ReachesNew(Split);
    hide Reaches;
    w := ReachesNext(Split, NEW, StartCall);
    w := ReachesNext(Split, w, StopCall);
    w := ReachesNext(Split, w, TestSafe);
    w := ReachesNext(Split, w, Raise);
    w := ReachesNext(Split, w, Visit);
    w := ReachesNext(Split, w, ReadOne);
    w := ReachesNext(Split, w, Signal);
    w := ReachesNext(Split, w, See);
    w := ReachesNext(Split, w, Visit);
    w := ReachesNext(Split, w, ReadOne);
  }

  /** ... signals it after the stop has returned. */
  lemma {:induction false} LateSignal() returns (w: Worker)
    ensures Reaches(Split, w) && w == Worker(2, true, false, Away, Rest)
  {
    hide Reaches;
    w := SecondVisit();
    w := ReachesNext(Split, w, Lower);
    w := ReachesNext(Split, w, Clear);
    w := ReachesNext(Split, w, Signal);
    w := ReachesNext(Split, w, StartCall);
  }

  lemma {:induction false} BrokenStop() returns (w: Worker)
    ensures Reaches(Split, w) && Broken(w)
  {
    hide Reaches;
    w := LateSignal();
    w := ReachesNext(Split, w, Visit);
    w := ReachesNext(Split, w, StopCall);
    w := ReachesNext(Split, w, TestSafe);
    w := ReachesNext(Split, w, Raise);
    w := ReachesNext(Split, w, See);
    w := ReachesNext(Split, w, Lower);
    w := ReachesNext(Split, w, Clear);
  }

  /** Apart from the short way, a stop can return with the poller among the items exactly because the
      test and the signal are two steps. */
  lemma {:induction false} QuiescenceExact(g: Grain)
    ensures (exists w :: Reaches(g, w) && Broken(w)) <==> g.Split?
  {
    if g.Split? {
      var w := BrokenStop();
    } else {
      forall w | Reaches(g, w) ensures !Broken(w) {
        var ws: seq<Worker>, es :|
          Trace(g, ws, es) && ws[0] == NEW && ws[|es|] == w && Unslipped(ws, es, |es|);
        UnslippedWhole(ws, es, |es|);
      }
    }
  }

  ghost predicate LeadsTo(g: Grain, w: Worker, v: Worker) {
    exists ws: seq<Worker>, es :: Trace(g, ws, es) && ws[0] == w && ws[|es|] == v
  }

  lemma {:induction false} Onwards(g: Grain, w: Worker, v: Worker, e: Event) returns (u: Worker)
    requires LeadsTo(g, w, v) && Enabled(v, e)
    ensures u == Step(g, v, e) && LeadsTo(g, w, u)
  {
    hide Step, Enabled;
    var ws: seq<Worker>, es :| Trace(g, ws, es) && ws[0] == w && ws[|es|] == v;
    var ws2, es2 := Then(g, ws, es, e);
    u := Step(g, v, e);
    assert ws2[|es2|] == u && ws2[0] == w;
  }

  lemma {:induction false} Already(g: Grain, w: Worker)
    ensures LeadsTo(g, w, w)
  {
    var ws, es: seq<Event> := [w], [];
    assert Trace(g, ws, es) && ws[|es|] == w;
  }

  const ATTENDED := Worker(2, false, false, InItems, Rest)
  const WAITED_FOR := Worker(1, false, false, Away, Waiting)

  lemma {:induction false} StopReturns(g: Grain)
    ensures LeadsTo(g, WAITED_FOR, NEW)
  {
    hide LeadsTo;
    Already(g, WAITED_FOR);
    var w := Onwards(g, WAITED_FOR, WAITED_FOR, Visit);
    if g.Split? {
      w := Onwards(g, WAITED_FOR, w, ReadOne);
      w := Onwards(g, WAITED_FOR, w, Signal);
    }
    w := Onwards(g, WAITED_FOR, w, See);
    w := Onwards(g, WAITED_FOR, w, Lower);
    w := Onwards(g, WAITED_FOR, w, Clear);
  }

  /** A worker is started and attended to by the poller, a stop from outside waits for the poller, and once it
      returns the worker is as new. */
  lemma {:induction false} OneRound(g: Grain)
    ensures LeadsTo(g, NEW, ATTENDED) && LeadsTo(g, ATTENDED, WAITED_FOR) && LeadsTo(g, WAITED_FOR, NEW)
  {
    hide LeadsTo;
    StopReturns(g);
    Already(g, NEW);
    Already(g, ATTENDED);
    var w := Onwards(g, NEW, NEW, StartCall);
    w := Onwards(g, NEW, w, Visit);
    w := Onwards(g, ATTENDED, ATTENDED, LeaveItems);
    w := Onwards(g, ATTENDED, w, StopCall);
    w := Onwards(g, ATTENDED, w, TestSafe);
    w := Onwards(g, ATTENDED, w, Raise);
  }

  // ---------------------------------------------------------------------------------------------
  // What the state tells of the calls made

  /** Of the calls among the first k events the last was a start. */
  function Started(es: seq<Event>, k: nat): bool
    requires k <= |es|
  {
    if k == 0 then false
    else match es[k - 1]
      case StartCall | InnerStart => true
      case StopCall | InnerStop => false
      case _ => Started(es, k - 1)
  }

  predicate Tells(w: Worker, started: bool) {
    match w.caller
    case Rest => w.active == if started then 2 else 0
    case Testing | Raising => w.active == 2 && !started
    case Waiting | Lowering => w.active == 1 && !started
    case Clearing => w.active == 0 && !started
  }

  /** Whatever the poller and the handler do, with no stop under way a worker is active exactly when the last
      call was a start. */
  lemma {:induction false} ActiveExactly(g: Grain, ws: seq<Worker>, es: seq<Event>, k: nat)
    requires Trace(g, ws, es) && ws[0] == NEW && k <= |es|
    ensures Tells(ws[k], Started(es, k))
    ensures ws[k].caller.Rest? ==> (ws[k].active == 2 <==> Started(es, k))
    decreases k
  {
    if k > 0 {
      ActiveExactly(g, ws, es, k - 1);
      var e := es[k - 1];
      assert Enabled(ws[k - 1], e) && ws[k] == Step(g, ws[k - 1], e);
    }
  }

  /** The poller signals nobody while no stop from outside was asked for. */
  lemma {:induction false} NoStopNoSignal(g: Grain, ws: seq<Worker>, es: seq<Event>, k: nat)
    requires Trace(g, ws, es) && ws[0] == NEW && k <= |es| && forall j | 0 <= j < k :: !es[j].StopCall?
    ensures !ws[k].sync && !ws[k].poller.SawStopping? && ws[k].caller.Rest? && ws[k].active != 1
    decreases k
  {
    if k > 0 {
      NoStopNoSignal(g, ws, es, k - 1);
      var e := es[k - 1];
      assert Enabled(ws[k - 1], e) && ws[k] == Step(g, ws[k - 1], e);
    }
  }
}
