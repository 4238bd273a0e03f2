/** The listener's table of offsets, one for each connection it accepts, and the registration keys that
    each connection derives from its own. */
module Offsets {
  import opened Basics

  /** How many slots a full table grows by. */
  const GROWTH := 64

  /** The first slot that is not taken, or the size of the table. */
  function FirstFree(slots: seq<bool>): (i: nat)
    ensures i <= |slots| && (forall k | 0 <= k < i :: slots[k]) && (i < |slots| ==> !slots[i])
  {
    if |slots| == 0 || !slots[0] then 0 else 1 + FirstFree(slots[1..])
  }

  function Unused(n: nat): (s: seq<bool>)
    ensures |s| == n && forall k | 0 <= k < n :: !s[k]
  {
    seq(n, _ => false)
  }

  /** Takes a free slot, or the first one of a grown table, which as written is not marked. */
  function Alloc(b: Build, slots: seq<bool>): (seq<bool>, nat) {
    var i := FirstFree(slots);
    if i < |slots| then (slots[i := true], i)
    else ((slots + Unused(GROWTH))[i := b.Corrected?], i)
  }

  function Free(slots: seq<bool>, offset: nat): seq<bool>
    requires offset < |slots|
  {
    slots[offset := false]
  }

  /** The table and the offsets of the live connections, oldest first; `leaked` counts slots given to
      connections that were refused. A listener that is stopping takes no more requests. */
  datatype Listener = Listener(slots: seq<bool>, live: seq<nat>, leaked: nat, stopping: bool)

  /** After a request that got as far as being accepted or refused, the listener opens its endpoint anew,
      or stops. */
  datatype Event =
    | Accepted(reopened: bool) | AcceptFails(reopened: bool) | InitFails
    | Ended(k: nat) // a connection has stopped and is reaped
    | Close

  predicate Request(e: Event) { e.Accepted? || e.AcceptFails? || e.InitFails? }

  predicate Enabled(s: Listener, e: Event) {
    if e.Ended? then e.k < |s.live| && s.live[e.k] < |s.slots| else !s.stopping
  }

  function Step(b: Build, s: Listener, e: Event): Listener
    requires Enabled(s, e)
  {
    match e
    case Accepted(reopened) =>
      var (slots, i) := Alloc(b, s.slots);
      s.(slots := slots, live := s.live + [i], stopping := !reopened)
    case AcceptFails(reopened) =>
      var (slots, _) := Alloc(b, s.slots);
      s.(slots := slots, leaked := s.leaked + 1, stopping := !reopened)
    case InitFails =>
      var (slots, i) := Alloc(b, s.slots);
      s.(slots := Free(slots, i), stopping := true)
    case Ended(k) => s.(slots := Free(s.slots, s.live[k]), live := Without(s.live, k))
    case Close => s.(stopping := true)
  }

  /** A history: the states passed through and the events between them. */
  ghost predicate Trace(b: Build, ls: seq<Listener>, es: seq<Event>) {
    && |ls| == |es| + 1
    && forall k {:trigger es[k]} | 0 <= k < |es| :: Enabled(ls[k], es[k]) && ls[k + 1] == Step(b, ls[k], es[k])
  }

  function Start(size: nat): Listener { Listener(Unused(size), [], 0, false) }

  // ---------------------------------------------------------------------------------------------
  // Offsets of live connections

  predicate Distinct(live: seq<nat>) { forall i, j | 0 <= i < j < |live| :: live[i] != live[j] }

  /** The slot that an accepted request gets belongs to a live connection. */
  predicate Collides(s: Listener, e: Event) { e.Accepted? && FirstFree(s.slots) in s.live }

  /** None of the first k events does. */
  predicate Clear(ls: seq<Listener>, es: seq<Event>, k: nat)
    requires k <= |es| < |ls|
  {
    forall j {:trigger Collides(ls[j], es[j])} | 0 <= j < k :: !Collides(ls[j], es[j])
  }

  lemma {:induction false} DistinctStep(b: Build, s: Listener, e: Event)
    requires Distinct(s.live) && Enabled(s, e)
    ensures Distinct(Step(b, s, e).live) <==> !Collides(s, e)
  {
    var t, n := Step(b, s, e), |s.live|;
    if e.Ended? {
      assert forall i | 0 <= i < |t.live| :: t.live[i] == if i < e.k then s.live[i] else s.live[i + 1];
    } else if e.Accepted? {
      assert t.live[n] == FirstFree(s.slots) && forall i | 0 <= i < n :: t.live[i] == s.live[i];
      if Collides(s, e) {
        var i :| 0 <= i < n && s.live[i] == FirstFree(s.slots);
        assert t.live[i] == t.live[n];
      }
    }
  }

  lemma {:induction false} DistinctSoFar(b: Build, ls: seq<Listener>, es: seq<Event>, k: nat)
    requires Trace(b, ls, es) && Distinct(ls[0].live) && k <= |es|
    requires Clear(ls, es, k)
    ensures Distinct(ls[k].live)
    decreases k
  {
    hide Step, Enabled, Distinct, Collides;
    if k > 0 {
      DistinctSoFar(b, ls, es, k - 1);
      var e := es[k - 1];
      DistinctStep(b, ls[k - 1], e);
    }
  }

  /** A history, as written or corrected, keeps the live offsets pairwise distinct throughout exactly when no
      accepted request finds its first free slot to be that of a live connection. */
  lemma {:induction false} DistinctExactly(b: Build, ls: seq<Listener>, es: seq<Event>)
    requires Trace(b, ls, es) && Distinct(ls[0].live)
    ensures (forall k {:trigger Distinct(ls[k].live)} | 0 <= k <= |es| :: Distinct(ls[k].live))
            <==> Clear(ls, es, |es|)
  {
    hide Step, Enabled, Distinct, Collides;
    if Clear(ls, es, |es|) {
      forall k | 0 <= k <= |es| ensures Distinct(ls[k].live) { DistinctSoFar(b, ls, es, k); }
    }
    if forall k | 0 <= k <= |es| :: Distinct(ls[k].live) {
      forall k | 0 <= k < |es| ensures !Collides(ls[k], es[k]) {
        DistinctStep(b, ls[k], es[k]);
        assert Distinct(ls[k + 1].live);
      }
    }
  }

  // ---------------------------------------------------------------------------------------------
  // Slots taken

  /** Every live offset is taken, and by one connection. */
  predicate Held(s: Listener) {
    && Distinct(s.live)
    && forall i | 0 <= i < |s.live| :: s.live[i] < |s.slots| && s.slots[s.live[i]]
  }

  predicate Full(s: Listener) { FirstFree(s.slots) == |s.slots| }

  /** A request leaves every live offset taken and distinct exactly when it found a free slot or came to
      nothing; the table as corrected has no such condition. */
  lemma {:induction false} RequestExact(b: Build, s: Listener, e: Event)
    requires Held(s) && Request(e) && Enabled(s, e)
    ensures Held(Step(b, s, e)) <==> b.Corrected? || !e.Accepted? || !Full(s)
  {
    var t, i := Step(b, s, e), FirstFree(s.slots);
    if e.Accepted? {
      assert t.live[|s.live|] == i;
      assert forall k | 0 <= k < |s.live| :: t.live[k] == s.live[k];
    }
  }

  lemma {:induction false} OthersKeepHeld(b: Build, s: Listener, e: Event)
    requires Held(s) && !Request(e) && Enabled(s, e)
    ensures Held(Step(b, s, e))
  {
    if e.Ended? {
      var t, k := Step(b, s, e), e.k;
      assert forall i | 0 <= i < |t.live| :: t.live[i] == if i < k then s.live[i] else s.live[i + 1];
    }
  }

  lemma {:induction false} HeldSoFar(b: Build, ls: seq<Listener>, es: seq<Event>, k: nat)
    requires Trace(b, ls, es) && Held(ls[0]) && k <= |es|
    requires forall j | 0 <= j < k :: b.Corrected? || !es[j].Accepted? || !Full(ls[j])
    ensures Held(ls[k])
    decreases k
  {
    hide Step, Enabled, Held, Full;
    if k > 0 {
      HeldSoFar(b, ls, es, k - 1);
      var e := es[k - 1];
      if Request(e) { RequestExact(b, ls[k - 1], e); } else { OthersKeepHeld(b, ls[k - 1], e); }
    }
  }

  /** A history keeps every live offset taken and distinct throughout exactly when no accepted request found
      the table full; with grown slots marked, always. */
  lemma {:induction false} HistoryExact(b: Build, ls: seq<Listener>, es: seq<Event>)
    requires Trace(b, ls, es) && Held(ls[0])
    ensures (forall k | 0 <= k <= |es| :: Held(ls[k]))
            <==> b.Corrected? || (forall k | 0 <= k < |es| :: !es[k].Accepted? || !Full(ls[k]))
  {
    hide Step, Enabled, Held, Full;
    if b.Corrected? || (forall k | 0 <= k < |es| :: !es[k].Accepted? || !Full(ls[k])) {
      forall k | 0 <= k <= |es| ensures Held(ls[k]) { HeldSoFar(b, ls, es, k); }
    }
    if forall k | 0 <= k <= |es| :: Held(ls[k]) {
      forall k | 0 <= k < |es| ensures b.Corrected? || !es[k].Accepted? || !Full(ls[k]) {
        if Request(es[k]) { RequestExact(b, ls[k], es[k]); }
        assert Held(ls[k + 1]);
      }
    }
  }

  /** As written, a full table gives the same offset to two requests in a row. */
  lemma {:induction false} FullTableGivesTwice(slots: seq<bool>)
    requires FirstFree(slots) == |slots|
    ensures var (s1, i) := Alloc(AsWritten, slots); Alloc(AsWritten, s1).1 == i == |slots|
    ensures var (s1, i) := Alloc(Corrected, slots); Alloc(Corrected, s1).1 != i
  {
    var (s1, i) := Alloc(AsWritten, slots);
    assert FirstFree(s1) == i by { assert !s1[i]; }
  }

  function Taken(slots: seq<bool>): nat {
    if |slots| == 0 then 0 else Taken(slots[..|slots| - 1]) + if slots[|slots| - 1] then 1 else 0
  }

  lemma {:induction false} TakenUpdate(slots: seq<bool>, i: nat, v: bool)
    requires i < |slots|
    ensures Taken(slots[i := v]) == Taken(slots) + (if v then 1 else 0) - (if slots[i] then 1 else 0)
    decreases |slots|
  {
    var n := |slots| - 1;
    if i < n {
      TakenUpdate(slots[..n], i, v);
      assert slots[i := v][..n] == slots[..n][i := v];
    } else {
      assert slots[i := v][..n] == slots[..n];
    }
  }

  lemma {:induction false} TakenGrows(slots: seq<bool>, n: nat)
    ensures Taken(slots + Unused(n)) == Taken(slots)
  {
    if n > 0 {
      TakenGrows(slots, n - 1);
      assert (slots + Unused(n))[..|slots| + n - 1] == slots + Unused(n - 1);
    } else {
      assert slots + Unused(0) == slots;
    }
  }

  /** Nothing but the live connections and those refused holds a slot, and each of them one. */
  predicate Balanced(s: Listener) { Held(s) && Taken(s.slots) == |s.live| + s.leaked }

  /** A request that keeps the slot it was given. */
  predicate KeepsSlot(e: Event) { e.Accepted? || e.AcceptFails? }

  lemma {:induction false} AllocTakes(b: Build, slots: seq<bool>)
    ensures var (t, i) := Alloc(b, slots);
            && i < |t| && t[i] == (b.Corrected? || i < |slots|)
            && Taken(t) == Taken(slots) + Int(t[i]) && Taken(Free(t, i)) == Taken(slots)
  {
    var (t, i) := Alloc(b, slots);
    if i < |slots| {
      TakenUpdate(slots, i, true);
    } else {
      TakenGrows(slots, GROWTH);
      TakenUpdate(slots + Unused(GROWTH), i, b.Corrected?);
    }
    TakenUpdate(t, i, false);
  }

  lemma {:induction false} HeldAt(s: Listener, k: nat)
    requires Held(s) && k < |s.live|
    ensures s.live[k] < |s.slots| && s.slots[s.live[k]]
  {
  }

  lemma {:induction false} BalanceStep(b: Build, s: Listener, e: Event)
    requires Balanced(s) && Enabled(s, e)
    ensures Balanced(Step(b, s, e)) <==> b.Corrected? || !KeepsSlot(e) || !Full(s)
  {
    AllocTakes(b, s.slots);
    if Request(e) {
      RequestExact(b, s, e);
      hide Held, Alloc, Free;
    } else {
      OthersKeepHeld(b, s, e);
      if e.Ended? {
        HeldAt(s, e.k);
        TakenUpdate(s.slots, s.live[e.k], false);
      }
      hide Held, Alloc;
    }
  }

  lemma {:induction false} BalancedSoFar(b: Build, ls: seq<Listener>, es: seq<Event>, k: nat)
    requires Trace(b, ls, es) && Balanced(ls[0]) && k <= |es|
    requires forall j | 0 <= j < k :: b.Corrected? || !KeepsSlot(es[j]) || !Full(ls[j])
    ensures Balanced(ls[k])
    decreases k
  {
    hide Step, Enabled, Balanced, Full;
    if k > 0 {
      BalancedSoFar(b, ls, es, k - 1);
      var e := es[k - 1];
      BalanceStep(b, ls[k - 1], e);
    }
  }

  /** A history keeps live offsets taken and distinct, with one slot lost for good to every refusal and to
      nothing else, exactly when no request that kept its slot found the table full. With grown slots marked
      every history does. */
  lemma {:induction false} BalancedExactly(b: Build, ls: seq<Listener>, es: seq<Event>)
    requires Trace(b, ls, es) && Balanced(ls[0])
    ensures (forall k | 0 <= k <= |es| :: Balanced(ls[k]))
            <==> b.Corrected? || (forall k | 0 <= k < |es| :: !KeepsSlot(es[k]) || !Full(ls[k]))
  {
    hide Step, Enabled, Balanced, Full;
    if b.Corrected? || (forall k | 0 <= k < |es| :: !KeepsSlot(es[k]) || !Full(ls[k])) {
      forall k | 0 <= k <= |es| ensures Balanced(ls[k]) { BalancedSoFar(b, ls, es, k); }
    }
    if forall k | 0 <= k <= |es| :: Balanced(ls[k]) {
      forall k | 0 <= k < |es| ensures b.Corrected? || !KeepsSlot(es[k]) || !Full(ls[k]) {
        BalanceStep(b, ls[k], es[k]);
        assert Balanced(ls[k + 1]);
      }
    }
  }

  lemma {:induction false} NothingTaken(size: nat)
    ensures Taken(Unused(size)) == 0
  {
    if size > 0 {
      assert Unused(size)[..size - 1] == Unused(size - 1);
      NothingTaken(size - 1);
    }
  }

  lemma {:induction false} StartBalanced(size: nat)
    ensures Balanced(Start(size))
  {
    NothingTaken(size);
  }

  // ---------------------------------------------------------------------------------------------
  // Sharing

  lemma {:induction false} Then(b: Build, ls: seq<Listener>, es: seq<Event>, e: Event)
      returns (ls2: seq<Listener>, es2: seq<Event>)
    requires Trace(b, ls, es) && Enabled(ls[|es|], e)
    ensures ls2 == ls + [Step(b, ls[|es|], e)] && es2 == es + [e] && Trace(b, ls2, es2)
  {
    hide Step, Enabled;
    ls2, es2 := ls + [Step(b, ls[|es|], e)], es + [e];
    OneMore((s, x, t) => Enabled(s, x) && t == Step(b, s, x), ls, es, e, Step(b, ls[|es|], e));
  }

  /** n requests accepted in a row. */
  lemma {:induction false} Requests(b: Build, size: nat, n: nat) returns (ls: seq<Listener>, es: seq<Event>)
    requires n <= size
    ensures Trace(b, ls, es) && ls[0] == Start(size) && |es| == n
    ensures var s := ls[n];
            && |s.live| == n && |s.slots| == size && !s.stopping
            && forall k | 0 <= k < size :: s.slots[k] == (k < n)
  {
    if n == 0 {
      ls, es := [Start(size)], [];
    } else {
      ls, es := Requests(b, size, n - 1);
      var s := ls[n - 1];
      assert !s.slots[n - 1];
      assert FirstFree(s.slots) == n - 1;
      ls, es := Then(b, ls, es, Accepted(true));
    }
  }

  lemma {:induction false} Sharing(size: nat) returns (ls: seq<Listener>, es: seq<Event>)
    ensures Trace(AsWritten, ls, es) && ls[0] == Start(size) && !Distinct(ls[|es|].live)
  {
    ls, es := Requests(AsWritten, size, size);
    var s := ls[size];
    FullTableGivesTwice(s.slots);
    hide Trace;
    ls, es := Then(AsWritten, ls, es, Accepted(true));
    ls, es := Then(AsWritten, ls, es, Accepted(true));
    var live := ls[size + 2].live;
    assert live[size] == size == live[size + 1];
  }

  /** Two live connections come to share an offset in some history exactly with the table as written. */
  lemma {:induction false} SharingExact(b: Build, size: nat)
    ensures (exists ls: seq<Listener>, es ::
               Trace(b, ls, es) && ls[0] == Start(size) && !Distinct(ls[|es|].live)) <==> b.AsWritten?
  {
    hide Distinct, Step, Enabled;
    if b.AsWritten? {
      var ls, es := Sharing(size);
    } else {
      forall ls: seq<Listener>, es | Trace(b, ls, es) && ls[0] == Start(size) ensures Distinct(ls[|es|].live) {
        StartBalanced(size);
        BalancedSoFar(b, ls, es, |es|);
      }
    }
  }

  // ---------------------------------------------------------------------------------------------
  // The size of the table, and the end of a listener

  /** How many of the first k events are requests that found the table full. */
  function FullIn(ls: seq<Listener>, es: seq<Event>, k: nat): nat
    requires k <= |es| < |ls|
  {
    if k == 0 then 0 else FullIn(ls, es, k - 1) + Int(Request(es[k - 1]) && Full(ls[k - 1]))
  }

  /** The table grows by 64 slots at each request that finds it full, and never shrinks. */
  lemma {:induction false} GrownExactly(b: Build, ls: seq<Listener>, es: seq<Event>, k: nat)
    requires Trace(b, ls, es) && k <= |es|
    ensures |ls[k].slots| == |ls[0].slots| + 64 * FullIn(ls, es, k)
    decreases k
  {
    if k > 0 {
      GrownExactly(b, ls, es, k - 1);
      var e := es[k - 1];
      assert Enabled(ls[k - 1], e);
    }
  }

  /** The event is the last request of a listener. */
  predicate LastRequest(e: Event) {
    e.Close? || e.InitFails? || ((e.Accepted? || e.AcceptFails?) && !e.reopened)
  }

  lemma {:induction false} StepStops(b: Build, s: Listener, e: Event)
    requires Enabled(s, e)
    ensures Step(b, s, e).stopping <==> s.stopping || LastRequest(e)
  {
  }

  /** A listener that stopped takes no request any more, it only reaps: exactly the events after a close, a
      connection that failed to initialise, or an endpoint that did not open anew. */
  lemma {:induction false} StoppedExactly(b: Build, ls: seq<Listener>, es: seq<Event>, k: nat)
    requires Trace(b, ls, es) && !ls[0].stopping && k <= |es|
    ensures ls[k].stopping <==> exists i | 0 <= i < k :: LastRequest(es[i])
    ensures k < |es| && ls[k].stopping ==> es[k].Ended?
    decreases k
  {
    if k < |es| { assert Enabled(ls[k], es[k]); }
    if k > 0 {
      StoppedExactly(b, ls, es, k - 1);
      var e := es[k - 1];
      StepStops(b, ls[k - 1], e);
      hide Step, Enabled, LastRequest;
    }
  }

  // ---------------------------------------------------------------------------------------------
  // Registration keys

  const PAGE := 0x1000
  const AUX_KEY := 0x0000
  const SEND_KEY := 0x0001
  const RECV_KEY := 0x0800

  /** What a connection registers: its auxiliary buffer, its slab memory, banks and receive buffers. */
  datatype Item = Aux | SlabMemory | BankAt(i: nat) | ReceiveAt(j: nat)

  predicate Exists(x: Item, tx: nat, rx: nat) {
    match x
    case BankAt(i) => i < 2 * tx
    case ReceiveAt(j) => j < rx
    case _ => true
  }

  function Key(offset: nat, x: Item): nat {
    PAGE * offset + match x
      case Aux => AUX_KEY
      case SlabMemory => SEND_KEY
      case BankAt(i) => SEND_KEY + i + 1
      case ReceiveAt(j) => RECV_KEY + j
  }

  /** No key is used twice, within a connection or between any two with different offsets. */
  ghost predicate KeysDistinct(tx: nat, rx: nat) {
    forall o, p, x, y :: Exists(x, tx, rx) && Exists(y, tx, rx) && Key(o, x) == Key(p, y) ==> o == p && x == y
  }

  predicate Fits(tx: nat, rx: nat) { 2 * tx + 1 <= 0x7FF && rx <= 0x800 }

  lemma {:induction false} KeyWithinPage(offset: nat, x: Item, tx: nat, rx: nat)
    requires Exists(x, tx, rx) && Fits(tx, rx)
    ensures Key(offset, x) / PAGE == offset && Key(offset, x) % PAGE == Key(0, x)
  {
  }

  /** All keys of all connections are distinct exactly when the queues fit their parts of a page. */
  lemma {:induction false} KeysExact(tx: nat, rx: nat)
    requires tx > 0 && rx > 0
    ensures KeysDistinct(tx, rx) <==> Fits(tx, rx)
  {
    if Fits(tx, rx) {
      forall o, p, x, y | Exists(x, tx, rx) && Exists(y, tx, rx) && Key(o, x) == Key(p, y) ensures o == p && x == y {
        KeyWithinPage(o, x, tx, rx);
        KeyWithinPage(p, y, tx, rx);
      }
    } else if rx > 0x800 {
      assert Key(0, ReceiveAt(0x800)) == Key(1, Aux);
      assert Exists(ReceiveAt(0x800), tx, rx) && Exists(Aux, tx, rx);
    } else {
      assert Key(0, BankAt(0x7FE)) == Key(0, ReceiveAt(0));
      assert Exists(BankAt(0x7FE), tx, rx) && Exists(ReceiveAt(0), tx, rx);
    }
  }

  /** No two registrations of the connections at these offsets have one key. */
  ghost predicate KeysApart(live: seq<nat>, tx: nat, rx: nat) {
    forall i, j, x, y | 0 <= i < |live| && 0 <= j < |live| && Exists(x, tx, rx) && Exists(y, tx, rx) ::
      Key(live[i], x) == Key(live[j], y) ==> i == j && x == y
  }

  lemma {:induction false} DistinctAt(live: seq<nat>, i: nat, j: nat)
    requires Distinct(live) && i < |live| && j < |live| && live[i] == live[j]
    ensures i == j
  {
  }

  lemma {:induction false} SharedKeys(live: seq<nat>, tx: nat, rx: nat)
    requires !Distinct(live)
    ensures !KeysApart(live, tx, rx)
  {
    var i, j :| 0 <= i < j < |live| && live[i] == live[j];
    assert Exists(Aux, tx, rx) && Key(live[i], Aux) == Key(live[j], Aux);
  }

  /** When the queues fit, keys are distinct exactly when offsets are. */
  lemma {:induction false} ApartExactly(live: seq<nat>, tx: nat, rx: nat)
    requires Fits(tx, rx)
    ensures KeysApart(live, tx, rx) <==> Distinct(live)
  {
    if Distinct(live) {
      forall i, j, x, y | 0 <= i < |live| && 0 <= j < |live| && Exists(x, tx, rx) && Exists(y, tx, rx)
                          && Key(live[i], x) == Key(live[j], y)
        ensures i == j && x == y
      {
        KeyWithinPage(live[i], x, tx, rx);
        KeyWithinPage(live[j], y, tx, rx);
        DistinctAt(live, i, j);
      }
    } else {
      SharedKeys(live, tx, rx);
    }
  }

  /** When the queues fit, a history keeps all keys of its live connections distinct throughout exactly when
      no accepted request gets the slot of a live connection. With grown slots marked none does. */
  lemma {:induction false} LiveKeysExactly(b: Build, ls: seq<Listener>, es: seq<Event>, tx: nat, rx: nat)
    requires Fits(tx, rx) && Trace(b, ls, es) && Distinct(ls[0].live)
    ensures (forall k {:trigger ls[k].live} | 0 <= k <= |es| :: KeysApart(ls[k].live, tx, rx)) <==> Clear(ls, es, |es|)
    ensures b.Corrected? && Held(ls[0]) ==> Clear(ls, es, |es|)
  {
    DistinctExactly(b, ls, es);
    hide Step, Enabled, Distinct, Clear, KeysApart, Fits;
    forall k | 0 <= k <= |es| ensures KeysApart(ls[k].live, tx, rx) <==> Distinct(ls[k].live) {
      ApartExactly(ls[k].live, tx, rx);
    }
    if b.Corrected? && Held(ls[0]) {
      HistoryExact(b, ls, es);
      forall k | 0 <= k <= |es| ensures Distinct(ls[k].live) { assert Held(ls[k]); }
    }
  }

  lemma {:induction false} TwoOffsets(size: nat)
    ensures FirstFree(Unused(size)) == 0 && FirstFree(Alloc(Corrected, Unused(size)).0) == 1
  {
    var s := Alloc(Corrected, Unused(size)).0;
    assert s[0] && (|s| > 1 ==> !s[1]);
  }

  lemma {:induction false} TwoConnections(size: nat) returns (ls: seq<Listener>, es: seq<Event>)
    ensures Trace(Corrected, ls, es) && ls[0] == Start(size) && ls[|es|].live == [0, 1]
  {
    ls, es := [Start(size)], [];
    TwoOffsets(size);
    ls, es := Then(Corrected, ls, es, Accepted(true));
    ls, es := Then(Corrected, ls, es, Accepted(true));
  }

  lemma {:induction false} ClashingKeys(tx: nat, rx: nat)
    requires !Fits(tx, rx) && tx > 0 && rx > 0
    ensures !KeysApart([0, 1], tx, rx)
  {
    var live := [0, 1];
    if rx > 0x800 {
      assert Exists(ReceiveAt(0x800), tx, rx) && Exists(Aux, tx, rx);
      assert Key(live[0], ReceiveAt(0x800)) == Key(live[1], Aux);
    } else {
      assert Exists(BankAt(0x7FE), tx, rx) && Exists(ReceiveAt(0), tx, rx);
      assert Key(live[0], BankAt(0x7FE)) == Key(live[0], ReceiveAt(0));
    }
  }

  /** In all histories of a listener the keys of its live connections stay distinct, exactly with grown slots
      marked and queues that fit. */
  lemma {:induction false} KeysSafeExactly(b: Build, size: nat, tx: nat, rx: nat)
    requires tx > 0 && rx > 0
    ensures (forall ls: seq<Listener>, es | Trace(b, ls, es) && ls[0] == Start(size) ::
               KeysApart(ls[|es|].live, tx, rx)) <==> b.Corrected? && Fits(tx, rx)
  {
    hide Step, Enabled, KeysApart;
    if b.AsWritten? {
      var ls, es := Sharing(size);
      SharedKeys(ls[|es|].live, tx, rx);
    } else if !Fits(tx, rx) {
      var ls, es := TwoConnections(size);
      ClashingKeys(tx, rx);
    } else {
      forall ls: seq<Listener>, es | Trace(b, ls, es) && ls[0] == Start(size) ensures KeysApart(ls[|es|].live, tx, rx) {
        StartBalanced(size);
        BalancedSoFar(b, ls, es, |es|);
        ApartExactly(ls[|es|].live, tx, rx);
      }
    }
  }
}
