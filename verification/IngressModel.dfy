/** The receiving side as values: three lists of buffers, four flags, and what was received, handed
    over and announced. `Ingress` runs the same operations on linked lists. */
module IngressModel {
  import opened Basics

  type Bytes = seq<bv8>

  /** The 24 bytes of a keepalive frame. */
  const EIGHT_ONES: Bytes := [0xff, 0xff, 0xff, 0xff, 0xff, 0xff, 0xff, 0xff]
  const KEEPALIVE: Bytes := EIGHT_ONES + [0xce, 0x9a, 0x11, 0x7e, 0xce, 0x9a, 0x11, 0x7e] + EIGHT_ONES

  datatype Entry = Entry(buf: nat, bytes: Bytes)

  /** How the provider answers a posted receive. */
  datatype Answer = Accepted | TryAgain | Refused

  datatype Flags = Flags(postLater: bool, nnBusy: bool, nnLater: bool, flush: bool)

  /** `received` and `fetched` are the non-keepalive payloads in order of completion and of hand-over;
      `notices` and `fetches` count announcements made to nanomsg and answers to them; `missed` counts
      arrivals that found a second announcement already owed. */
  datatype In = In(free: seq<nat>, busy: seq<nat>, pop: seq<Entry>, flags: Flags,
                   received: seq<Bytes>, fetched: seq<Bytes>, notices: nat, fetches: nat, missed: nat)

  datatype PostResult = Ok | NoBuffer | ProviderAgain | ProviderError

  /** Posts the first free buffer, if there is one and the provider takes it. */
  function PostOne(s: In, a: Answer): (r: (In, PostResult))
    ensures r.0 == s.(free := r.0.free, busy := r.0.busy)
    ensures multiset(r.0.free) + multiset(r.0.busy) == multiset(s.free) + multiset(s.busy)
    ensures |r.0.busy| == |s.busy| + if r.1.Ok? then 1 else 0
    ensures r.1.NoBuffer? <==> |s.free| == 0
  {
    assert |s.free| > 0 ==> s.free == [s.free[0]] + s.free[1..];
    if |s.free| == 0 then (s, NoBuffer)
    else match a
      case Accepted => (s.(free := s.free[1..], busy := [s.free[0]] + s.busy), Ok)
      case TryAgain => (s, ProviderAgain)
      case Refused => (s, ProviderError)
  }

  /** Posts the buffer that could not be posted earlier. */
  function PostLate(s: In, a: Answer): (r: In)
    ensures r == s.(free := r.free, busy := r.busy, flags := s.flags.(postLater := false))
    ensures multiset(r.free) + multiset(r.busy) == multiset(s.free) + multiset(s.busy)
  {
    if s.flags.postLater then PostOne(s.(flags := s.flags.(postLater := false)), a).0 else s
  }

  /** Tells nanomsg about a message, or remembers to while an earlier announcement is outstanding. */
  function Announced(s: In): In {
    if s.flags.nnBusy then
      s.(flags := s.flags.(nnLater := true), missed := if s.flags.nnLater then s.missed + 1 else s.missed)
    else s.(flags := s.flags.(nnBusy := true), notices := s.notices + 1)
  }

  /** The first half of a completion: the payload is queued and announced, a keepalive frees its buffer. */
  function Handle(s: In, i: nat, bytes: Bytes, a: Answer): In
    requires i < |s.busy|
  {
    var b := s.busy[i];
    var t := s.(busy := Without(s.busy, i));
    if bytes == KEEPALIVE then PostLate(t.(free := [b] + t.free), a)
    else Announced(t.(pop := t.pop + [Entry(b, bytes)], received := t.received + [bytes]))
  }

  /** The second half: another buffer is posted, or the post is put off until one is free. */
  function PostOrDefer(s: In, a: Answer): (t: In)
    ensures t == s.(free := t.free, busy := t.busy, flags := s.flags.(postLater := t.flags.postLater))
    ensures multiset(t.free) + multiset(t.busy) == multiset(s.free) + multiset(s.busy)
  {
    var (t, r) := PostOne(s, a);
    if r.NoBuffer? || r.ProviderAgain? then t.(flags := t.flags.(postLater := true)) else t
  }

  /** A receive completion while the connection is active. */
  function Receive(s: In, i: nat, bytes: Bytes, late: Answer, a: Answer): In
    requires i < |s.busy|
  {
    PostOrDefer(Handle(s, i, bytes, late), a)
  }

  function Reversed(s: seq<nat>): (r: seq<nat>)
    ensures |r| == |s| && multiset(r) == multiset(s)
  {
    if |s| == 0 then []
    else
      assert s == [s[0]] + s[1..];
      Reversed(s[1..]) + [s[0]]
  }

  function Bufs(pop: seq<Entry>): (r: seq<nat>)
    ensures |r| == |pop| && forall i | 0 <= i < |pop| :: r[i] == pop[i].buf
  {
    seq(|pop|, i requires 0 <= i < |pop| => pop[i].buf)
  }

  function Payloads(pop: seq<Entry>): (r: seq<Bytes>)
    ensures |r| == |pop| && forall i | 0 <= i < |pop| :: r[i] == pop[i].bytes
  {
    seq(|pop|, i requires 0 <= i < |pop| => pop[i].bytes)
  }

  function Flush(s: In): In {
    var t := s.(free := Reversed(s.busy) + s.free, busy := []);
    if t.flags.nnBusy then t.(flags := t.flags.(flush := true))
    else t.(free := Reversed(Bufs(t.pop)) + t.free, pop := [],
            flags := t.flags.(postLater := false, nnLater := false))
  }

  function TakeFirst(s: In): In
    requires |s.pop| > 0
  {
    s.(pop := s.pop[1..], free := [s.pop[0].buf] + s.free, fetched := s.fetched + [s.pop[0].bytes],
       fetches := s.fetches + 1)
  }

  /** Makes the announcement that is owed, or none. As written, one is owed when a message came while the
      last was outstanding; corrected, when the queue is not empty. */
  function Rearm(b: Build, s: In): In {
    var owed := if b.AsWritten? then s.flags.nnLater else |s.pop| > 0;
    if owed then s.(flags := s.flags.(nnLater := false), notices := s.notices + 1)
    else s.(flags := s.flags.(nnBusy := false, nnLater := false))
  }

  /** nanomsg answers an announcement; with nothing populated it gets nothing. */
  function Fetch(b: Build, s: In, a: Answer): In {
    if |s.pop| == 0 then s
    else
      var v := Rearm(b, PostLate(TakeFirst(s), a));
      if v.flags.flush then Flush(v) else v
  }

  // ---------------------------------------------------------------------------------------------
  // Runs

  datatype Event = Rx(i: nat, bytes: Bytes, late: Answer, a: Answer) | Take(a: Answer) | Drop

  /** nanomsg fetches only when it was told to; a flush may come at any time. */
  predicate Enabled(s: In, e: Event) {
    match e
    case Rx(i, _, _, _) => i < |s.busy|
    case Take(_) => s.flags.nnBusy
    case Drop => true
  }

  function Step(b: Build, s: In, e: Event): In
    requires Enabled(s, e)
  {
    match e
    case Rx(i, bytes, late, a) => Receive(s, i, bytes, late, a)
    case Take(a) => Fetch(b, s, a)
    case Drop => Flush(s)
  }

  /** A run: the states passed through and the events between them. */
  ghost predicate Trace(b: Build, ss: seq<In>, es: seq<Event>) {
    && |ss| == |es| + 1
    && forall k {:trigger es[k]} | 0 <= k < |es| :: Enabled(ss[k], es[k]) && ss[k + 1] == Step(b, ss[k], es[k])
  }

  /** Up to point k the connection is active: nothing was flushed. */
  ghost predicate Active(es: seq<Event>, k: nat)
    requires k <= |es|
  {
    forall j | 0 <= j < k :: !es[j].Drop?
  }

  function OneTo(n: nat): (r: seq<nat>)
    ensures |r| == n && forall i | 0 <= i < n :: r[i] == i + 1
  {
    if n == 0 then [] else OneTo(n - 1) + [n]
  }

  /** Connected: one of max buffers is posted. */
  function Start(max: nat): In
    requires max > 0
  {
    In(OneTo(max - 1), [0], [], Flags(false, false, false, false), [], [], 0, 0, 0)
  }

  // ---------------------------------------------------------------------------------------------
  // What every run keeps, whatever the provider answers and whenever a flush comes

  function AllBufs(s: In): multiset<nat> { multiset(s.free) + multiset(s.busy) + multiset(Bufs(s.pop)) }

  /** Populated messages that no announcement, made or owed, will ever fetch. */
  function Lag(s: In): int { |s.pop| - Int(s.flags.nnBusy) - Int(s.flags.nnLater) }

  /** An announcement outstanding has a message to fetch, one owed has a second; corrected, a message in
      the queue has an announcement outstanding. */
  predicate Announcing(b: Build, s: In) {
    && s.notices == s.fetches + Int(s.flags.nnBusy)
    && (s.flags.nnLater ==> s.flags.nnBusy)
    && Lag(s) >= 0
    && (b.Corrected? && |s.pop| > 0 ==> s.flags.nnBusy)
  }

  predicate Core(b: Build, s: In, max: nat) { AllBufs(s) == Range(max) && Announcing(b, s) }

  /** First in, first out, and as written the lag is what was missed: until a flush. */
  predicate Told(b: Build, s: In) {
    s.fetched + Payloads(s.pop) == s.received && (b.AsWritten? ==> Lag(s) == s.missed) && !s.flags.flush
  }

  lemma {:induction false} FreedKeepsBufs(s: In, i: nat)
    requires i < |s.busy|
    ensures AllBufs(s.(busy := Without(s.busy, i), free := [s.busy[i]] + s.free)) == AllBufs(s)
  {
    MultisetWithout(s.busy, i);
    hide Without, Bufs;
    assert multiset([s.busy[i]] + s.free) == multiset{s.busy[i]} + multiset(s.free);
  }

  lemma {:induction false} QueuedKeepsBufs(s: In, i: nat, bytes: Bytes)
    requires i < |s.busy|
    ensures AllBufs(s.(busy := Without(s.busy, i), pop := s.pop + [Entry(s.busy[i], bytes)])) == AllBufs(s)
  {
    MultisetWithout(s.busy, i);
    hide Without;
    assert Bufs(s.pop + [Entry(s.busy[i], bytes)]) == Bufs(s.pop) + [s.busy[i]];
    hide Bufs;
  }

  lemma {:induction false} LatePostKeepsBufs(s: In, a: Answer)
    ensures AllBufs(PostLate(s, a)) == AllBufs(s)
  {
    hide PostLate, Bufs;
  }

  lemma {:induction false} SameBufs(s: In, t: In)
    requires t.free == s.free && t.busy == s.busy && t.pop == s.pop
    ensures AllBufs(t) == AllBufs(s)
  {
  }

  lemma {:induction false} HandleKeepsBufs(s: In, i: nat, bytes: Bytes, a: Answer)
    requires i < |s.busy|
    ensures AllBufs(Handle(s, i, bytes, a)) == AllBufs(s)
  {
    hide KEEPALIVE, Without, PostLate, AllBufs;
    if bytes == KEEPALIVE {
      FreedKeepsBufs(s, i);
      LatePostKeepsBufs(s.(busy := Without(s.busy, i), free := [s.busy[i]] + s.free), a);
    } else {
      var t := s.(busy := Without(s.busy, i), pop := s.pop + [Entry(s.busy[i], bytes)]);
      QueuedKeepsBufs(s, i, bytes);
      SameBufs(t, Handle(s, i, bytes, a));
    }
  }

  lemma {:induction false} QueuedKeepsOrder(s: In, x: Entry)
    requires s.fetched + Payloads(s.pop) == s.received
    ensures s.fetched + Payloads(s.pop + [x]) == s.received + [x.bytes]
  {
    assert Payloads(s.pop + [x]) == Payloads(s.pop) + [x.bytes];
    assert s.fetched + (Payloads(s.pop) + [x.bytes]) == (s.fetched + Payloads(s.pop)) + [x.bytes];
  }

  lemma {:induction false} HandleKeepsTold(b: Build, s: In, i: nat, bytes: Bytes, a: Answer)
    requires i < |s.busy| && Announcing(b, s)
    ensures Announcing(b, Handle(s, i, bytes, a)) && (Told(b, s) ==> Told(b, Handle(s, i, bytes, a)))
  {
    if Told(b, s) { QueuedKeepsOrder(s, Entry(s.busy[i], bytes)); }
    hide KEEPALIVE, Payloads, Without;
  }

  lemma {:induction false} TakeFirstKeeps(s: In)
    requires |s.pop| > 0
    ensures AllBufs(TakeFirst(s)) == AllBufs(s)
  {
    assert Bufs(s.pop) == [s.pop[0].buf] + Bufs(s.pop[1..]);
  }

  lemma {:induction false} TakeFirstInOrder(s: In)
    requires |s.pop| > 0
    ensures TakeFirst(s).fetched + Payloads(TakeFirst(s).pop) == s.fetched + Payloads(s.pop)
  {
    var x, rest := s.pop[0].bytes, Payloads(s.pop[1..]);
    assert Payloads(s.pop) == [x] + rest;
    assert (s.fetched + [x]) + rest == s.fetched + ([x] + rest);
  }

  /** Posting moves buffers between the free and the busy list and touches one flag. */
  lemma {:induction false} PostingKeeps(b: Build, s: In, t: In, max: nat)
    requires t == s.(free := t.free, busy := t.busy, flags := s.flags.(postLater := t.flags.postLater))
    requires multiset(t.free) + multiset(t.busy) == multiset(s.free) + multiset(s.busy)
    ensures Core(b, s, max) ==> Core(b, t, max)
    ensures Told(b, s) ==> Told(b, t)
    ensures AllBufs(t) == AllBufs(s)
  {
  }

  lemma {:induction false} FlushKeepsBufs(s: In)
    ensures AllBufs(Flush(s)) == AllBufs(s)
  {
    assert Bufs([]) == [];
  }

  /** A fetch loses no buffer, from any state and with a flush pending or not. */
  lemma {:induction false} FetchKeepsBufs(b: Build, s: In, a: Answer)
    ensures AllBufs(Fetch(b, s, a)) == AllBufs(s)
  {
    hide Flush, AllBufs;
    if |s.pop| > 0 {
      var t := TakeFirst(s);
      TakeFirstKeeps(s);
      PostingKeeps(b, t, PostLate(t, a), 0);
      var v := Rearm(b, PostLate(t, a));
      SameBufs(PostLate(t, a), v);
      FlushKeepsBufs(v);
    }
  }

  lemma {:induction false} FlushKeepsAnnouncing(b: Build, s: In)
    requires Announcing(b, s)
    ensures Announcing(b, Flush(s))
  {
  }

  lemma {:induction false} TakeFirstCounts(s: In)
    requires |s.pop| > 0
    ensures var t := TakeFirst(s);
            && t == s.(pop := t.pop, free := t.free, fetched := t.fetched, fetches := s.fetches + 1)
            && |t.pop| == |s.pop| - 1
  {
  }

  lemma {:induction false} FetchKeeps(b: Build, s: In, a: Answer)
    requires Announcing(b, s) && s.flags.nnBusy
    ensures |s.pop| > 0 && Announcing(b, Fetch(b, s, a))
    ensures Told(b, s) ==> Told(b, Fetch(b, s, a))
  {
    hide Flush, TakeFirst, Payloads;
    TakeFirstInOrder(s);
    TakeFirstCounts(s);
    FlushKeepsAnnouncing(b, Rearm(b, PostLate(TakeFirst(s), a)));
  }

  lemma {:induction false} ReceiveKeeps(b: Build, s: In, i: nat, bytes: Bytes, late: Answer, a: Answer, max: nat)
    requires Core(b, s, max) && i < |s.busy|
    ensures Core(b, Receive(s, i, bytes, late, a), max)
    ensures Told(b, s) ==> Told(b, Receive(s, i, bytes, late, a))
  {
    HandleKeepsBufs(s, i, bytes, late);
    HandleKeepsTold(b, s, i, bytes, late);
    var t := Handle(s, i, bytes, late);
    assert Core(b, t, max);
    hide Handle, Core, PostOrDefer, Told;
    PostingKeeps(b, t, PostOrDefer(t, a), max);
  }

  lemma {:induction false} StepKeeps(b: Build, s: In, e: Event, max: nat)
    requires Core(b, s, max) && Enabled(s, e)
    ensures Core(b, Step(b, s, e), max)
    ensures Told(b, s) && !e.Drop? ==> Told(b, Step(b, s, e))
  {
    hide Told, Announcing, AllBufs, Flush, Fetch, Receive;
    match e
    case Rx(i, bytes, late, a) => ReceiveKeeps(b, s, i, bytes, late, a, max);
    case Take(a) =>
      FetchKeepsBufs(b, s, a);
      FetchKeeps(b, s, a);
    case Drop =>
      FlushKeepsBufs(s);
      FlushKeepsAnnouncing(b, s);
  }

  lemma {:induction false} TailOfRange(n: nat)
    ensures multiset(OneTo(n)) + multiset{0} == Range(n + 1)
  {
    if n == 0 {
      assert Range(1) == Range(0) + multiset{0} == multiset{0};
    } else {
      TailOfRange(n - 1);
      assert Range(n + 1) == Range(n) + multiset{n};
      assert OneTo(n) == OneTo(n - 1) + [n];
      hide Range, OneTo;
      Swapped(multiset(OneTo(n - 1)), multiset{n}, multiset{0});
    }
  }

  lemma {:induction false} StartBufs(max: nat)
    requires max > 0
    ensures AllBufs(Start(max)) == Range(max)
  {
    TailOfRange(max - 1);
    hide OneTo, Range;
    assert multiset([0]) == multiset{0} && Bufs([]) == [];
    assert AllBufs(Start(max)) == multiset(OneTo(max - 1)) + multiset{0};
  }

  lemma {:induction false} StartCore(b: Build, max: nat)
    requires max > 0
    ensures Core(b, Start(max), max) && Told(b, Start(max))
  {
    StartBufs(max);
    hide OneTo, AllBufs;
    assert Payloads([]) == [];
  }

  lemma {:induction false} TraceKeeps(b: Build, ss: seq<In>, es: seq<Event>, k: nat, max: nat)
    requires Trace(b, ss, es) && k <= |es| && max > 0 && ss[0] == Start(max)
    ensures Core(b, ss[k], max) && (Active(es, k) ==> Told(b, ss[k]))
    decreases k
  {
    hide Core, Told, Step, Enabled;
    if k == 0 {
      StartCore(b, max);
    } else {
      TraceKeeps(b, ss, es, k - 1, max);
      var e := es[k - 1];
      StepKeeps(b, ss[k - 1], e, max);
    }
  }

  lemma {:induction false} EachOnce(s: In, max: nat)
    requires AllBufs(s) == Range(max)
    ensures forall x: nat | x < max :: multiset(s.free)[x] + multiset(s.busy)[x] + multiset(Bufs(s.pop))[x] == 1
    ensures |s.free| + |s.busy| + |s.pop| == max
  {
    RangeOnce(max, 0);
    assert |AllBufs(s)| == |s.free| + |s.busy| + |s.pop|;
    forall x: nat | x < max
      ensures multiset(s.free)[x] + multiset(s.busy)[x] + multiset(Bufs(s.pop))[x] == 1
    {
      RangeOnce(max, x);
      assert AllBufs(s)[x] == 1;
    }
  }

  /** At every point of a run, whatever the provider answers and whenever a flush comes: each buffer is in
      exactly one list, an announcement never finds the queue empty, and one owed finds a second message.
      Until a flush, what nanomsg fetched, followed by what is queued, is what was received. */
  lemma {:induction false} Delivery(b: Build, ss: seq<In>, es: seq<Event>, k: nat, max: nat)
    requires Trace(b, ss, es) && k <= |es| && max > 0 && ss[0] == Start(max)
    ensures var s := ss[k];
            && (forall x: nat | x < max :: multiset(s.free)[x] + multiset(s.busy)[x] + multiset(Bufs(s.pop))[x] == 1)
            && |s.free| + |s.busy| + |s.pop| == max
            && s.notices == s.fetches + Int(s.flags.nnBusy)
            && (s.flags.nnBusy ==> |s.pop| >= 1)
            && (s.flags.nnLater ==> s.flags.nnBusy && |s.pop| >= 2)
            && (b.Corrected? && |s.pop| > 0 ==> s.flags.nnBusy)
            && (Active(es, k) ==>
                  && s.fetched + Payloads(s.pop) == s.received
                  && (b.AsWritten? ==> |s.pop| == Int(s.flags.nnBusy) + Int(s.flags.nnLater) + s.missed))
  {
    TraceKeeps(b, ss, es, k, max);
    EachOnce(ss[k], max);
  }

  // ---------------------------------------------------------------------------------------------
  // Announcements: one flag remembers one message

  predicate ArrivesUnremembered(s: In, e: Event) { e.Rx? && e.bytes != KEEPALIVE && s.flags.nnLater }

  /** As written, a message that arrives while an announcement is already owed adds to the lag, and nothing
      but a flush ever takes any of it away. */
  lemma {:induction false} LagNeverShrinks(s: In, e: Event, max: nat)
    requires Core(AsWritten, s, max) && Told(AsWritten, s) && Enabled(s, e) && !e.Drop?
    ensures Lag(Step(AsWritten, s, e)) == Lag(s) + Int(ArrivesUnremembered(s, e))
  {
    StepKeeps(AsWritten, s, e, max);
    assert Step(AsWritten, s, e).missed == s.missed + Int(ArrivesUnremembered(s, e)) by {
      hide KEEPALIVE, Core, AllBufs;
    }
  }

  /** How many of the first k events are such arrivals. */
  function UnrememberedIn(ss: seq<In>, es: seq<Event>, k: nat): nat
    requires k <= |es| < |ss|
  {
    if k == 0 then 0 else UnrememberedIn(ss, es, k - 1) + Int(ArrivesUnremembered(ss[k - 1], es[k - 1]))
  }

  lemma {:induction false} StartLag(max: nat)
    requires max > 0
    ensures Lag(Start(max)) == 0
  {
  }

  /** As written, until a flush the messages that no announcement will fetch are as many as the messages that
      came while an announcement was owed. */
  lemma {:induction false} LagExactly(ss: seq<In>, es: seq<Event>, k: nat, max: nat)
    requires Trace(AsWritten, ss, es) && k <= |es| && max > 0 && ss[0] == Start(max) && Active(es, k)
    ensures Lag(ss[k]) == UnrememberedIn(ss, es, k)
    decreases k
  {
    hide Core, Told, Step, Enabled, Lag, ArrivesUnremembered;
    if k == 0 {
      StartLag(max);
    } else {
      LagExactly(ss, es, k - 1, max);
      TraceKeeps(AsWritten, ss, es, k - 1, max);
      var e := es[k - 1];
      LagNeverShrinks(ss[k - 1], e, max);
    }
  }

  lemma {:induction false} FetchShrinks(b: Build, s: In, a: Answer)
    requires |s.pop| > 0
    ensures |Fetch(b, s, a).pop| < |s.pop|
  {
  }

  /** The state once nanomsg answered every announcement made or owed. */
  function Drained(b: Build, s: In): In
    decreases |s.pop|
  {
    if s.flags.nnBusy && |s.pop| > 0 then
      FetchShrinks(b, s, Accepted);
      Drained(b, Fetch(b, s, Accepted))
    else s
  }

  /** As written, what stays in the queue for good is exactly the lag; a pending flush drops it. */
  lemma {:induction false} StrandedExactly(s: In)
    requires Announcing(AsWritten, s)
    ensures var t := Drained(AsWritten, s);
            !t.flags.nnBusy && |t.pop| == if s.flags.flush && s.flags.nnBusy then 0 else Lag(s)
    decreases |s.pop|
  {
    if s.flags.nnBusy {
      FetchKeeps(AsWritten, s, Accepted);
      FetchShrinks(AsWritten, s, Accepted);
      var t := Fetch(AsWritten, s, Accepted);
      assert t.flags.flush == s.flags.flush;
      assert !s.flags.flush ==> Lag(t) == Lag(s);
      assert s.flags.flush && !t.flags.nnBusy ==> |t.pop| == 0;
      hide Fetch;
      StrandedExactly(t);
    }
  }

  /** Corrected, nothing stays. */
  lemma {:induction false} CorrectedDrains(s: In)
    requires Announcing(Corrected, s)
    ensures var t := Drained(Corrected, s); !t.flags.nnBusy && |t.pop| == 0
    decreases |s.pop|
  {
    if s.flags.nnBusy {
      FetchKeeps(Corrected, s, Accepted);
      FetchShrinks(Corrected, s, Accepted);
      hide Fetch;
      CorrectedDrains(Fetch(Corrected, s, Accepted));
    }
  }

  lemma {:induction false} PayloadQueues(s: In, x: Bytes)
    requires x != KEEPALIVE && |s.busy| == 1 && (s.flags.nnLater ==> s.flags.nnBusy)
    ensures var t := Receive(s, 0, x, Accepted, Accepted);
            && t.pop == s.pop + [Entry(s.busy[0], x)]
            && t.busy == (if |s.free| > 0 then [s.free[0]] else [])
            && |t.free| == (if |s.free| > 0 then |s.free| - 1 else 0)
            && t.flags.nnBusy && t.flags.nnLater == s.flags.nnBusy
            && t.missed == s.missed + Int(s.flags.nnLater)
  {
    hide KEEPALIVE;
  }

  /** Three arrivals before nanomsg fetches once. */
  lemma {:induction false} OneLeftBehind(x: Bytes, max: nat) returns (ss: seq<In>, es: seq<Event>)
    requires x != KEEPALIVE && max >= 3
    ensures Trace(AsWritten, ss, es) && ss[0] == Start(max) && |es| == 3 && Active(es, 3) && ss[3].missed == 1
  {
    hide KEEPALIVE, Handle, PostOrDefer;
    var rx, s0 := Rx(0, x, Accepted, Accepted), Start(max);
    PayloadQueues(s0, x);
    var s1 := Step(AsWritten, s0, rx);
    PayloadQueues(s1, x);
    var s2 := Step(AsWritten, s1, rx);
    PayloadQueues(s2, x);
    ss, es := [s0, s1, s2, Step(AsWritten, s2, rx)], [rx, rx, rx];
  }

  lemma {:induction false} NoRoomToLag(s: In, e: Event)
    requires Announcing(AsWritten, s) && Enabled(s, e) && |s.busy| + |s.pop| < 3 && Lag(s) == 0
    ensures Lag(Step(AsWritten, s, e)) == 0
  {
    hide KEEPALIVE;
  }

  lemma {:induction false} NothingLags(ss: seq<In>, es: seq<Event>, k: nat, max: nat)
    requires Trace(AsWritten, ss, es) && k <= |es| && 0 < max < 3 && ss[0] == Start(max)
    ensures Announcing(AsWritten, ss[k]) && Lag(ss[k]) == 0
    decreases k
  {
    hide Step, Enabled, AllBufs, Told;
    TraceKeeps(AsWritten, ss, es, k, max);
    if k > 0 {
      NothingLags(ss, es, k - 1, max);
      var e := es[k - 1];
      Delivery(AsWritten, ss, es, k - 1, max);
      hide Announcing;
      NoRoomToLag(ss[k - 1], e);
    }
  }

  /** Some run leaves a message behind that no announcement will fetch, exactly as written and with three
      buffers or more. */
  lemma {:induction false} LeftBehindExactly(b: Build, max: nat)
    requires max > 0
    ensures (exists ss: seq<In>, es :: Trace(b, ss, es) && ss[0] == Start(max) && |Drained(b, ss[|es|]).pop| > 0)
            <==> b.AsWritten? && max >= 3
  {
    hide Step, Enabled, Drained, AllBufs;
    if b.AsWritten? && max >= 3 {
      var ss, es := OneLeftBehind([], max);
      TraceKeeps(AsWritten, ss, es, 3, max);
      StrandedExactly(ss[3]);
    } else {
      forall ss: seq<In>, es | Trace(b, ss, es) && ss[0] == Start(max) ensures |Drained(b, ss[|es|]).pop| == 0 {
        TraceKeeps(b, ss, es, |es|, max);
        if b.AsWritten? {
          NothingLags(ss, es, |es|, max);
          StrandedExactly(ss[|es|]);
        } else {
          CorrectedDrains(ss[|es|]);
        }
      }
    }
  }

  // ---------------------------------------------------------------------------------------------
  // The receive window

  /** Exactly one receive is posted, or the post is put off and every buffer is populated. */
  predicate Window(s: In) {
    if s.flags.postLater then |s.busy| == 0 && |s.free| == 0 else |s.busy| == 1
  }

  lemma {:induction false} ReceiveWindow(s: In, i: nat, bytes: Bytes, late: Answer, a: Answer)
    requires Window(s) && i < |s.busy|
    ensures Window(Receive(s, i, bytes, late, a)) <==> a.Accepted? || |Handle(s, i, bytes, late).free| == 0
  {
    hide KEEPALIVE;
    var t := Handle(s, i, bytes, late);
    assert |t.busy| == 0 && !t.flags.postLater;
    hide Handle, Announced, PostLate;
  }

  lemma {:induction false} FetchWindow(b: Build, s: In, a: Answer)
    requires Window(s) && |s.pop| > 0 && !s.flags.flush
    ensures Window(Fetch(b, s, a)) <==> a.Accepted? || !s.flags.postLater
  {
    hide Flush;
  }

  /** The provider takes the buffer that the event offers to it, if it offers one. */
  predicate TakesOffer(s: In, e: Event)
    requires Enabled(s, e) && !e.Drop?
  {
    match e
    case Rx(i, bytes, late, a) => a.Accepted? || |Handle(s, i, bytes, late).free| == 0
    case Take(a) => a.Accepted? || !s.flags.postLater
  }

  /** It does at each of the first k events. */
  ghost predicate AllTaken(ss: seq<In>, es: seq<Event>, k: nat)
    requires k <= |es| < |ss|
    requires forall j {:trigger es[j]} | 0 <= j < k :: Enabled(ss[j], es[j]) && !es[j].Drop?
  {
    forall j {:trigger TakesOffer(ss[j], es[j])} | 0 <= j < k :: TakesOffer(ss[j], es[j])
  }

  lemma {:induction false} WindowExact(b: Build, s: In, e: Event, max: nat)
    requires Window(s) && Core(b, s, max) && Told(b, s) && Enabled(s, e) && !e.Drop?
    ensures Window(Step(b, s, e)) <==> TakesOffer(s, e)
  {
    hide KEEPALIVE, AllBufs, Window, Receive, Handle, Fetch;
    match e
    case Rx(i, bytes, late, a) => ReceiveWindow(s, i, bytes, late, a);
    case Take(a) => FetchWindow(b, s, a);
  }

  lemma {:induction false} WindowWhileTaken(b: Build, ss: seq<In>, es: seq<Event>, k: nat, max: nat)
    requires Trace(b, ss, es) && k <= |es| && max > 0 && ss[0] == Start(max) && Active(es, k)
    requires AllTaken(ss, es, k)
    ensures Window(ss[k])
    decreases k
  {
    if k > 0 {
      hide Core, Told, Step, Enabled, TakesOffer, Window;
      WindowWhileTaken(b, ss, es, k - 1, max);
      TraceKeeps(b, ss, es, k - 1, max);
      var e := es[k - 1];
      WindowExact(b, ss[k - 1], e, max);
    }
  }

  /** An active run keeps the receive window at every point exactly when the provider takes every buffer it
      is offered. */
  lemma {:induction false} WindowHoldsExactly(b: Build, ss: seq<In>, es: seq<Event>, max: nat)
    requires Trace(b, ss, es) && max > 0 && ss[0] == Start(max) && Active(es, |es|)
    ensures (forall k {:trigger Window(ss[k])} | 0 <= k <= |es| :: Window(ss[k])) <==> AllTaken(ss, es, |es|)
  {
    hide Core, Told, Step, Enabled, TakesOffer, Window;
    if AllTaken(ss, es, |es|) {
      forall k | 0 <= k <= |es| ensures Window(ss[k]) { WindowWhileTaken(b, ss, es, k, max); }
    }
    if forall k | 0 <= k <= |es| :: Window(ss[k]) {
      forall k | 0 <= k < |es| ensures TakesOffer(ss[k], es[k]) {
        TraceKeeps(b, ss, es, k, max);
        WindowExact(b, ss[k], es[k], max);
        assert Window(ss[k + 1]);
      }
    }
  }

  /** While the window holds, a free buffer never waits with nothing posted. */
  lemma {:induction false} FreeMeansPosted(b: Build, ss: seq<In>, es: seq<Event>, k: nat, max: nat)
    requires Trace(b, ss, es) && k <= |es| && max > 0 && ss[0] == Start(max) && Active(es, k)
    requires AllTaken(ss, es, k)
    ensures var s := ss[k]; |s.busy| <= 1 && (|s.free| > 0 ==> |s.busy| == 1) && (|s.busy| == 0 ==> |s.pop| == max)
  {
    WindowWhileTaken(b, ss, es, k, max);
    Delivery(b, ss, es, k, max);
  }
}
