/** The sending half of a connection in place: the ring of contexts, the registration cache, the
    credit counter and the one staged message. */
module EgressQueue {
  import opened Basics
  import opened MrModel
  import opened MrCounts
  import opened MrManagement
  import opened Links
  import opened EgressRing
  import opened EgressBooks
  import opened EgressFlow

  /** The busy contexts of a ring whose first nfree contexts are free, in posting order. */
  ghost function Slots(order: seq<nat>, handle: seq<Option<Transfer>>, nfree: nat): (r: seq<Slot>)
    requires nfree <= |order|
    requires forall i | nfree <= i < |order| :: order[i] < |handle| && handle[order[i]].Some?
    ensures |r| == |order| - nfree
  {
    seq(|order| - nfree, i requires 0 <= i < |order| - nfree => Slot(order[nfree + i], handle[order[nfree + i]].value))
  }

  /** A free prefix and a busy suffix. */
  ghost predicate Partitioned(order: seq<nat>, handle: seq<Option<Transfer>>, nfree: nat) {
    && nfree <= |order|
    && (forall i | 0 <= i < |order| :: order[i] < |handle|)
    && (forall i | 0 <= i < |order| :: handle[order[i]].Some? <==> i >= nfree)
  }

  lemma {:induction false} TakeHead(order: seq<nat>, handle: seq<Option<Transfer>>, nfree: nat, t: Transfer)
    requires Permutation(order) && Partitioned(order, handle, nfree) && nfree > 0
    ensures var h, back := handle[order[0] := Some(t)], MovedToBack(order);
            && Partitioned(back, h, nfree - 1)
            && back[..nfree - 1] == order[..nfree][1..]
            && Slots(back, h, nfree - 1) == Slots(order, handle, nfree) + [Slot(order[0], t)]
  {
    var h, back := handle[order[0] := Some(t)], MovedToBack(order);
    forall i | 0 <= i < |order| - 1 ensures back[i] == order[i + 1] && back[i] != order[0] {}
    assert back[|order| - 1] == order[0];
    assert Partitioned(back, h, nfree - 1);
  }

  lemma {:induction false} FrontAt(order: seq<nat>, pos: nat)
    requires Permutation(order) && pos < |order|
    ensures var front := MovedToFront(order, pos);
            && front[0] == order[pos]
            && forall i | 0 < i < |order| ::
                 front[i] == (if i <= pos then order[i - 1] else order[i]) && front[i] != order[pos]
  {
  }

  lemma {:induction false} FrontIsFree(order: seq<nat>, handle: seq<Option<Transfer>>, nfree: nat, pos: nat)
    requires Permutation(order) && Partitioned(order, handle, nfree) && nfree <= pos < |order|
    ensures Partitioned(MovedToFront(order, pos), handle[order[pos] := None], nfree + 1)
  {
    FrontAt(order, pos);
    hide Permutation, MovedToFront;
  }

  lemma {:induction false} ReturnToFront(order: seq<nat>, handle: seq<Option<Transfer>>, nfree: nat, pos: nat)
    requires Permutation(order) && Partitioned(order, handle, nfree) && nfree <= pos < |order|
    ensures var h, front := handle[order[pos] := None], MovedToFront(order, pos);
            && Partitioned(front, h, nfree + 1)
            && front[..nfree + 1] == [order[pos]] + order[..nfree]
            && Slots(front, h, nfree + 1) == Without(Slots(order, handle, nfree), pos - nfree)
  {
    FrontAt(order, pos);
    FrontIsFree(order, handle, nfree, pos);
    hide Permutation, MovedToFront;
  }

  /** The oldest busy context without its handle. */
  lemma {:induction false} OldestFreed(order: seq<nat>, handle: seq<Option<Transfer>>, nfree: nat)
    requires Permutation(order) && Partitioned(order, handle, nfree) && nfree < |order|
    ensures order[nfree] < |handle| && handle[order[nfree]].Some?
    ensures var h, busy := handle[order[nfree] := None], Slots(order, handle, nfree);
            && Partitioned(order, h, nfree + 1) && order[..nfree + 1] == order[..nfree] + [order[nfree]]
            && busy[0] == Slot(order[nfree], handle[order[nfree]].value)
            && Slots(order, h, nfree + 1) == busy[1..]
            && Lives(busy[1..]) == Without(Lives(busy), 0) && Lives(busy)[0] == handle[order[nfree]].value
  {
    forall i | 0 <= i < |order| && i != nfree ensures order[i] != order[nfree] {}
  }

  /** Posting and settling with nothing in between. */
  function SentAtOnce(f: Flow, fs: seq<Fabric>, sendOk: bool): Flow
    requires f.failure.None? && f.phase.Staged? && |fs| == |f.phase.msg| && SlabsSized(f.m)
  {
    var g := Post(f, fs, sendOk);
    if g.failure.Some? then g else Settle(g)
  }

  /** g is f without its busy context i, which gave back what it held. */
  predicate Retired(f: Flow, g: Flow, i: nat) {
    i < |f.busy| && CtxInRange(f.m, f.busy[i].t.ctx) && g == Retire(f, i)
  }

  class Egress {
    const mrm: MrManager
    const ring: Ring
    var counter: int
    var staged: Option<seq<Iov>>
    var error: Option<Failure>
    /** Set once the connection is established. */
    var outActive: bool
    /** Set once it is shutting down. */
    var closing: bool
    ghost var nfree: nat
    ghost var released: bool
    ghost var accepted: nat
    ghost var sents: nat
    ghost var lost: nat
    /** Whether linking the contexts stayed inside their array. */
    const linked: bool

    /** A ring of rx contexts in an array of tx, not connected yet. */
    constructor (tx: nat, rx: nat, slabBytes: nat)
      ensures fresh(Repr()) && !outActive && !closing
      ensures linked <==> 0 < rx <= tx
      ensures linked ==> Valid() && View() == Start(tx, rx, slabBytes)
    {
      mrm := new MrManager(2 * tx, tx, slabBytes);
      counter := tx;
      staged := None;
      error := None;
      outActive, closing := false, false;
      nfree := rx;
      released := true;
      accepted := 0;
      sents := 0;
      lost := 0;
      var r := new Ring(tx);
      var ok := r.Setup(rx);
      ring, linked := r, ok;
      new;
      hide Valid, View, Start;
      if linked { AllFree(tx, rx, slabBytes); }
    }

    lemma {:induction false} AllFree(tx: nat, rx: nat, slabBytes: nat)
      requires mrm.Valid() && mrm.held == {} && mrm.View() == Fresh(2 * tx, tx, slabBytes).m && tx > 0
      requires ring.Valid() && ring.order == seq(rx, i => i) && nfree == rx
      requires forall i | 0 <= i < ring.handle.Length :: ring.handle[i] == None
      requires counter == tx && staged.None? && error.None? && released && !closing
      requires accepted == 0 && sents == 0 && lost == 0
      ensures Valid() && View() == Start(tx, rx, slabBytes)
    {
      assert ring.order[..nfree] == seq(rx, i => i);
      assert Lives(View().busy) == [];
      FreshCounts(2 * tx, tx, slabBytes);
    }

    /** The connection is established: what is staged from now on is sent at once. */
    method Establish()
      requires Valid()
      modifies this`outActive
      ensures Valid() && outActive && View() == old(View())
    {
      outActive := true;
    }

    ghost function Repr(): set<object> {
      {this, mrm, mrm.banks, mrm.slabs, ring, ring.next, ring.prev, ring.handle}
    }

    ghost predicate Shape()
      reads Repr()
    {
      && mrm.Valid() && mrm.held == {} && ring.Valid()
      && Partitioned(ring.order, ring.handle[..], nfree)
    }

    ghost function View(): (r: Flow)
      requires Shape()
      reads Repr()
      ensures r.failure == error && r.credits == counter && r.closing == closing
      ensures |r.free| == nfree && |r.busy| == |ring.order| - nfree
      ensures r.phase == if staged.Some? then Staged(staged.value) else Idle
    {
      Flow(mrm.View(), ring.order[..nfree], Slots(ring.order, ring.handle[..], nfree), counter,
           if staged.Some? then Staged(staged.value) else Idle, closing, released, accepted, sents, lost, error)
    }

    ghost predicate Valid()
      reads Repr()
    {
      Shape() && Books(mrm.View(), Lives(Slots(ring.order, ring.handle[..], nfree)))
    }

    method Acknowledge()
      modifies this`released, this`sents
      ensures released && sents == old(sents) + 1
    {
      released := true;
      sents := sents + 1;
    }

    method FreeContext(ctx: nat)
      requires mrm.Valid() && mrm.held == {} && ctx < ring.handle.Length
      requires ring.handle[ctx].Some? ==> CtxInRange(mrm.View(), ring.handle[ctx].value.ctx)
      modifies mrm.banks, mrm.slabs, mrm`held, ring.handle
      ensures mrm.Valid() && mrm.held == {}
      ensures ring.handle[..] == old(ring.handle[..])[ctx := None]
      ensures mrm.View() == if old(ring.handle[ctx]).Some?
                            then Release(old(mrm.View()), old(ring.handle[ctx]).value.ctx) else old(mrm.View())
    {
      if ring.handle[ctx].Some? {
        mrm.GiveBack(ring.handle[ctx].value.ctx, false);
        ring.handle[ctx] := None;
      }
    }

    /** Moves the head, which just got its handle, behind the busy contexts. */
    method Commit(ctx: nat, ghost h0: seq<Option<Transfer>>, ghost t: Transfer)
      requires ring.Valid() && ctx == ring.head && Partitioned(ring.order, h0, nfree) && nfree > 0
      requires ring.handle[..] == h0[ctx := Some(t)]
      modifies ring`head, ring`tail, ring`order, ring.next, ring.prev, this`nfree
      ensures ring.Valid() && Partitioned(ring.order, ring.handle[..], nfree)
      ensures ring.order[..nfree] == old(ring.order[..nfree])[1..]
      ensures Slots(ring.order, ring.handle[..], nfree) == Slots(old(ring.order), h0, old(nfree)) + [Slot(ctx, t)]
    {
      TakeHead(ring.order, h0, nfree, t);
      ring.MarkBusy(ctx);
      nfree := nfree - 1;
    }

    /** The send was refused: what the message held is given back. */
    method Undo(ctx: nat, ghost live: seq<Transfer>, ghost t: Transfer)
      requires mrm.Valid() && mrm.held == {} && ctx < ring.handle.Length && ring.handle[ctx] == Some(t)
      requires Books(mrm.View(), live + [t])
      modifies mrm.banks, mrm.slabs, mrm`held, ring.handle
      ensures mrm.Valid() && mrm.held == {} && ring.handle[..] == old(ring.handle[..])[ctx := None]
      ensures CtxInRange(old(mrm.View()), t.ctx)
      ensures mrm.View() == Release(old(mrm.View()), t.ctx) && Books(mrm.View(), live)
    {
      hide Release, Books, CtxInRange, SlabsSized;
      UndoLast(mrm.View(), live, t);
      FreeContext(ctx);
    }

    /** The message is described, and the context keeps what it holds. */
    method Hold(ctx: nat, msg: seq<Iov>, fs: seq<Fabric>, ghost live: seq<Transfer>) returns (r: Described)
      requires mrm.Valid() && mrm.held == {} && ctx < ring.handle.Length && Books(mrm.View(), live) && |msg| == |fs|
      modifies mrm, mrm.banks, mrm.slabs, ring.handle
      ensures mrm.Valid() && mrm.held == {} && (mrm.View(), r) == Describe(AsWritten, old(mrm.View()), msg, fs)
      ensures Books(mrm.View(), if r.Done? then live + [Transfer(msg, r.ctx)] else live)
      ensures ring.handle[..] == if r.Done? then old(ring.handle[..])[ctx := Some(Transfer(msg, r.ctx))]
                                 else old(ring.handle[..])
    {
      hide Describe, Books;
      DescribeKeepsBooks(AsWritten, mrm.View(), live, msg, fs);
      r := mrm.DescribeMessage(msg, fs);
      if r.Done? { ring.handle[ctx] := Some(Transfer(msg, r.ctx)); }
    }

    /** The head of the ring, unless no context is free. */
    method FreeHead() returns (ctx: Option<nat>)
      requires Shape()
      ensures if nfree == 0 then ctx.None? else ctx == Some(ring.head)
      ensures nfree > 0 ==> ring.head == ring.order[0] < ring.handle.Length && ring.handle[ring.head].None?
    {
      ctx := ring.GetContext();
    }

    /** Sends the staged message; what is wrong, if anything, comes back. */
    method PostBuffers(fs: seq<Fabric>, sendOk: bool) returns (failure: Option<Failure>)
      requires Valid() && error.None? && staged.Some? && |fs| == |staged.value|
      modifies Repr() - {this}, this`nfree
      ensures Valid()
      ensures View().(failure := failure) == Post(old(View()), fs, sendOk).(phase := Staged(staged.value))
    {
      hide Describe, Release, Books, CtxInRange, Permutation, Linked, SlabsSized, Partitioned;
      var msg := staged.value;
      ghost var live, h0 := Lives(View().busy), ring.handle[..];
      var ctx := FreeHead();
      if ctx.None? { return Some(NoContext); }
      var r := Hold(ctx.value, msg, fs, live);
      if !r.Done? { return Some(NotDescribed(r)); }
      ghost var t := Transfer(msg, r.ctx);
      if !sendOk {
        Undo(ctx.value, live, t);
        assert ring.handle[..] == h0;
        return Some(SendRefused);
      }
      Commit(ctx.value, h0, t);
      assert Lives(View().busy) == live + [t];
      return None;
    }

    /** Takes the credit of a message just posted; nanomsg may go on unless it was the last one. */
    method TakeCredit()
      requires Valid() && staged.Some?
      modifies this`staged, this`counter, this`released, this`sents
      ensures Valid() && View() == Settle(old(View()))
    {
      hide Books, Partitioned;
      staged := None;
      var before := counter;
      counter := counter - 1;
      if before > 1 { Acknowledge(); }
    }

    method SendStaged(fs: seq<Fabric>, sendOk: bool) returns (failure: Option<Failure>)
      requires Valid() && error.None? && staged.Some? && |fs| == |staged.value|
      modifies Repr()
      ensures Valid() && error.None? && closing == old(closing) && outActive == old(outActive)
      ensures View().(failure := failure) == SentAtOnce(old(View()), fs, sendOk)
    {
      hide Valid, Shape, View, Post;
      failure := PostBuffers(fs, sendOk);
      if failure.None? { TakeCredit(); }
    }

    method Take(msg: seq<Iov>)
      requires Valid() && staged.None?
      modifies this`staged, this`released, this`accepted
      ensures Valid() && staged == Some(msg) && View() == Stage(old(View()), msg)
    {
      hide Books, Partitioned;
      staged := Some(msg);
      released := false;
      accepted := accepted + 1;
    }

    /** A critical error: the connection starts to shut down. */
    method Abandon(failure: Option<Failure>)
      requires Valid()
      modifies this`error, this`closing
      ensures Valid() && error == failure && View() == old(View()).(failure := failure, closing := true) && closing
    {
      hide Books, Partitioned;
      error := failure;
      closing := true;
    }

    method StageMessage(msg: seq<Iov>, fs: seq<Fabric>, sendOk: bool)
      requires Valid() && (error.None? || closing) && staged.None? && |fs| == |msg|
      modifies Repr()
      ensures Valid()
      ensures old(closing) ==> View() == old(View()) && closing
      ensures !old(closing) && !old(outActive) ==> View() == Stage(old(View()), msg) && !closing
      ensures !old(closing) && old(outActive) ==>
                View() == SentAtOnce(Stage(old(View()), msg), fs, sendOk).(closing := closing) && closing == error.Some?
    {
      hide SentAtOnce, Valid, Shape, View;
      if closing { return; }
      Take(msg);
      if outActive {
        var failure := SendStaged(fs, sendOk);
        if failure.Some? { Abandon(failure); }
      }
    }

    /** Frees a busy context and puts it back in front; false when the list has a single context. */
    method RetireContext(ctx: nat, ghost pos: nat) returns (alive: bool)
      requires Valid() && nfree <= pos < |ring.order| && ring.order[pos] == ctx
      modifies mrm.banks, mrm.slabs, mrm`held, ring`head, ring`tail, ring`order, ring.next, ring.prev, ring.handle,
               this`nfree
      ensures alive <==> |old(ring.order)| >= 2
      ensures alive ==> Valid() && Retired(old(View()), View(), pos - old(nfree))
    {
      hide Books, Release, CtxInRange, Permutation, Linked, SlabsSized;
      ghost var live, i := Lives(View().busy), pos - nfree;
      assert live[i] == ring.handle[ctx].value;
      ReleaseKeepsBooks(mrm.View(), live, i);
      FrontOfRing(pos);
      FreeContext(ctx);
      alive := ring.MarkFree(ctx, pos);
      nfree := nfree + 1;
      assert alive ==> Lives(View().busy) == Without(live, i);
    }

    lemma {:induction false} FrontOfRing(pos: nat)
      requires Shape() && nfree <= pos < |ring.order|
      ensures var ctx := ring.order[pos];
              var h, front := ring.handle[..][ctx := None], MovedToFront(ring.order, pos);
              && ctx < ring.handle.Length
              && Partitioned(front, h, nfree + 1)
              && front[..nfree + 1] == [ctx] + ring.order[..nfree]
              && Slots(front, h, nfree + 1) == Without(Slots(ring.order, ring.handle[..], nfree), pos - nfree)
    {
      ReturnToFront(ring.order, ring.handle[..], nfree, pos);
    }

    method HandleCompletion(ctx: nat, ghost pos: nat) returns (alive: bool)
      requires Valid() && nfree <= pos < |ring.order| && ring.order[pos] == ctx
      modifies Repr()
      ensures alive <==> |old(ring.order)| >= 2
      ensures alive ==> Valid()
                        && CtxInRange(old(View()).m, old(View()).busy[pos - old(nfree)].t.ctx)
                        && View() == Complete(old(View()), pos - old(nfree))
    {
      hide Books, Release, CtxInRange, Permutation, Linked, SlabsSized;
      alive := RetireContext(ctx, pos);
      var before := counter;
      counter := counter + 1;
      if before == 0 { Acknowledge(); }
    }

    /** A failed transmission: the context comes back, the credit does not. */
    method HandleError(ctx: nat, ghost pos: nat) returns (alive: bool)
      requires Valid() && nfree <= pos < |ring.order| && ring.order[pos] == ctx
      modifies Repr()
      ensures alive <==> |old(ring.order)| >= 2
      ensures alive ==> Valid() && Retired(old(View()), View().(lost := old(lost)), pos - old(nfree))
      ensures alive ==> lost == old(lost) + 1
    {
      hide Books, Release, CtxInRange, Permutation, Linked, SlabsSized;
      alive := RetireContext(ctx, pos);
      lost := lost + 1;
    }

    /** Walks from the head and stops at the first free context: with one in front nothing happens.
        Otherwise every context gives its banks, slabs and credit back and stays where it is. */
    method Flush()
      requires Valid()
      modifies Repr()
      ensures Valid() && ring.order == old(ring.order)
      ensures nfree == if old(nfree) > 0 then old(nfree) else |ring.order|
      ensures AllInRange(old(View()))
      ensures View() == if old(nfree) > 0 then old(View()) else Flushed(old(View()))
      ensures old(nfree) == 0 ==> forall k | 0 <= k < mrm.banks.Length :: mrm.banks[k].ref == 0
    {
      BusyInRange();
      Successor(0);
      var ctx := ring.head;
      if ring.handle[ctx].Some? {
        FlushFrom(ctx);
        NothingHeld();
      }
    }

    lemma {:induction false} NothingHeld()
      requires Valid() && nfree == |ring.order|
      ensures forall k | 0 <= k < mrm.banks.Length :: mrm.banks[k].ref == 0
    {
      var lives := Lives(Slots(ring.order, ring.handle[..], nfree));
      assert lives == [] && BankUse(lives) == multiset{};
      assert mrm.banks[..] == mrm.View().banks;
    }

    lemma {:induction false} BusyInRange()
      requires Valid()
      ensures AllInRange(View())
    {
      var live := Lives(View().busy);
      forall i | 0 <= i < |View().busy| ensures CtxInRange(View().m, View().busy[i].t.ctx) {
        ReleaseKeepsBooks(mrm.View(), live, i);
      }
    }

    method FlushFrom(first: nat)
      requires Valid() && nfree == 0 && first == ring.order[0] && AllInRange(View())
      modifies this`counter, this`nfree, mrm.banks, mrm.slabs, mrm`held, ring.handle
      ensures Valid() && nfree == |ring.order| && View() == Flushed(old(View()))
    {
      AtFirst(0);
      hide Valid, View, Shape, FlushedOnce, AllInRange;
      ghost var was := View();
      var ctx: int := first;
      while ctx != NULL && ring.handle[ctx].Some?
        invariant Valid() && Shape() && nfree <= |ring.order|
        invariant AtPlace(ctx)
        invariant AllInRange(View()) && Flushed(View()) == Flushed(was)
        decreases |ring.order| - nfree
      {
        ctx := FlushStep(ctx);
      }
      NoneBusy(ctx);
    }

    /** ctx is the oldest busy context, or NULL behind the last. */
    ghost predicate AtPlace(ctx: int)
      requires Shape()
      reads Repr()
    {
      && ctx == (if nfree < |ring.order| then ring.order[nfree] else NULL)
      && (ctx != NULL ==> 0 <= ctx < ring.handle.Length && ring.handle[ctx].Some?)
    }

    lemma {:induction false} NoneBusy(ctx: int)
      requires Valid() && AtPlace(ctx) && AllInRange(View())
      ensures ctx == NULL ==> nfree == |ring.order| && Flushed(View()) == View()
    {
      if ctx == NULL { assert View().busy == []; }
    }

    /** One context, and the next one. */
    method FlushStep(ctx: int) returns (next: int)
      requires Valid() && AtPlace(ctx) && ctx != NULL && AllInRange(View())
      modifies this`counter, this`nfree, mrm.banks, mrm.slabs, mrm`held, ring.handle
      ensures Valid() && old(nfree) < nfree <= |ring.order| && AtPlace(next)
      ensures AllInRange(View()) && Flushed(View()) == Flushed(old(View()))
    {
      hide View, Books;
      AtFirst(nfree);
      FlushOne(ctx);
      next := ring.next[ctx];
      if nfree < |ring.order| { AtFirst(nfree); }
    }

    lemma {:induction false} Successor(i: nat)
      requires ring.Valid() && Partitioned(ring.order, ring.handle[..], nfree) && i < |ring.order|
      ensures ring.order[i] < ring.next.Length && ring.order[i] < ring.handle.Length
      ensures ring.next[ring.order[i]] == if i + 1 < |ring.order| then ring.order[i + 1] else NULL
      ensures ring.handle[ring.order[i]].Some? <==> i >= nfree
    {
      assert ring.next[..][ring.order[i]] == ring.next[ring.order[i]];
      assert ring.handle[..][ring.order[i]] == ring.handle[ring.order[i]];
    }

    /** The context at place i, and the one after it. */
    lemma {:induction false} AtFirst(i: nat)
      requires Valid() && nfree <= i < |ring.order|
      ensures ring.order[i] < ring.next.Length == ring.handle.Length && ring.handle[ring.order[i]].Some?
      ensures ring.next[ring.order[i]] == if i + 1 < |ring.order| then ring.order[i + 1] else NULL
      ensures |View().busy| == |ring.order| - nfree
    {
      Successor(i);
    }

    /** The oldest busy context gives back what it holds and its credit, and stays where it is. */
    method FlushOne(ctx: nat)
      requires Valid() && nfree < |ring.order| && ctx == ring.order[nfree] && |View().busy| > 0 && AllInRange(View())
      modifies mrm.banks, mrm.slabs, mrm`held, ring.handle, this`nfree, this`counter
      ensures Valid() && nfree == old(nfree) + 1 && View() == FlushedOnce(old(View()))
    {
      hide Books, Release, CtxInRange, SlabsSized, Permutation, Linked;
      ghost var live := Lives(View().busy);
      ReleaseKeepsBooks(mrm.View(), live, 0);
      OldestFreed(ring.order, ring.handle[..], nfree);
      hide Slots, Partitioned;
      FreeContext(ctx);
      counter := counter + 1;
      nfree := nfree + 1;
    }
  }
}
