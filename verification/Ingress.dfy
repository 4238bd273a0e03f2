/** The receive buffers of sofi.c on their three linked lists. */
module IngressQueue {
  import opened Basics
  import opened Links
  import opened IngressModel

  ghost predicate Apart(a: seq<nat>, b: seq<nat>) { forall i, j | 0 <= i < |a| && 0 <= j < |b| :: a[i] != b[j] }

  /** Three disjoint lists over the same links. */
  ghost predicate Lists(a: seq<nat>, b: seq<nat>, c: seq<nat>, next: seq<int>, prev: seq<int>) {
    && Linked(a, next, prev) && Linked(b, next, prev) && Linked(c, next, prev)
    && NoDup(a) && NoDup(b) && NoDup(c)
    && Apart(a, b) && Apart(a, c) && Apart(b, c)
  }

  lemma {:induction false} Rotate(a: seq<nat>, b: seq<nat>, c: seq<nat>, next: seq<int>, prev: seq<int>)
    requires Lists(a, b, c, next, prev)
    ensures Lists(b, c, a, next, prev)
  {
  }

  lemma {:induction false} Rotate2(a: seq<nat>, b: seq<nat>, c: seq<nat>, next: seq<int>, prev: seq<int>)
    requires Lists(a, b, c, next, prev)
    ensures Lists(c, a, b, next, prev)
  {
  }

  ghost predicate Outside(x: nat, a: seq<nat>, b: seq<nat>, c: seq<nat>) { x !in a && x !in b && x !in c }

  /** The links of b and c are not among those that changed. */
  lemma {:induction false} TwoOthers(s: seq<nat>, b: seq<nat>, c: seq<nat>, next: seq<int>, prev: seq<int>,
                                     next2: seq<int>, prev2: seq<int>)
    requires Linked(b, next, prev) && Linked(c, next, prev) && Apart(s, b) && Apart(s, c)
    requires |next2| == |next| && |prev2| == |prev|
    requires forall x | 0 <= x < |next| && x !in s :: next2[x] == next[x] && prev2[x] == prev[x]
    ensures Linked(b, next2, prev2) && Linked(c, next2, prev2)
  {
    forall i | 0 <= i < |b| ensures b[i] !in s {}
    forall i | 0 <= i < |c| ensures c[i] !in s {}
    OtherLinks(b, next, prev, next2, prev2);
    OtherLinks(c, next, prev, next2, prev2);
  }

  lemma {:induction false} HeadOut(a: seq<nat>, b: seq<nat>, c: seq<nat>, next: seq<int>, prev: seq<int>)
    requires Lists(a, b, c, next, prev) && |a| > 0
    ensures next[a[0]] == HeadOf(a[1..]) && Outside(a[0], a[1..], b, c)
    ensures Lists(a[1..], b, c, next[a[0] := NULL], Patch(prev, HeadOf(a[1..]), NULL)[a[0] := NULL])
  {
    HeadUnlinks(a, next, prev);
    var t := a[1..];
    forall i | 0 <= i < |t| ensures t[i] == a[i + 1] && t[i] != a[0] {}
    hide Linked;
    TwoOthers(a, b, c, next, prev, next[a[0] := NULL], Patch(prev, HeadOf(t), NULL)[a[0] := NULL]);
  }

  /** HeadOut for the third list. */
  lemma {:induction false} LastHeadOut(a: seq<nat>, b: seq<nat>, c: seq<nat>, next: seq<int>, prev: seq<int>)
    requires Lists(a, b, c, next, prev) && |c| > 0
    ensures next[c[0]] == HeadOf(c[1..]) && Outside(c[0], a, b, c[1..])
    ensures Lists(a, b, c[1..], next[c[0] := NULL], Patch(prev, HeadOf(c[1..]), NULL)[c[0] := NULL])
  {
    Rotate2(a, b, c, next, prev);
    HeadOut(c, a, b, next, prev);
    Rotate(c[1..], a, b, next[c[0] := NULL], Patch(prev, HeadOf(c[1..]), NULL)[c[0] := NULL]);
  }

  lemma {:induction false} MiddleOut(a: seq<nat>, b: seq<nat>, c: seq<nat>, i: nat, next: seq<int>, prev: seq<int>)
    requires Lists(a, b, c, next, prev) && 0 < i < |a|
    ensures prev[a[i]] == a[i - 1] && next[a[i]] == At(a, i + 1) && Outside(a[i], Without(a, i), b, c)
    ensures Lists(Without(a, i), b, c, next[a[i - 1] := next[a[i]]], Patch(prev, next[a[i]], a[i - 1]))
  {
    MiddleUnlinks(a, i, next, prev);
    var t := Without(a, i);
    forall j | 0 <= j < |t| ensures t[j] == a[if j < i then j else j + 1] && t[j] != a[i] {}
    hide Linked;
    TwoOthers(a, b, c, next, prev, next[a[i - 1] := next[a[i]]], Patch(prev, next[a[i]], a[i - 1]));
  }

  lemma {:induction false} FrontIn(x: nat, a: seq<nat>, b: seq<nat>, c: seq<nat>, next: seq<int>, prev: seq<int>)
    requires Lists(a, b, c, next, prev) && Outside(x, a, b, c) && x < |next|
    ensures Lists([x] + a, b, c, next[x := HeadOf(a)], Patch(prev, HeadOf(a), x)[x := NULL])
  {
    FrontLinks(a, x, next, prev);
    hide Linked;
    TwoOthers([x] + a, b, c, next, prev, next[x := HeadOf(a)], Patch(prev, HeadOf(a), x)[x := NULL]);
  }

  lemma {:induction false} BackIn(x: nat, a: seq<nat>, b: seq<nat>, c: seq<nat>, next: seq<int>, prev: seq<int>)
    requires Lists(a, b, c, next, prev) && Outside(x, a, b, c) && x < |next|
    ensures Lists(a + [x], b, c, Patch(next, LastOf(a), x)[x := NULL], prev[x := LastOf(a)])
  {
    BackLinks(a, x, next, prev);
    hide Linked;
    TwoOthers(a + [x], b, c, next, prev, Patch(next, LastOf(a), x)[x := NULL], prev[x := LastOf(a)]);
  }

  function Entries(pop: seq<nat>, payload: seq<Bytes>): (r: seq<Entry>)
    requires forall i | 0 <= i < |pop| :: pop[i] < |payload|
    ensures |r| == |pop| && forall i | 0 <= i < |pop| :: r[i] == Entry(pop[i], payload[pop[i]])
  {
    seq(|pop|, i requires 0 <= i < |pop| => Entry(pop[i], payload[pop[i]]))
  }

  lemma {:induction false} EntriesGrow(pop: seq<nat>, b: nat, payload: seq<Bytes>)
    requires (forall i | 0 <= i < |pop| :: pop[i] < |payload|) && b < |payload|
    ensures forall i | 0 <= i < |pop + [b]| :: (pop + [b])[i] < |payload|
    ensures Entries(pop + [b], payload) == Entries(pop, payload) + [Entry(b, payload[b])]
  {
  }

  lemma {:induction false} EntriesStay(pop: seq<nat>, b: nat, payload: seq<Bytes>, bytes: Bytes)
    requires (forall i | 0 <= i < |pop| :: pop[i] < |payload|) && b < |payload| && b !in pop
    ensures Entries(pop, payload[b := bytes]) == Entries(pop, payload)
  {
  }

  lemma {:induction false} EntriesShrink(pop: seq<nat>, payload: seq<Bytes>)
    requires (forall i | 0 <= i < |pop| :: pop[i] < |payload|) && |pop| > 0
    ensures forall i | 0 <= i < |pop[1..]| :: pop[1..][i] < |payload|
    ensures Entries(pop[1..], payload) == Entries(pop, payload)[1..]
    ensures Entries(pop, payload)[0] == Entry(pop[0], payload[pop[0]])
  {
    var t := pop[1..];
    forall i | 0 <= i < |t| ensures t[i] == pop[i + 1] {}
  }

  lemma {:induction false} Reverses(s: seq<nat>, rest: seq<nat>)
    requires |s| > 0
    ensures Reversed(s[1..]) + ([s[0]] + rest) == Reversed(s) + rest
  {
  }

  lemma {:induction false} Members(s: seq<nat>, next: seq<int>, prev: seq<int>)
    requires Linked(s, next, prev)
    ensures forall i | 0 <= i < |s| :: s[i] < |next|
  {
  }

  class Ingress {
    const next: array<int>
    const prev: array<int>
    const payload: array<Bytes>
    var bufFree: int
    var bufBusy: int
    var popHead: int
    var popTail: int
    ghost var free: seq<nat>
    ghost var busy: seq<nat>
    ghost var pop: seq<nat>
    var flags: Flags
    ghost var received: seq<Bytes>
    ghost var fetched: seq<Bytes>
    ghost var notices: nat
    ghost var fetches: nat
    ghost var missed: nat

    ghost predicate Valid()
      reads this, next, prev
    {
      && next != prev && next.Length == prev.Length == payload.Length
      && Lists(free, busy, pop, next[..], prev[..])
      && bufFree == HeadOf(free) && bufBusy == HeadOf(busy) && popHead == HeadOf(pop) && popTail == LastOf(pop)
    }

    /** A buffer in no list, with no links. */
    ghost predicate InHand(b: nat)
      requires next.Length == prev.Length
      reads this, next, prev
    {
      b < next.Length && next[b] == NULL && prev[b] == NULL && Outside(b, free, busy, pop)
    }

    /** max buffers, all in the free list in order. */
    constructor (max: nat)
      requires max > 0
      ensures Valid() && fresh(next) && fresh(prev) && fresh(payload)
      ensures free == seq(max, i => i) && busy == [] && pop == []
    {
      var n := new int[max](_ => NULL);
      var p := new int[max](_ => NULL);
      for i := 0 to max
        invariant forall j | 0 <= j < max :: n[j] == if j + 1 < i then j + 1 else NULL
        invariant forall j | 0 <= j < max :: p[j] == if 0 < j <= i then j - 1 else NULL
      {
        if i > 0 { n[i - 1] := i; }
        if i < max - 1 { p[i + 1] := i; }
      }
      next := n;
      prev := p;
      payload := new Bytes[max](_ => []);
      bufFree, bufBusy, popHead, popTail := 0, NULL, NULL, NULL;
      free, busy, pop := seq(max, i => i), [], [];
      flags := Flags(false, false, false, false);
      received, fetched, notices, fetches, missed := [], [], 0, 0, 0;
    }

    method PopPopulated() returns (b: int)
      requires Valid()
      modifies this`popHead, this`popTail, this`pop, next, prev
      ensures Valid()
      ensures if |old(pop)| == 0 then b == NULL && pop == old(pop)
              else b == old(pop)[0] && pop == old(pop)[1..] && InHand(b)
    {
      if popHead == NULL { return NULL; }
      ghost var n0, p0 := next[..], prev[..];
      LastHeadOut(free, busy, pop, n0, p0);
      hide Lists;
      b := popHead;
      popHead := next[b];
      if popHead != NULL {
        prev[popHead] := NULL;
      } else {
        popTail := NULL;
      }
      prev[b] := NULL;
      next[b] := NULL;
      pop := pop[1..];
      assert next[..] == n0[b := NULL] && prev[..] == Patch(p0, HeadOf(pop), NULL)[b := NULL];
    }

    method PopFree() returns (b: int)
      requires Valid()
      modifies this`bufFree, this`free, next, prev
      ensures Valid()
      ensures if |old(free)| == 0 then b == NULL && free == old(free)
              else b == old(free)[0] && free == old(free)[1..] && InHand(b)
    {
      if bufFree == NULL { return NULL; }
      ghost var n0, p0 := next[..], prev[..];
      HeadOut(free, busy, pop, n0, p0);
      hide Lists;
      b := bufFree;
      bufFree := next[b];
      if bufFree != NULL { prev[bufFree] := NULL; }
      prev[b] := NULL;
      next[b] := NULL;
      free := free[1..];
      assert next[..] == n0[b := NULL] && prev[..] == Patch(p0, HeadOf(free), NULL)[b := NULL];
    }

    method ShiftBusy()
      requires Valid() && |busy| > 0
      modifies this`bufBusy, this`busy, next, prev
      ensures Valid() && busy == old(busy)[1..] && Outside(old(busy)[0], free, busy, pop)
    {
      ghost var n0, p0 := next[..], prev[..];
      Rotate(free, busy, pop, n0, p0);
      HeadOut(busy, pop, free, n0, p0);
      hide Lists;
      var b := bufBusy;
      bufBusy := next[b];
      if bufBusy != NULL { prev[bufBusy] := NULL; }
      prev[b] := NULL;
      next[b] := NULL;
      busy := busy[1..];
      assert next[..] == n0[b := NULL] && prev[..] == Patch(p0, HeadOf(busy), NULL)[b := NULL];
      Rotate2(busy, pop, free, next[..], prev[..]);
    }

    method UnlinkBusy(b: nat, ghost i: nat)
      requires Valid() && 0 < i < |busy| && busy[i] == b
      modifies this`busy, next, prev
      ensures Valid() && busy == Without(old(busy), i) && Outside(b, free, busy, pop)
    {
      ghost var n0, p0, before, after := next[..], prev[..], busy[i - 1], next[b];
      Rotate(free, busy, pop, n0, p0);
      MiddleOut(busy, pop, free, i, n0, p0);
      InBusy(i);
      hide Lists, At;
      assert prev[b] == before && after != b && after < next.Length;
      if next[b] != NULL { prev[next[b]] := prev[b]; }
      if prev[b] != NULL { next[prev[b]] := next[b]; }
      assert next[..] == n0[before := after] && prev[..] == Patch(p0, after, before);
      busy := Without(busy, i);
      Rotate2(busy, pop, free, next[..], prev[..]);
    }

    /** Takes a buffer off the busy list, wherever it is; one in no list is left alone. */
    method DropFromBusy(b: nat, ghost i: nat)
      requires Valid() && (InHand(b) || (i < |busy| && busy[i] == b))
      modifies this`bufBusy, this`busy, next, prev
      ensures Valid() && b < next.Length && Outside(b, free, busy, pop)
      ensures busy == if old(InHand(b)) then old(busy) else Without(old(busy), i)
    {
      if i < |busy| && busy[i] == b { InBusy(i); }
      hide Lists;
      if bufBusy == b {
        assert i == 0;
        ShiftBusy();
      } else if prev[b] != NULL || next[b] != NULL {
        UnlinkBusy(b, i);
      }
    }

    /** What membership in the busy list says about a buffer. */
    lemma {:induction false} InBusy(i: nat)
      requires Valid() && i < |busy|
      ensures busy[i] < next.Length && !InHand(busy[i])
      ensures (i == 0 <==> bufBusy == busy[i]) && prev[busy[i]] == At(busy, i - 1)
      ensures NULL <= next[busy[i]] < next.Length && next[busy[i]] != busy[i]
      ensures i > 0 ==> HeadOf(Without(busy, i)) == bufBusy
      ensures Without(busy, 0) == busy[1..]
    {
    }

    method MarkFree(b: nat, ghost i: nat)
      requires Valid() && (InHand(b) || (i < |busy| && busy[i] == b))
      modifies this`bufFree, this`free, this`bufBusy, this`busy, next, prev
      ensures Valid() && free == [b] + old(free)
      ensures busy == if old(InHand(b)) then old(busy) else Without(old(busy), i)
    {
      DropFromBusy(b, i);
      UnshiftFree(b);
    }

    method UnshiftFree(b: nat)
      requires Valid() && b < next.Length && Outside(b, free, busy, pop)
      modifies this`bufFree, this`free, next, prev
      ensures Valid() && free == [b] + old(free)
    {
      ghost var n0, p0 := next[..], prev[..];
      FrontIn(b, free, busy, pop, n0, p0);
      InFree();
      hide Lists, Linked;
      if bufFree != NULL {
        next[b] := bufFree;
        prev[bufFree] := b;
        bufFree := b;
        prev[b] := NULL;
      } else {
        bufFree := b;
        next[b] := NULL;
        prev[b] := NULL;
      }
      assert next[..] == n0[b := HeadOf(free)] && prev[..] == Patch(p0, HeadOf(free), b)[b := NULL];
      free := [b] + free;
    }

    lemma {:induction false} InFree()
      requires Valid()
      ensures NULL <= bufFree < next.Length && NULL <= bufBusy < next.Length && NULL <= popTail < next.Length
      ensures bufBusy == HeadOf(busy) && (bufBusy == NULL <==> |busy| == 0)
      ensures bufFree == NULL <==> |free| == 0
      ensures popTail == NULL <==> |pop| == 0
    {
    }

    method MarkBusy(b: nat)
      requires Valid() && InHand(b)
      modifies this`bufBusy, this`busy, next, prev
      ensures Valid() && busy == [b] + old(busy)
    {
      ghost var n0, p0 := next[..], prev[..];
      Rotate(free, busy, pop, n0, p0);
      FrontIn(b, busy, pop, free, n0, p0);
      InFree();
      hide Lists, Linked;
      if bufBusy != NULL {
        next[b] := bufBusy;
        prev[bufBusy] := b;
        bufBusy := b;
        prev[b] := NULL;
      } else {
        bufBusy := b;
        next[b] := NULL;
        prev[b] := NULL;
      }
      assert next[..] == n0[b := HeadOf(busy)] && prev[..] == Patch(p0, HeadOf(busy), b)[b := NULL];
      busy := [b] + busy;
      Rotate2(busy, pop, free, next[..], prev[..]);
    }

    method MarkPopulated(b: nat, ghost i: nat)
      requires Valid() && (InHand(b) || (i < |busy| && busy[i] == b))
      modifies this`popHead, this`popTail, this`pop, this`bufBusy, this`busy, next, prev
      ensures Valid() && pop == old(pop) + [b]
      ensures busy == if old(InHand(b)) then old(busy) else Without(old(busy), i)
    {
      DropFromBusy(b, i);
      PushPopulated(b);
    }

    method PushPopulated(b: nat)
      requires Valid() && b < next.Length && Outside(b, free, busy, pop)
      modifies this`popHead, this`popTail, this`pop, next, prev
      ensures Valid() && pop == old(pop) + [b]
    {
      ghost var n0, p0 := next[..], prev[..];
      Rotate2(free, busy, pop, n0, p0);
      BackIn(b, pop, free, busy, n0, p0);
      InFree();
      hide Lists, Linked;
      if popTail != NULL {
        prev[b] := popTail;
        next[popTail] := b;
        popTail := b;
        next[b] := NULL;
      } else {
        popHead := b;
        popTail := b;
        next[b] := NULL;
        prev[b] := NULL;
      }
      assert next[..] == Patch(n0, LastOf(pop), b)[b := NULL] && prev[..] == p0[b := LastOf(pop)];
      pop := pop + [b];
      Rotate(pop, free, busy, next[..], prev[..]);
    }

    // -------------------------------------------------------------------------------------------
    // Events

    ghost function View(): (s: In)
      requires Valid()
      reads this, next, prev, payload
      ensures s.free == free && s.busy == busy && s.flags == flags && |s.pop| == |pop|
    {
      Members(pop, next[..], prev[..]);
      In(free, busy, Entries(pop, payload[..]), flags, received, fetched, notices, fetches, missed)
    }

    /** nanomsg is told that a message is waiting. */
    method Announce()
      modifies this`notices
      ensures notices == old(notices) + 1
    {
      notices := notices + 1;
    }

    method PostReceive(a: Answer) returns (r: PostResult)
      requires Valid()
      modifies this`bufFree, this`free, this`bufBusy, this`busy, next, prev
      ensures Valid() && (View(), r) == PostOne(old(View()), a)
    {
      hide Lists, InHand;
      ghost var was := free;
      assert |was| > 0 ==> [was[0]] + was[1..] == was;
      var b := PopFree();
      if b == NULL { return NoBuffer; }
      if a.Accepted? {
        MarkBusy(b);
        return Ok;
      }
      ghost var rest := free;
      MarkFree(b, 0);
      assert free == [b as nat] + rest;
      return if a.TryAgain? then ProviderAgain else ProviderError;
    }

    method PostPutOff(a: Answer)
      requires Valid()
      modifies this`bufFree, this`free, this`bufBusy, this`busy, this`flags, next, prev
      ensures Valid() && View() == PostLate(old(View()), a)
    {
      if flags.postLater {
        flags := flags.(postLater := false);
        var _ := PostReceive(a);
      }
    }

    method HandleCompletion(b: nat, ghost i: nat, bytes: Bytes, late: Answer)
      requires Valid() && i < |busy| && busy[i] == b
      modifies this, next, prev, payload
      ensures Valid() && View() == Handle(old(View()), i, bytes, late)
    {
      hide Valid, View, KEEPALIVE, PostLate;
      if bytes == KEEPALIVE {
        FreeBusy(b, i);
        PostPutOff(late);
      } else {
        QueuePayload(b, i, bytes);
        AnnounceMessage();
      }
    }

    method FreeBusy(b: nat, ghost i: nat)
      requires Valid() && i < |busy| && busy[i] == b
      modifies this`bufFree, this`free, this`bufBusy, this`busy, next, prev
      ensures Valid() && View() == old(View()).(busy := Without(old(View()).busy, i), free := [b] + old(View()).free)
    {
      hide Valid, InHand, Entries, Without;
      BusyIsOut(b, i);
      MarkFree(b, i);
    }

    lemma {:induction false} BusyIsOut(b: nat, i: nat)
      requires Valid() && i < |busy| && busy[i] == b
      ensures !InHand(b)
    {
      InBusy(i);
    }

    method AnnounceMessage()
      requires Valid()
      modifies this`flags, this`notices, this`missed
      ensures Valid() && View() == Announced(old(View()))
    {
      hide Lists;
      if flags.nnBusy {
        if flags.nnLater { missed := missed + 1; }
        flags := flags.(nnLater := true);
      } else {
        flags := flags.(nnBusy := true);
        Announce();
      }
    }

    method QueuePayload(b: nat, ghost i: nat, bytes: Bytes)
      requires Valid() && i < |busy| && busy[i] == b
      modifies this`popHead, this`popTail, this`pop, this`bufBusy, this`busy, this`received, next, prev, payload
      ensures Valid()
      ensures var s := old(View());
              View() == s.(busy := Without(s.busy, i), received := s.received + [bytes],
                           pop := s.pop + [Entry(b, bytes)])
    {
      hide Valid, View;
      Store(b, i, bytes);
      MoveToQueue(b, i);
      Log(bytes);
    }

    method MoveToQueue(b: nat, ghost i: nat)
      requires Valid() && i < |busy| && busy[i] == b && b < payload.Length
      modifies this`popHead, this`popTail, this`pop, this`bufBusy, this`busy, next, prev
      ensures Valid()
      ensures var s := old(View()); View() == s.(busy := Without(s.busy, i), pop := s.pop + [Entry(b, payload[b])])
    {
      InBusy(i);
      NotQueued(b, i);
      EntriesGrow(pop, b, payload[..]);
      hide Valid, InHand, Entries;
      MarkPopulated(b, i);
    }

    ghost method Log(bytes: Bytes)
      requires Valid()
      modifies this`received
      ensures Valid() && View() == old(View()).(received := old(View()).received + [bytes])
    {
      received := received + [bytes];
    }

    /** The provider's write into a posted buffer does not reach the queue. */
    method Store(b: nat, ghost i: nat, bytes: Bytes)
      requires Valid() && i < |busy| && busy[i] == b
      modifies payload
      ensures Valid() && View() == old(View()) && b < payload.Length && payload[b] == bytes
    {
      InBusy(i);
      NotQueued(b, i);
      hide Valid, InHand;
      EntriesStay(pop, b, payload[..], bytes);
      hide Entries;
      ghost var was := payload[..];
      payload[b] := bytes;
      assert payload[..] == was[b := bytes];
    }

    lemma {:induction false} NotQueued(b: nat, i: nat)
      requires Valid() && i < |busy| && busy[i] == b
      ensures b < payload.Length && b !in pop && forall j | 0 <= j < |pop| :: pop[j] < payload.Length
    {
    }

    /** A receive completion while the connection is active. */
    method OnReceive(b: nat, ghost i: nat, bytes: Bytes, late: Answer, a: Answer)
      requires Valid() && i < |busy| && busy[i] == b
      modifies this, next, prev, payload
      ensures Valid() && View() == Receive(old(View()), i, bytes, late, a)
    {
      hide Valid, Handle;
      HandleCompletion(b, i, bytes, late);
      var r := PostReceive(a);
      if r.NoBuffer? || r.ProviderAgain? { Defer(); }
    }

    method Defer()
      requires Valid()
      modifies this`flags
      ensures Valid() && View() == old(View()).(flags := old(flags).(postLater := true))
    {
      flags := flags.(postLater := true);
    }

    /** The first populated buffer goes back to the free list; its payload is still in it. */
    method FreeQueued() returns (b: nat)
      requires Valid() && |pop| > 0
      modifies this`popHead, this`popTail, this`pop, this`bufFree, this`free, this`bufBusy, this`busy, next, prev
      ensures Valid() && b < payload.Length && old(View()).pop[0] == Entry(b, payload[b])
      ensures var s := old(View()); View() == s.(pop := s.pop[1..], free := [b] + s.free)
    {
      hide Valid, View, InHand;
      b := PopQueued();
      FreeInHand(b);
    }

    method PopQueued() returns (b: nat)
      requires Valid() && |pop| > 0
      modifies this`popHead, this`popTail, this`pop, next, prev
      ensures Valid() && InHand(b) && b < payload.Length && old(View()).pop[0] == Entry(b, payload[b])
      ensures var s := old(View()); View() == s.(pop := s.pop[1..])
    {
      Front();
      EntriesShrink(pop, payload[..]);
      hide Lists, InHand, Entries;
      b := PopPopulated();
    }

    method FreeInHand(b: nat)
      requires Valid() && InHand(b)
      modifies this`bufFree, this`free, this`bufBusy, this`busy, next, prev
      ensures Valid() && View() == old(View()).(free := [b] + old(View()).free)
    {
      hide Lists, InHand, Entries;
      MarkFree(b, 0);
    }

    method TakeMessage() returns (bytes: Bytes)
      requires Valid() && |pop| > 0
      modifies this`popHead, this`popTail, this`pop, this`bufFree, this`free, this`bufBusy, this`busy, next, prev,
               this`fetched, this`fetches
      ensures Valid() && View() == TakeFirst(old(View())) && bytes == old(View()).pop[0].bytes
    {
      hide Valid, View;
      var b := FreeQueued();
      bytes := payload[b];
      LogFetch(bytes);
    }

    ghost method LogFetch(bytes: Bytes)
      requires Valid()
      modifies this`fetched, this`fetches
      ensures Valid()
      ensures var s := old(View()); View() == s.(fetched := s.fetched + [bytes], fetches := s.fetches + 1)
    {
      fetched := fetched + [bytes];
      fetches := fetches + 1;
    }

    lemma {:induction false} Front()
      requires Valid()
      ensures popHead == HeadOf(pop) && forall j | 0 <= j < |pop| :: pop[j] < payload.Length
    {
    }

    method RearmNotice()
      requires Valid()
      modifies this`flags, this`notices
      ensures Valid() && View() == Rearm(AsWritten, old(View()))
    {
      hide Lists, Entries;
      if flags.nnLater {
        flags := flags.(nnLater := false);
        Announce();
      } else {
        flags := flags.(nnBusy := false);
      }
    }

    /** nanomsg answers an announcement. */
    method FetchMessage(a: Answer) returns (m: Option<Bytes>)
      requires Valid() && flags.nnBusy
      modifies this, next, prev
      ensures Valid() && View() == Fetch(AsWritten, old(View()), a)
      ensures m == if |old(pop)| == 0 then None else Some(old(View()).pop[0].bytes)
    {
      PopHeadTells();
      hide Valid, PostLate, Flush;
      if popHead == NULL { return None; }
      var bytes := TakeMessage();
      PostPutOff(a);
      RearmNotice();
      if flags.flush { FlushAll(); }
      return Some(bytes);
    }

    lemma {:induction false} PopHeadTells()
      requires Valid()
      ensures popHead == NULL <==> |pop| == 0
    {
    }

    method FlushBusy()
      requires Valid()
      modifies this`bufFree, this`free, this`bufBusy, this`busy, next, prev
      ensures Valid() && View() == old(View()).(free := Reversed(old(View()).busy) + old(View()).free, busy := [])
    {
      hide Valid, View;
      ghost var v := View();
      BusyHeadTells();
      while bufBusy != NULL
        invariant Valid() && View() == v.(busy := View().busy, free := free)
        invariant Reversed(View().busy) + free == Reversed(v.busy) + v.free
        invariant bufBusy == HeadOf(View().busy)
        decreases |View().busy|
      {
        ghost var q := View().busy;
        assert Without(q, 0) == q[1..];
        Reverses(q, free);
        FreeBusy(bufBusy, 0);
        BusyHeadTells();
      }
      assert Reversed([]) + free == free;
    }

    lemma {:induction false} BusyHeadTells()
      requires Valid()
      ensures bufBusy == HeadOf(busy)
    {
    }

    method FlushQueue()
      requires Valid()
      modifies this`popHead, this`popTail, this`pop, this`bufFree, this`free, this`bufBusy, this`busy, next, prev
      ensures Valid() && View() == old(View()).(free := Reversed(Bufs(old(View()).pop)) + old(View()).free, pop := [])
    {
      hide Valid, View;
      ghost var v := View();
      PopHeadTells();
      while popHead != NULL
        invariant Valid() && View() == v.(pop := View().pop, free := free)
        invariant Reversed(Bufs(View().pop)) + free == Reversed(Bufs(v.pop)) + v.free
        invariant popHead == NULL <==> |View().pop| == 0
        decreases |View().pop|
      {
        ghost var q, f := View().pop, free;
        var b := FreeQueued();
        assert Bufs(q)[1..] == Bufs(q[1..]);
        Reverses(Bufs(q), f);
        PopHeadTells();
      }
      assert Bufs([]) == [] && Reversed([]) + free == free;
    }

    method FlushAll()
      requires Valid()
      modifies this`popHead, this`popTail, this`pop, this`bufFree, this`free, this`bufBusy, this`busy, this`flags,
               next, prev
      ensures Valid() && View() == Flush(old(View()))
    {
      hide Valid, View;
      FlushBusy();
      if flags.nnBusy {
        SetFlags(flags.(flush := true));
        return;
      }
      FlushQueue();
      SetFlags(flags.(postLater := false, nnLater := false));
    }

    method SetFlags(f: Flags)
      requires Valid()
      modifies this`flags
      ensures Valid() && View() == old(View()).(flags := f)
    {
      flags := f;
    }
  }
}
