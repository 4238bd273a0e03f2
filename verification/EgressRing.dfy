/** The egress contexts of sofi.c: a doubly linked list over a fixed array of contexts, the free ones
    in front and the busy ones behind in posting order. */
module EgressRing {
  import opened Basics
  import opened MrCounts
  import opened Links

  ghost predicate Permutation(order: seq<nat>) {
    && NoDup(order)
    && (forall i | 0 <= i < |order| :: order[i] < |order|)
    && (forall c: nat | c < |order| :: c in order)
  }

  function MovedToBack(order: seq<nat>): (r: seq<nat>)
    requires |order| > 0
    ensures |r| == |order|
  {
    order[1..] + [order[0]]
  }

  function MovedToFront(order: seq<nat>, pos: nat): (r: seq<nat>)
    requires pos < |order|
    ensures |r| == |order|
  {
    [order[pos]] + Without(order, pos)
  }

  lemma {:induction false} IndexOf(order: seq<nat>, c: nat) returns (i: nat)
    requires c in order
    ensures i < |order| && order[i] == c
  {
    i :| 0 <= i < |order| && order[i] == c;
  }

  lemma {:induction false} BackKeepsPermutation(order: seq<nat>)
    requires Permutation(order) && |order| > 0
    ensures Permutation(MovedToBack(order))
  {
    var back := MovedToBack(order);
    forall c: nat | c < |order| ensures c in back {
      var i := IndexOf(order, c);
      assert back[if i == 0 then |order| - 1 else i - 1] == c;
    }
  }

  lemma {:induction false} FrontKeepsPermutation(order: seq<nat>, pos: nat)
    requires Permutation(order) && pos < |order|
    ensures Permutation(MovedToFront(order, pos))
  {
    var front := MovedToFront(order, pos);
    forall c: nat | c < |order| ensures c in front {
      var i := IndexOf(order, c);
      assert front[if i == pos then 0 else if i < pos then i + 1 else i] == c;
    }
  }

  /** What the pointer writes of moving the head behind the tail amount to. */
  lemma {:induction false} BackRelinks(order: seq<nat>, next: seq<int>, prev: seq<int>)
    requires NoDup(order) && Linked(order, next, prev) && |order| > 1
    ensures var (c, t, h) := (order[0], order[|order| - 1], order[1]);
            Linked(MovedToBack(order), next[t := c][c := NULL], prev[c := t][h := NULL])
  {
    var (c, t, h) := (order[0], order[|order| - 1], order[1]);
    var rest := order[1..];
    HeadUnlinks(order, next, prev);
    var n1, p1 := next[c := NULL], prev[h := NULL][c := NULL];
    assert rest[0] == h && rest[|rest| - 1] == t;
    BackLinks(rest, c, n1, p1);
    assert n1[t := c][c := NULL] == next[t := c][c := NULL];
    assert p1[c := t] == prev[c := t][h := NULL];
  }

  /** ... and of moving the context at pos, neither head nor tail, in front of the head. */
  lemma {:induction false} MidRelinks(order: seq<nat>, next: seq<int>, prev: seq<int>, pos: nat)
    requires NoDup(order) && Linked(order, next, prev) && 0 < pos < |order| - 1
    ensures var (c, h, b, a) := (order[pos], order[0], order[pos - 1], order[pos + 1]);
            Linked(MovedToFront(order, pos), next[b := a][c := h], prev[a := b][h := c][c := NULL])
  {
    MiddleUnlinks(order, pos, next, prev);
    FrontLinks(Without(order, pos), order[pos], next[order[pos - 1] := order[pos + 1]],
               prev[order[pos + 1] := order[pos - 1]]);
  }

  /** ... and the tail. */
  lemma {:induction false} TailRelinks(order: seq<nat>, next: seq<int>, prev: seq<int>)
    requires NoDup(order) && Linked(order, next, prev) && |order| > 1
    ensures var n := |order|; var (c, h, b) := (order[n - 1], order[0], order[n - 2]);
            Linked(MovedToFront(order, n - 1), next[b := NULL][c := h], prev[c := NULL][h := c])
  {
    var n := |order|;
    var (c, h, b) := (order[n - 1], order[0], order[n - 2]);
    MiddleUnlinks(order, n - 1, next, prev);
    FrontLinks(Without(order, n - 1), c, next[b := NULL], prev);
    assert prev[h := c][c := NULL] == prev[c := NULL][h := c];
  }

  class Ring {
    const next: array<int>
    const prev: array<int>
    /** The registration handle of each context; none on a free context. */
    const handle: array<Option<Transfer>>
    var head: int
    var tail: int
    ghost var order: seq<nat>

    ghost predicate Valid()
      reads this, next, prev
    {
      && next != prev && next.Length == prev.Length == handle.Length
      && 0 < |order| <= next.Length
      && Permutation(order) && Linked(order, next[..], prev[..])
      && head == order[0] && tail == order[|order| - 1]
    }

    /** tx contexts, all unlinked; `Setup` links them. */
    constructor (tx: nat)
      ensures next.Length == prev.Length == handle.Length == tx && next != prev
      ensures fresh(next) && fresh(prev) && fresh(handle)
      ensures forall i | 0 <= i < tx :: next[i] == NULL && prev[i] == NULL && handle[i] == None
    {
      next := new int[tx](_ => NULL);
      prev := new int[tx](_ => NULL);
      handle := new Option<Transfer>[tx](_ => None);
      head, tail := NULL, NULL;
      order := [];
    }

    /** Links the first rx contexts. The loop runs to the receive queue size over an array of the
        transmit queue size, and the tail is the last of rx, so it stays inside exactly when there is one
        and rx does not exceed the transmit queue. */
    method Setup(rx: nat) returns (inBounds: bool)
      requires next != prev && next.Length == prev.Length == handle.Length
      requires forall i | 0 <= i < next.Length :: next[i] == NULL && prev[i] == NULL
      modifies this`head, this`tail, this`order, next, prev
      ensures inBounds <==> 0 < rx <= next.Length
      ensures inBounds ==> Valid() && order == seq(rx, i => i)
    {
      for i := 0 to rx
        invariant i <= next.Length
        invariant forall j | 0 <= j < next.Length :: next[j] == if j + 1 < i then j + 1 else NULL
        invariant forall j | 0 <= j < next.Length :: prev[j] == if 0 < j <= i && j < rx then j - 1 else NULL
      {
        if i >= next.Length { return false; }
        if i > 0 { next[i - 1] := i; }
        if i < rx - 1 {
          if i + 1 >= next.Length { return false; }
          prev[i + 1] := i;
        }
      }
      if rx == 0 { return false; }
      head := 0;
      tail := rx - 1;
      order := seq(rx, i => i);
      inBounds := true;
      forall c: nat | c < rx ensures c in order { assert order[c] == c; }
    }

    method GetContext() returns (ctx: Option<nat>)
      requires Valid()
      ensures ctx == if handle[order[0]].Some? then None else Some(order[0])
    {
      if handle[head].Some? { return None; }
      return Some(head);
    }

    method MarkBusy(ctx: nat)
      requires Valid() && ctx == head
      modifies this`head, this`tail, this`order, next, prev
      ensures Valid() && order == MovedToBack(old(order))
    {
      BackKeepsPermutation(order);
      ghost var n0, p0, second := next[..], prev[..], if |order| > 1 then order[1] else order[0];
      if |order| > 1 {
        BackRelinks(order, n0, p0);
        assert n0[order[0]] == order[1] && order[0] != order[|order| - 1];
      }
      prev[ctx] := tail;
      next[tail] := ctx;
      tail := ctx;
      assert next[ctx] == second;
      prev[next[ctx]] := NULL;
      head := next[ctx];
      next[ctx] := NULL;
      assert next[..] == n0[order[|order| - 1] := ctx][ctx := NULL];
      assert prev[..] == p0[ctx := order[|order| - 1]][second := NULL];
      order := MovedToBack(order);
    }

    /** The tail case. With a single context it follows a null pointer. */
    method PopTail() returns (alive: bool)
      requires Valid()
      modifies this`head, this`tail, this`order, next, prev
      ensures alive <==> |old(order)| >= 2
      ensures alive ==> Valid() && order == MovedToFront(old(order), |old(order)| - 1)
    {
      var ctx := tail;
      FrontKeepsPermutation(order, |order| - 1);
      ghost var n0, p0, last := next[..], prev[..], |order| - 1;
      assert p0[order[last]] == if last > 0 then order[last - 1] else NULL;
      if |order| > 1 { TailRelinks(order, n0, p0); }
      tail := prev[ctx];
      if tail == NULL { return false; }
      next[tail] := NULL;
      prev[ctx] := NULL;
      next[ctx] := head;
      prev[head] := ctx;
      head := ctx;
      assert next[..] == n0[order[last - 1] := NULL][ctx := order[0]];
      assert prev[..] == p0[ctx := NULL][order[0] := ctx];
      order := MovedToFront(order, last);
      alive := true;
    }

    /** The case of a context with neighbours on both sides. */
    method UnlinkToHead(ctx: nat, ghost pos: nat)
      requires Valid() && 0 < pos < |order| - 1 && order[pos] == ctx
      modifies this`head, this`order, next, prev
      ensures Valid() && order == MovedToFront(old(order), pos)
    {
      FrontKeepsPermutation(order, pos);
      ghost var n0, p0, before, after := next[..], prev[..], order[pos - 1], order[pos + 1];
      MidRelinks(order, n0, p0, pos);
      assert n0[ctx] == after && p0[ctx] == before;
      prev[next[ctx]] := prev[ctx];
      next[prev[ctx]] := next[ctx];
      next[ctx] := head;
      prev[head] := ctx;
      head := ctx;
      prev[ctx] := NULL;
      assert next[..] == n0[before := after][ctx := order[0]];
      assert prev[..] == p0[after := before][order[0] := ctx][ctx := NULL];
      order := MovedToFront(order, pos);
    }

    method MarkFree(ctx: nat, ghost pos: nat) returns (alive: bool)
      requires Valid() && pos < |order| && order[pos] == ctx
      modifies this`head, this`tail, this`order, next, prev
      ensures alive <==> |old(order)| >= 2
      ensures alive ==> Valid() && order == MovedToFront(old(order), pos)
    {
      if ctx == tail {
        alive := PopTail();
      } else if ctx == head {
        assert MovedToFront(order, 0) == order;
        alive := true;
      } else {
        UnlinkToHead(ctx, pos);
        alive := true;
      }
    }
  }
}
