/** Doubly linked lists over arrays of `next` and `prev` pointers, as sequences: NULL is -1, a pointer
    is an index, and each lemma says what one group of pointer writes does to the list. */
module Links {
  import opened Basics

  const NULL := -1

  /** The i-th member, or NULL past either end. */
  function At(order: seq<nat>, i: int): int { if 0 <= i < |order| then order[i] else NULL }

  /** `order` read through its links, head to tail. */
  ghost predicate Linked(order: seq<nat>, next: seq<int>, prev: seq<int>) {
    && |next| == |prev|
    && (forall i | 0 <= i < |order| :: order[i] < |next|)
    && (forall i {:trigger next[order[i]]} | 0 <= i < |order| :: next[order[i]] == At(order, i + 1))
    && (forall i {:trigger prev[order[i]]} | 0 <= i < |order| :: prev[order[i]] == At(order, i - 1))
  }

  ghost predicate NoDup(s: seq<nat>) { forall i, j | 0 <= i < j < |s| :: s[i] != s[j] }

  function HeadOf(s: seq<nat>): int { At(s, 0) }

  function LastOf(s: seq<nat>): int { At(s, |s| - 1) }

  function Patch(a: seq<int>, i: int, v: int): (r: seq<int>)
    requires i == NULL || 0 <= i < |a|
    ensures |r| == |a|
  {
    if i == NULL then a else a[i := v]
  }

  lemma {:induction false} HeadUnlinks(s: seq<nat>, next: seq<int>, prev: seq<int>)
    requires Linked(s, next, prev) && NoDup(s) && |s| > 0
    ensures next[s[0]] == HeadOf(s[1..])
    ensures Linked(s[1..], next[s[0] := NULL], Patch(prev, HeadOf(s[1..]), NULL)[s[0] := NULL])
  {
    var t := s[1..];
    forall i | 0 <= i < |t| ensures t[i] == s[i + 1] && t[i] != s[0] && (i > 0 ==> t[i] != t[0]) {}
  }

  lemma {:induction false} FrontLinks(s: seq<nat>, b: nat, next: seq<int>, prev: seq<int>)
    requires Linked(s, next, prev) && NoDup(s) && b !in s && b < |next|
    ensures Linked([b] + s, next[b := HeadOf(s)], Patch(prev, HeadOf(s), b)[b := NULL])
  {
    var t := [b] + s;
    var n, p := next[b := HeadOf(s)], Patch(prev, HeadOf(s), b)[b := NULL];
    forall i | 0 <= i < |t| ensures n[t[i]] == At(t, i + 1) && p[t[i]] == At(t, i - 1) {
      if i > 0 {
        assert t[i] == s[i - 1] && s[i - 1] in s;
        assert i > 1 ==> s[i - 1] != s[0];
      }
    }
  }

  lemma {:induction false} BackLinks(s: seq<nat>, b: nat, next: seq<int>, prev: seq<int>)
    requires Linked(s, next, prev) && NoDup(s) && b !in s && b < |next|
    ensures Linked(s + [b], Patch(next, LastOf(s), b)[b := NULL], prev[b := LastOf(s)])
  {
    var t := s + [b];
    forall i | 0 <= i < |s| ensures t[i] == s[i] && s[i] != b {}
    assert t[|s|] == b;
  }

  lemma {:induction false} MiddleUnlinks(s: seq<nat>, i: nat, next: seq<int>, prev: seq<int>)
    requires Linked(s, next, prev) && NoDup(s) && 0 < i < |s|
    ensures prev[s[i]] == s[i - 1] && next[s[i]] == (if i + 1 < |s| then s[i + 1] else NULL)
    ensures Linked(Without(s, i), next[s[i - 1] := next[s[i]]], Patch(prev, next[s[i]], s[i - 1]))
  {
    var t := Without(s, i);
    assert prev[s[i]] == s[i - 1] && next[s[i]] == At(s, i + 1);
    forall j | 0 <= j < |t| ensures t[j] == s[if j < i then j else j + 1] {}
  }

  /** Links outside a list do not matter to it. */
  lemma {:induction false} OtherLinks(s: seq<nat>, next: seq<int>, prev: seq<int>, next2: seq<int>, prev2: seq<int>)
    requires Linked(s, next, prev) && |next2| == |next| && |prev2| == |prev|
    requires forall i | 0 <= i < |s| :: next2[s[i]] == next[s[i]] && prev2[s[i]] == prev[s[i]]
    ensures Linked(s, next2, prev2)
  {
  }
}
