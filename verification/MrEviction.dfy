/** Which banks misses take: always the oldest, so never the same one twice while an untouched bank is
    left, and whatever hits come between. */
module MrEviction {
  import opened Basics
  import opened MrModel

  datatype Request = Request(ptr: nat, len: nat)

  const COOPERATIVE := Fabric(true, true)

  /** Looks up one request after the other: the final state and the banks picked. */
  function Lookups(build: Build, m: Mr, reqs: seq<Request>): (r: (Mr, seq<Outcome>))
    ensures |r.1| == |reqs|
    decreases |reqs|
  {
    if |reqs| == 0 then (m, [])
    else
      var n := |reqs| - 1;
      var (before, outs) := Lookups(build, m, reqs[..n]);
      var (after, out) := FindBank(build, before, reqs[n].ptr, reqs[n].len, COOPERATIVE);
      (after, outs + [out])
  }

  predicate Missed(m: Mr, r: Request) { FirstHit(m.banks, r.ptr, r.len, 0) == |m.banks| }

  /** What the requests that missed were given. */
  function MissOuts(build: Build, m: Mr, reqs: seq<Request>): (r: seq<Outcome>)
    ensures |r| <= |reqs|
    decreases |reqs|
  {
    if |reqs| == 0 then []
    else
      var n := |reqs| - 1;
      var before := Lookups(build, m, reqs[..n]).0;
      MissOuts(build, m, reqs[..n]) + if Missed(before, reqs[n]) then [Lookups(build, m, reqs).1[n]] else []
  }

  /** No references, no marks, and no bank younger than the manager's clock. */
  predicate Idle(m: Mr, clock: nat) {
    && (forall k | 0 <= k < |m.banks| :: Evictable(m.banks[k]))
    && (forall k | 0 <= k < |m.banks| :: m.banks[k].age <= clock)
    && m.age == clock
  }

  function PickedSet(outs: seq<Outcome>): set<nat> { set j | 0 <= j < |outs| && outs[j].Picked? :: outs[j].bank }

  /** A set of bank numbers that misses none of them has at least as many elements. */
  lemma {:induction false} FullRange(s: set<nat>, n: nat)
    requires forall k | 0 <= k < n :: k in s
    ensures |s| >= n
    decreases n
  {
    if n > 0 {
      var t := s - {n - 1};
      FullRange(t, n - 1);
    }
  }

  /** A miss takes an untouched bank as long as there is one. */
  lemma {:induction false} MissTakesUntouched(build: Build, m: Mr, clock0: nat, r: Request, u: nat)
    requires Idle(m, m.age) && Missed(m, r) && m.age + 1 < 0x1_0000_0000 && clock0 <= m.age
    requires u < |m.banks| && m.banks[u].age <= clock0
    ensures var (m2, out) := FindBank(build, m, r.ptr, r.len, COOPERATIVE);
            && out.Picked? && out.bank < |m.banks| && m.banks[out.bank].age <= clock0
            && Idle(m2, m.age + 1) && |m2.banks| == |m.banks|
            && forall k | 0 <= k < |m.banks| :: m2.banks[k].age == if k == out.bank then m.age + 1 else m.banks[k].age
  {
    assert Evictable(m.banks[u]);
  }

  /** Exactly the banks picked so far are younger than the clock at the start. */
  predicate PickedAreYoung(banks: seq<Bank>, clock0: nat, outs: seq<Outcome>) {
    && (forall j | 0 <= j < |outs| :: outs[j].Picked? && outs[j].bank < |banks|)
    && (forall i, j | 0 <= i < j < |outs| :: outs[i].bank != outs[j].bank)
    && (forall k | 0 <= k < |banks| :: banks[k].age > clock0 <==> k in PickedSet(outs))
  }

  lemma {:induction false} PickedHas(outs: seq<Outcome>, i: nat)
    requires i < |outs| && outs[i].Picked?
    ensures outs[i].bank in PickedSet(outs)
  {
  }

  lemma {:induction false} PickedGrows(outs: seq<Outcome>, out: Outcome, k: nat)
    requires out.Picked?
    ensures k in PickedSet(outs + [out]) <==> k in PickedSet(outs) || k == out.bank
  {
    var more := outs + [out];
    assert more[|outs|] == out;
    assert forall j | 0 <= j < |outs| :: more[j] == outs[j];
    if k in PickedSet(outs) {
      var j :| 0 <= j < |outs| && outs[j].Picked? && outs[j].bank == k;
      assert more[j].bank == k;
    }
  }

  lemma {:induction false} OneMorePicked(b1: seq<Bank>, b2: seq<Bank>, clock0: nat, now: nat,
                                         outs: seq<Outcome>, out: Outcome)
    requires PickedAreYoung(b1, clock0, outs) && |b1| == |b2| && clock0 < now
    requires out.Picked? && out.bank < |b1| && b1[out.bank].age <= clock0
    requires forall k | 0 <= k < |b1| :: b2[k].age == if k == out.bank then now else b1[k].age
    ensures PickedAreYoung(b2, clock0, outs + [out])
  {
    hide PickedSet;
    forall k | 0 <= k < |b1| ensures b2[k].age > clock0 <==> k in PickedSet(outs + [out]) { PickedGrows(outs, out, k); }
    forall i | 0 <= i < |outs| ensures outs[i].bank != out.bank { PickedHas(outs, i); }
  }

  lemma {:induction false} NonePicked()
    ensures forall k :: k !in PickedSet([])
  {
  }

  lemma {:induction false} PickedBound(outs: seq<Outcome>)
    ensures |PickedSet(outs)| <= |outs|
    decreases |outs|
  {
    if |outs| == 0 {
      assert PickedSet(outs) == {};
    } else {
      var n := |outs| - 1;
      PickedBound(outs[..n]);
      if outs[n].Picked? {
        forall k ensures k in PickedSet(outs) <==> k in PickedSet(outs[..n]) + {outs[n].bank} {
          PickedGrows(outs[..n], outs[n], k);
          assert outs[..n] + [outs[n]] == outs;
        }
        assert PickedSet(outs) == PickedSet(outs[..n]) + {outs[n].bank};
      } else {
        assert PickedSet(outs) == PickedSet(outs[..n]);
      }
    }
  }

  lemma {:induction false} UntouchedBank(outs: seq<Outcome>, n: nat) returns (u: nat)
    requires |outs| < n
    ensures u < n && u !in PickedSet(outs)
  {
    if forall k: nat | k < n :: k in PickedSet(outs) {
      FullRange(PickedSet(outs), n);
      PickedBound(outs);
      assert false;
    }
    u :| u < n && u !in PickedSet(outs);
  }

  /** A request that some bank contains is given the first such bank, and changes no bank and no clock. */
  lemma {:induction false} HitChangesNothing(build: Build, m: Mr, ptr: nat, len: nat, f: Fabric)
    requires exists k | 0 <= k < |m.banks| :: Contains(m.banks[k], ptr, len)
    ensures var (m2, out) := FindBank(build, m, ptr, len, f);
            && m2 == m && out.Picked? && out.bank < |m.banks| && Contains(m.banks[out.bank], ptr, len)
            && forall k | 0 <= k < out.bank :: !Contains(m.banks[k], ptr, len)
  {
  }

  /** A lookup moves an age only when it registers: the bank it picked then gets the next of 2^32 ages, and so
      does the clock. A hit, a busy cache and a refusal leave all of them as they were. */
  lemma {:induction false} AgesExactly(build: Build, m: Mr, ptr: nat, len: nat, f: Fabric)
    requires m.age < 0x1_0000_0000
    ensures var (m2, out) := FindBank(build, m, ptr, len, f);
            var taken := out.Picked? && forall k | 0 <= k < |m.banks| :: !Contains(m.banks[k], ptr, len);
            && (taken ==> out.bank < |m.banks|) && |m2.banks| == |m.banks|
            && m2.age == (if !taken then m.age else if m.age == 0xFFFF_FFFF then 0 else m.age + 1)
            && forall k | 0 <= k < |m.banks| ::
                 m2.banks[k].age == if taken && k == out.bank then m2.age else m.banks[k].age
  {
  }

  /** Up to `bank_count` misses, with any number of hits between them, pick as many different banks, before
      the age wraps. */
  lemma {:induction false} MissesPickDistinctBanks(build: Build, m: Mr, reqs: seq<Request>)
    requires Idle(m, m.age)
    requires var n := |MissOuts(build, m, reqs)|; n <= |m.banks| && m.age + n < 0x1_0000_0000
    ensures var m2, outs := Lookups(build, m, reqs).0, MissOuts(build, m, reqs);
            && Idle(m2, m.age + |outs|) && |m2.banks| == |m.banks|
            && PickedAreYoung(m2.banks, m.age, outs)
    decreases |reqs|
  {
    hide FindBank, PickedSet;
    if |reqs| > 0 {
      var n := |reqs| - 1;
      MissesPickDistinctBanks(build, m, reqs[..n]);
      var before, outs := Lookups(build, m, reqs[..n]).0, MissOuts(build, m, reqs[..n]);
      var (after, out) := FindBank(build, before, reqs[n].ptr, reqs[n].len, COOPERATIVE);
      if Missed(before, reqs[n]) {
        var u := UntouchedBank(outs, |m.banks|);
        MissTakesUntouched(build, before, m.age, reqs[n], u);
        OneMorePicked(before.banks, after.banks, m.age, before.age + 1, outs, out);
        assert MissOuts(build, m, reqs) == outs + [out];
      } else {
        HitChangesNothing(build, before, reqs[n].ptr, reqs[n].len, COOPERATIVE);
        assert MissOuts(build, m, reqs) == outs;
      }
    } else {
      NonePicked();
    }
  }

  /** A miss takes the oldest bank and makes it the youngest, or, when the age wraps, the oldest again. */
  lemma {:induction false} MissTakesOldest(build: Build, m: Mr, r: Request)
    requires (forall k | 0 <= k < |m.banks| :: Evictable(m.banks[k])) && |m.banks| > 0 && Missed(m, r)
    ensures var (m2, out) := FindBank(build, m, r.ptr, r.len, COOPERATIVE);
            && out.Picked? && Oldest(m.banks, |m.banks|) == Some(out.bank) && |m2.banks| == |m.banks|
            && m2.banks[out.bank].age == m2.age == NextAge(m.age)
            && (forall k | 0 <= k < |m.banks| && k != out.bank :: m2.banks[k].age == m.banks[k].age)
            && (forall k | 0 <= k < |m.banks| :: Evictable(m2.banks[k]))
  {
    assert Evictable(m.banks[0]);
  }

  lemma {:induction false} IdleMeans(m: Mr)
    requires Idle(m, m.age)
    ensures forall k | 0 <= k < |m.banks| :: Evictable(m.banks[k])
    ensures forall k | 0 <= k < |m.banks| :: m.banks[k].age <= m.age
  {
  }

  /** Of banks that differ only in the age of the one at p, that one is the oldest. */
  lemma {:induction false} OldestAgain(before: seq<Bank>, after: seq<Bank>, p: nat, clock: nat, age: nat)
    requires |after| == |before| >= 2 && p < |before| && after[p].age == age
    requires forall k | 0 <= k < |before| :: Evictable(after[k]) && before[k].age <= clock
    requires forall k | 0 <= k < |before| && k != p :: after[k].age == before[k].age
    ensures age > clock ==> Oldest(after, |after|) != Some(p)
    ensures age == 0 ==> (Oldest(after, |after|) == Some(p) <==> forall k | 0 <= k < p :: before[k].age > 0)
  {
    hide Oldest;
    var other := if p == 0 then 1 else 0;
    assert Evictable(after[other]) && Evictable(after[p]);
    assert after[other].age == before[other].age;
    forall k | 0 <= k < p ensures Evictable(after[k]) && after[k].age == before[k].age {}
  }

  /** Two misses in a row take the same bank exactly when the age wraps between them and no bank before it
      has age 0. */
  lemma {:induction false} SameBankExactly(build: Build, m: Mr, r: Request, s: Request)
    requires Idle(m, m.age) && m.age < 0x1_0000_0000 && |m.banks| >= 2 && Missed(m, r)
    requires Missed(FindBank(build, m, r.ptr, r.len, COOPERATIVE).0, s)
    ensures var (m2, first) := FindBank(build, m, r.ptr, r.len, COOPERATIVE);
            var second := FindBank(build, m2, s.ptr, s.len, COOPERATIVE).1;
            && first.Picked? && first.bank < |m.banks| && second.Picked?
            && (first == second <==> m.age == 0xFFFF_FFFF && forall k | 0 <= k < first.bank :: m.banks[k].age > 0)
  {
    hide FindBank, Oldest, Evictable, Missed, Idle;
    IdleMeans(m);
    MissTakesOldest(build, m, r);
    var (m2, first) := FindBank(build, m, r.ptr, r.len, COOPERATIVE);
    MissTakesOldest(build, m2, s);
    OldestAgain(m.banks, m2.banks, first.bank, m.age, NextAge(m.age));
    assert NextAge(m.age) == if m.age == 0xFFFF_FFFF then 0 else m.age + 1;
    hide NextAge;
  }
}
