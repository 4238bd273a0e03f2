/** Invalidating a region: which registrations go, and when none does. */
module MrMarks {
  import opened MrModel

  predicate InClosed(x: nat, base: nat, len: nat) { base <= x <= base + len }

  /** The four comparisons together say that the two closed intervals share a point. */
  lemma {:induction false} MeetsIsOverlap(b: Bank, base: nat, len: nat)
    ensures Meets(b, base, len) <==> exists x: nat :: InClosed(x, b.base, b.len) && InClosed(x, base, len)
  {
    if Meets(b, base, len) {
      var x := if base >= b.base then base else b.base;
      assert InClosed(x, b.base, b.len) && InClosed(x, base, len);
    }
  }

  predicate Blocks(b: Bank, base: nat, len: nat) { Meets(b, base, len) && b.ref > 0 }

  function FirstBlocking(banks: seq<Bank>, base: nat, len: nat, i: nat): (s: nat)
    requires i <= |banks|
    ensures i <= s <= |banks|
    ensures forall j | i <= j < s :: !Blocks(banks[j], base, len)
    ensures s < |banks| ==> Blocks(banks[s], base, len)
    decreases |banks| - i
  {
    if i == |banks| || Blocks(banks[i], base, len) then i else FirstBlocking(banks, base, len, i + 1)
  }

  lemma {:induction false} SameBlocking(banks: seq<Bank>, next: seq<Bank>, base: nat, len: nat, i: nat)
    requires i <= |banks| == |next| && forall j | i <= j < |banks| :: next[j] == banks[j]
    ensures FirstBlocking(next, base, len, i) == FirstBlocking(banks, base, len, i)
    decreases |banks| - i
  {
    if i < |banks| && !Blocks(banks[i], base, len) { SameBlocking(banks, next, base, len, i + 1); }
  }

  lemma {:induction false} InvalidateEach(banks: seq<Bank>, base: nat, len: nat, closes: seq<bool>, i: nat, k: nat)
    requires i <= |banks| == |closes| && k < |banks|
    ensures var (after, busy) := InvalidateFrom(banks, base, len, closes, i);
            var s := FirstBlocking(banks, base, len, i);
            && (busy <==> s < |banks|)
            && after[k] == if i <= k < s && Meets(banks[k], base, len) then Dropped(banks[k], closes[k]) else banks[k]
    decreases |banks| - i
  {
    if i < |banks| && !Blocks(banks[i], base, len) {
      if Meets(banks[i], base, len) {
        var next := banks[i := Dropped(banks[i], closes[i])];
        InvalidateEach(next, base, len, closes, i + 1, k);
        SameBlocking(banks, next, base, len, i + 1);
      } else {
        InvalidateEach(banks, base, len, closes, i + 1, k);
      }
    }
  }

  /** -EBUSY exactly when a bank in use meets the region; then that bank, those after it and every
      bank in use are as before. Without it, no bank that met the region is marked any more, and the region
      is free of registrations exactly when the provider closed every registration that met it. Banks that
      do not meet the region are never touched. */
  lemma {:induction false} InvalidateExact(banks: seq<Bank>, base: nat, len: nat, closes: seq<bool>)
    requires |banks| == |closes|
    ensures var (after, busy) := InvalidateFrom(banks, base, len, closes, 0);
            && (busy <==> exists k | 0 <= k < |banks| :: Blocks(banks[k], base, len))
            && (forall k | 0 <= k < |banks| && banks[k].ref > 0 :: after[k] == banks[k])
            && (forall s, k | 0 <= s <= k < |banks| && Blocks(banks[s], base, len) :: after[k] == banks[k])
            && (forall k | 0 <= k < |banks| && !Meets(banks[k], base, len) :: after[k] == banks[k])
            && (!busy ==>
                  && (forall k | 0 <= k < |banks| && Meets(banks[k], base, len) ::
                        !after[k].nonvolatile && after[k].ref == banks[k].ref && after[k].age == banks[k].age)
                  && ((forall k | 0 <= k < |banks| && after[k].registered :: !Meets(after[k], base, len)) <==>
                   (forall k | 0 <= k < |banks| && banks[k].registered && Meets(banks[k], base, len) :: closes[k])))
  {
    var (after, busy) := InvalidateFrom(banks, base, len, closes, 0);
    var s := FirstBlocking(banks, base, len, 0);
    forall k | 0 <= k < |banks|
      ensures after[k] == if k < s && Meets(banks[k], base, len) then Dropped(banks[k], closes[k]) else banks[k]
      ensures busy <==> s < |banks|
    {
      InvalidateEach(banks, base, len, closes, 0, k);
    }
    if |banks| > 0 { InvalidateEach(banks, base, len, closes, 0, 0); }
  }
}
