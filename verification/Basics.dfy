/** Small notions every part of the model uses. */
module Basics {

  datatype Option<+T> = None | Some(value: T)

  /** The code as written, or with the small change that repairs it. */
  datatype Build = AsWritten | Corrected

  function Without<T>(s: seq<T>, i: nat): (r: seq<T>)
    requires i < |s|
    ensures |r| == |s| - 1
  {
    s[..i] + s[i + 1..]
  }

  function Int(b: bool): nat { if b then 1 else 0 }

  lemma {:induction false} Swapped<T>(a: multiset<T>, b: multiset<T>, c: multiset<T>)
    ensures a + b + c == a + c + b
  {
  }

  function Range(max: nat): multiset<nat> {
    if max == 0 then multiset{} else Range(max - 1) + multiset{max - 1}
  }

  lemma {:induction false} RangeOnce(max: nat, k: nat)
    ensures Range(max)[k] == Int(k < max) && |Range(max)| == max
    decreases max
  {
    if max > 0 { RangeOnce(max - 1, k); }
  }

  lemma {:induction false} MultisetWithout<T>(s: seq<T>, i: nat)
    requires i < |s|
    ensures multiset(s) == multiset(Without(s, i)) + multiset{s[i]}
  {
    assert s == s[..i] + [s[i]] + s[i + 1..];
  }

  /** A run goes on with one more event: what holds of every step so far, and of this one, holds of every
      step of the longer run. */
  lemma {:induction false} OneMore<S, E>(ok: (S, E, S) -> bool, ss: seq<S>, es: seq<E>, e: E, t: S)
    requires |ss| == |es| + 1 && ok(ss[|es|], e, t)
    requires forall k {:trigger es[k]} | 0 <= k < |es| :: ok(ss[k], es[k], ss[k + 1])
    ensures var ss2, es2 := ss + [t], es + [e];
            forall k {:trigger es2[k]} | 0 <= k < |es2| :: ok(ss2[k], es2[k], ss2[k + 1])
  {
    var ss2, es2 := ss + [t], es + [e];
    forall k | 0 <= k < |es2| ensures ok(ss2[k], es2[k], ss2[k + 1]) {
      if k < |es| { assert es2[k] == es[k] && ss2[k] == ss[k] && ss2[k + 1] == ss[k + 1]; }
    }
  }

  /** The same with one more event in front. */
  lemma {:induction false} OneBefore<S, E>(ok: (S, E, S) -> bool, s: S, e: E, ss: seq<S>, es: seq<E>)
    requires |ss| == |es| + 1 && ok(s, e, ss[0])
    requires forall k {:trigger es[k]} | 0 <= k < |es| :: ok(ss[k], es[k], ss[k + 1])
    ensures var ss2, es2 := [s] + ss, [e] + es;
            forall k {:trigger es2[k]} | 0 <= k < |es2| :: ok(ss2[k], es2[k], ss2[k + 1])
  {
    var ss2, es2 := [s] + ss, [e] + es;
    forall k | 0 <= k < |es2| ensures ok(ss2[k], es2[k], ss2[k + 1]) {
      if k > 0 { assert es2[k] == es[k - 1] && ss2[k] == ss[k - 1] && ss2[k + 1] == ss[k]; }
    }
  }
}
