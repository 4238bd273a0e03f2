/** The listener in place: the array of offsets and the list of its connections. */
module Listening {
  import opened Basics
  import opened Offsets

  class Bofi {
    var offsets: array<bool>
    /** The offset of each connection in the list. */
    var sofis: seq<nat>
    /** Set once the listener has failed or was told to stop. */
    var stopping: bool
    ghost var leaked: nat

    constructor ()
      ensures View() == Start(64)
    {
      offsets := new bool[64](_ => false);
      sofis := [];
      leaked := 0;
      stopping := false;
      new;
      assert offsets[..] == Unused(64);
    }

    ghost function View(): Listener
      reads this, offsets
    {
      Listener(offsets[..], sofis, leaked, stopping)
    }

    method NewSofiOffset() returns (offset: nat)
      modifies this`offsets, offsets
      ensures fresh(offsets) || offsets == old(offsets)
      ensures (offsets[..], offset) == Alloc(AsWritten, old(offsets[..])) && offset < offsets.Length
    {
      for i := 0 to offsets.Length
        invariant forall k | 0 <= k < i :: offsets[k]
        invariant offsets[..] == old(offsets[..])
      {
        if !offsets[i] {
          FirstFreeIs(offsets[..], i);
          offsets[i] := true;
          return i;
        }
      }
      offset := offsets.Length;
      FirstFreeIs(offsets[..], offset);
      Grow();
      assert offsets[..][offset := false] == offsets[..];
    }

    /** Room for more, not taken. */
    method Grow()
      modifies this`offsets
      ensures fresh(offsets) && offsets[..] == old(offsets[..]) + Unused(GROWTH)
    {
      var grown := new bool[offsets.Length + GROWTH](_ => false);
      forall i | 0 <= i < offsets.Length { grown[i] := offsets[i]; }
      offsets := grown;
    }

    static lemma {:induction false} FirstFreeIs(slots: seq<bool>, i: nat)
      requires i <= |slots| && (forall k | 0 <= k < i :: slots[k]) && (i < |slots| ==> !slots[i])
      ensures FirstFree(slots) == i
    {
      var j := FirstFree(slots);
      if j < i {
        assert false;
      } else if i < j {
        assert false;
      }
    }

    method FreeSofiOffset(offset: nat)
      requires offset < offsets.Length
      modifies offsets
      ensures offsets[..] == Free(old(offsets[..]), offset)
    {
      offsets[offset] := false;
    }

    /** A connection has stopped. */
    method ReapSofi(k: nat)
      requires Enabled(View(), Ended(k))
      modifies this`sofis, offsets
      ensures View() == Step(AsWritten, old(View()), Ended(k))
    {
      FreeSofiOffset(sofis[k]);
      sofis := Without(sofis, k);
    }

    /** The connection is initialised, accepted and listed; one that fails to initialise gives its offset
        back and stops the listener, one that is not accepted keeps it. The listener opens its endpoint
        anew for the next request, or stops. */
    method ConnectionRequest(initOk: bool, acceptOk: bool, reopenOk: bool)
      requires !stopping
      modifies this, offsets
      ensures fresh(offsets) || offsets == old(offsets)
      ensures View() == Step(AsWritten, old(View()), if !initOk then InitFails
                                                     else if !acceptOk then AcceptFails(reopenOk)
                                                     else Accepted(reopenOk))
    {
      var offset := NewSofiOffset();
      if !initOk {
        FreeSofiOffset(offset);
        Stop();
        return;
      }
      if !acceptOk {
        leaked := leaked + 1;
        if !reopenOk { Stop(); }
        return;
      }
      sofis := sofis + [offset];
      if !reopenOk { Stop(); }
    }

    method Stop()
      modifies this`stopping
      ensures View() == old(View()).(stopping := true)
    {
      stopping := true;
    }
  }
}
