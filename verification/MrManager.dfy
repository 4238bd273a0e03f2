/** The registration cache in place: fixed arrays of banks and slabs, a mutex per bank. */
module MrManagement {
  import opened Basics
  import opened MrModel
  import MrCounts

  datatype SlabResult = TooLarge | AllBusy | Got(slab: nat)

  /** How marking a region ends: nothing free, or the calling thread waits for a mutex it holds. */
  datatype MarkResult = NoMemory | SelfDeadlock(bank: nat)

  datatype InvalidateResult = Cleared | Busy

  const SLAB_MUTEX := -1

  class MrManager {
    const banks: array<Bank>
    const slabs: array<Slab>
    const slabSize: nat
    var age: nat
    /** The mutexes the calling thread holds: those of banks by index, and that of the slabs. */
    ghost var held: set<int>

    ghost function View(): Mr
      reads this, banks, slabs
    {
      Mr(banks[..], slabs[..], slabSize, age)
    }

    ghost predicate Valid()
      reads this, banks, slabs
    {
      SlabsSized(View())
    }

    constructor (bankCount: nat, slabCount: nat, slabBytes: nat)
      ensures Valid() && fresh(banks) && fresh(slabs) && held == {}
      ensures View() == MrCounts.Fresh(bankCount, slabCount, slabBytes).m
    {
      banks := new Bank[bankCount](_ => Bank(0, 0, 0, None, 0, false, false));
      slabs := new Slab[slabCount](_ => Slab(false, seq(slabBytes, _ => 0)));
      slabSize := slabBytes;
      age := 0;
      held := {};
    }

    /** A thread that locks a mutex it already holds never gets it. */
    method Lock(ghost i: int)
      requires i !in held
      modifies this`held
      ensures held == old(held) + {i}
    {
      held := held + {i};
    }

    method Unlock(ghost i: int)
      requires i in held
      modifies this`held
      ensures held == old(held) - {i}
    {
      held := held - {i};
    }

    method TrySlab(bytes: seq<bv8>) returns (r: SlabResult)
      requires Valid() && held == {}
      modifies slabs, this`held
      ensures Valid() && held == {} && View().(slabs := []) == old(View()).(slabs := [])
      ensures r.TooLarge? <==> |bytes| > slabSize
      ensures r.AllBusy? <==> |bytes| <= slabSize && FreeSlab(old(slabs[..]), 0) == slabs.Length
      ensures r.Got? ==>
                && r.slab == FreeSlab(old(slabs[..]), 0) < slabs.Length
                && slabs[..] == old(slabs[..])[r.slab := Slab(true, Copied(old(slabs[r.slab].data), bytes))]
      ensures !r.Got? ==> slabs[..] == old(slabs[..])
    {
      if |bytes| > slabSize { return TooLarge; }
      Lock(SLAB_MUTEX);
      for i := 0 to slabs.Length
        invariant forall j | 0 <= j < i :: slabs[j].inUse
        invariant held == {SLAB_MUTEX} && slabs[..] == old(slabs[..])
      {
        if !slabs[i].inUse {
          assert FreeSlab(slabs[..], 0) == i;
          slabs[i] := slabs[i].(inUse := true);
          Unlock(SLAB_MUTEX);
          slabs[i] := slabs[i].(data := Copied(slabs[i].data, bytes));
          return Got(i);
        }
      }
      Unlock(SLAB_MUTEX);
      return AllBusy;
    }

    method UnregisterBank(k: nat, closeOk: bool) returns (ok: bool)
      requires k < banks.Length && k in held
      modifies banks
      ensures banks[..] == old(banks[..])[k := Unregister(old(banks[k]), closeOk).0]
      ensures ok == Unregister(old(banks[k]), closeOk).1
    {
      if !banks[k].registered { return true; }
      if !closeOk { return false; }
      banks[k] := banks[k].(registered := false, mr := None);
      banks[k] := banks[k].(base := 0, len := 0);
      return true;
    }

    method RegisterBank(k: nat, f: Fabric) returns (ok: bool)
      requires k < banks.Length && k in held
      modifies banks, this`age
      ensures var (b, a, done) := Register(old(banks[k]), old(age), f);
              banks[..] == old(banks[..])[k := b] && age == a && ok == done
    {
      if banks[k].registered {
        var closed := UnregisterBank(k, f.closeOk);
        if !closed { return false; }
      }
      if !f.regOk { return false; }
      banks[k] := banks[k].(mr := Some(Region(banks[k].base, banks[k].len)));
      banks[k] := banks[k].(registered := true);
      age := NextAge(age);
      banks[k] := banks[k].(age := age);
      return true;
    }

    /** Only the bank picked stays locked. While the loop runs, only the current candidate is. */
    method LookupBank(ptr: nat, len: nat, f: Fabric) returns (out: Outcome)
      requires held == {}
      modifies this, banks
      ensures View() == FindBank(AsWritten, old(View()), ptr, len, f).0
      ensures out == FindBank(AsWritten, old(View()), ptr, len, f).1
      ensures held == if out.Picked? then {out.bank} else {}
    {
      hide Rebind;
      ghost var was := banks[..];
      var oldest: Option<nat> := None;
      for i := 0 to banks.Length
        invariant banks[..] == was && age == old(age)
        invariant forall j | 0 <= j < i :: !Contains(was[j], ptr, len)
        invariant oldest == Oldest(was, i)
        invariant held == if oldest.Some? then {oldest.value} else {}
      {
        Lock(i);
        assert banks[i] == was[i];
        if Contains(banks[i], ptr, len) {
          if oldest.Some? { Unlock(oldest.value); }
          assert FirstHit(was, ptr, len, 0) == i;
          return Picked(i);
        }
        if banks[i].ref == 0 && !banks[i].nonvolatile {
          if oldest.None? {
            oldest := Some(i);
          } else if banks[i].age < banks[oldest.value].age {
            Unlock(oldest.value);
            oldest := Some(i);
          }
        }
        if oldest != Some(i) { Unlock(i); }
      }
      assert FirstHit(was, ptr, len, 0) == banks.Length;
      if oldest.Some? {
        var ok := RebindBank(oldest.value, ptr, len, f);
        return if ok then Picked(oldest.value) else Failed;
      }
      return Again;
    }

    /** Points the candidate at a new region; it stays locked unless that fails. */
    method RebindBank(k: nat, ptr: nat, len: nat, f: Fabric) returns (ok: bool)
      requires k < banks.Length && held == {k}
      modifies banks, this`age, this`held
      ensures var (b, a, done) := Rebind(AsWritten, old(banks[k]), old(age), ptr, len, f);
              banks[..] == old(banks[..])[k := b] && age == a && ok == done
      ensures held == if ok then {k} else {}
    {
      banks[k] := banks[k].(base := ptr, len := len);
      ok := RegisterBank(k, f);
      if !ok { Unlock(k); }
    }

    /** Gives back the references and slabs a context lists, on a failed describe under the slab mutex. */
    method GiveBack(ctx: Ctx, failed: bool)
      requires Valid() && CtxInRange(View(), ctx) && held == {}
      modifies banks, slabs, this`held
      ensures Valid() && held == {} && View() == Release(old(View()), ctx)
    {
      ghost var banks0, slabs0 := banks[..], slabs[..];
      for i := 0 to |ctx.banks|
        invariant held == {} && slabs[..] == slabs0
        invariant banks[..] == Unref(banks0, ctx.banks[..i])
      {
        var k := ctx.banks[i];
        Lock(k);
        banks[k] := banks[k].(ref := banks[k].ref - 1);
        Unlock(k);
        assert ctx.banks[..i + 1][..i] == ctx.banks[..i];
      }
      assert ctx.banks[..|ctx.banks|] == ctx.banks;
      if failed { Lock(SLAB_MUTEX); }
      for i := 0 to |ctx.slabs|
        invariant held == (if failed then {SLAB_MUTEX} else {}) && banks[..] == Unref(banks0, ctx.banks)
        invariant slabs[..] == FreeSlabs(slabs0, ctx.slabs[..i])
        invariant Valid()
      {
        var k := ctx.slabs[i];
        slabs[k] := slabs[k].(inUse := false);
        assert ctx.slabs[..i + 1][..i] == ctx.slabs[..i];
      }
      if failed { Unlock(SLAB_MUTEX); }
      assert ctx.slabs[..|ctx.slabs|] == ctx.slabs;
    }

    /** One scatter-gather entry: nothing, a slab, or one more reference on a bank. */
    method AcquireEntry(iov: Iov, f: Fabric) returns (got: Option<Desc>, again: bool)
      requires Valid() && held == {}
      modifies this, banks, slabs
      ensures Valid() && held == {}
      ensures Acquired(View(), got, again) == Acquire(AsWritten, old(View()), iov, f)
    {
      if |iov.bytes| == 0 { return Some(NoDesc), false; }
      var slab := TrySlab(iov.bytes);
      if slab.Got? { return Some(SlabDesc(slab.slab)), false; }
      assert View() == old(View());
      var out := LookupBank(iov.base, |iov.bytes|, f);
      if !out.Picked? { return None, out.Again?; }
      var k := out.bank;
      banks[k] := banks[k].(ref := banks[k].ref + 1);
      got, again := Some(BankDesc(k, banks[k].mr)), false;
      Unlock(k);
    }

    method DescribeMessage(msg: seq<Iov>, fs: seq<Fabric>) returns (r: Described)
      requires Valid() && held == {} && |msg| == |fs|
      modifies this, banks, slabs
      ensures Valid() && held == {}
      ensures (View(), r) == Describe(AsWritten, old(View()), msg, fs)
    {
      if |msg| > MAX_PER_CONTEXT { return TooBig; }
      var ctx := Ctx([], [], []);
      ghost var end := DescribeFrom(AsWritten, View(), msg, fs, ctx);
      for i := 0 to |msg|
        invariant Valid() && held == {} && |ctx.descs| == i && CtxInRange(View(), ctx)
        invariant DescribeFrom(AsWritten, View(), msg, fs, ctx) == end
      {
        var got, again := AcquireEntry(msg[i], fs[i]);
        if got.None? {
          GiveBack(ctx, true);
          return if again then NoBank else FabricError;
        }
        ctx := Extend(ctx, got.value);
      }
      return Done(ctx);
    }

    /** As written, a marked bank is locked once more where it should be unlocked: the call returns
        exactly when there was no bank to mark. */
    method MarkRegion(base: nat, len: nat, f: Fabric) returns (r: MarkResult)
      requires held == {}
      modifies this, banks
      ensures View() == Mark(AsWritten, old(View()), base, len, f)
      ensures var k := FirstUnused(old(banks[..]), 0);
              if k == banks.Length then r == NoMemory && held == {} else r == SelfDeadlock(k) && held == {k}
    {
      ghost var was := banks[..];
      for i := 0 to banks.Length
        invariant held == {} && banks[..] == was && age == old(age)
        invariant forall j | 0 <= j < i :: !Unused(was[j])
      {
        Lock(i);
        assert banks[i] == was[i];
        if Unused(banks[i]) {
          assert FirstUnused(was, 0) == i;
          banks[i] := banks[i].(base := base, len := len, nonvolatile := true, registered := false);
          var _ := RegisterBank(i, f);
          return SelfDeadlock(i);
        }
        Unlock(i);
      }
      return NoMemory;
    }

    method InvalidateRegion(base: nat, len: nat, closes: seq<bool>) returns (r: InvalidateResult)
      requires held == {} && |closes| == banks.Length
      modifies this`held, banks
      ensures held == {}
      ensures (banks[..], r.Busy?) == InvalidateFrom(old(banks[..]), base, len, closes, 0)
    {
      ghost var end := InvalidateFrom(banks[..], base, len, closes, 0);
      for i := 0 to banks.Length
        invariant held == {}
        invariant InvalidateFrom(banks[..], base, len, closes, i) == end
      {
        Lock(i);
        if Meets(banks[i], base, len) {
          if banks[i].ref > 0 {
            Unlock(i);
            return Busy;
          }
          ghost var was := banks[..];
          var _ := UnregisterBank(i, closes[i]);
          banks[i] := banks[i].(nonvolatile := false);
          assert banks[..] == was[i := Dropped(was[i], closes[i])];
        }
        Unlock(i);
      }
      return Cleared;
    }

    /** The end of the cache: every bank must be free by then, or the assertion on its counter stops the
        process. */
    method Terminate(closes: seq<bool>) returns (ok: bool)
      requires held == {} && |closes| == banks.Length
      modifies this`held, banks
      ensures ok <==> forall k | 0 <= k < banks.Length :: old(banks[k].ref) == 0
      ensures ok ==> held == {}
      ensures ok ==> forall k | 0 <= k < banks.Length :: banks[k] == Unregister(old(banks[k]), closes[k]).0
    {
      for i := 0 to banks.Length
        invariant held == {}
        invariant forall k | 0 <= k < i ::
                    old(banks[k].ref) == 0 && banks[k] == Unregister(old(banks[k]), closes[k]).0
        invariant forall k | i <= k < banks.Length :: banks[k] == old(banks[k])
      {
        Lock(i);
        if banks[i].ref != 0 { return false; }
        var _ := UnregisterBank(i, closes[i]);
        Unlock(i);
      }
      return true;
    }
  }
}
