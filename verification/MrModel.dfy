/** The registration cache of ofimr.c as values: what one call does to the banks and slabs.
    `MrManager` runs the same operations in place and is proved against these functions. */
module MrModel {
  import opened Basics

  /** The region a live libfabric registration actually covers. */
  datatype Region = Region(base: nat, len: nat) {
    predicate Covers(ptr: nat, size: nat) { base <= ptr && ptr + size <= base + len }
  }

  /** One bank. `mr` is the region handed to the last successful registration that is still open. */
  datatype Bank = Bank(ref: int, base: nat, len: nat, mr: Option<Region>, age: nat,
                       nonvolatile: bool, registered: bool)

  datatype Slab = Slab(inUse: bool, data: seq<bv8>)

  datatype Mr = Mr(banks: seq<Bank>, slabs: seq<Slab>, slabSize: nat, age: nat)

  /** One scatter-gather entry: where the caller's bytes live and what they are. */
  datatype Iov = Iov(base: nat, bytes: seq<bv8>)

  /** The descriptor a message entry ends up with. */
  datatype Desc = NoDesc | SlabDesc(slab: nat) | BankDesc(bank: nat, mr: Option<Region>)

  /** The per-message context: descriptors, and the banks and slabs to give back. */
  datatype Ctx = Ctx(descs: seq<Desc>, banks: seq<nat>, slabs: seq<nat>)

  /** What the provider answers to the close and the registration of one lookup. */
  datatype Fabric = Fabric(closeOk: bool, regOk: bool)

  datatype Outcome = Picked(bank: nat) | Again | Failed

  datatype Described = Done(ctx: Ctx) | TooBig | NoBank | FabricError

  const MAX_PER_CONTEXT := 16

  function NextAge(age: nat): nat { (age + 1) % 0x1_0000_0000 }

  // ---------------------------------------------------------------------------------------------
  // Looking a bank up

  predicate Contains(b: Bank, ptr: nat, len: nat) { b.base <= ptr && ptr + len <= b.base + b.len }

  predicate Evictable(b: Bank) { b.ref == 0 && !b.nonvolatile }

  /** The first bank from `i` on whose recorded region contains the request; |banks| if none does. */
  function FirstHit(banks: seq<Bank>, ptr: nat, len: nat, i: nat): (h: nat)
    requires i <= |banks|
    ensures i <= h <= |banks|
    ensures forall j | i <= j < h :: !Contains(banks[j], ptr, len)
    ensures h < |banks| ==> Contains(banks[h], ptr, len)
    decreases |banks| - i
  {
    if i == |banks| || Contains(banks[i], ptr, len) then i else FirstHit(banks, ptr, len, i + 1)
  }

  /** Among the first n banks, the evictable one of least age, the lowest index winning ties. */
  function Oldest(banks: seq<Bank>, n: nat): (o: Option<nat>)
    requires n <= |banks|
    ensures o.None? <==> forall j | 0 <= j < n :: !Evictable(banks[j])
    ensures o.Some? ==> o.value < n && Evictable(banks[o.value])
    ensures o.Some? ==> forall j | 0 <= j < n && Evictable(banks[j]) :: banks[o.value].age <= banks[j].age
    ensures o.Some? ==> forall j | 0 <= j < o.value && Evictable(banks[j]) :: banks[o.value].age < banks[j].age
  {
    if n == 0 then None
    else
      var o := Oldest(banks, n - 1);
      if !Evictable(banks[n - 1]) then o
      else if o.None? || banks[n - 1].age < banks[o.value].age then Some(n - 1)
      else o
  }

  // ---------------------------------------------------------------------------------------------
  // Registering and unregistering

  function Unregister(b: Bank, closeOk: bool): (r: (Bank, bool)) {
    if !b.registered then (b, true)
    else if !closeOk then (b, false)
    else (b.(registered := false, mr := None, base := 0, len := 0), true)
  }

  /** Registers whatever region the bank records once its old registration is closed. */
  function Register(b: Bank, age: nat, f: Fabric): (r: (Bank, nat, bool)) {
    var (c, closed) := Unregister(b, f.closeOk);
    if !closed then (c, age, false)
    else if !f.regOk then (c, age, false)
    else (c.(registered := true, mr := Some(Region(c.base, c.len)), age := NextAge(age)), NextAge(age), true)
  }

  /** Points an evictable bank at a new region. Corrected, the bank is unregistered before the new region
      is stored, and forgets the region again when its registration fails. */
  function Rebind(build: Build, b: Bank, age: nat, ptr: nat, len: nat, f: Fabric): (r: (Bank, nat, bool)) {
    match build
    case AsWritten => Register(b.(base := ptr, len := len), age, f)
    case Corrected =>
      var (c, closed) := Unregister(b, f.closeOk);
      if !closed then (c, age, false)
      else
        var (d, age', ok) := Register(c.(base := ptr, len := len), age, f);
        if ok then (d, age', true) else (d.(base := 0, len := 0), age', false)
  }

  function FindBank(build: Build, m: Mr, ptr: nat, len: nat, f: Fabric): (r: (Mr, Outcome)) {
    var h := FirstHit(m.banks, ptr, len, 0);
    if h < |m.banks| then (m, Picked(h))
    else match Oldest(m.banks, |m.banks|)
      case None => (m, Again)
      case Some(o) =>
        var (b, age, ok) := Rebind(build, m.banks[o], m.age, ptr, len, f);
        (m.(banks := m.banks[o := b], age := age), if ok then Picked(o) else Failed)
  }

  // ---------------------------------------------------------------------------------------------
  // Slabs

  function FreeSlab(slabs: seq<Slab>, i: nat): (k: nat)
    requires i <= |slabs|
    ensures i <= k <= |slabs|
    ensures forall j | i <= j < k :: slabs[j].inUse
    ensures k < |slabs| ==> !slabs[k].inUse
    decreases |slabs| - i
  {
    if i == |slabs| || !slabs[i].inUse then i else FreeSlab(slabs, i + 1)
  }

  /** memcpy of a payload to the front of a slab. */
  function Copied(old_: seq<bv8>, bytes: seq<bv8>): (d: seq<bv8>)
    requires |bytes| <= |old_|
    ensures |d| == |old_| && d[..|bytes|] == bytes && d[|bytes|..] == old_[|bytes|..]
  {
    bytes + old_[|bytes|..]
  }

  predicate SlabsSized(m: Mr) { forall k | 0 <= k < |m.slabs| :: |m.slabs[k].data| == m.slabSize }

  // ---------------------------------------------------------------------------------------------
  // Describing and releasing a message

  datatype Acquired = Acquired(m: Mr, got: Option<Desc>, again: bool)

  /** What one scatter-gather entry takes: nothing, a slab, or a reference on a bank. */
  function Acquire(build: Build, m: Mr, iov: Iov, f: Fabric): (r: Acquired)
    requires SlabsSized(m)
    ensures SlabsSized(r.m) && r.m.slabSize == m.slabSize
    ensures |r.m.banks| == |m.banks| && |r.m.slabs| == |m.slabs|
    ensures r.got.Some? && r.got.value.SlabDesc? ==> r.got.value.slab < |m.slabs|
    ensures r.got.Some? && r.got.value.BankDesc? ==> r.got.value.bank < |m.banks|
  {
    var len := |iov.bytes|;
    if len == 0 then Acquired(m, Some(NoDesc), false)
    else
      var k := if len <= m.slabSize then FreeSlab(m.slabs, 0) else |m.slabs|;
      if k < |m.slabs| then
        var s := Slab(true, Copied(m.slabs[k].data, iov.bytes));
        Acquired(m.(slabs := m.slabs[k := s]), Some(SlabDesc(k)), false)
      else
        var (m', out) := FindBank(build, m, iov.base, len, f);
        if out.Picked? then
          var b := m'.banks[out.bank];
          Acquired(m'.(banks := m'.banks[out.bank := b.(ref := b.ref + 1)]), Some(BankDesc(out.bank, b.mr)), false)
        else Acquired(m', None, out.Again?)
  }

  function Extend(ctx: Ctx, d: Desc): Ctx {
    Ctx(ctx.descs + [d],
        if d.BankDesc? then ctx.banks + [d.bank] else ctx.banks,
        if d.SlabDesc? then ctx.slabs + [d.slab] else ctx.slabs)
  }

  predicate CtxInRange(m: Mr, ctx: Ctx) {
    && (forall j | 0 <= j < |ctx.banks| :: ctx.banks[j] < |m.banks|)
    && (forall j | 0 <= j < |ctx.slabs| :: ctx.slabs[j] < |m.slabs|)
  }

  function Unref(banks: seq<Bank>, ks: seq<nat>): (r: seq<Bank>)
    requires forall j | 0 <= j < |ks| :: ks[j] < |banks|
    ensures |r| == |banks|
    decreases |ks|
  {
    if |ks| == 0 then banks
    else
      var before := Unref(banks, ks[..|ks| - 1]);
      var k := ks[|ks| - 1];
      before[k := before[k].(ref := before[k].ref - 1)]
  }

  function FreeSlabs(slabs: seq<Slab>, ks: seq<nat>): (r: seq<Slab>)
    requires forall j | 0 <= j < |ks| :: ks[j] < |slabs|
    ensures |r| == |slabs|
    decreases |ks|
  {
    if |ks| == 0 then slabs
    else
      var before := FreeSlabs(slabs, ks[..|ks| - 1]);
      var k := ks[|ks| - 1];
      before[k := before[k].(inUse := false)]
  }

  function Release(m: Mr, ctx: Ctx): (r: Mr)
    requires CtxInRange(m, ctx)
    ensures |r.banks| == |m.banks| && |r.slabs| == |m.slabs|
  {
    m.(banks := Unref(m.banks, ctx.banks), slabs := FreeSlabs(m.slabs, ctx.slabs))
  }

  /** The describe loop, from the entry after those `ctx` already has descriptors for. */
  function DescribeFrom(build: Build, m: Mr, msg: seq<Iov>, fs: seq<Fabric>, ctx: Ctx): (r: (Mr, Described))
    requires SlabsSized(m) && CtxInRange(m, ctx) && |ctx.descs| <= |msg| == |fs|
    ensures r.1.Done? ==> CtxInRange(r.0, r.1.ctx)
    decreases |msg| - |ctx.descs|
  {
    var i := |ctx.descs|;
    if i == |msg| then (m, Done(ctx))
    else
      var a := Acquire(build, m, msg[i], fs[i]);
      if a.got.None? then (Release(a.m, ctx), if a.again then NoBank else FabricError)
      else DescribeFrom(build, a.m, msg, fs, Extend(ctx, a.got.value))
  }

  function Describe(build: Build, m: Mr, msg: seq<Iov>, fs: seq<Fabric>): (r: (Mr, Described))
    requires SlabsSized(m) && |msg| == |fs|
  {
    if |msg| > MAX_PER_CONTEXT then (m, TooBig)
    else DescribeFrom(build, m, msg, fs, Ctx([], [], []))
  }

  // ---------------------------------------------------------------------------------------------
  // Marking and invalidating

  predicate Unused(b: Bank) { b.ref == 0 && !b.nonvolatile && !b.registered }

  function FirstUnused(banks: seq<Bank>, i: nat): (k: nat)
    requires i <= |banks|
    ensures i <= k <= |banks|
    ensures forall j | i <= j < k :: !Unused(banks[j])
    ensures k < |banks| ==> Unused(banks[k])
    decreases |banks| - i
  {
    if i == |banks| || Unused(banks[i]) then i else FirstUnused(banks, i + 1)
  }

  /** What marking stores in the bank it found. */
  function Marked(build: Build, b: Bank, age: nat, base: nat, len: nat, f: Fabric): (r: (Bank, nat, bool)) {
    var (c, age', ok) := Register(b.(base := base, len := len, nonvolatile := true), age, f);
    if ok || build.AsWritten? then (c, age', ok) else (c.(base := 0, len := 0, nonvolatile := false), age', ok)
  }

  function Mark(build: Build, m: Mr, base: nat, len: nat, f: Fabric): (r: Mr) {
    var k := FirstUnused(m.banks, 0);
    if k == |m.banks| then m
    else
      var (b, age, _) := Marked(build, m.banks[k], m.age, base, len, f);
      m.(banks := m.banks[k := b], age := age)
  }

  /** The four comparisons that decide whether a bank meets the region being invalidated. */
  predicate Meets(b: Bank, base: nat, len: nat) {
    var end, bankEnd := base + len, b.base + b.len;
    || (base >= b.base && base <= bankEnd)
    || (end >= b.base && end <= bankEnd)
    || (b.base >= base && b.base <= end)
    || (bankEnd >= base && bankEnd <= end)
  }

  function Dropped(b: Bank, closeOk: bool): Bank { Unregister(b, closeOk).0.(nonvolatile := false) }

  /** The invalidation loop from bank i on; the flag says it stopped at a bank in use. */
  function InvalidateFrom(banks: seq<Bank>, base: nat, len: nat, closes: seq<bool>, i: nat): (r: (seq<Bank>, bool))
    requires i <= |banks| == |closes|
    ensures |r.0| == |banks|
    decreases |banks| - i
  {
    if i == |banks| then (banks, false)
    else if !Meets(banks[i], base, len) then InvalidateFrom(banks, base, len, closes, i + 1)
    else if banks[i].ref > 0 then (banks, true)
    else InvalidateFrom(banks[i := Dropped(banks[i], closes[i])], base, len, closes, i + 1)
  }
}
