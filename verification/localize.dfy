/** Register localisation as a function on blocks, and why it preserves meaning.
    A region's register aliases are redirected to stack slots; the slots are filled on the way
    in, written back on the way out, and written back and refilled around every call that can
    see the register structure. */
module Localize {
  import opened Machine

  const TLS_PREFIX: seq<string> := [
    "RBX", "RAX", "RCX", "RDX", "RSP", "RBP", "RSI", "RDI", "RIP",
    "R8", "R9", "R10", "R11", "R12", "R13", "R14", "R15",
    "CF", "PF", "ZF", "SF", "OF", "AF"]

  const EXTERNAL_ENTRY_POINTS: seq<string> := [
    "__sysv_signal", "sysv_signal", "signal", "ssignal", "sigset",
    "atexit", "at_quick_exit", "on_exit", "bsearch", "qsort", "qsort_r",
    "clone", "pthread_create", "pthread_once", "pthread_key_create",
    "pthread_atfork", "scandir", "scandir64", "scandirat", "scandirat64",
    "_obstack_begin", "_obstack_begin_1", "glob", "glob64"]

  /** Membership, by walking the list. */
  predicate Listed(name: string, names: seq<string>) {
    names != [] && (name == names[0] || Listed(name, names[1..]))
  }

  // ---------- which aliases and which calls ----------

  predicate IsLocalised(a: Alias) {
    |a.name| > 3 && Listed(Prefix(a.name), TLS_PREFIX)
  }

  function Key(a: Alias): string {
    Prefix(a.name)
  }

  predicate SkipFunction(name: string) {
    || "ext_" <= name
    || "sub_" <= name
    || name == "__mcsema_init_reg_state"
    || Listed(name, EXTERNAL_ENTRY_POINTS)
  }

  /** A call the slots must be flushed before and reloaded after. */
  predicate NeedsFlush(callee: Callee) {
    callee.Direct? ==> SkipFunction(callee.name) || !IsIntrinsic(callee.name)
  }

  // ---------- the rewriting of one region ----------

  function SlotOf(a: Alias, p: nat): Ptr {
    Local(SlotId(p, Key(a)))
  }

  function Redirect(inst: Inst, p: nat): Inst {
    match inst
    case Load(dst, Global(a), w) => if IsLocalised(a) then Load(dst, SlotOf(a, p), w) else inst
    case Store(Global(a), w, src) => if IsLocalised(a) then Store(SlotOf(a, p), w, src) else inst
    case _ => inst
  }

  /** Slot to register structure, a full slot wide. */
  function FlushOne(e: Alias, p: nat): seq<Inst> {
    [Load(Scratch(p), SlotOf(e, p), SlotWidth(Key(e))), Store(Global(e), SlotWidth(Key(e)), Scratch(p))]
  }

  /** Register structure to slot. */
  function ReloadOne(e: Alias, p: nat): seq<Inst> {
    [Load(Scratch(p), Global(e), SlotWidth(Key(e))), Store(SlotOf(e, p), SlotWidth(Key(e)), Scratch(p))]
  }

  function Flush(table: seq<Alias>, p: nat): seq<Inst> {
    if table == [] then [] else FlushOne(table[0], p) + Flush(table[1..], p)
  }

  function Reload(table: seq<Alias>, p: nat): seq<Inst> {
    if table == [] then [] else ReloadOne(table[0], p) + Reload(table[1..], p)
  }

  function LocaliseInst(inst: Inst, table: seq<Alias>, p: nat): seq<Inst> {
    if inst.Call? && NeedsFlush(inst.callee) then
      Flush(table, p) + [inst] + Reload(table, p)
    else
      [Redirect(inst, p)]
  }

  function LocaliseAll(insts: seq<Inst>, table: seq<Alias>, p: nat): seq<Inst> {
    if insts == [] then []
    else LocaliseInst(insts[0], table, p) + LocaliseAll(insts[1..], table, p)
  }

  // ---------- side conditions ----------

  /** The alias an instruction addresses, if any, together with the access width. */
  predicate Accesses(inst: Inst, a: Alias) {
    match inst
    case Load(_, Global(b), _) => a == b
    case Store(Global(b), _, _) => a == b
    case _ => false
  }

  function AliasesOf(inst: Inst): (r: set<Alias>)
    ensures forall a :: a in r <==> Accesses(inst, a)
  {
    match inst
    case Load(_, Global(b), _) => {b}
    case Store(Global(b), _, _) => {b}
    case _ => {}
  }

  /** All the aliases some instructions address. */
  function Accessed(insts: seq<Inst>): set<Alias> {
    if insts == [] then {} else AliasesOf(insts[0]) + Accessed(insts[1..])
  }

  lemma AccessedMeans(insts: seq<Inst>)
    ensures forall a :: a in Accessed(insts) <==> exists inst :: inst in insts && Accesses(inst, a)
  {
    if insts != [] {
      AccessedMeans(insts[1..]);
      forall a
        ensures a in Accessed(insts) <==> exists inst :: inst in insts && Accesses(inst, a)
      {
        if inst :| inst in insts && Accesses(inst, a) {
          if inst != insts[0] { assert inst in insts[1..]; }
        }
        if inst :| inst in insts[1..] && Accesses(inst, a) { assert inst in insts; }
      }
    }
  }

  function Footprint(a: Alias): nat {
    if IsLocalised(a) then SlotWidth(Key(a)) else a.width
  }

  predicate Disjoint(a: Alias, b: Alias) {
    a.off + Footprint(a) <= b.off || b.off + Footprint(b) <= a.off
  }

  /** The layout of the register structure: aliases named after different registers do not
      overlap, and everything lies inside the structure. */
  ghost predicate WellFormed(aliases: set<Alias>, size: nat) {
    && (forall a | a in aliases :: a.off + Footprint(a) <= size)
    && (forall a, b | a in aliases && b in aliases && IsLocalised(a)
            && (IsLocalised(b) ==> Key(a) != Key(b)) :: Disjoint(a, b))
  }

  /** Aliases named after one register all start where that register's slot starts. */
  ghost predicate Coherent(aliases: set<Alias>) {
    forall a, b | a in aliases && b in aliases && IsLocalised(a) && IsLocalised(b) && Key(a) == Key(b) ::
      a.off == b.off
  }

  ghost predicate InstOver(inst: Inst, aliases: set<Alias>) {
    match inst
    case Load(_, Global(a), w) => a in aliases && w <= Footprint(a)
    case Store(Global(a), w, _) => a in aliases && w <= Footprint(a)
    case _ => true
  }

  ghost predicate Over(insts: seq<Inst>, aliases: set<Alias>) {
    forall inst | inst in insts :: InstOver(inst, aliases)
  }

  predicate TempBelow(t: Temp, k: nat) {
    t.Scratch? ==> t.owner < k
  }

  predicate PtrBelow(ptr: Ptr, k: nat) {
    ptr.Local? ==> ptr.id.owner < k
  }

  /** The instruction mentions no slot or virtual register of pass `k` or a later one. */
  predicate InstBelow(inst: Inst, k: nat) {
    match inst
    case Load(dst, ptr, _) => TempBelow(dst, k) && PtrBelow(ptr, k)
    case Store(ptr, _, src) => PtrBelow(ptr, k) && TempBelow(src, k)
    case Other(dst, _, args) => TempBelow(dst, k) && forall t | t in args :: TempBelow(t, k)
    case Call(dst, _, args) => TempBelow(dst, k) && forall t | t in args :: TempBelow(t, k)
  }

  predicate Below(insts: seq<Inst>, k: nat) {
    forall inst | inst in insts :: InstBelow(inst, k)
  }

  /** What the tables of a region hold: one representative alias for every register the region
      addresses, in some order. */
  ghost predicate TableFor(table: seq<Alias>, accessed: set<Alias>) {
    && (forall e | e in table :: e in accessed && IsLocalised(e))
    && (forall a | a in accessed && IsLocalised(a) :: exists e :: e in table && Key(e) == Key(a))
    && (forall i, j | 0 <= i < j < |table| :: Key(table[i]) != Key(table[j]))
  }

  /** The localised registers a sequence of instructions addresses are all in the table. */
  ghost predicate Served(insts: seq<Inst>, table: seq<Alias>) {
    forall inst, a | inst in insts && Accesses(inst, a) && IsLocalised(a) ::
      exists e :: e in table && Key(e) == Key(a)
  }

  // ---------- the simulation relation ----------

  predicate Covered(es: seq<Alias>, i: int) {
    exists e | e in es :: e.off <= i < e.off + Footprint(e)
  }

  /** `loc` simulates `ref`: the slots of `live` hold the reference registers, and the register
      structure itself is up to date except for the bytes of `dirty`. */
  ghost predicate Simulates(ref: State, loc: State, p: nat, live: seq<Alias>, dirty: seq<Alias>) {
    && ref.mem == loc.mem
    && ref.trace == loc.trace
    && (forall t: Temp | t != Scratch(p) :: Get(ref, t) == Get(loc, t))
    && (forall id: SlotId | id.owner != p :: SlotBytes(ref, id) == SlotBytes(loc, id))
    && |ref.regs| == |loc.regs|
    && (forall e | e in live ::
          SlotBytes(loc, SlotId(p, Key(e))) == Slice(ref.regs, e.off, SlotWidth(Key(e))))
    && (forall i | 0 <= i < |ref.regs| && !Covered(dirty, i) :: ref.regs[i] == loc.regs[i])
  }

  lemma FullySynced(ref: State, loc: State, p: nat, live: seq<Alias>)
    requires Simulates(ref, loc, p, live, [])
    ensures ref.regs == loc.regs
  {
    forall i | 0 <= i < |ref.regs|
      ensures ref.regs[i] == loc.regs[i]
    {
      assert !Covered([], i);
    }
  }

  /** What writing one slot back does. */
  lemma FlushEffect(env: Env, e: Alias, p: nat, st: State)
    ensures
      var v := Slice(SlotBytes(st, SlotId(p, Key(e))), 0, SlotWidth(Key(e)));
      var fin := ExecAll(env, FlushOne(e, p), st);
      && fin.regs == Splice(st.regs, e.off, Slice(v, 0, SlotWidth(Key(e))))
      && fin.mem == st.mem && fin.trace == st.trace && fin.slots == st.slots
      && forall t: Temp | t != Scratch(p) :: Get(fin, t) == Get(st, t)
  {
    hide IsIntrinsic, Slice, Splice;
    ExecAllTwo(env, FlushOne(e, p)[0], FlushOne(e, p)[1], st);
  }

  lemma FlushOneStep(env: Env, ref: State, loc: State, p: nat, live: seq<Alias>, dirty: seq<Alias>)
    requires dirty != [] && dirty[0] in live && IsLocalised(dirty[0])
    requires Simulates(ref, loc, p, live, dirty)
    ensures Simulates(ref, ExecAll(env, FlushOne(dirty[0], p), loc), p, live, dirty[1..])
  {
    hide Exec, ExecAll, FlushOne, IsLocalised;
    var e := dirty[0];
    var w := SlotWidth(Key(e));
    var fin := ExecAll(env, FlushOne(e, p), loc);
    FlushEffect(env, e, p, loc);
    assert Slice(Slice(SlotBytes(loc, SlotId(p, Key(e))), 0, w), 0, w) == Slice(ref.regs, e.off, w);
    forall i | 0 <= i < |ref.regs| && !Covered(dirty[1..], i)
      ensures ref.regs[i] == fin.regs[i]
    {
      if !(e.off <= i < e.off + w) {
        FootprintIs(e);
        assert !Covered(dirty, i);
      }
    }
    forall id: SlotId
      ensures SlotBytes(fin, id) == SlotBytes(loc, id)
    {}
  }

  lemma FootprintIs(e: Alias)
    requires IsLocalised(e)
    ensures Footprint(e) == SlotWidth(Key(e))
  {
  }

  lemma {:induction false} FlushSyncs(
      env: Env, ref: State, loc: State, p: nat, live: seq<Alias>, dirty: seq<Alias>)
    requires forall e | e in dirty :: e in live && IsLocalised(e)
    requires Simulates(ref, loc, p, live, dirty)
    ensures Simulates(ref, ExecAll(env, Flush(dirty, p), loc), p, live, [])
    decreases |dirty|
  {
    if dirty != [] {
      FlushOneStep(env, ref, loc, p, live, dirty);
      ExecAllConcat(env, FlushOne(dirty[0], p), Flush(dirty[1..], p), loc);
      FlushSyncs(env, ref, ExecAll(env, FlushOne(dirty[0], p), loc), p, live, dirty[1..]);
    }
  }

  lemma ReloadOneStep(env: Env, ref: State, loc: State, p: nat, live: seq<Alias>, e: Alias)
    requires Simulates(ref, loc, p, live, [])
    requires forall d | d in live && Key(d) == Key(e) :: d.off == e.off
    ensures Simulates(ref, ExecAll(env, ReloadOne(e, p), loc), p, live + [e], [])
  {
    FullySynced(ref, loc, p, live);
    var w := SlotWidth(Key(e));
    var mid := Exec(env, ReloadOne(e, p)[0], loc);
    var fin := Exec(env, ReloadOne(e, p)[1], mid);
    ExecAllTwo(env, ReloadOne(e, p)[0], ReloadOne(e, p)[1], loc);
    assert Slice(Get(mid, Scratch(p)), 0, w) == Slice(ref.regs, e.off, w);
    assert SlotBytes(fin, SlotId(p, Key(e))) == Slice(ref.regs, e.off, w);
    forall id: SlotId | id != SlotId(p, Key(e))
      ensures SlotBytes(fin, id) == SlotBytes(loc, id)
    {}
  }

  lemma {:induction false} ReloadFills(
      env: Env, ref: State, loc: State, p: nat, live: seq<Alias>, rest: seq<Alias>)
    requires Simulates(ref, loc, p, live, [])
    requires forall d, e | d in live + rest && e in live + rest && Key(d) == Key(e) :: d.off == e.off
    ensures Simulates(ref, ExecAll(env, Reload(rest, p), loc), p, live + rest, [])
    decreases |rest|
  {
    hide Simulates, Key, ReloadOne;
    if rest == [] {
      assert live + rest == live;
    } else {
      var e := rest[0];
      ReloadOneStep(env, ref, loc, p, live, e);
      ExecAllConcat(env, ReloadOne(e, p), Reload(rest[1..], p), loc);
      assert (live + [e]) + rest[1..] == live + rest;
      ReloadFills(env, ref, ExecAll(env, ReloadOne(e, p), loc), p, live + [e], rest[1..]);
    }
  }

  lemma Dirtied(ref: State, loc: State, p: nat, live: seq<Alias>, dirty: seq<Alias>)
    requires Simulates(ref, loc, p, live, [])
    ensures Simulates(ref, loc, p, live, dirty)
  {
    FullySynced(ref, loc, p, live);
  }

  /** Slots may be looked up in any order. */
  lemma Reordered(ref: State, loc: State, p: nat, live: seq<Alias>, other: seq<Alias>, dirty: seq<Alias>)
    requires Simulates(ref, loc, p, live, dirty)
    requires forall e | e in other :: exists d :: d in live && Key(d) == Key(e) && d.off == e.off
    ensures Simulates(ref, loc, p, other, dirty)
  {
  }

  // ---------- one instruction, then a body ----------

  /** What every step inside a region relies on. */
  ghost predicate Ready(table: seq<Alias>, aliases: set<Alias>, size: nat) {
    && WellFormed(aliases, size)
    && Coherent(aliases)
    && (forall e | e in table :: e in aliases && IsLocalised(e))
  }

  lemma LoadStep(env: Env, inst: Inst, ref: State, loc: State, p: nat, table: seq<Alias>, aliases: set<Alias>)
    requires inst.Load? && InstOver(inst, aliases) && InstBelow(inst, p)
    requires Ready(table, aliases, |ref.regs|) && Served([inst], table)
    requires Simulates(ref, loc, p, table, table)
    ensures Simulates(Exec(env, inst, ref), Exec(env, Redirect(inst, p), loc), p, table, table)
  {
    var v := Read(ref, inst.ptr, inst.width);
    assert Read(loc, Redirect(inst, p).ptr, inst.width) == v by {
      LoadedValue(inst, ref, loc, p, table, aliases);
    }
    SameResult(ref, loc, Exec(env, inst, ref), Exec(env, Redirect(inst, p), loc), p, inst.dst, v);
  }

  lemma {:induction false} LoadedValue(inst: Inst, ref: State, loc: State, p: nat, table: seq<Alias>,
                                       aliases: set<Alias>)
    requires inst.Load? && InstOver(inst, aliases) && InstBelow(inst, p)
    requires Ready(table, aliases, |ref.regs|) && Served([inst], table)
    requires Simulates(ref, loc, p, table, table)
    ensures Read(loc, Redirect(inst, p).ptr, inst.width) == Read(ref, inst.ptr, inst.width)
  {
    match inst
    case Load(dst, Global(a), w) =>
      if IsLocalised(a) {
        assert Accesses(inst, a);
        LoadedFromSlot(a, w, ref, loc, p, table, aliases);
      } else {
        LoadedInPlace(a, w, ref, loc, p, table, aliases);
      }
    case Load(dst, Local(id), w) =>
      assert SlotBytes(ref, id) == SlotBytes(loc, id);
  }

  lemma LoadedFromSlot(a: Alias, w: nat, ref: State, loc: State, p: nat, table: seq<Alias>, aliases: set<Alias>)
    requires a in aliases && IsLocalised(a) && w <= Footprint(a) && exists e :: e in table && Key(e) == Key(a)
    requires Ready(table, aliases, |ref.regs|) && Simulates(ref, loc, p, table, table)
    ensures Read(loc, SlotOf(a, p), w) == Slice(ref.regs, a.off, w)
  {
    var e :| e in table && Key(e) == Key(a);
    assert e.off == a.off;
    FootprintIs(a);
    assert Slice(Slice(ref.regs, a.off, SlotWidth(Key(a))), 0, w) == Slice(ref.regs, a.off, w);
  }

  lemma LoadedInPlace(a: Alias, w: nat, ref: State, loc: State, p: nat, table: seq<Alias>, aliases: set<Alias>)
    requires a in aliases && !IsLocalised(a) && w <= Footprint(a)
    requires Ready(table, aliases, |ref.regs|) && Simulates(ref, loc, p, table, table)
    ensures Slice(loc.regs, a.off, w) == Slice(ref.regs, a.off, w)
  {
    forall i | a.off <= i < a.off + w
      ensures !Covered(table, i)
    {}
  }

  /** Writing through a slot and writing through the alias it shadows stay in step. */
  lemma SpliceThroughSlot(regs: Bytes, off: nat, n: nat, v: Bytes)
    requires off + n <= |regs| && |v| <= n
    ensures Splice(Slice(regs, off, n), 0, v) == Slice(Splice(regs, off, v), off, n)
  {
  }

  lemma SpliceElsewhere(regs: Bytes, off: nat, v: Bytes, other: nat, n: nat)
    requires off + |v| <= other || other + n <= off
    ensures Slice(Splice(regs, off, v), other, n) == Slice(regs, other, n)
  {
  }

  lemma WriteKeepsTemps(st: State, ptr: Ptr, v: Bytes)
    ensures forall t: Temp :: Get(Write(st, ptr, v), t) == Get(st, t)
  {
  }

  lemma StoreLocalised(ref: State, loc: State, p: nat, table: seq<Alias>, aliases: set<Alias>,
                       a: Alias, v: Bytes)
    requires a in aliases && IsLocalised(a) && |v| <= Footprint(a)
    requires Ready(table, aliases, |ref.regs|)
    requires exists e :: e in table && Key(e) == Key(a)
    requires Simulates(ref, loc, p, table, table)
    ensures Simulates(Write(ref, Global(a), v), Write(loc, SlotOf(a, p), v), p, table, table)
  {
    var ref', loc' := Write(ref, Global(a), v), Write(loc, SlotOf(a, p), v);
    WriteKeepsTemps(ref, Global(a), v);
    WriteKeepsTemps(loc, SlotOf(a, p), v);
    var e :| e in table && Key(e) == Key(a);
    forall id: SlotId | id != SlotId(p, Key(a))
      ensures SlotBytes(loc', id) == SlotBytes(loc, id) && SlotBytes(ref', id) == SlotBytes(ref, id)
    {}
    forall i | 0 <= i < |ref.regs| && !Covered(table, i)
      ensures ref'.regs[i] == loc'.regs[i]
    {
      assert !(e.off <= i < e.off + Footprint(e));
    }
    SpliceThroughSlot(ref.regs, a.off, Footprint(a), v);
    forall d | d in table
      ensures SlotBytes(loc', SlotId(p, Key(d))) == Slice(ref'.regs, d.off, SlotWidth(Key(d)))
    {
      if Key(d) == Key(a) {
        assert SlotBytes(loc', SlotId(p, Key(a))) == Splice(SlotBytes(loc, SlotId(p, Key(a))), 0, v);
      } else {
        assert Disjoint(a, d);
        SpliceElsewhere(ref.regs, a.off, v, d.off, SlotWidth(Key(d)));
      }
    }
  }

  lemma StoreUnlocalised(ref: State, loc: State, p: nat, table: seq<Alias>, aliases: set<Alias>,
                         a: Alias, v: Bytes)
    requires a in aliases && !IsLocalised(a) && |v| <= Footprint(a)
    requires Ready(table, aliases, |ref.regs|)
    requires Simulates(ref, loc, p, table, table)
    ensures Simulates(Write(ref, Global(a), v), Write(loc, Global(a), v), p, table, table)
  {
    var ref', loc' := Write(ref, Global(a), v), Write(loc, Global(a), v);
    WriteKeepsTemps(ref, Global(a), v);
    WriteKeepsTemps(loc, Global(a), v);
    forall id: SlotId
      ensures SlotBytes(loc', id) == SlotBytes(loc, id) && SlotBytes(ref', id) == SlotBytes(ref, id)
    {}
    forall d | d in table
      ensures SlotBytes(loc', SlotId(p, Key(d))) == Slice(ref'.regs, d.off, SlotWidth(Key(d)))
    {
      assert Disjoint(d, a);
      SpliceElsewhere(ref.regs, a.off, v, d.off, SlotWidth(Key(d)));
    }
  }

  lemma StoreOtherSlot(ref: State, loc: State, p: nat, table: seq<Alias>, id: SlotId, v: Bytes)
    requires id.owner != p
    requires Simulates(ref, loc, p, table, table)
    ensures Simulates(Write(ref, Local(id), v), Write(loc, Local(id), v), p, table, table)
  {
    var ref', loc' := Write(ref, Local(id), v), Write(loc, Local(id), v);
    WriteKeepsTemps(ref, Local(id), v);
    WriteKeepsTemps(loc, Local(id), v);
    assert SlotBytes(ref, id) == SlotBytes(loc, id);
    forall other: SlotId | other != id
      ensures SlotBytes(loc', other) == SlotBytes(loc, other) && SlotBytes(ref', other) == SlotBytes(ref, other)
    {}
  }

  lemma StoreStep(env: Env, inst: Inst, ref: State, loc: State, p: nat, table: seq<Alias>, aliases: set<Alias>)
    requires inst.Store? && InstOver(inst, aliases) && InstBelow(inst, p)
    requires Ready(table, aliases, |ref.regs|) && Served([inst], table)
    requires Simulates(ref, loc, p, table, table)
    ensures Simulates(Exec(env, inst, ref), Exec(env, Redirect(inst, p), loc), p, table, table)
  {
    var v := Slice(Get(ref, inst.src), 0, inst.width);
    assert v == Slice(Get(loc, inst.src), 0, inst.width);
    match inst.ptr
    case Global(a) =>
      assert Accesses(inst, a);
      if IsLocalised(a) {
        StoreLocalised(ref, loc, p, table, aliases, a, v);
      } else {
        StoreUnlocalised(ref, loc, p, table, aliases, a, v);
      }
    case Local(id) =>
      StoreOtherSlot(ref, loc, p, table, id, v);
  }

  lemma GetsAgree(ref: State, loc: State, p: nat, args: seq<Temp>)
    requires forall t: Temp | t != Scratch(p) :: Get(ref, t) == Get(loc, t)
    requires forall t | t in args :: TempBelow(t, p)
    ensures Gets(ref, args) == Gets(loc, args)
  {
    forall i | 0 <= i < |args|
      ensures Get(ref, args[i]) == Get(loc, args[i])
    {
      assert args[i] in args;
    }
  }

  /** Both sides receive the same value in one virtual register, the same memory and the same
      trace; nothing else but the register structure changes. */
  lemma SameResult(ref: State, loc: State, ref': State, loc': State, p: nat, dst: Temp, v: Bytes)
    requires forall t: Temp | t != Scratch(p) :: Get(ref, t) == Get(loc, t)
    requires ref'.temps == ref.temps[dst := v] && loc'.temps == loc.temps[dst := v]
    requires forall id: SlotId | id.owner != p :: SlotBytes(ref, id) == SlotBytes(loc, id)
    requires ref'.slots == ref.slots && loc'.slots == loc.slots
    ensures forall t: Temp | t != Scratch(p) :: Get(ref', t) == Get(loc', t)
    ensures forall id: SlotId | id.owner != p :: SlotBytes(ref', id) == SlotBytes(loc', id)
    ensures forall id: SlotId :: SlotBytes(loc', id) == SlotBytes(loc, id)
  {
    forall t: Temp | t != Scratch(p)
      ensures Get(ref', t) == Get(loc', t)
    {
      assert Get(ref, t) == Get(loc, t);
    }
    forall id: SlotId
      ensures SlotBytes(loc', id) == SlotBytes(loc, id) && SlotBytes(ref', id) == SlotBytes(ref, id)
    {}
  }

  lemma PlainStep(env: Env, inst: Inst, ref: State, loc: State, p: nat, table: seq<Alias>)
    requires inst.Other? || (inst.Call? && !NeedsFlush(inst.callee))
    requires InstBelow(inst, p)
    requires Simulates(ref, loc, p, table, table)
    ensures Simulates(Exec(env, inst, ref), Exec(env, inst, loc), p, table, table)
  {
    GetsAgree(ref, loc, p, inst.args);
    var ref', loc' := Exec(env, inst, ref), Exec(env, inst, loc);
    SameResult(ref, loc, ref', loc', p, inst.dst, Get(ref', inst.dst));
  }

  /** With the slots written back, the call itself sees and does the same on both sides. */
  lemma CallSeesRegisters(env: Env, inst: Inst, ref: State, flushed: State, p: nat, table: seq<Alias>)
    requires inst.Call? && InstBelow(inst, p)
    requires Simulates(ref, flushed, p, table, [])
    ensures Simulates(Exec(env, inst, ref), Exec(env, inst, flushed), p, [], [])
  {
    FullySynced(ref, flushed, p, table);
    GetsAgree(ref, flushed, p, inst.args);
    var ref', called := Exec(env, inst, ref), Exec(env, inst, flushed);
    SameResult(ref, flushed, ref', called, p, inst.dst, Get(ref', inst.dst));
  }

  /** A call that can see the registers sees the reference ones, and whatever it leaves there is
      picked up by the slots. */
  lemma CallStep(env: Env, inst: Inst, ref: State, loc: State, p: nat, table: seq<Alias>)
    requires inst.Call? && InstBelow(inst, p)
    requires forall e | e in table :: IsLocalised(e)
    requires forall d, e | d in table && e in table && Key(d) == Key(e) :: d.off == e.off
    requires Simulates(ref, loc, p, table, table)
    ensures Simulates(Exec(env, inst, ref),
                      ExecAll(env, Flush(table, p) + [inst] + Reload(table, p), loc), p, table, table)
  {
    hide Exec, ExecAll, Flush, Reload, Simulates, InstBelow, IsLocalised;
    var flushed := ExecAll(env, Flush(table, p), loc);
    FlushSyncs(env, ref, loc, p, table, table);
    CallSeesRegisters(env, inst, ref, flushed, p, table);
    var ref', called := Exec(env, inst, ref), Exec(env, inst, flushed);
    ReloadFills(env, ref', called, p, [], table);
    assert [] + table == table;
    var fin := ExecAll(env, Reload(table, p), called);
    Dirtied(ref', fin, p, table, table);
    ExecAllOne(env, inst, flushed);
    ExecAllConcat(env, Flush(table, p), [inst], loc);
    ExecAllConcat(env, Flush(table, p) + [inst], Reload(table, p), loc);
  }

  lemma InstStep(env: Env, inst: Inst, ref: State, loc: State, p: nat, table: seq<Alias>, aliases: set<Alias>)
    requires InstOver(inst, aliases) && InstBelow(inst, p)
    requires Ready(table, aliases, |ref.regs|) && Served([inst], table)
    requires Simulates(ref, loc, p, table, table)
    ensures Simulates(Exec(env, inst, ref), ExecAll(env, LocaliseInst(inst, table, p), loc), p, table, table)
  {
    if inst.Call? && NeedsFlush(inst.callee) {
      CallStep(env, inst, ref, loc, p, table);
    } else {
      ExecAllOne(env, Redirect(inst, p), loc);
      if inst.Load? { LoadStep(env, inst, ref, loc, p, table, aliases); }
      else if inst.Store? { StoreStep(env, inst, ref, loc, p, table, aliases); }
      else { PlainStep(env, inst, ref, loc, p, table); }
    }
  }

  lemma ExecKeepsSize(env: Env, insts: seq<Inst>, st: State)
    ensures |ExecAll(env, insts, st).regs| == |st.regs|
    decreases |insts|
  {
    if insts != [] {
      ExecKeepsSize(env, insts[1..], Exec(env, insts[0], st));
    }
  }

  /** A localised body simulates the original one. */
  lemma {:induction false} BodySimulates(
      env: Env, insts: seq<Inst>, ref: State, loc: State, p: nat, table: seq<Alias>, aliases: set<Alias>)
    requires Over(insts, aliases) && Below(insts, p)
    requires Ready(table, aliases, |ref.regs|) && Served(insts, table)
    requires Simulates(ref, loc, p, table, table)
    ensures Simulates(ExecAll(env, insts, ref), ExecAll(env, LocaliseAll(insts, table, p), loc), p, table, table)
    decreases |insts|
  {
    if insts != [] {
      var inst := insts[0];
      InstStep(env, inst, ref, loc, p, table, aliases);
      ExecAllConcat(env, LocaliseInst(inst, table, p), LocaliseAll(insts[1..], table, p), loc);
      BodySimulates(env, insts[1..], Exec(env, inst, ref),
                    ExecAll(env, LocaliseInst(inst, table, p), loc), p, table, aliases);
    }
  }
}
