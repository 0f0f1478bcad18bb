/** The registers the localisation pass knows, by name and size: which aliases it takes, how wide
    their slots are, and which calls it guards.  Nothing here is stated through the functions the
    pass is built from. */
module RegisterLayout {
  import opened Machine
  import opened Localize
  import opened Soundness
  import opened TlsPass
  import Flags = FlagOpt

  const FLAG_REGISTERS: set<string> := {"AF", "CF", "OF", "PF", "SF", "ZF"}

  const WIDE_REGISTERS: set<string> := {
    "RAX", "RBX", "RCX", "RDX", "RSI", "RDI", "RBP", "RSP", "RIP",
    "R8", "R9", "R10", "R11", "R12", "R13", "R14", "R15"}

  /** A name made of a register, an underscore and anything, or of the register alone. */
  predicate NamedAfter(name: string, register: string) {
    name == register || register + "_" <= name
  }

  /** How many bytes an alias takes up. */
  ghost function Room(a: Alias): nat {
    if exists r :: r in FLAG_REGISTERS && NamedAfter(a.name, r) && |a.name| > 3 then 1
    else if exists r :: r in WIDE_REGISTERS && NamedAfter(a.name, r) && |a.name| > 3 then 8
    else a.width
  }

  ghost predicate IsRegister(a: Alias) {
    |a.name| > 3 && exists r :: r in FLAG_REGISTERS + WIDE_REGISTERS && NamedAfter(a.name, r)
  }

  ghost predicate SameRegister(a: Alias, b: Alias) {
    exists r :: r in FLAG_REGISTERS + WIDE_REGISTERS && NamedAfter(a.name, r) && NamedAfter(b.name, r)
  }

  // ---------- names ----------

  lemma {:induction false} FindPast(r: string, s: string)
    requires '_' !in r
    ensures Find(r + s, '_') == |r| + Find(s, '_')
    decreases |r|
  {
    if r == "" {
      assert r + s == s;
    } else {
      assert (r + s)[1..] == r[1..] + s && (r + s)[0] == r[0];
      FindPast(r[1..], s);
    }
  }

  lemma {:induction false} FindFirst(s: string)
    ensures '_' !in s[..Find(s, '_')]
    ensures Find(s, '_') < |s| ==> s[Find(s, '_')] == '_'
  {
    if s != "" && s[0] != '_' {
      FindFirst(s[1..]);
      assert s[..Find(s, '_')] == [s[0]] + s[1..][..Find(s[1..], '_')];
    }
  }

  /** The prefix of a name is the register it is named after. */
  lemma PrefixIff(name: string, r: string)
    requires '_' !in r
    ensures Prefix(name) == r <==> NamedAfter(name, r)
  {
    if name == r {
      FindPast(r, "");
      assert r + "" == r;
    } else if r + "_" <= name {
      var rest := name[|r| + 1..];
      assert name == r + ("_" + rest);
      FindPast(r, "_" + rest);
    }
    if Prefix(name) == r {
      FindFirst(name);
      if |r| < |name| { assert name[..|r| + 1] == r + "_"; }
    }
  }

  lemma PlainNames(r: string)
    requires r in FLAG_REGISTERS + WIDE_REGISTERS
    ensures '_' !in r
  {
  }

  lemma {:induction false} ListedIff(name: string, names: seq<string>)
    ensures Listed(name, names) <==> name in names
  {
    if names != [] { ListedIff(name, names[1..]); }
  }

  lemma TableIff(name: string)
    ensures Listed(name, TLS_PREFIX) <==> name in FLAG_REGISTERS + WIDE_REGISTERS
  {
    hide Listed;
    ListedIff(name, TLS_PREFIX);
  }

  /** The pass takes exactly the aliases named after the six flags and seventeen wide registers. */
  lemma LocalisedIff(a: Alias)
    ensures IsLocalised(a) <==> IsRegister(a)
    ensures IsLocalised(a) ==> Key(a) in FLAG_REGISTERS + WIDE_REGISTERS && NamedAfter(a.name, Key(a))
  {
    hide Listed, NamedAfter, Prefix;
    var key := Prefix(a.name);
    TableIff(key);
    if key in FLAG_REGISTERS + WIDE_REGISTERS {
      PlainNames(key);
      PrefixIff(a.name, key);
    }
    if IsRegister(a) {
      var r :| r in FLAG_REGISTERS + WIDE_REGISTERS && NamedAfter(a.name, r);
      PlainNames(r);
      PrefixIff(a.name, r);
    }
  }

  /** Two of them share a slot exactly when they are named after one register. */
  lemma KeyIff(a: Alias, b: Alias)
    requires IsLocalised(a) && IsLocalised(b)
    ensures Key(a) == Key(b) <==> SameRegister(a, b)
  {
    hide IsLocalised, NamedAfter, Prefix;
    LocalisedIff(a);
    LocalisedIff(b);
    if SameRegister(a, b) {
      var r :| r in FLAG_REGISTERS + WIDE_REGISTERS && NamedAfter(a.name, r) && NamedAfter(b.name, r);
      PlainNames(r);
      PrefixIff(a.name, r);
      PrefixIff(b.name, r);
    }
  }

  // ---------- widths ----------

  lemma KeyWidth(key: string)
    requires key in FLAG_REGISTERS + WIDE_REGISTERS
    ensures SlotWidth(key) == if key in FLAG_REGISTERS then 1 else 8
  {
  }

  lemma KeyIs(a: Alias, r: string)
    requires r in FLAG_REGISTERS + WIDE_REGISTERS && NamedAfter(a.name, r)
    ensures Key(a) == r
  {
    PlainNames(r);
    PrefixIff(a.name, r);
  }

  /** The slot of a flag is one byte, that of any other register eight. */
  lemma FootprintIsRoom(a: Alias)
    ensures Footprint(a) == Room(a)
  {
    hide IsLocalised, NamedAfter, Key, SlotWidth;
    LocalisedIff(a);
    if IsLocalised(a) {
      KeyWidth(Key(a));
      FootprintIs(a);
      forall r | r in FLAG_REGISTERS + WIDE_REGISTERS && NamedAfter(a.name, r)
        ensures r == Key(a)
      {
        KeyIs(a, r);
      }
    }
  }

  /** Every alias inside the structure with its room, and the rooms of different registers apart from
      one another and from all other aliases. */
  ghost predicate Fits(aliases: set<Alias>, size: nat) {
    && (forall a | a in aliases :: a.off + Room(a) <= size)
    && (forall a, b | a in aliases && b in aliases && IsRegister(a) && (IsRegister(b) ==> !SameRegister(a, b)) ::
          a.off + Room(a) <= b.off || b.off + Room(b) <= a.off)
  }

  /** What the passes assume of a layout, in terms of names and sizes. */
  lemma WellFormedIff(aliases: set<Alias>, size: nat)
    ensures WellFormed(aliases, size) <==> Fits(aliases, size)
  {
    hide IsLocalised, IsRegister, SameRegister, Room, Footprint, Key;
    forall a
      ensures Footprint(a) == Room(a) && (IsLocalised(a) <==> IsRegister(a))
    {
      FootprintIsRoom(a);
      LocalisedIff(a);
    }
    forall a, b | IsLocalised(a) && IsLocalised(b)
      ensures Key(a) == Key(b) <==> SameRegister(a, b)
    {
      KeyIff(a, b);
    }
  }

  /** And of the code: no access is wider than the register it goes to. */
  lemma InstOverIff(inst: Inst, aliases: set<Alias>, a: Alias)
    requires Accesses(inst, a)
    ensures InstOver(inst, aliases) <==> a in aliases && inst.width <= Room(a)
  {
    hide IsLocalised, Room, Footprint;
    FootprintIsRoom(a);
  }

  // ---------- write-backs and fills ----------

  /** Writing a slot back changes `n` bytes of the register structure, to those of the slot. */
  ghost predicate WritesBack(before: State, after: State, at: nat, n: nat, id: SlotId)
    requires id in before.slots && |before.slots[id]| >= n
  {
    && |after.regs| == |before.regs|
    && forall i | 0 <= i < |before.regs| ::
         after.regs[i] == if at <= i < at + n then before.slots[id][i - at] else before.regs[i]
  }

  lemma FlushWrites(env: Env, e: Alias, p: nat, r: string, st: State)
    requires r in FLAG_REGISTERS + WIDE_REGISTERS && NamedAfter(e.name, r)
    requires SlotId(p, r) in st.slots && |st.slots[SlotId(p, r)]| >= 8
    ensures WritesBack(st, ExecAll(env, FlushOne(e, p), st), e.off, if r in FLAG_REGISTERS then 1 else 8, SlotId(p, r))
  {
    hide NamedAfter, SlotWidth, ExecAll, FlushOne;
    KeyIs(e, r);
    KeyWidth(r);
    FlushEffect(env, e, p, st);
  }

  lemma ReloadEffect(env: Env, e: Alias, p: nat, st: State)
    ensures
      var w := SlotWidth(Key(e));
      var id := SlotId(p, Key(e));
      var after := ExecAll(env, ReloadOne(e, p), st);
      && after.regs == st.regs
      && after.slots == st.slots[id := Splice(SlotBytes(st, id), 0, Slice(Slice(st.regs, e.off, w), 0, w))]
  {
    hide IsIntrinsic, Slice, Splice, SlotWidth;
    ExecAllTwo(env, ReloadOne(e, p)[0], ReloadOne(e, p)[1], st);
  }

  /** Filling a slot takes as many bytes from the register structure. */
  lemma ReloadReads(env: Env, e: Alias, p: nat, r: string, st: State)
    requires r in FLAG_REGISTERS + WIDE_REGISTERS && NamedAfter(e.name, r)
    requires e.off + 8 <= |st.regs|
    ensures
      var n := if r in FLAG_REGISTERS then 1 else 8;
      var after := ExecAll(env, ReloadOne(e, p), st);
      && SlotId(p, r) in after.slots && after.slots[SlotId(p, r)] == st.regs[e.off..e.off + n]
      && after.regs == st.regs
  {
    hide NamedAfter, SlotWidth, ExecAll, ReloadOne;
    KeyIs(e, r);
    KeyWidth(r);
    ReloadEffect(env, e, p, st);
  }

  // ---------- calls ----------

  lemma NoEntryPointIntrinsic(name: string)
    requires name in EXTERNAL_ENTRY_POINTS
    ensures name != "" && name[0] != 'l'
  {
  }

  lemma StartOf(start: string, name: string)
    requires start != "" && start <= name
    ensures name != "" && name[0] == start[0]
  {
  }

  lemma IntrinsicNotSkipped(name: string)
    requires "llvm." <= name
    ensures !SkipFunction(name)
  {
    hide Listed;
    StartOf("llvm.", name);
    if "ext_" <= name { StartOf("ext_", name); }
    if "sub_" <= name { StartOf("sub_", name); }
    ListedIff(name, EXTERNAL_ENTRY_POINTS);
    if name in EXTERNAL_ENTRY_POINTS { NoEntryPointIntrinsic(name); }
  }

  /** A call is guarded exactly when it is no direct call of an intrinsic: the names the pass lists
      make no difference, none of them being one. */
  lemma GuardedIff(callee: Callee)
    ensures NeedsFlush(callee) <==> callee.Indirect? || !("llvm." <= callee.name)
  {
    hide SkipFunction;
    if callee.Direct? && "llvm." <= callee.name {
      IntrinsicNotSkipped(callee.name);
    }
  }

  // ---------- which blocks are worth it ----------

  /** The instruction loads or stores through an alias of a register. */
  ghost predicate UsesRegister(inst: Inst) {
    (inst.Load? || inst.Store?) && inst.ptr.Global? && IsRegister(inst.ptr.a)
  }

  ghost function UsesFrom(insts: seq<Inst>, k: nat): set<nat> {
    set i: nat | k <= i < |insts| && UsesRegister(insts[i])
  }

  lemma UseIff(inst: Inst)
    ensures (exists a :: a in AliasesOf(inst) && IsLocalised(a)) <==> UsesRegister(inst)
  {
    hide IsLocalised, IsRegister;
    forall a
      ensures IsLocalised(a) <==> IsRegister(a)
    {
      LocalisedIff(a);
    }
    if UsesRegister(inst) { assert inst.ptr.a in AliasesOf(inst); }
  }

  /** The uses counted are the instructions that use a register. */
  lemma {:induction false} UsesCount(insts: seq<Inst>, k: nat)
    requires k <= |insts|
    ensures Uses(insts[k..]) == |UsesFrom(insts, k)|
    decreases |insts| - k
  {
    hide UsesRegister, IsLocalised;
    if k == |insts| {
      assert UsesFrom(insts, k) == {};
    } else {
      UsesCount(insts, k + 1);
      UseIff(insts[k]);
      assert insts[k..][0] == insts[k] && insts[k..][1..] == insts[k + 1..];
      if UsesRegister(insts[k]) {
        assert UsesFrom(insts, k) == UsesFrom(insts, k + 1) + {k};
      } else {
        assert UsesFrom(insts, k) == UsesFrom(insts, k + 1);
      }
    }
  }

  /** The registers some instructions use. */
  ghost function RegistersUsed(insts: seq<Inst>): set<string> {
    set r | r in FLAG_REGISTERS + WIDE_REGISTERS
            && exists inst, a :: inst in insts && Accesses(inst, a) && |a.name| > 3 && NamedAfter(a.name, r)
  }

  lemma NamesAre(insts: seq<Inst>)
    ensures Names(insts) == RegistersUsed(insts)
  {
    hide IsLocalised, NamedAfter, Key, Accesses;
    AccessedMeans(insts);
    forall r | r in Names(insts)
      ensures r in RegistersUsed(insts)
    {
      var a :| a in LocalisedOf(insts) && Key(a) == r;
      LocalisedIff(a);
      LongName(a);
      var inst :| inst in insts && Accesses(inst, a);
    }
    forall r | r in RegistersUsed(insts)
      ensures r in Names(insts)
    {
      var inst, a :| inst in insts && Accesses(inst, a) && |a.name| > 3 && NamedAfter(a.name, r);
      LocalisedIff(a);
      assert IsRegister(a) && a in LocalisedOf(insts);
      KeyIs(a, r);
    }
  }

  lemma LongName(a: Alias)
    requires IsLocalised(a)
    ensures |a.name| > 3
  {
  }

  /** A block outside loops is rewritten exactly when it uses some register, and more than twice as
      many of its instructions use registers as there are registers used. */
  lemma HandledIff(insts: seq<Inst>)
    ensures ShouldHandle(insts)
            <==> RegistersUsed(insts) != {} && 2 * |RegistersUsed(insts)| < |UsesFrom(insts, 0)|
  {
    hide Names, Uses, RegistersUsed, UsesFrom;
    NamesAre(insts);
    UsesCount(insts, 0);
    assert insts[0..] == insts;
  }

  // ---------- which stores the flag pass erases ----------

  lemma FlagIff(a: Alias)
    ensures Flags.IsFlag(a) <==> exists r :: r in FLAG_REGISTERS && NamedAfter(a.name, r)
  {
    hide Listed, NamedAfter, Prefix;
    ListedIff(Prefix(a.name), Flags.FLAGS);
    if Prefix(a.name) in FLAG_REGISTERS {
      PlainNames(Prefix(a.name));
      PrefixIff(a.name, Prefix(a.name));
    }
    if r :| r in FLAG_REGISTERS && NamedAfter(a.name, r) {
      PlainNames(r);
      PrefixIff(a.name, r);
    }
  }

  /** A store goes through one of the module's aliases of a flag that no function loads through. */
  ghost predicate DeadStore(inst: Inst, funcs: seq<Function>, aliases: seq<Alias>) {
    && inst.Store? && inst.ptr.Global? && inst.ptr.a in aliases
    && (exists r :: r in FLAG_REGISTERS && NamedAfter(inst.ptr.a.name, r))
    && forall i, l, k | 0 <= i < |funcs| && l in funcs[i].blocks && 0 <= k < |funcs[i].blocks[l].insts| ::
         !(funcs[i].blocks[l].insts[k].Load? && funcs[i].blocks[l].insts[k].ptr == inst.ptr)
  }

  /** The pass erases exactly these: no other register loses a store, and no block another
      instruction. */
  lemma ErasedIff(funcs: seq<Function>, aliases: seq<Alias>, i: nat, l: Label, inst: Inst)
    requires i < |funcs| && l in funcs[i].blocks
    ensures
      var g := Flags.EraseAll(funcs, Flags.DeadFlags(funcs, aliases))[i];
      && g.entry == funcs[i].entry && g.blocks.Keys == funcs[i].blocks.Keys
      && g.blocks[l].term == funcs[i].blocks[l].term
      && (inst in g.blocks[l].insts <==> inst in funcs[i].blocks[l].insts && !DeadStore(inst, funcs, aliases))
  {
    hide NamedAfter;
    Flags.EraseKeepsOthers(funcs[i].blocks[l].insts, Flags.DeadFlags(funcs, aliases), inst);
    DeadStoreIff(inst, funcs, aliases);
  }

  lemma DeadStoreIff(inst: Inst, funcs: seq<Function>, aliases: seq<Alias>)
    ensures Flags.StoresTo(inst, Flags.DeadFlags(funcs, aliases)) <==> DeadStore(inst, funcs, aliases)
  {
    hide NamedAfter, Flags.IsFlag;
    if inst.Store? && inst.ptr.Global? {
      FlagIff(inst.ptr.a);
      NotLoadedIff(funcs, inst.ptr.a);
    }
  }

  lemma NotLoadedIff(funcs: seq<Function>, a: Alias)
    ensures Flags.Loaded(funcs, a)
            <==> exists i, l, k :: 0 <= i < |funcs| && l in funcs[i].blocks && 0 <= k < |funcs[i].blocks[l].insts|
                   && funcs[i].blocks[l].insts[k].Load? && funcs[i].blocks[l].insts[k].ptr == Global(a)
  {
    if Flags.Loaded(funcs, a) {
      var i :| 0 <= i < |funcs| && Flags.LoadedIn(funcs[i], a);
      var l :| l in funcs[i].blocks && exists inst | inst in funcs[i].blocks[l].insts :: Flags.LoadsFrom(inst, a);
      var inst :| inst in funcs[i].blocks[l].insts && Flags.LoadsFrom(inst, a);
      var k :| 0 <= k < |funcs[i].blocks[l].insts| && funcs[i].blocks[l].insts[k] == inst;
    }
    if i, l, k :| 0 <= i < |funcs| && l in funcs[i].blocks && 0 <= k < |funcs[i].blocks[l].insts|
                  && funcs[i].blocks[l].insts[k].Load? && funcs[i].blocks[l].insts[k].ptr == Global(a) {
      var inst := funcs[i].blocks[l].insts[k];
      assert inst in funcs[i].blocks[l].insts && Flags.LoadsFrom(inst, a);
      assert Flags.LoadedIn(funcs[i], a);
    }
  }
}
