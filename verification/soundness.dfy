/** When localisation is sound, exactly: the block pass preserves every block over a table of
    aliases, and the loop pass every function with a simplified loop, if and only if the aliases
    named after one register all have one offset.  Lifted
    code names an alias after its enclosing register, so `RAX_2216_...` and `RAX_2217_...` (the
    second byte) share the prefix `RAX`; the pass then gives both of them the same slot. */
module Soundness {
  import opened Machine
  import opened Localize
  import opened Regions

  /** How often localised aliases are addressed. */
  function Uses(insts: seq<Inst>): nat {
    if insts == [] then 0
    else (if exists a :: a in AliasesOf(insts[0]) && IsLocalised(a) then 1 else 0) + Uses(insts[1..])
  }

  /** The block pass leaves a block alone unless its registers are used more than twice each. */
  predicate WorthIt(registers: nat, uses: nat) {
    registers != 0 && !(registers * 2 >= uses)
  }

  lemma TableServes(insts: seq<Inst>, table: seq<Alias>)
    requires TableFor(table, Accessed(insts))
    ensures Served(insts, table)
  {
    AccessedMeans(insts);
  }

  lemma TableReady(table: seq<Alias>, accessed: set<Alias>, aliases: set<Alias>, size: nat)
    requires TableFor(table, accessed) && accessed <= aliases
    requires WellFormed(aliases, size) && Coherent(aliases)
    ensures Ready(table, aliases, size)
  {
  }

  lemma OverBoundsAccessed(insts: seq<Inst>, aliases: set<Alias>)
    requires Over(insts, aliases)
    ensures Accessed(insts) <= aliases
  {
    AccessedMeans(insts);
    forall a | a in Accessed(insts)
      ensures a in aliases
    {
      var inst :| inst in insts && Accesses(inst, a);
    }
  }

  /** The localised block leaves the registers, memory, call trace and the lifted code's virtual
      registers exactly as the original block does. */
  ghost predicate SameEffect(env: Env, insts: seq<Inst>, insts': seq<Inst>, st: State) {
    var a, b := ExecAll(env, insts, st), ExecAll(env, insts', st);
    && a.regs == b.regs && a.mem == b.mem && a.trace == b.trace
    && forall k: nat :: Get(a, Named(k)) == Get(b, Named(k))
  }

  /** Every block over `aliases` that the pass chooses to rewrite keeps its meaning, whatever
      order the pass's tables come in. */
  ghost predicate BlockPassSound(aliases: set<Alias>, size: nat) {
    forall insts: seq<Inst>, fills: seq<Alias>, table: seq<Alias>, p: nat, env: Env, st: State |
      && Over(insts, aliases) && Below(insts, p)
      && TableFor(table, Accessed(insts)) && Orders(fills, table)
      && WorthIt(|table|, Uses(insts))
      && |st.regs| == size ::
      SameEffect(env, insts, LocaliseBody(insts, fills, table, p), st)
  }

  lemma CoherentIsSound(aliases: set<Alias>, size: nat)
    requires WellFormed(aliases, size) && Coherent(aliases)
    ensures BlockPassSound(aliases, size)
  {
    hide WellFormed, Coherent, Over, Below, TableFor, Accessed, Orders, SameEffect, LocaliseBody, Uses, WorthIt;
    forall insts: seq<Inst>, fills: seq<Alias>, table: seq<Alias>, p: nat, env: Env, st: State |
      && Over(insts, aliases) && Below(insts, p)
      && TableFor(table, Accessed(insts)) && Orders(fills, table)
      && WorthIt(|table|, Uses(insts))
      && |st.regs| == size
      ensures SameEffect(env, insts, LocaliseBody(insts, fills, table, p), st)
    {
      OneBlockSound(insts, fills, table, p, env, st, aliases);
    }
  }

  lemma {:induction false} OneBlockSound(insts: seq<Inst>, fills: seq<Alias>, table: seq<Alias>, p: nat, env: Env,
                                         st: State, aliases: set<Alias>)
    requires WellFormed(aliases, |st.regs|) && Coherent(aliases)
    requires Over(insts, aliases) && Below(insts, p)
    requires TableFor(table, Accessed(insts)) && Orders(fills, table)
    ensures SameEffect(env, insts, LocaliseBody(insts, fills, table, p), st)
  {
    hide WellFormed, Coherent, Over, Below, TableFor, Accessed, Orders, Ready, Served, ExecAll, LocaliseBody;
    OverBoundsAccessed(insts, aliases);
    TableReady(table, Accessed(insts), aliases, |st.regs|);
    TableServes(insts, table);
    SimulatesItself(st, p);
    BlockBodyPreserved(env, insts, st, st, p, fills, table, aliases);
    FullySynced(ExecAll(env, insts, st), ExecAll(env, LocaliseBody(insts, fills, table, p), st), p, []);
  }

  /** Reads of the first byte of two aliases of one register: enough uses for the pass to act. */
  function Witness(a: Alias, b: Alias): seq<Inst> {
    [Load(Named(0), Global(a), 1), Load(Named(1), Global(b), 1), Load(Named(2), Global(a), 1)]
  }

  const IDLE := Env((_, _, m) => Effect([], m), (_, _, m) => Effect([], m),
                    (_, _, r, m, _) => CallEffect([], r, m), _ => 0)

  lemma WitnessUses(a: Alias, b: Alias)
    requires IsLocalised(a) && IsLocalised(b)
    ensures Accessed(Witness(a, b)) == {a, b} && Uses(Witness(a, b)) == 3
  {
    var insts := Witness(a, b);
    assert insts[1..] == [insts[1], insts[2]] && insts[1..][1..] == [insts[2]] && [insts[2]][1..] == [];
    assert Accessed([insts[2]]) == {a} + Accessed([]);
    assert Accessed(insts[1..]) == {b} + Accessed([insts[2]]);
    assert Uses([insts[2]]) == 1 by { assert a in AliasesOf(insts[2]); }
    assert Uses(insts[1..]) == 2 by { assert b in AliasesOf(insts[1]); }
    assert a in AliasesOf(insts[0]);
  }

  /** A state in which the first bytes of the two aliases differ. */
  function Telling(b: Alias, size: nat): State {
    State(map[], seq(size, i requires 0 <= i < size => if i == b.off then 1 else 0), map[], map[], [])
  }

  lemma WitnessDiffers(a: Alias, b: Alias, size: nat)
    requires IsLocalised(a) && IsLocalised(b) && Key(a) == Key(b) && a.off != b.off
    requires a.off < size && b.off < size
    ensures !SameEffect(IDLE, Witness(a, b), LocaliseBody(Witness(a, b), [a], [a], 0), Telling(b, size))
  {
    hide ExecAll, LocaliseBody;
    var st := Telling(b, size);
    OriginalReads(a, b, st);
    LocalisedReads(a, b, st);
    assert Slice(st.regs, b.off, 1)[0] == 1 && Slice(st.regs, a.off, 1)[0] == 0;
  }

  lemma IncoherentIsUnsound(aliases: set<Alias>, size: nat, a: Alias, b: Alias)
    requires WellFormed(aliases, size)
    requires a in aliases && b in aliases && IsLocalised(a) && IsLocalised(b)
    requires Key(a) == Key(b) && a.off != b.off
    ensures !BlockPassSound(aliases, size)
  {
    hide SameEffect, ExecAll, LocaliseBody;
    var insts := Witness(a, b);
    WitnessUses(a, b);
    assert TableFor([a], Accessed(insts));
    WitnessFits(aliases, size, a, b);
    WitnessDiffers(a, b, size);
    assert !SameEffect(IDLE, insts, LocaliseBody(insts, [a], [a], 0), Telling(b, size));
  }

  lemma WitnessFits(aliases: set<Alias>, size: nat, a: Alias, b: Alias)
    requires WellFormed(aliases, size) && a in aliases && b in aliases && IsLocalised(a) && IsLocalised(b)
    ensures Over(Witness(a, b), aliases) && Below(Witness(a, b), 0) && a.off < size && b.off < size
    ensures Orders([a], [a]) && WorthIt(|[a]|, 3) && |Telling(b, size).regs| == size
  {
  }

  lemma OriginalReads(a: Alias, b: Alias, st: State)
    ensures Get(ExecAll(IDLE, Witness(a, b), st), Named(1)) == Slice(st.regs, b.off, 1)
  {
    var insts := Witness(a, b);
    var s1 := Exec(IDLE, insts[0], st);
    ExecAllTwo(IDLE, insts[1], insts[2], s1);
    assert insts[1..] == [insts[1], insts[2]];
  }

  lemma LocalisedReads(a: Alias, b: Alias, st: State)
    requires IsLocalised(a) && IsLocalised(b) && Key(a) == Key(b)
    ensures Get(ExecAll(IDLE, LocaliseBody(Witness(a, b), [a], [a], 0), st), Named(1)) == Slice(st.regs, a.off, 1)
  {
    assert [a][1..] == [];
    assert Reload([a], 0) == ReloadOne(a, 0) && Flush([a], 0) == FlushOne(a, 0);
    var body := LocaliseAll(Witness(a, b), [a], 0);
    FilledReads(a, b, st);
    var done := ExecAll(IDLE, body, ExecAll(IDLE, Reload([a], 0), st));
    ExecAllTwo(IDLE, FlushOne(a, 0)[0], FlushOne(a, 0)[1], done);
    ExecAllConcat(IDLE, ReloadOne(a, 0), body, st);
    ExecAllConcat(IDLE, ReloadOne(a, 0) + body, FlushOne(a, 0), st);
  }

  /** Once the slot is filled, what is read for `b` is what the register structure has for `a`. */
  lemma FilledReads(a: Alias, b: Alias, st: State)
    requires IsLocalised(a) && IsLocalised(b) && Key(a) == Key(b)
    ensures Get(ExecAll(IDLE, LocaliseAll(Witness(a, b), [a], 0), ExecAll(IDLE, Reload([a], 0), st)), Named(1))
            == Slice(st.regs, a.off, 1)
  {
    assert [a][1..] == [];
    assert Reload([a], 0) == ReloadOne(a, 0);
    LocalisedWitness(a, b);
    FilledSlot(a, st);
    SlotReads(a, ExecAll(IDLE, ReloadOne(a, 0), st), st.regs);
  }

  function WitnessBody(a: Alias): seq<Inst> {
    [Load(Named(0), SlotOf(a, 0), 1), Load(Named(1), SlotOf(a, 0), 1), Load(Named(2), SlotOf(a, 0), 1)]
  }

  lemma LocalisedWitness(a: Alias, b: Alias)
    requires IsLocalised(a) && IsLocalised(b) && Key(a) == Key(b)
    ensures LocaliseAll(Witness(a, b), [a], 0) == WitnessBody(a)
  {
    var insts := Witness(a, b);
    assert insts[1..] == [insts[1], insts[2]] && insts[1..][1..] == [insts[2]] && [insts[2]][1..] == [];
    assert LocaliseAll([insts[2]], [a], 0) == [Redirect(insts[2], 0)] + LocaliseAll([], [a], 0);
    assert LocaliseAll(insts[1..], [a], 0) == [Redirect(insts[1], 0)] + LocaliseAll([insts[2]], [a], 0);
  }

  lemma FilledSlot(a: Alias, st: State)
    ensures SlotBytes(ExecAll(IDLE, ReloadOne(a, 0), st), SlotId(0, Key(a))) == Slice(st.regs, a.off, SlotWidth(Key(a)))
  {
    ExecAllTwo(IDLE, ReloadOne(a, 0)[0], ReloadOne(a, 0)[1], st);
  }

  lemma SlotReads(a: Alias, st: State, regs: Bytes)
    requires SlotBytes(st, SlotId(0, Key(a))) == Slice(regs, a.off, SlotWidth(Key(a)))
    ensures Get(ExecAll(IDLE, WitnessBody(a), st), Named(1)) == Slice(regs, a.off, 1)
  {
    var body := WitnessBody(a);
    var s1 := Exec(IDLE, body[0], st);
    ExecAllTwo(IDLE, body[1], body[2], s1);
    assert body[1..] == [body[1], body[2]];
    assert SlotBytes(s1, SlotId(0, Key(a))) == SlotBytes(st, SlotId(0, Key(a)));
    assert Slice(SlotBytes(st, SlotId(0, Key(a))), 0, 1) == Slice(regs, a.off, 1);
  }

  /** The exact condition under which the block pass may be run on a module. */
  lemma BlockPassSoundIff(aliases: set<Alias>, size: nat)
    requires WellFormed(aliases, size)
    ensures BlockPassSound(aliases, size) <==> Coherent(aliases)
  {
    if Coherent(aliases) {
      CoherentIsSound(aliases, size);
    } else {
      var a, b :| a in aliases && b in aliases && IsLocalised(a) && IsLocalised(b) && Key(a) == Key(b)
        && a.off != b.off;
      IncoherentIsUnsound(aliases, size, a, b);
    }
  }

  // ---------- the loop pass ----------

  ghost predicate IsLoopTable(f: Function, lp: Loop, fills: seq<Alias>, table: seq<Alias>)
    requires lp.blocks <= f.blocks.Keys
  {
    && TableFor(table, set l, a | l in lp.blocks && a in Accessed(f.blocks[l].insts) :: a)
    && Orders(fills, table)
  }

  /** Every simplified loop over `aliases` is localised without changing any run of its function,
      whatever order the pass's tables come in. */
  ghost predicate LoopPassSound(aliases: set<Alias>, size: nat) {
    forall f: Function, lp: Loop, fills: seq<Alias>, table: seq<Alias>, p: nat |
      && Simplified(f, lp) && FunctionOver(f, aliases) && FunctionBelow(f, p)
      && IsLoopTable(f, lp, fills, table) ::
      Equivalent(f, LocaliseLoop(f, lp, fills, table, p), size)
  }

  lemma LoopTableReady(f: Function, lp: Loop, fills: seq<Alias>, table: seq<Alias>, aliases: set<Alias>, size: nat)
    requires lp.blocks <= f.blocks.Keys && FunctionOver(f, aliases)
    requires WellFormed(aliases, size) && Coherent(aliases)
    requires IsLoopTable(f, lp, fills, table)
    ensures Ready(table, aliases, size)
    ensures forall l | l in lp.blocks :: Served(f.blocks[l].insts, table)
  {
    forall l | l in lp.blocks
      ensures Accessed(f.blocks[l].insts) <= aliases && Served(f.blocks[l].insts, table)
    {
      OverBoundsAccessed(f.blocks[l].insts, aliases);
      AccessedMeans(f.blocks[l].insts);
      forall inst, a | inst in f.blocks[l].insts && Accesses(inst, a) && IsLocalised(a)
        ensures exists e :: e in table && Key(e) == Key(a)
      {
        assert a in Accessed(f.blocks[l].insts);
      }
    }
  }

  lemma CoherentLoopIsSound(aliases: set<Alias>, size: nat)
    requires WellFormed(aliases, size) && Coherent(aliases)
    ensures LoopPassSound(aliases, size)
  {
    hide FunctionOver, FunctionBelow, Equivalent, LocaliseLoop, Ready, Served, TableFor, Edge;
    hide WellFormed, Coherent;
    forall f: Function, lp: Loop, fills: seq<Alias>, table: seq<Alias>, p: nat |
      && Simplified(f, lp) && FunctionOver(f, aliases) && FunctionBelow(f, p)
      && IsLoopTable(f, lp, fills, table)
      ensures Equivalent(f, LocaliseLoop(f, lp, fills, table, p), size)
    {
      LoopTableReady(f, lp, fills, table, aliases, size);
      LoopPassEquivalent(f, lp, fills, table, p, aliases, size);
    }
  }

  /** The reads of the two aliases as the body of a loop, between a preheader and an exit. */
  function WitnessLoop(a: Alias, b: Alias): Function {
    Function(0, map[0 := Block([], Jump(Named(3), [1])),
                    1 := Block(Witness(a, b), Jump(Named(3), [2, 1])),
                    2 := Block([], Return)])
  }

  const AROUND := Loop(1, {1}, 0, [2])

  lemma WitnessLoopShape(a: Alias, b: Alias)
    ensures Simplified(WitnessLoop(a, b), AROUND)
  {
    hide Witness;
  }

  lemma WitnessLoopOver(a: Alias, b: Alias, aliases: set<Alias>)
    requires Over(Witness(a, b), aliases) && Below(Witness(a, b), 0)
    ensures FunctionOver(WitnessLoop(a, b), aliases) && FunctionBelow(WitnessLoop(a, b), 0)
  {
    hide Witness, InstOver, InstBelow;
  }

  lemma WitnessLoopTable(a: Alias, b: Alias)
    requires IsLocalised(a) && IsLocalised(b) && Key(a) == Key(b)
    ensures IsLoopTable(WitnessLoop(a, b), AROUND, [a], [a])
  {
    hide IsLocalised, Key, Uses;
    WitnessUses(a, b);
    var f := WitnessLoop(a, b);
    hide Witness, Accessed;
    var accessed := set l, c | l in AROUND.blocks && c in Accessed(f.blocks[l].insts) :: c;
    assert forall c :: c in accessed <==> c in Accessed(f.blocks[1].insts);
    assert a in [a];
  }

  lemma WitnessBlocks(a: Alias, b: Alias)
    ensures LocaliseLoop(WitnessLoop(a, b), AROUND, [a], [a], 0).entry == 0
    ensures var blocks := LocaliseLoop(WitnessLoop(a, b), AROUND, [a], [a], 0).blocks;
            && blocks.Keys == {0, 1, 2}
            && blocks[0].insts == Reload([a], 0) && blocks[0].term == Jump(Named(3), [1])
            && blocks[1].insts == LocaliseAll(Witness(a, b), [a], 0)
            && blocks[1].term == Jump(Named(3), [2, 1])
  {
    CountPositive(AROUND.exits, 0);
    CountPositive(AROUND.exits, 1);
    var nothing: seq<Inst> := [];
    assert nothing + nothing + Reload([a], 0) == Reload([a], 0);
    var body := LocaliseAll(Witness(a, b), [a], 0);
    assert nothing + body + nothing == body;
  }

  /** The first two blocks of a run through the loop. */
  lemma TwoBlocks(f: Function, st: State)
    requires f.entry == 0 && 0 in f.blocks && 1 in f.blocks
    requires f.blocks[0].term == Jump(Named(3), [1]) && f.blocks[1].term == Jump(Named(3), [2, 1])
    ensures Run(IDLE, f, st, 2)
            == At(2, ExecAll(IDLE, f.blocks[1].insts, ExecAll(IDLE, f.blocks[0].insts, st)))
  {
    hide ExecAll;
    assert Run(IDLE, f, st, 0) == At(0, st);
    assert Run(IDLE, f, st, 1) == At(1, ExecAll(IDLE, f.blocks[0].insts, st));
  }

  lemma WitnessLoopDiffers(a: Alias, b: Alias, size: nat)
    requires IsLocalised(a) && IsLocalised(b) && Key(a) == Key(b) && a.off != b.off
    requires a.off < size && b.off < size
    ensures !Equivalent(WitnessLoop(a, b), LocaliseLoop(WitnessLoop(a, b), AROUND, [a], [a], 0), size)
  {
    hide LocaliseLoop, LocaliseAll, Run, Reload;
    var f := WitnessLoop(a, b);
    var g := LocaliseLoop(f, AROUND, [a], [a], 0);
    var st := Telling(b, size);
    WitnessBlocks(a, b);
    TwoBlocks(f, st);
    TwoBlocks(g, st);
    assert ExecAll(IDLE, [], st) == st;
    OriginalReads(a, b, st);
    FilledReads(a, b, st);
    assert Slice(st.regs, b.off, 1)[0] == 1 && Slice(st.regs, a.off, 1)[0] == 0;
    assert Get(Run(IDLE, f, st, 2).st, Named(1)) != Get(Run(IDLE, g, st, 2).st, Named(1));
    assert !SameOutcome(Run(IDLE, f, st, 2), Run(IDLE, g, st, 2));
  }

  lemma IncoherentLoopUnsound(aliases: set<Alias>, size: nat, a: Alias, b: Alias)
    requires WellFormed(aliases, size)
    requires a in aliases && b in aliases && IsLocalised(a) && IsLocalised(b)
    requires Key(a) == Key(b) && a.off != b.off
    ensures !LoopPassSound(aliases, size)
  {
    hide Simplified, FunctionOver, FunctionBelow, IsLoopTable, Equivalent, LocaliseLoop, WitnessLoop;
    WitnessFits(aliases, size, a, b);
    WitnessLoopShape(a, b);
    WitnessLoopOver(a, b, aliases);
    WitnessLoopTable(a, b);
    WitnessLoopDiffers(a, b, size);
  }

  /** The same condition is the exact one for the loop pass. */
  lemma LoopPassSoundIff(aliases: set<Alias>, size: nat)
    requires WellFormed(aliases, size)
    ensures LoopPassSound(aliases, size) <==> Coherent(aliases)
  {
    hide LoopPassSound, WellFormed;
    if Coherent(aliases) {
      CoherentLoopIsSound(aliases, size);
    } else {
      var a, b :| a in aliases && b in aliases && IsLocalised(a) && IsLocalised(b) && Key(a) == Key(b)
        && a.off != b.off;
      IncoherentLoopUnsound(aliases, size, a, b);
    }
  }
}
