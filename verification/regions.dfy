/** Localising a whole loop and localising a single block, as rewrites of a function, and the
    proof that each leaves every run of the function unchanged. */
module Regions {
  import opened Machine
  import opened Localize

  // ---------- loops ----------

  /** A natural loop in simplified form: its preheader is the only way in, its exit blocks are
      reached from inside only.  `exits` lists an exit block once for every edge into it. */
  datatype Loop = Loop(header: Label, blocks: set<Label>, preheader: Label, exits: seq<Label>)

  predicate Edge(f: Function, u: Label, v: Label) {
    u in f.blocks && f.blocks[u].term.Jump? && v in f.blocks[u].term.targets
  }

  /** The loop's blocks, preheader and exits are blocks of the function, and apart. */
  predicate Placed(f: Function, lp: Loop) {
    && lp.blocks <= f.blocks.Keys
    && lp.preheader in f.blocks && lp.preheader !in lp.blocks
    && forall x | x in lp.exits :: x in f.blocks && x !in lp.blocks
  }

  ghost predicate Simplified(f: Function, lp: Loop) {
    && Placed(f, lp)
    && lp.header in lp.blocks
    && f.entry !in lp.blocks && f.entry !in lp.exits
    && (forall u | u in lp.blocks || u == lp.preheader ::
          f.blocks[u].term.Jump? && f.blocks[u].term.targets != [])
    && (forall u, v | Edge(f, u, v) ::
          && (v in lp.blocks && u !in lp.blocks ==> u == lp.preheader)
          && (u == lp.preheader ==> v == lp.header)
          && (u in lp.blocks && v !in lp.blocks ==> v in lp.exits)
          && (v in lp.exits ==> u in lp.blocks))
  }

  function Count(xs: seq<Label>, x: Label): nat {
    if xs == [] then 0 else (if xs[0] == x then 1 else 0) + Count(xs[1..], x)
  }

  function Times(n: nat, insts: seq<Inst>): seq<Inst> {
    if n == 0 then [] else insts + Times(n - 1, insts)
  }

  /** Write-backs at the front of an exit block, redirection inside the loop, slot fills at the
      end of the preheader. */
  function LocaliseInLoop(b: Block, l: Label, lp: Loop, fills: seq<Alias>, table: seq<Alias>, p: nat): Block {
    var body := if l in lp.blocks then LocaliseAll(b.insts, table, p) else b.insts;
    Block(Times(Count(lp.exits, l), Flush(table, p))
          + body
          + (if l == lp.preheader then Reload(fills, p) else []), b.term)
  }

  function LocaliseLoop(f: Function, lp: Loop, fills: seq<Alias>, table: seq<Alias>, p: nat): Function {
    f.(blocks := map l | l in f.blocks :: LocaliseInLoop(f.blocks[l], l, lp, fills, table, p))
  }

  // ---------- single blocks ----------

  /** Slot fills in front, write-backs before the terminator. */
  function LocaliseBody(insts: seq<Inst>, fills: seq<Alias>, table: seq<Alias>, p: nat): seq<Inst> {
    Reload(fills, p) + LocaliseAll(insts, table, p) + Flush(table, p)
  }

  function LocaliseBlock(f: Function, l: Label, fills: seq<Alias>, table: seq<Alias>, p: nat): Function
    requires l in f.blocks
  {
    f.(blocks := f.blocks[l := Block(LocaliseBody(f.blocks[l].insts, fills, table, p), f.blocks[l].term)])
  }

  // ---------- side conditions on whole functions ----------

  ghost predicate FunctionOver(f: Function, aliases: set<Alias>) {
    forall l | l in f.blocks :: Over(f.blocks[l].insts, aliases)
  }

  /** Every slot and scratch register in `f` belongs to a pass numbered below `k`. */
  ghost predicate FunctionBelow(f: Function, k: nat) {
    forall l | l in f.blocks :: Below(f.blocks[l].insts, k) && TermBelow(f.blocks[l].term, k)
  }

  predicate TermBelow(t: Terminator, k: nat) {
    t.Jump? ==> TempBelow(t.cond, k)
  }

  /** The two orders in which a pass walks its tables. */
  ghost predicate Orders(fills: seq<Alias>, table: seq<Alias>) {
    forall e :: e in fills <==> e in table
  }

  // ---------- the block pass ----------

  lemma FilledFrom(env: Env, ref: State, loc: State, p: nat, fills: seq<Alias>, table: seq<Alias>, aliases: set<Alias>)
    requires Ready(table, aliases, |ref.regs|) && Orders(fills, table)
    requires Simulates(ref, loc, p, [], [])
    ensures Simulates(ref, ExecAll(env, Reload(fills, p), loc), p, table, table)
  {
    ReloadFills(env, ref, loc, p, [], fills);
    assert [] + fills == fills;
    var filled := ExecAll(env, Reload(fills, p), loc);
    Reordered(ref, filled, p, fills, table, []);
    Dirtied(ref, filled, p, table, table);
  }

  lemma Forgotten(ref: State, loc: State, p: nat, live: seq<Alias>)
    requires Simulates(ref, loc, p, live, [])
    ensures Simulates(ref, loc, p, [], [])
  {
  }

  /** A localised straight-line block leaves exactly the state the original leaves: registers,
      memory, call trace, virtual registers and the slots of other passes. */
  lemma BlockBodyPreserved(env: Env, insts: seq<Inst>, ref: State, loc: State, p: nat,
                           fills: seq<Alias>, table: seq<Alias>, aliases: set<Alias>)
    requires Over(insts, aliases) && Below(insts, p)
    requires Ready(table, aliases, |ref.regs|) && Served(insts, table) && Orders(fills, table)
    requires Simulates(ref, loc, p, [], [])
    ensures Simulates(ExecAll(env, insts, ref), ExecAll(env, LocaliseBody(insts, fills, table, p), loc), p, [], [])
  {
    FilledFrom(env, ref, loc, p, fills, table, aliases);
    var filled := ExecAll(env, Reload(fills, p), loc);
    BodySimulates(env, insts, ref, filled, p, table, aliases);
    var done := ExecAll(env, LocaliseAll(insts, table, p), filled);
    var ref' := ExecAll(env, insts, ref);
    FlushSyncs(env, ref', done, p, table, table);
    Forgotten(ref', ExecAll(env, Flush(table, p), done), p, table);
    ExecAllConcat(env, Reload(fills, p), LocaliseAll(insts, table, p), loc);
    ExecAllConcat(env, Reload(fills, p) + LocaliseAll(insts, table, p), Flush(table, p), loc);
  }

  ghost predicate InStep(c: Config, d: Config, p: nat) {
    && (if c.At? then d.At? && c.at == d.at else d.Halted?)
    && Simulates(c.st, d.st, p, [], [])
  }

  lemma InStepShows(c: Config, d: Config, p: nat)
    requires InStep(c, d, p)
    ensures SameOutcome(c, d)
  {
    FullySynced(c.st, d.st, p, []);
  }

  lemma RunKeepsSize(env: Env, f: Function, st: State, n: nat)
    ensures |Run(env, f, st, n).st.regs| == |st.regs|
  {
    if n != 0 {
      RunKeepsSize(env, f, st, n - 1);
      var c := Run(env, f, st, n - 1);
      if c.At? && c.at in f.blocks {
        ExecKeepsSize(env, f.blocks[c.at].insts, c.st);
      }
    }
  }

  lemma SimulatesItself(st: State, p: nat)
    ensures Simulates(st, st, p, [], [])
  {
  }

  lemma SameInst(env: Env, inst: Inst, ref: State, loc: State, p: nat)
    requires InstBelow(inst, p)
    requires Simulates(ref, loc, p, [], [])
    ensures Simulates(Exec(env, inst, ref), Exec(env, inst, loc), p, [], [])
  {
    if inst.Load? {
      SameLoad(env, inst, ref, loc, p);
    } else if inst.Store? {
      SameStore(env, inst, ref, loc, p);
    } else {
      FullySynced(ref, loc, p, []);
      GetsAgree(ref, loc, p, inst.args);
      var ref', loc' := Exec(env, inst, ref), Exec(env, inst, loc);
      SameResult(ref, loc, ref', loc', p, inst.dst, Get(ref', inst.dst));
    }
  }

  lemma SameLoad(env: Env, inst: Inst, ref: State, loc: State, p: nat)
    requires inst.Load? && InstBelow(inst, p)
    requires Simulates(ref, loc, p, [], [])
    ensures Simulates(Exec(env, inst, ref), Exec(env, inst, loc), p, [], [])
  {
    FullySynced(ref, loc, p, []);
    assert inst.ptr.Local? ==> SlotBytes(ref, inst.ptr.id) == SlotBytes(loc, inst.ptr.id);
    SameResult(ref, loc, Exec(env, inst, ref), Exec(env, inst, loc), p, inst.dst, Read(ref, inst.ptr, inst.width));
  }

  lemma SameStore(env: Env, inst: Inst, ref: State, loc: State, p: nat)
    requires inst.Store? && InstBelow(inst, p)
    requires Simulates(ref, loc, p, [], [])
    ensures Simulates(Exec(env, inst, ref), Exec(env, inst, loc), p, [], [])
  {
    hide Write, Slice;
    assert Get(ref, inst.src) == Get(loc, inst.src);
    SameWrite(ref, loc, p, inst.ptr, Slice(Get(ref, inst.src), 0, inst.width));
  }

  lemma {:induction false} SameBody(env: Env, insts: seq<Inst>, ref: State, loc: State, p: nat)
    requires Below(insts, p)
    requires Simulates(ref, loc, p, [], [])
    ensures Simulates(ExecAll(env, insts, ref), ExecAll(env, insts, loc), p, [], [])
    decreases |insts|
  {
    if insts != [] {
      assert InstBelow(insts[0], p);
      SameInst(env, insts[0], ref, loc, p);
      SameBody(env, insts[1..], Exec(env, insts[0], ref), Exec(env, insts[0], loc), p);
    }
  }

  lemma SameWrite(ref: State, loc: State, p: nat, ptr: Ptr, v: Bytes)
    requires PtrBelow(ptr, p)
    requires Simulates(ref, loc, p, [], [])
    ensures Simulates(Write(ref, ptr, v), Write(loc, ptr, v), p, [], [])
  {
    FullySynced(ref, loc, p, []);
    WriteKeepsTemps(ref, ptr, v);
    WriteKeepsTemps(loc, ptr, v);
    if ptr.Local? {
      StoreOtherSlot(ref, loc, p, [], ptr.id, v);
    } else {
      forall id: SlotId
        ensures SlotBytes(Write(ref, ptr, v), id) == SlotBytes(ref, id)
        ensures SlotBytes(Write(loc, ptr, v), id) == SlotBytes(loc, id)
      {}
    }
  }

  lemma SameNext(env: Env, term: Terminator, ref: State, loc: State, p: nat)
    requires TermBelow(term, p) && Simulates(ref, loc, p, [], [])
    ensures InStep(Next(env, term, ref), Next(env, term, loc), p)
  {
  }

  lemma BlockStep(env: Env, f: Function, l: Label, fills: seq<Alias>, table: seq<Alias>, p: nat,
                  aliases: set<Alias>, c: Config, d: Config)
    requires l in f.blocks && FunctionOver(f, aliases) && FunctionBelow(f, p)
    requires Ready(table, aliases, |c.st.regs|) && Served(f.blocks[l].insts, table) && Orders(fills, table)
    requires InStep(c, d, p)
    ensures InStep(StepBlock(env, f, c), StepBlock(env, LocaliseBlock(f, l, fills, table, p), d), p)
  {
    hide Simulates, Ready, Served, Orders, LocaliseBody;
    if c.At? && c.at in f.blocks {
      var b := f.blocks[c.at];
      var b' := LocaliseBlock(f, l, fills, table, p).blocks[c.at];
      if c.at == l {
        BlockBodyPreserved(env, b.insts, c.st, d.st, p, fills, table, aliases);
      } else {
        SameBody(env, b.insts, c.st, d.st, p);
      }
      SameNext(env, b.term, ExecAll(env, b.insts, c.st), ExecAll(env, b'.insts, d.st), p);
    }
  }

  lemma {:induction false} BlockPassInStep(
      env: Env, f: Function, l: Label, fills: seq<Alias>, table: seq<Alias>, p: nat,
      aliases: set<Alias>, st: State, n: nat)
    requires l in f.blocks && FunctionOver(f, aliases) && FunctionBelow(f, p)
    requires Ready(table, aliases, |st.regs|) && Served(f.blocks[l].insts, table) && Orders(fills, table)
    ensures InStep(Run(env, f, st, n), Run(env, LocaliseBlock(f, l, fills, table, p), st, n), p)
    decreases n
  {
    hide FunctionOver, FunctionBelow, Ready, Served, Orders, StepBlock, Simulates;
    if n == 0 {
      SimulatesItself(st, p);
    } else {
      BlockPassInStep(env, f, l, fills, table, p, aliases, st, n - 1);
      RunKeepsSize(env, f, st, n - 1);
      BlockStep(env, f, l, fills, table, p, aliases, Run(env, f, st, n - 1),
                Run(env, LocaliseBlock(f, l, fills, table, p), st, n - 1));
    }
  }

  /** Localising one block leaves every run of the function unchanged. */
  lemma BlockPassEquivalent(f: Function, l: Label, fills: seq<Alias>, table: seq<Alias>, p: nat,
                            aliases: set<Alias>, size: nat)
    requires l in f.blocks && FunctionOver(f, aliases) && FunctionBelow(f, p)
    requires Ready(table, aliases, size) && Served(f.blocks[l].insts, table) && Orders(fills, table)
    ensures Equivalent(f, LocaliseBlock(f, l, fills, table, p), size)
  {
    forall env: Env, st: State, n: nat | |st.regs| == size
      ensures SameOutcome(Run(env, f, st, n), Run(env, LocaliseBlock(f, l, fills, table, p), st, n))
    {
      BlockPassInStep(env, f, l, fills, table, p, aliases, st, n);
      InStepShows(Run(env, f, st, n), Run(env, LocaliseBlock(f, l, fills, table, p), st, n), p);
    }
  }

  // ---------- the loop pass ----------

  lemma {:induction false} RestoredTimes(
      env: Env, ref: State, loc: State, p: nat, table: seq<Alias>, n: nat)
    requires n > 0 && forall e | e in table :: IsLocalised(e)
    requires Simulates(ref, loc, p, table, table)
    ensures Simulates(ref, ExecAll(env, Times(n, Flush(table, p)), loc), p, table, [])
    decreases n
  {
    var once := ExecAll(env, Flush(table, p), loc);
    FlushSyncs(env, ref, loc, p, table, table);
    ExecAllConcat(env, Flush(table, p), Times(n - 1, Flush(table, p)), loc);
    if n > 1 {
      Dirtied(ref, once, p, table, table);
      RestoredTimes(env, ref, once, p, table, n - 1);
    } else {
      assert Times(0, Flush(table, p)) == [];
    }
  }

  lemma CountPositive(xs: seq<Label>, x: Label)
    ensures Count(xs, x) > 0 <==> x in xs
  {
  }

  /** Between blocks: inside the loop, and on the edges leaving it, the slots are current and the
      register structure may be stale; everywhere else nothing differs. */
  ghost predicate LoopInvariant(c: Config, d: Config, lp: Loop, p: nat, table: seq<Alias>) {
    if c.At? && (c.at in lp.blocks || c.at in lp.exits) then
      d.At? && c.at == d.at && Simulates(c.st, d.st, p, table, table)
    else
      InStep(c, d, p)
  }

  lemma BlockInLoop(env: Env, b: Block, l: Label, lp: Loop, ref: State, loc: State, p: nat,
                    fills: seq<Alias>, table: seq<Alias>, aliases: set<Alias>)
    requires l in lp.blocks && l !in lp.exits && l != lp.preheader
    requires Over(b.insts, aliases) && Below(b.insts, p)
    requires Ready(table, aliases, |ref.regs|) && Served(b.insts, table)
    requires Simulates(ref, loc, p, table, table)
    ensures Simulates(ExecAll(env, b.insts, ref),
                      ExecAll(env, LocaliseInLoop(b, l, lp, fills, table, p).insts, loc), p, table, table)
  {
    CountPositive(lp.exits, l);
    assert LocaliseInLoop(b, l, lp, fills, table, p).insts == LocaliseAll(b.insts, table, p);
    BodySimulates(env, b.insts, ref, loc, p, table, aliases);
  }

  /** A block outside the loop: it may be an exit block, the preheader, both or neither. */
  lemma BlockOutsideLoop(env: Env, b: Block, l: Label, lp: Loop, ref: State, loc: State, p: nat,
                         fills: seq<Alias>, table: seq<Alias>, aliases: set<Alias>)
    requires l !in lp.blocks
    requires Below(b.insts, p)
    requires Ready(table, aliases, |ref.regs|) && Orders(fills, table)
    requires if l in lp.exits then Simulates(ref, loc, p, table, table) else Simulates(ref, loc, p, [], [])
    ensures
      var ref', loc' := ExecAll(env, b.insts, ref), ExecAll(env, LocaliseInLoop(b, l, lp, fills, table, p).insts, loc);
      if l == lp.preheader then Simulates(ref', loc', p, table, table) else Simulates(ref', loc', p, [], [])
  {
    var restores := Times(Count(lp.exits, l), Flush(table, p));
    var restored := ExecAll(env, restores, loc);
    CountPositive(lp.exits, l);
    if l in lp.exits {
      RestoredTimes(env, ref, loc, p, table, Count(lp.exits, l));
      Forgotten(ref, restored, p, table);
    }
    SameBody(env, b.insts, ref, restored, p);
    ExecAllConcat(env, restores, b.insts, loc);
    var tail := if l == lp.preheader then Reload(fills, p) else [];
    ExecAllConcat(env, restores + b.insts, tail, loc);
    if l == lp.preheader {
      ExecKeepsSize(env, b.insts, ref);
      FilledFrom(env, ExecAll(env, b.insts, ref), ExecAll(env, b.insts, restored), p, fills, table, aliases);
    }
  }

  /** The edge out of a block leads where the invariant says the state has to be. */
  lemma LoopEdge(env: Env, f: Function, lp: Loop, p: nat, table: seq<Alias>, l: Label, ref: State, loc: State)
    requires Simplified(f, lp) && l in f.blocks && TermBelow(f.blocks[l].term, p)
    requires if l in lp.blocks || l == lp.preheader then Simulates(ref, loc, p, table, table)
             else Simulates(ref, loc, p, [], [])
    ensures LoopInvariant(Next(env, f.blocks[l].term, ref), Next(env, f.blocks[l].term, loc), lp, p, table)
  {
    var term := f.blocks[l].term;
    assert term.Jump? ==> Get(ref, term.cond) == Get(loc, term.cond);
    var next := Next(env, term, ref);
    if next.At? {
      assert Edge(f, l, next.at);
    }
  }

  /** One block of the run: the transition out of it keeps the invariant. */
  lemma LoopStep(env: Env, f: Function, lp: Loop, fills: seq<Alias>, table: seq<Alias>, p: nat,
                 aliases: set<Alias>, c: Config, d: Config)
    requires Simplified(f, lp) && FunctionOver(f, aliases) && FunctionBelow(f, p)
    requires Ready(table, aliases, |c.st.regs|) && Orders(fills, table)
    requires forall l | l in lp.blocks :: Served(f.blocks[l].insts, table)
    requires c.At? && c.at in f.blocks && LoopInvariant(c, d, lp, p, table)
    ensures LoopInvariant(StepBlock(env, f, c), StepBlock(env, LocaliseLoop(f, lp, fills, table, p), d), lp, p, table)
  {
    var l, b := c.at, f.blocks[c.at];
    var g := LocaliseLoop(f, lp, fills, table, p);
    var ref := ExecAll(env, b.insts, c.st);
    var loc := ExecAll(env, g.blocks[l].insts, d.st);
    if l in lp.blocks {
      BlockInLoop(env, b, l, lp, c.st, d.st, p, fills, table, aliases);
    } else {
      BlockOutsideLoop(env, b, l, lp, c.st, d.st, p, fills, table, aliases);
    }
    LoopEdge(env, f, lp, p, table, l, ref, loc);
  }

  lemma LoopStart(f: Function, lp: Loop, p: nat, table: seq<Alias>, st: State)
    requires Simplified(f, lp)
    ensures LoopInvariant(At(f.entry, st), At(f.entry, st), lp, p, table)
  {
    SimulatesItself(st, p);
  }

  /** A run that has left the function, or is at a label that is no block, stays in step. */
  lemma LoopIdle(env: Env, f: Function, lp: Loop, fills: seq<Alias>, table: seq<Alias>, p: nat, c: Config, d: Config)
    requires Placed(f, lp) && LoopInvariant(c, d, lp, p, table) && (c.At? ==> c.at !in f.blocks)
    ensures LoopInvariant(StepBlock(env, f, c), StepBlock(env, LocaliseLoop(f, lp, fills, table, p), d), lp, p, table)
  {
    hide Simulates;
  }

  lemma {:induction false} LoopPassInvariant(
      env: Env, f: Function, lp: Loop, fills: seq<Alias>, table: seq<Alias>, p: nat,
      aliases: set<Alias>, st: State, n: nat)
    requires Simplified(f, lp) && FunctionOver(f, aliases) && FunctionBelow(f, p)
    requires Ready(table, aliases, |st.regs|) && Orders(fills, table)
    requires forall l | l in lp.blocks :: Served(f.blocks[l].insts, table)
    ensures LoopInvariant(Run(env, f, st, n), Run(env, LocaliseLoop(f, lp, fills, table, p), st, n), lp, p, table)
    decreases n
  {
    hide LoopInvariant, FunctionOver, FunctionBelow, Ready, Orders, Served, StepBlock, LocaliseInLoop;
    if n == 0 {
      LoopStart(f, lp, p, table, st);
    } else {
      LoopPassInvariant(env, f, lp, fills, table, p, aliases, st, n - 1);
      RunKeepsSize(env, f, st, n - 1);
      var c, d := Run(env, f, st, n - 1), Run(env, LocaliseLoop(f, lp, fills, table, p), st, n - 1);
      if c.At? && c.at in f.blocks {
        LoopStep(env, f, lp, fills, table, p, aliases, c, d);
      } else {
        LoopIdle(env, f, lp, fills, table, p, c, d);
      }
    }
  }

  /** Localising a loop leaves every run of the function unchanged. */
  lemma LoopPassEquivalent(f: Function, lp: Loop, fills: seq<Alias>, table: seq<Alias>, p: nat,
                           aliases: set<Alias>, size: nat)
    requires Simplified(f, lp) && FunctionOver(f, aliases) && FunctionBelow(f, p)
    requires Ready(table, aliases, size) && Orders(fills, table)
    requires forall l | l in lp.blocks :: Served(f.blocks[l].insts, table)
    ensures Equivalent(f, LocaliseLoop(f, lp, fills, table, p), size)
  {
    forall env: Env, st: State, n: nat | |st.regs| == size
      ensures SameOutcome(Run(env, f, st, n), Run(env, LocaliseLoop(f, lp, fills, table, p), st, n))
    {
      var c, d := Run(env, f, st, n), Run(env, LocaliseLoop(f, lp, fills, table, p), st, n);
      LoopPassInvariant(env, f, lp, fills, table, p, aliases, st, n);
      if InStep(c, d, p) { InStepShows(c, d, p); }
    }
  }

  /** Where a run leaves the loop, and everywhere outside it, the register structure is the
      original one. */
  lemma LoopPassRegisters(env: Env, f: Function, lp: Loop, fills: seq<Alias>, table: seq<Alias>, p: nat,
                          aliases: set<Alias>, st: State, n: nat)
    requires Simplified(f, lp) && FunctionOver(f, aliases) && FunctionBelow(f, p)
    requires Ready(table, aliases, |st.regs|) && Orders(fills, table)
    requires forall l | l in lp.blocks :: Served(f.blocks[l].insts, table)
    requires var c := Run(env, f, st, n); c.Halted? || (c.at !in lp.blocks && c.at !in lp.exits)
    ensures Run(env, LocaliseLoop(f, lp, fills, table, p), st, n).st.regs == Run(env, f, st, n).st.regs
  {
    LoopPassInvariant(env, f, lp, fills, table, p, aliases, st, n);
    FullySynced(Run(env, f, st, n).st, Run(env, LocaliseLoop(f, lp, fills, table, p), st, n).st, p, []);
  }
}
