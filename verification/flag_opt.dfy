/** Removal of stores to flag registers that are never loaded.  The pass decides alias by alias,
    so a flag reached through two aliases can lose a store that the other alias reads: the
    removal is sound exactly when no loaded alias overlaps an erased one. */
module FlagOpt {
  import opened Machine
  import opened Localize

  const FLAGS: seq<string> := ["AF", "CF", "OF", "PF", "SF", "ZF"]

  predicate IsFlag(a: Alias) {
    Listed(Prefix(a.name), FLAGS)
  }

  // ---------- the rewrite ----------

  predicate StoresTo(inst: Inst, dead: set<Alias>) {
    inst.Store? && inst.ptr.Global? && inst.ptr.a in dead
  }

  predicate LoadsFrom(inst: Inst, a: Alias) {
    inst.Load? && inst.ptr == Global(a)
  }

  function EraseStores(insts: seq<Inst>, dead: set<Alias>): seq<Inst> {
    if insts == [] then []
    else (if StoresTo(insts[0], dead) then [] else [insts[0]]) + EraseStores(insts[1..], dead)
  }

  function EraseIn(f: Function, dead: set<Alias>): Function {
    f.(blocks := map l | l in f.blocks :: Block(EraseStores(f.blocks[l].insts, dead), f.blocks[l].term))
  }

  function EraseAll(funcs: seq<Function>, dead: set<Alias>): seq<Function> {
    seq(|funcs|, i requires 0 <= i < |funcs| => EraseIn(funcs[i], dead))
  }

  /** Some function loads through the alias. */
  predicate Loaded(funcs: seq<Function>, a: Alias) {
    exists i | 0 <= i < |funcs| :: LoadedIn(funcs[i], a)
  }

  predicate LoadedIn(f: Function, a: Alias) {
    exists l | l in f.blocks :: exists inst | inst in f.blocks[l].insts :: LoadsFrom(inst, a)
  }

  function DeadFlags(funcs: seq<Function>, aliases: seq<Alias>): set<Alias> {
    set a | a in aliases && IsFlag(a) && !Loaded(funcs, a)
  }

  lemma EraseKeepsOthers(insts: seq<Inst>, dead: set<Alias>, inst: Inst)
    ensures inst in EraseStores(insts, dead) <==> inst in insts && !StoresTo(inst, dead)
  {
    if insts != [] {
      EraseKeepsOthers(insts[1..], dead, inst);
    }
  }

  lemma EraseKeepsLoads(funcs: seq<Function>, dead: set<Alias>, a: Alias)
    ensures Loaded(EraseAll(funcs, dead), a) <==> Loaded(funcs, a)
  {
    forall i | 0 <= i < |funcs|
      ensures LoadedIn(EraseAll(funcs, dead)[i], a) <==> LoadedIn(funcs[i], a)
    {
      var f, g := funcs[i], EraseAll(funcs, dead)[i];
      if LoadedIn(f, a) {
        var l :| l in f.blocks && exists inst | inst in f.blocks[l].insts :: LoadsFrom(inst, a);
        var inst :| inst in f.blocks[l].insts && LoadsFrom(inst, a);
        EraseKeepsOthers(f.blocks[l].insts, dead, inst);
        assert inst in g.blocks[l].insts;
      }
      if LoadedIn(g, a) {
        var l :| l in g.blocks && exists inst | inst in g.blocks[l].insts :: LoadsFrom(inst, a);
        var inst :| inst in g.blocks[l].insts && LoadsFrom(inst, a);
        EraseKeepsOthers(f.blocks[l].insts, dead, inst);
      }
    }
    if Loaded(funcs, a) {
      var i :| 0 <= i < |funcs| && LoadedIn(funcs[i], a);
      assert LoadedIn(EraseAll(funcs, dead)[i], a);
    }
  }

  lemma EraseTwice(insts: seq<Inst>, dead: set<Alias>, a: Alias)
    ensures EraseStores(EraseStores(insts, dead), {a}) == EraseStores(insts, dead + {a})
  {
    if insts != [] {
      EraseTwice(insts[1..], dead, a);
      if !StoresTo(insts[0], dead) {
        assert EraseStores(insts, dead)[1..] == EraseStores(insts[1..], dead);
      } else {
        assert EraseStores(insts, dead) == EraseStores(insts[1..], dead);
      }
    }
  }

  lemma EraseNothing(insts: seq<Inst>)
    ensures EraseStores(insts, {}) == insts
  {
  }

  class FlagPass {
    var funcs: seq<Function>
    const aliases: seq<Alias>

    constructor (funcs: seq<Function>, aliases: seq<Alias>)
      ensures this.funcs == funcs && this.aliases == aliases
    {
      this.funcs, this.aliases := funcs, aliases;
    }

    /** First walk over an alias's users: stop at the first load. */
    method HasLoad(a: Alias) returns (found: bool)
      ensures found == Loaded(funcs, a)
    {
      found := false;
      var i := 0;
      while i < |funcs| && !found
        invariant 0 <= i <= |funcs|
        invariant found == exists j | 0 <= j < i :: LoadedIn(funcs[j], a)
      {
        found := LoadedIn(funcs[i], a);
        i := i + 1;
      }
    }

    /** Second walk: erase the stores. */
    method EraseUsers(a: Alias)
      modifies this`funcs
      ensures funcs == EraseAll(old(funcs), {a})
    {
      var i := 0;
      while i < |funcs|
        invariant 0 <= i <= |funcs| == |old(funcs)|
        invariant forall j | 0 <= j < i :: funcs[j] == EraseIn(old(funcs)[j], {a})
        invariant forall j | i <= j < |funcs| :: funcs[j] == old(funcs)[j]
      {
        funcs := funcs[i := EraseIn(funcs[i], {a})];
        i := i + 1;
      }
    }

    method RunOnModule()
      modifies this`funcs
      ensures funcs == EraseAll(old(funcs), DeadFlags(old(funcs), aliases))
    {
      ghost var dead: set<Alias> := {};
      forall i | 0 <= i < |funcs|
        ensures EraseIn(funcs[i], {}) == funcs[i]
      {
        forall l | l in funcs[i].blocks
          ensures EraseStores(funcs[i].blocks[l].insts, {}) == funcs[i].blocks[l].insts
        {
          EraseNothing(funcs[i].blocks[l].insts);
        }
      }
      for k := 0 to |aliases|
        invariant dead == DeadFlags(old(funcs), aliases[..k])
        invariant funcs == EraseAll(old(funcs), dead)
      {
        var a := aliases[k];
        assert aliases[..k + 1] == aliases[..k] + [a];
        if IsFlag(a) {
          EraseKeepsLoads(old(funcs), dead, a);
          var loaded := HasLoad(a);
          if !loaded {
            EraseUsers(a);
            EraseAllTwice(old(funcs), dead, a);
            dead := dead + {a};
          }
        }
      }
      assert aliases[..|aliases|] == aliases;
    }
  }

  lemma EraseAllTwice(funcs: seq<Function>, dead: set<Alias>, a: Alias)
    ensures EraseAll(EraseAll(funcs, dead), {a}) == EraseAll(funcs, dead + {a})
  {
    forall i | 0 <= i < |funcs|
      ensures EraseIn(EraseIn(funcs[i], dead), {a}) == EraseIn(funcs[i], dead + {a})
    {
      forall l | l in funcs[i].blocks
        ensures EraseStores(EraseStores(funcs[i].blocks[l].insts, dead), {a})
                == EraseStores(funcs[i].blocks[l].insts, dead + {a})
      {
        EraseTwice(funcs[i].blocks[l].insts, dead, a);
      }
    }
  }

  // ---------- agreement outside the erased bytes ----------

  predicate InDead(dead: set<Alias>, i: int) {
    exists a | a in dead :: a.off <= i < a.off + a.width
  }

  ghost predicate AgreeOff(x: Bytes, y: Bytes, dead: set<Alias>) {
    |x| == |y| && forall i | 0 <= i < |x| && !InDead(dead, i) :: x[i] == y[i]
  }

  ghost predicate SameEvent(x: Event, y: Event, dead: set<Alias>) {
    x.callee == y.callee && x.args == y.args
    && AgreeOff(x.seen, y.seen, dead) && AgreeOff(x.returned, y.returned, dead)
  }

  ghost predicate SameTrace(x: seq<Event>, y: seq<Event>, dead: set<Alias>) {
    |x| == |y| && forall i | 0 <= i < |x| :: SameEvent(x[i], y[i], dead)
  }

  /** No callee looks at the erased bytes. */
  ghost predicate Blind(env: Env, dead: set<Alias>) {
    forall callee: Callee, args: seq<Bytes>, x: Bytes, y: Bytes, mem: Memory, s: seq<Event>, t: seq<Event> |
      AgreeOff(x, y, dead) && SameTrace(s, t, dead) ::
      var a, b := env.call(callee, args, x, mem, s), env.call(callee, args, y, mem, t);
      a.value == b.value && a.mem == b.mem && AgreeOff(a.regs, b.regs, dead)
  }

  ghost predicate Agree(ref: State, loc: State, dead: set<Alias>) {
    && ref.temps == loc.temps && ref.slots == loc.slots && ref.mem == loc.mem
    && AgreeOff(ref.regs, loc.regs, dead)
    && SameTrace(ref.trace, loc.trace, dead)
  }

  /** Every access stays within its alias's width. */
  ghost predicate WithinWidth(insts: seq<Inst>) {
    forall inst, a | inst in insts && Accesses(inst, a) :: inst.width <= a.width
  }

  /** No load reads a byte of an erased alias. */
  predicate Apart(a: Alias, b: Alias) {
    a.off + a.width <= b.off || b.off + b.width <= a.off
  }

  ghost predicate LoadsAvoid(insts: seq<Inst>, dead: set<Alias>) {
    forall inst, a, d | inst in insts && LoadsFrom(inst, a) && d in dead :: Apart(a, d)
  }

  lemma ErasedStore(env: Env, inst: Inst, ref: State, loc: State, dead: set<Alias>)
    requires StoresTo(inst, dead) && inst.width <= inst.ptr.a.width
    requires Agree(ref, loc, dead)
    ensures Agree(Exec(env, inst, ref), loc, dead)
  {
    var a := inst.ptr.a;
    forall i | 0 <= i < |ref.regs| && !InDead(dead, i)
      ensures Exec(env, inst, ref).regs[i] == loc.regs[i]
    {
      assert !(a.off <= i < a.off + a.width);
    }
  }

  lemma SameSlice(a: Alias, w: nat, ref: State, loc: State, dead: set<Alias>)
    requires Agree(ref, loc, dead) && w <= a.width && forall d | d in dead :: Apart(a, d)
    ensures Slice(ref.regs, a.off, w) == Slice(loc.regs, a.off, w)
  {
    forall i | a.off <= i < a.off + w
      ensures !InDead(dead, i)
    {
    }
  }

  lemma KeptInst(env: Env, inst: Inst, ref: State, loc: State, dead: set<Alias>)
    requires Blind(env, dead) && Agree(ref, loc, dead)
    requires forall a | Accesses(inst, a) :: inst.width <= a.width
    requires forall a, d | LoadsFrom(inst, a) && d in dead :: Apart(a, d)
    ensures Agree(Exec(env, inst, ref), Exec(env, inst, loc), dead)
  {
    match inst
    case Load(dst, Global(a), w) =>
      assert LoadsFrom(inst, a) && Accesses(inst, a);
      SameSlice(a, w, ref, loc, dead);
    case Load(dst, Local(id), w) =>
      assert SlotBytes(ref, id) == SlotBytes(loc, id);
    case Store(ptr, w, src) =>
      assert Get(ref, src) == Get(loc, src);
      if ptr.Local? { assert SlotBytes(ref, ptr.id) == SlotBytes(loc, ptr.id); }
    case Other(dst, opcode, args) =>
      assert Gets(ref, args) == Gets(loc, args);
    case Call(dst, callee, args) =>
      assert Gets(ref, args) == Gets(loc, args);
  }

  lemma FirstAndRest(insts: seq<Inst>, dead: set<Alias>)
    requires insts != [] && WithinWidth(insts) && LoadsAvoid(insts, dead)
    ensures WithinWidth(insts[1..]) && LoadsAvoid(insts[1..], dead)
    ensures forall a | Accesses(insts[0], a) :: insts[0].width <= a.width
    ensures forall a, d | LoadsFrom(insts[0], a) && d in dead :: Apart(a, d)
    ensures StoresTo(insts[0], dead) ==> insts[0].width <= insts[0].ptr.a.width
  {
    assert insts[0] in insts && forall inst | inst in insts[1..] :: inst in insts;
    if StoresTo(insts[0], dead) { assert Accesses(insts[0], insts[0].ptr.a); }
  }

  /** Erasing the stores of some block keeps everything but the erased bytes. */
  lemma {:induction false} ErasedBody(env: Env, insts: seq<Inst>, ref: State, loc: State, dead: set<Alias>)
    requires Blind(env, dead) && Agree(ref, loc, dead)
    requires WithinWidth(insts) && LoadsAvoid(insts, dead)
    ensures Agree(ExecAll(env, insts, ref), ExecAll(env, EraseStores(insts, dead), loc), dead)
    decreases |insts|
  {
    if insts != [] {
      hide Exec, Agree, Blind, WithinWidth, LoadsAvoid;
      var inst := insts[0];
      FirstAndRest(insts, dead);
      if StoresTo(inst, dead) {
        ErasedStore(env, inst, ref, loc, dead);
        assert EraseStores(insts, dead) == EraseStores(insts[1..], dead);
        ErasedBody(env, insts[1..], Exec(env, inst, ref), loc, dead);
      } else {
        KeptInst(env, inst, ref, loc, dead);
        assert EraseStores(insts, dead)[1..] == EraseStores(insts[1..], dead);
        ErasedBody(env, insts[1..], Exec(env, inst, ref), Exec(env, inst, loc), dead);
      }
    }
  }

  ghost predicate AgreeAt(c: Config, d: Config, dead: set<Alias>) {
    (if c.At? then d.At? && c.at == d.at else d.Halted?) && Agree(c.st, d.st, dead)
  }

  /** Every run of every function keeps its control flow, virtual registers, memory, call trace
      and all other registers, for every length of run. */
  lemma {:induction false} ErasedRun(env: Env, f: Function, dead: set<Alias>, st: State, n: nat)
    requires Blind(env, dead)
    requires forall l | l in f.blocks :: WithinWidth(f.blocks[l].insts) && LoadsAvoid(f.blocks[l].insts, dead)
    ensures AgreeAt(Run(env, f, st, n), Run(env, EraseIn(f, dead), st, n), dead)
    decreases n
  {
    if n != 0 {
      ErasedRun(env, f, dead, st, n - 1);
      var c, d := Run(env, f, st, n - 1), Run(env, EraseIn(f, dead), st, n - 1);
      if c.At? && c.at in f.blocks {
        ErasedBody(env, f.blocks[c.at].insts, c.st, d.st, dead);
        SameGet(ExecAll(env, f.blocks[c.at].insts, c.st),
                ExecAll(env, EraseIn(f, dead).blocks[c.at].insts, d.st));
      }
    }
  }

  lemma SameGet(x: State, y: State)
    requires x.temps == y.temps
    ensures forall t: Temp :: Get(x, t) == Get(y, t)
  {
  }

  // ---------- the exact condition ----------

  /** Erasing the stores through `dead` preserves every block that loads only through `loaded`. */
  ghost predicate ErasureSound(dead: set<Alias>, loaded: set<Alias>, size: nat) {
    forall env: Env, insts: seq<Inst>, st: State |
      && Blind(env, dead) && WithinWidth(insts) && |st.regs| == size
      && (forall inst, a | inst in insts && LoadsFrom(inst, a) :: a in loaded) ::
      Agree(ExecAll(env, insts, st), ExecAll(env, EraseStores(insts, dead), st), dead)
  }

  const IDLE := Env((_, _, m) => Effect([], m), (_, _, m) => Effect([], m),
                    (_, _, r, m, _) => CallEffect([], r, m), _ => 0)

  lemma OverlapIsUnsound(dead: set<Alias>, loaded: set<Alias>, size: nat, d: Alias, a: Alias, i: nat)
    requires d in dead && a in loaded && i < size
    requires d.off <= i < d.off + d.width && a.off <= i < a.off + a.width
    requires a !in dead
    ensures !ErasureSound(dead, loaded, size)
  {
    var ones := seq(d.width, _ => 1);
    var st := State(map[Named(0) := ones], seq(size, _ => 0), map[], map[], []);
    var insts := [Store(Global(d), d.width, Named(0)), Load(Named(1), Global(a), a.width)];
    assert insts[1..] == [insts[1]] && insts[1..][1..] == [];
    assert EraseStores([insts[1]], dead) == [insts[1]] + EraseStores([insts[1]][1..], dead);
    assert EraseStores(insts, dead) == EraseStores(insts[1..], dead) == [insts[1]];
    ExecAllTwo(IDLE, insts[0], insts[1], st);
    var x, y := ExecAll(IDLE, insts, st), ExecAll(IDLE, [insts[1]], st);
    assert y == ExecAll(IDLE, [], Exec(IDLE, insts[1], st)) by { assert [insts[1]][1..] == []; }
    assert Get(x, Named(1))[i - a.off] == 1;
    assert Get(y, Named(1))[i - a.off] == 0;
    assert !Agree(x, y, dead);
    assert Blind(IDLE, dead);
  }

  /** The erasure is sound exactly when no loaded alias shares a byte with an erased one. */
  lemma ErasureSoundIff(dead: set<Alias>, loaded: set<Alias>, size: nat)
    requires dead !! loaded
    requires forall a | a in dead || a in loaded :: a.width > 0 && a.off + a.width <= size
    ensures ErasureSound(dead, loaded, size) <==> forall d, a | d in dead && a in loaded :: Apart(a, d)
  {
    if forall d, a | d in dead && a in loaded :: Apart(a, d) {
      forall env: Env, insts: seq<Inst>, st: State |
        && Blind(env, dead) && WithinWidth(insts) && |st.regs| == size
        && (forall inst, a | inst in insts && LoadsFrom(inst, a) :: a in loaded)
        ensures Agree(ExecAll(env, insts, st), ExecAll(env, EraseStores(insts, dead), st), dead)
      {
        ErasedBody(env, insts, st, st, dead);
      }
    } else {
      var d, a :| d in dead && a in loaded && !Apart(a, d);
      OverlapIsUnsound(dead, loaded, size, d, a, if d.off < a.off then a.off else d.off);
    }
  }

  /** The pass as run: when no alias that is still loaded shares a byte with an erased one, every
      function of the module keeps every run. */
  lemma FlagPassPreserves(funcs: seq<Function>, aliases: seq<Alias>, i: nat, env: Env, st: State, n: nat)
    requires i < |funcs|
    requires var dead := DeadFlags(funcs, aliases);
      && Blind(env, dead)
      && (forall l | l in funcs[i].blocks :: WithinWidth(funcs[i].blocks[l].insts))
      && forall a, d | a !in dead && Loaded(funcs, a) && d in dead :: Apart(a, d)
    ensures AgreeAt(Run(env, funcs[i], st, n), Run(env, EraseAll(funcs, DeadFlags(funcs, aliases))[i], st, n),
                    DeadFlags(funcs, aliases))
  {
    var f, dead := funcs[i], DeadFlags(funcs, aliases);
    forall l, inst, a, d | l in f.blocks && inst in f.blocks[l].insts && LoadsFrom(inst, a) && d in dead
      ensures Apart(a, d)
    {
      assert LoadedIn(f, a);
      assert Loaded(funcs, a);
    }
    ErasedRun(env, f, dead, st, n);
  }
}
