/** The pass itself: it collects a region's register aliases, creates a slot the first time it
    meets a register, redirects the region's uses alias by alias, writes the slots back at every
    exit and wraps every call that can see the registers.  It works on the function in place;
    each step is tied to the rewrites of module `Regions`, and the whole run to `Equivalent`. */
module TlsPass {
  import opened Machine
  import opened Localize
  import opened Regions
  import opened Soundness

  // ---------- the same rewrites in the pass's own order ----------

  function RedirectSome(inst: Inst, which: set<Alias>, p: nat): Inst {
    match inst
    case Load(dst, Global(a), w) => if a in which then Load(dst, SlotOf(a, p), w) else inst
    case Store(Global(a), w, src) => if a in which then Store(SlotOf(a, p), w, src) else inst
    case _ => inst
  }

  function RedirectUses(insts: seq<Inst>, which: set<Alias>, p: nat): (r: seq<Inst>)
    ensures |r| == |insts|
  {
    seq(|insts|, i requires 0 <= i < |insts| => RedirectSome(insts[i], which, p))
  }

  /** Flushes and reloads around every call that needs them. */
  function WrapCalls(insts: seq<Inst>, table: seq<Alias>, p: nat): seq<Inst> {
    if insts == [] then []
    else
      (if insts[0].Call? && NeedsFlush(insts[0].callee)
       then Flush(table, p) + [insts[0]] + Reload(table, p) else [insts[0]])
      + WrapCalls(insts[1..], table, p)
  }

  lemma RedirectThenWrap(insts: seq<Inst>, which: set<Alias>, table: seq<Alias>, p: nat)
    requires forall inst, a | inst in insts && Accesses(inst, a) :: a in which <==> IsLocalised(a)
    ensures WrapCalls(RedirectUses(insts, which, p), table, p) == LocaliseAll(insts, table, p)
    decreases |insts|
  {
    if insts != [] {
      assert RedirectUses(insts, which, p)[1..] == RedirectUses(insts[1..], which, p);
      assert forall a | Accesses(insts[0], a) :: a in which <==> IsLocalised(a);
      assert RedirectSome(insts[0], which, p) == Redirect(insts[0], p);
      RedirectThenWrap(insts[1..], which, table, p);
    }
  }

  lemma RedirectOneMore(insts: seq<Inst>, which: set<Alias>, a: Alias, p: nat)
    ensures RedirectUses(RedirectUses(insts, which, p), {a}, p) == RedirectUses(insts, which + {a}, p)
  {
  }

  function LocalisedOf(insts: seq<Inst>): set<Alias> {
    set a | a in Accessed(insts) && IsLocalised(a)
  }

  // ---------- slot tables while they are being built ----------

  /** The register of `a` already has a slot. */
  predicate HasSlot(created: seq<Alias>, a: Alias) {
    exists e :: e in created && Key(e) == Key(a)
  }

  ghost predicate AllHaveSlots(created: seq<Alias>, regs: set<Alias>) {
    forall a | a in regs :: HasSlot(created, a)
  }

  ghost predicate DistinctKeys(created: seq<Alias>) {
    forall i, j | 0 <= i < j < |created| :: Key(created[i]) != Key(created[j])
  }

  /** The table covers exactly the registers of the aliases handled so far. */
  ghost predicate TableSoFar(created: seq<Alias>, regs: set<Alias>) {
    && (forall e | e in created :: e in regs)
    && AllHaveSlots(created, regs)
    && DistinctKeys(created)
  }

  lemma SlotStays(created: seq<Alias>, created': seq<Alias>, a: Alias)
    requires HasSlot(created, a) && forall e | e in created :: e in created'
    ensures HasSlot(created', a)
  {
    var e :| e in created && Key(e) == Key(a);
    assert e in created';
  }

  lemma SlotAppended(created: seq<Alias>, a: Alias)
    requires !HasSlot(created, a) && DistinctKeys(created)
    ensures DistinctKeys(created + [a])
  {
    forall i, j | 0 <= i < j < |created + [a]|
      ensures Key((created + [a])[i]) != Key((created + [a])[j])
    {
      assert created[i] in created;
    }
  }

  lemma SlotPrepended(created: seq<Alias>, a: Alias)
    requires !HasSlot(created, a) && DistinctKeys(created)
    ensures DistinctKeys([a] + created)
  {
    forall i, j | 0 <= i < j < |[a] + created|
      ensures Key(([a] + created)[i]) != Key(([a] + created)[j])
    {
      assert created[j - 1] in created;
    }
  }

  lemma NextAlias(created: seq<Alias>, created': seq<Alias>, regs: set<Alias>, a: Alias)
    requires TableSoFar(created, regs)
    requires if HasSlot(created, a) then created' == created
             else created' == created + [a] || created' == [a] + created
    ensures TableSoFar(created', regs + {a})
  {
    if !HasSlot(created, a) {
      SlotAppended(created, a);
      SlotPrepended(created, a);
      assert a in created';
    }
    forall b | b in regs + {a}
      ensures HasSlot(created', b)
    {
      if b in regs {
        assert HasSlot(created, b);
        SlotStays(created, created', b);
      }
    }
  }

  /** The module's aliases and the size of its register structure, fit for localisation. */
  datatype Layout = Layout(aliases: set<Alias>, size: nat)
  type CoherentLayout = y: Layout | WellFormed(y.aliases, y.size) && Coherent(y.aliases)
    ghost witness Layout({}, 0)

  // ---------- what every rewrite keeps ----------

  ghost predicate SameShape(f: Function, g: Function) {
    && f.entry == g.entry
    && f.blocks.Keys == g.blocks.Keys
    && forall l | l in f.blocks :: f.blocks[l].term == g.blocks[l].term
  }

  lemma ShapeKeepsLoops(f: Function, g: Function, lp: Loop)
    requires SameShape(f, g) && Simplified(f, lp)
    ensures Simplified(g, lp)
  {
    forall u, v | Edge(g, u, v)
      ensures Edge(f, u, v)
    {}
  }

  /** The conditions under which the next rewrite, numbered `p`, may be applied. */
  ghost predicate Fit(f: Function, aliases: set<Alias>, p: nat) {
    FunctionOver(f, aliases) && FunctionBelow(f, p)
  }

  ghost predicate Fine(insts: seq<Inst>, aliases: set<Alias>, p: nat) {
    Over(insts, aliases) && Below(insts, p)
  }

  lemma MovesFine(table: seq<Alias>, aliases: set<Alias>, p: nat)
    requires forall e | e in table :: e in aliases && IsLocalised(e)
    ensures Fine(Flush(table, p), aliases, p + 1) && Fine(Reload(table, p), aliases, p + 1)
  {
    if table != [] {
      MovesFine(table[1..], aliases, p);
    }
  }

  lemma LocalisedFine(insts: seq<Inst>, table: seq<Alias>, aliases: set<Alias>, p: nat)
    requires Fine(insts, aliases, p)
    requires forall e | e in table :: e in aliases && IsLocalised(e)
    ensures Fine(LocaliseAll(insts, table, p), aliases, p + 1)
    decreases |insts|
  {
    if insts != [] {
      MovesFine(table, aliases, p);
      LocalisedFine(insts[1..], table, aliases, p);
      assert InstOver(insts[0], aliases) && InstBelow(insts[0], p);
    }
  }

  lemma TimesFine(n: nat, insts: seq<Inst>, aliases: set<Alias>, p: nat)
    requires Fine(insts, aliases, p)
    ensures Fine(Times(n, insts), aliases, p)
  {
  }

  lemma BlockStaysFit(f: Function, l: Label, fills: seq<Alias>, table: seq<Alias>, p: nat, aliases: set<Alias>)
    requires l in f.blocks && Fit(f, aliases, p) && Orders(fills, table)
    requires forall e | e in table :: e in aliases && IsLocalised(e)
    ensures Fit(LocaliseBlock(f, l, fills, table, p), aliases, p + 1)
    ensures SameShape(f, LocaliseBlock(f, l, fills, table, p))
  {
    MovesFine(fills, aliases, p);
    MovesFine(table, aliases, p);
    LocalisedFine(f.blocks[l].insts, table, aliases, p);
  }

  lemma LoopStaysFit(f: Function, lp: Loop, fills: seq<Alias>, table: seq<Alias>, p: nat, aliases: set<Alias>)
    requires Fit(f, aliases, p) && Orders(fills, table)
    requires forall e | e in table :: e in aliases && IsLocalised(e)
    ensures Fit(LocaliseLoop(f, lp, fills, table, p), aliases, p + 1)
    ensures SameShape(f, LocaliseLoop(f, lp, fills, table, p))
  {
    var g := LocaliseLoop(f, lp, fills, table, p);
    forall l | l in g.blocks
      ensures Fine(g.blocks[l].insts, aliases, p + 1) && TermBelow(g.blocks[l].term, p + 1)
    {
      MovesFine(fills, aliases, p);
      MovesFine(table, aliases, p);
      TimesFine(Count(lp.exits, l), Flush(table, p), aliases, p + 1);
      LocalisedFine(f.blocks[l].insts, table, aliases, p);
    }
  }

  // ---------- the pass ----------

  class TlsImpl {
    var f: Function
    var next: nat   // number of the next rewrite

    constructor (f: Function, next: nat)
      ensures this.f == f && this.next == next
    {
      this.f, this.next := f, next;
    }

    /** The register aliases of some instructions and how often they are used. */
    method GetInfo(insts: seq<Inst>) returns (regs: set<Alias>, uses: nat)
      ensures regs == LocalisedOf(insts)
      ensures uses == Uses(insts)
    {
      regs, uses := {}, 0;
      var i := |insts|;
      assert insts[i..] == [];
      while i > 0
        invariant 0 <= i <= |insts|
        invariant regs == LocalisedOf(insts[i..])
        invariant uses == Uses(insts[i..])
      {
        i := i - 1;
        assert insts[i..][0] == insts[i] && insts[i..][1..] == insts[i + 1..];
        var here := set a | a in AliasesOf(insts[i]) && IsLocalised(a);
        if here != {} {
          uses := uses + 1;
          assert exists a :: a in AliasesOf(insts[i]) && IsLocalised(a) by {
            var a :| a in here;
          }
        }
        regs := regs + here;
      }
      assert insts[0..] == insts;
    }

    /** The slot table read back in hash-table order. */
    method InTableOrder(created: seq<Alias>) returns (table: seq<Alias>)
      requires DistinctKeys(created)
      ensures Orders(created, table) && DistinctKeys(table)
    {
      table := [];
      var rest := set e | e in created;
      while rest != {}
        invariant forall e | e in rest :: e in created && e !in table
        invariant forall e :: e in created <==> e in rest || e in table
        invariant DistinctKeys(table)
      {
        var e :| e in rest;
        forall d | d in table
          ensures Key(d) != Key(e)
        {
          var i :| 0 <= i < |created| && created[i] == d;
          var j :| 0 <= j < |created| && created[j] == e;
          assert d != e;
        }
        rest := rest - {e};
        table := table + [e];
      }
    }

    /** The loop pass's `replaceUsesWithIf`: uses of one alias inside the loop go to its slot. */
    method RedirectInLoop(labels: set<Label>, a: Alias, p: nat)
      requires labels <= f.blocks.Keys
      modifies this`f
      ensures f == MapBlocks(old(f), (l: Label, b: Block) => if l in labels then Redirected(b, {a}, p) else b)
    {
      var rest := labels;
      while rest != {}
        invariant rest <= labels
        invariant f == MapBlocks(old(f), (l: Label, b: Block) =>
                                   if l in labels - rest then Redirected(b, {a}, p) else b)
      {
        var l :| l in rest;
        rest := rest - {l};
        f := f.(blocks := f.blocks[l := Redirected(f.blocks[l], {a}, p)]);
      }
    }

    /** Write-backs at the front of every exit block, once for each exiting edge. */
    method RestoreAtExits(exits: seq<Label>, table: seq<Alias>, p: nat)
      requires forall x | x in exits :: x in f.blocks
      modifies this`f
      ensures f == MapBlocks(old(f), (l: Label, b: Block) => Restored(b, Count(exits, l), table, p))
    {
      hide Flush, Times;
      forall l | l in f.blocks
        ensures Restored(f.blocks[l], 0, table, p) == f.blocks[l]
      {
        NotRestored(f.blocks[l], table, p);
      }
      assert exits[..0] == [];
      for k := 0 to |exits|
        invariant f == MapBlocks(old(f), (l: Label, b: Block) => Restored(b, Count(exits[..k], l), table, p))
      {
        var x := exits[k];
        var b := f.blocks[x];
        f := f.(blocks := f.blocks[x := Block(Flush(table, p) + b.insts, b.term)]);
        assert exits[..k + 1] == exits[..k] + [x];
        OneMoreRestored(old(f), exits[..k], x, table, p);
      }
      assert exits[..|exits|] == exits;
    }

    method WrapCallsIn(labels: set<Label>, table: seq<Alias>, p: nat)
      requires labels <= f.blocks.Keys
      modifies this`f
      ensures f == MapBlocks(old(f), (l: Label, b: Block) => if l in labels then Wrapped(b, table, p) else b)
    {
      var rest := labels;
      while rest != {}
        invariant rest <= labels
        invariant f == MapBlocks(old(f), (l: Label, b: Block) => if l in labels - rest then Wrapped(b, table, p) else b)
      {
        var l :| l in rest;
        rest := rest - {l};
        f := f.(blocks := f.blocks[l := Wrapped(f.blocks[l], table, p)]);
      }
    }

    method GetLoopInfo(labels: set<Label>) returns (regs: set<Alias>)
      requires labels <= f.blocks.Keys
      ensures regs == RegsOf(f, labels)
    {
      regs := {};
      var rest := labels;
      while rest != {}
        invariant rest <= labels
        invariant regs == RegsOf(f, labels - rest)
      {
        var l :| l in rest;
        rest := rest - {l};
        var here, _ := GetInfo(f.blocks[l].insts);
        regs := regs + here;
      }
    }

    /** Create the slots of one loop at the end of its preheader and redirect its uses. */
    method SlotsForLoop(lp: Loop, regs: set<Alias>, p: nat) returns (created: seq<Alias>)
      requires Placed(f, lp)
      modifies this`f
      ensures TableSoFar(created, regs)
      ensures f == StagedLoop(old(f), lp, created, regs, p)
    {
      created := [];
      var rest := regs;
      StagedNone(f, lp, p);
      assert regs - rest == {};
      while rest != {}
        invariant rest <= regs
        invariant TableSoFar(created, regs - rest)
        invariant f == StagedLoop(old(f), lp, created, regs - rest, p)
      {
        var a :| a in rest;
        ghost var done := regs - rest;
        rest := rest - {a};
        assert regs - rest == done + {a};
        ghost var before := created;
        if !HasSlot(created, a) {
          var pre := f.blocks[lp.preheader];
          f := f.(blocks := f.blocks[lp.preheader := Block(pre.insts + ReloadOne(a, p), pre.term)]);
          OneMoreSlot(old(f), lp, created, done, a, p);
          created := created + [a];
        }
        NextAlias(before, created, done, a);
        RedirectInLoop(lp.blocks, a, p);
        RedirectedOneMore(old(f), lp, created, done, a, p);
      }
      assert regs - rest == regs;
    }

    /** Localise the registers of one loop. */
    method RunOnLoop(lp: Loop) returns (changed: bool)
      requires Placed(f, lp)
      modifies this
      ensures LoopLink(Stage(old(f), old(next)), lp, Stage(f, next))
      ensures f.blocks.Keys == old(f.blocks.Keys)
      ensures changed <==> RegsOf(old(f), lp.blocks) != {}
      ensures next == old(next) + if changed then 1 else 0
      ensures !changed ==> f == old(f)
    {
      hide LoopLink, LoopRewrite, RegsOf, TableSoFar, DistinctKeys, Orders, Restored, Wrapped, StagedBlock;
      var regs := GetLoopInfo(lp.blocks);
      if regs == {} {
        LoopUntouched(f, lp, next);
        return false;
      }
      var p := next;
      next := next + 1;
      var created := SlotsForLoop(lp, regs, p);
      var table := InTableOrder(created);
      RestoreAtExits(lp.exits, table, p);
      WrapCallsIn(lp.blocks, table, p);
      LoopLinked(old(f), lp, created, table, regs, p);
      return true;
    }

    /** Create the slots of one block and redirect its uses. */
    method SlotsForBlock(insts: seq<Inst>, regs: set<Alias>, p: nat)
      returns (prologue: seq<Inst>, fills: seq<Alias>, body: seq<Inst>)
      ensures TableSoFar(fills, regs)
      ensures prologue == Reload(fills, p)
      ensures body == RedirectUses(insts, regs, p)
    {
      assert RedirectUses(insts, {}, p) == insts;
      // Each new slot is filled in front of the ones before it.  The uses redirected are those
      // behind the slot, other than the fill itself; the fills of other registers address
      // other aliases.
      prologue, fills, body := [], [], insts;
      var rest := regs;
      while rest != {}
        invariant rest <= regs
        invariant TableSoFar(fills, regs - rest)
        invariant prologue == Reload(fills, p)
        invariant body == RedirectUses(insts, regs - rest, p)
      {
        var a :| a in rest;
        ghost var done := regs - rest;
        rest := rest - {a};
        assert regs - rest == done + {a};
        ghost var before := fills;
        if !HasSlot(fills, a) {
          prologue := ReloadOne(a, p) + prologue;
          fills := [a] + fills;
        }
        NextAlias(before, fills, done, a);
        body := RedirectUses(body, {a}, p);
        RedirectOneMore(insts, done, a, p);
      }
      assert regs - rest == regs;
    }

    /** Localise the registers of one block outside all loops. */
    method RunOnBlock(l: Label) returns (changed: bool)
      requires l in f.blocks
      modifies this
      ensures BlockLink(Stage(old(f), old(next)), l, Stage(f, next))
      ensures f.blocks.Keys == old(f.blocks.Keys)
      ensures changed <==> ShouldHandle(old(f).blocks[l].insts)
      ensures next == old(next) + if changed then 1 else 0
      ensures !changed ==> f == old(f)
    {
      hide BlockLink, BlockRewrite, WrapCalls, RedirectUses, Reload, Flush, Uses, LocalisedOf, TableSoFar, Orders,
           DistinctKeys;
      var insts := f.blocks[l].insts;
      var regs, uses := GetInfo(insts);
      var names := set a | a in regs :: Key(a);
      if !WorthIt(|names|, uses) {
        BlockUntouched(f, l, next);
        return false;
      }
      var p := next;
      next := next + 1;
      var prologue, fills, body := SlotsForBlock(insts, regs, p);
      var table := InTableOrder(fills);
      var epilogue := Flush(table, p);
      body := WrapCalls(body, table, p);
      f := f.(blocks := f.blocks[l := Block(prologue + body + epilogue, f.blocks[l].term)]);
      StageBlock(old(f), l, regs, fills, table, p);
      return true;
    }

    method LocaliseLoops(loops: seq<Loop>) returns (changed: bool, ghost chain: seq<Stage>)
      requires forall lp | lp in loops :: Placed(f, lp)
      modifies this
      ensures LoopChain(chain, loops)
      ensures chain[0] == Stage(old(f), old(next)) && chain[|loops|] == Stage(f, next)
      ensures f.blocks.Keys == old(f.blocks.Keys)
      ensures next >= old(next) && (changed <==> next > old(next))
      ensures !changed ==> f == old(f)
    {
      hide LoopLink, LoopRewrite, Simplified;
      changed, chain := false, [Stage(f, next)];
      for k := 0 to |loops|
        invariant LoopChain(chain, loops[..k])
        invariant chain[0] == Stage(old(f), old(next)) && chain[k] == Stage(f, next)
        invariant f.blocks.Keys == old(f.blocks.Keys)
        invariant next >= old(next) && (changed <==> next > old(next))
        invariant !changed ==> f == old(f)
      {
        assert loops[k] in loops && Placed(old(f), loops[k]);
        var c := RunOnLoop(loops[k]);
        changed := changed || c;
        chain := chain + [Stage(f, next)];
        assert loops[..k + 1] == loops[..k] + [loops[k]];
      }
      assert loops[..|loops|] == loops;
    }

    method LocaliseBlocks(outside: seq<Label>) returns (changed: bool, ghost chain: seq<Stage>)
      requires forall l | l in outside :: l in f.blocks
      modifies this
      ensures BlockChain(chain, outside)
      ensures chain[0] == Stage(old(f), old(next)) && chain[|outside|] == Stage(f, next)
      ensures next >= old(next) && (changed <==> next > old(next))
      ensures !changed ==> f == old(f)
    {
      hide BlockLink, BlockRewrite;
      changed, chain := false, [Stage(f, next)];
      for k := 0 to |outside|
        invariant BlockChain(chain, outside[..k])
        invariant chain[0] == Stage(old(f), old(next)) && chain[k] == Stage(f, next)
        invariant f.blocks.Keys == old(f.blocks.Keys)
        invariant next >= old(next) && (changed <==> next > old(next))
        invariant !changed ==> f == old(f)
      {
        assert outside[k] in outside;
        var c := RunOnBlock(outside[k]);
        changed := changed || c;
        chain := chain + [Stage(f, next)];
        assert outside[..k + 1] == outside[..k] + [outside[k]];
      }
      assert outside[..|outside|] == outside;
    }

    /** All top-level loops, then every block outside them: no run of the function changes. */
    method Run(loops: seq<Loop>, outside: seq<Label>, ghost y: CoherentLayout) returns (changed: bool)
      requires forall lp | lp in loops :: Simplified(f, lp)
      requires forall l | l in outside :: l in f.blocks
      requires Fit(f, y.aliases, next)
      modifies this
      ensures Preserved(old(f), f, y, next)
      ensures next >= old(next) && (changed <==> next > old(next))
      ensures !changed ==> f == old(f)
    {
      ghost var loopChain, blockChain;
      var inLoops, inBlocks;
      inLoops, loopChain := LocaliseLoops(loops);
      inBlocks, blockChain := LocaliseBlocks(outside);
      changed := inLoops || inBlocks;
      LoopsPreserve(loopChain, loops, |loops|, y);
      BlocksPreserve(old(f), blockChain, outside, |outside|, y);
    }
  }

  // ---------- what the pass did, as a chain of rewrites ----------

  /** The register aliases addressed in some blocks. */
  function RegsOf(f: Function, labels: set<Label>): set<Alias>
    requires labels <= f.blocks.Keys
  {
    set l, a | l in labels && a in LocalisedOf(f.blocks[l].insts) :: a
  }

  /** One loop: untouched if it addresses no register, localised with some table otherwise. */
  ghost predicate LoopRewrite(f: Function, g: Function, lp: Loop, p: nat, q: nat)
    requires Placed(f, lp)
  {
    if RegsOf(f, lp.blocks) == {} then g == f && q == p
    else
      q == p + 1 && exists fills, table ::
        IsLoopTable(f, lp, fills, table) && g == LocaliseLoop(f, lp, fills, table, p)
  }

  /** One block: localised exactly when its registers are used enough. */
  ghost predicate BlockRewrite(f: Function, g: Function, l: Label, p: nat, q: nat)
    requires l in f.blocks
  {
    if !ShouldHandle(f.blocks[l].insts) then g == f && q == p
    else
      q == p + 1 && exists fills, table ::
        IsBlockTable(f.blocks[l].insts, fills, table) && g == LocaliseBlock(f, l, fills, table, p)
  }

  /** The function between two rewrites, and the number of the next one. */
  datatype Stage = Stage(f: Function, next: nat)

  ghost predicate LoopLink(a: Stage, lp: Loop, b: Stage) {
    Placed(a.f, lp) && LoopRewrite(a.f, b.f, lp, a.next, b.next)
  }

  ghost predicate BlockLink(a: Stage, l: Label, b: Stage) {
    l in a.f.blocks && BlockRewrite(a.f, b.f, l, a.next, b.next)
  }

  ghost predicate LoopChain(chain: seq<Stage>, loops: seq<Loop>) {
    |chain| == |loops| + 1 && forall k | 0 <= k < |loops| :: LoopLink(chain[k], loops[k], chain[k + 1])
  }

  ghost predicate BlockChain(chain: seq<Stage>, ls: seq<Label>) {
    |chain| == |ls| + 1 && forall k | 0 <= k < |ls| :: BlockLink(chain[k], ls[k], chain[k + 1])
  }

  /** What every prefix of the pass has kept. */
  ghost predicate Preserved(f: Function, g: Function, y: CoherentLayout, next: nat) {
    Fit(g, y.aliases, next) && SameShape(f, g) && Equivalent(f, g, y.size)
  }

  /** The registers some instructions address. */
  function Names(insts: seq<Inst>): set<string> {
    set a | a in LocalisedOf(insts) :: Key(a)
  }

  /** A block is rewritten when its registers are used more than twice each on average. */
  predicate ShouldHandle(insts: seq<Inst>) {
    WorthIt(|Names(insts)|, Uses(insts))
  }

  ghost predicate IsBlockTable(insts: seq<Inst>, fills: seq<Alias>, table: seq<Alias>) {
    TableFor(table, Accessed(insts)) && Orders(fills, table)
  }

  lemma EquivalentToItself(f: Function, size: nat)
    ensures Equivalent(f, f, size)
  {
  }

  lemma BlockTableReady(f: Function, l: Label, fills: seq<Alias>, table: seq<Alias>, aliases: set<Alias>, size: nat)
    requires l in f.blocks && FunctionOver(f, aliases)
    requires WellFormed(aliases, size) && Coherent(aliases)
    requires IsBlockTable(f.blocks[l].insts, fills, table)
    ensures Ready(table, aliases, size) && Served(f.blocks[l].insts, table)
  {
    OverBoundsAccessed(f.blocks[l].insts, aliases);
    TableServes(f.blocks[l].insts, table);
  }

  // ---------- the pieces of the in-place rewriting, block by block ----------

  function MapBlocks(f: Function, rewrite: (Label, Block) -> Block): Function {
    f.(blocks := map l | l in f.blocks :: rewrite(l, f.blocks[l]))
  }

  function Redirected(b: Block, which: set<Alias>, p: nat): Block {
    Block(RedirectUses(b.insts, which, p), b.term)
  }

  function Restored(b: Block, n: nat, table: seq<Alias>, p: nat): Block {
    Block(Times(n, Flush(table, p)) + b.insts, b.term)
  }

  function Wrapped(b: Block, table: seq<Alias>, p: nat): Block {
    Block(WrapCalls(b.insts, table, p), b.term)
  }

  lemma CountSnoc(xs: seq<Label>, x: Label, l: Label)
    ensures Count(xs + [x], l) == Count(xs, l) + (if x == l then 1 else 0)
  {
    if xs == [] {
      assert xs + [x] == [x];
      assert [x][1..] == [];
    } else {
      assert (xs + [x])[1..] == xs[1..] + [x];
      CountSnoc(xs[1..], x, l);
    }
  }

  lemma NotRestored(b: Block, table: seq<Alias>, p: nat)
    ensures Restored(b, 0, table, p) == b
  {
    assert [] + b.insts == b.insts;
  }

  /** The exits so far restored, and one more of their edges. */
  lemma OneMoreRestored(f: Function, done: seq<Label>, x: Label, table: seq<Alias>, p: nat)
    requires x in f.blocks
    ensures
      var g := MapBlocks(f, (l: Label, b: Block) => Restored(b, Count(done, l), table, p));
      g.(blocks := g.blocks[x := Block(Flush(table, p) + g.blocks[x].insts, g.blocks[x].term)])
      == MapBlocks(f, (l: Label, b: Block) => Restored(b, Count(done + [x], l), table, p))
  {
    hide Flush, Times, Restored, Count;
    var g := MapBlocks(f, (l: Label, b: Block) => Restored(b, Count(done, l), table, p));
    var g' := g.(blocks := g.blocks[x := Block(Flush(table, p) + g.blocks[x].insts, g.blocks[x].term)]);
    RestoredTerm(f.blocks[x], Count(done, x), table, p);
    forall l | l in f.blocks
      ensures g'.blocks[l] == Restored(f.blocks[l], Count(done + [x], l), table, p)
    {
      CountSnoc(done, x, l);
      if l == x { RestoredOnceMore(f.blocks[x], Count(done, x), table, p); }
    }
  }

  lemma RestoredTerm(b: Block, n: nat, table: seq<Alias>, p: nat)
    ensures Restored(b, n, table, p).term == b.term
  {
  }

  lemma RestoredOnceMore(b: Block, n: nat, table: seq<Alias>, p: nat)
    ensures Block(Flush(table, p) + Restored(b, n, table, p).insts, b.term) == Restored(b, n + 1, table, p)
  {
    assert Times(n + 1, Flush(table, p)) == Flush(table, p) + Times(n, Flush(table, p));
  }

  /** The function after some slots have been created and some aliases redirected. */
  function StagedLoop(f: Function, lp: Loop, created: seq<Alias>, done: set<Alias>, p: nat): Function {
    MapBlocks(f, (l: Label, b: Block) => StagedBlock(b, l, lp, created, done, p))
  }

  function StagedBlock(b: Block, l: Label, lp: Loop, created: seq<Alias>, done: set<Alias>, p: nat): Block {
    Block((if l in lp.blocks then RedirectUses(b.insts, done, p) else b.insts)
          + (if l == lp.preheader then Reload(created, p) else []), b.term)
  }

  lemma StagedNone(f: Function, lp: Loop, p: nat)
    ensures StagedLoop(f, lp, [], {}, p) == f
  {
    forall l | l in f.blocks
      ensures StagedBlock(f.blocks[l], l, lp, [], {}, p) == f.blocks[l]
    {
      assert RedirectUses(f.blocks[l].insts, {}, p) == f.blocks[l].insts;
    }
  }

  lemma ReloadSnoc(es: seq<Alias>, e: Alias, p: nat)
    ensures Reload(es + [e], p) == Reload(es, p) + ReloadOne(e, p)
  {
    if es == [] {
      assert es + [e] == [e];
      assert [e][1..] == [];
    } else {
      assert (es + [e])[1..] == es[1..] + [e];
      ReloadSnoc(es[1..], e, p);
    }
  }

  lemma OneMoreSlot(f: Function, lp: Loop, created: seq<Alias>, done: set<Alias>, a: Alias, p: nat)
    requires Placed(f, lp)
    ensures
      var g := StagedLoop(f, lp, created, done, p);
      var pre := g.blocks[lp.preheader];
      g.(blocks := g.blocks[lp.preheader := Block(pre.insts + ReloadOne(a, p), pre.term)])
      == StagedLoop(f, lp, created + [a], done, p)
  {
    ReloadSnoc(created, a, p);
    var insts := f.blocks[lp.preheader].insts;
    assert insts + Reload(created, p) + ReloadOne(a, p) == insts + (Reload(created, p) + ReloadOne(a, p));
  }

  lemma RedirectedOneMore(f: Function, lp: Loop, created: seq<Alias>, done: set<Alias>, a: Alias, p: nat)
    requires lp.preheader !in lp.blocks
    ensures MapBlocks(StagedLoop(f, lp, created, done, p),
                      (l: Label, b: Block) => if l in lp.blocks then Redirected(b, {a}, p) else b)
            == StagedLoop(f, lp, created, done + {a}, p)
  {
    forall l | l in f.blocks && l in lp.blocks
      ensures Redirected(StagedBlock(f.blocks[l], l, lp, created, done, p), {a}, p)
              == StagedBlock(f.blocks[l], l, lp, created, done + {a}, p)
    {
      RedirectOneMore(f.blocks[l].insts, done, a, p);
    }
  }

  lemma LoopLinked(f: Function, lp: Loop, created: seq<Alias>, table: seq<Alias>, regs: set<Alias>, p: nat)
    requires Placed(f, lp) && regs == RegsOf(f, lp.blocks) && regs != {}
    requires TableSoFar(created, regs) && Orders(created, table) && DistinctKeys(table)
    ensures
      var g := MapBlocks(
        MapBlocks(StagedLoop(f, lp, created, regs, p),
                  (l: Label, b: Block) => Restored(b, Count(lp.exits, l), table, p)),
        (l: Label, b: Block) => if l in lp.blocks then Wrapped(b, table, p) else b);
      LoopLink(Stage(f, p), lp, Stage(g, p + 1))
  {
    StagesMakeLoop(f, lp, created, table, regs, p);
    LoopTableBuilt(f, lp, created, table, regs);
    var g := LocaliseLoop(f, lp, created, table, p);
    assert IsLoopTable(f, lp, created, table) && g == LocaliseLoop(f, lp, created, table, p);
  }

  lemma StagesMakeLoop(f: Function, lp: Loop, created: seq<Alias>, table: seq<Alias>, regs: set<Alias>, p: nat)
    requires Placed(f, lp)
    requires regs == RegsOf(f, lp.blocks)
    ensures MapBlocks(
              MapBlocks(StagedLoop(f, lp, created, regs, p),
                        (l: Label, b: Block) => Restored(b, Count(lp.exits, l), table, p)),
              (l: Label, b: Block) => if l in lp.blocks then Wrapped(b, table, p) else b)
            == LocaliseLoop(f, lp, created, table, p)
  {
    forall l | l in f.blocks
      ensures
        var b := Restored(StagedBlock(f.blocks[l], l, lp, created, regs, p), Count(lp.exits, l), table, p);
        (if l in lp.blocks then Wrapped(b, table, p) else b)
        == LocaliseInLoop(f.blocks[l], l, lp, created, table, p)
    {
      if l in lp.blocks {
        AccessedMeans(f.blocks[l].insts);
        forall inst, a | inst in f.blocks[l].insts && Accesses(inst, a)
          ensures a in regs <==> IsLocalised(a)
        {
          if IsLocalised(a) { assert a in LocalisedOf(f.blocks[l].insts); }
        }
        StageInside(f.blocks[l], l, lp, created, table, regs, p);
      } else {
        StageOutside(f.blocks[l], l, lp, created, table, regs, p);
      }
    }
  }

  lemma LoopTableBuilt(f: Function, lp: Loop, created: seq<Alias>, table: seq<Alias>, regs: set<Alias>)
    requires lp.blocks <= f.blocks.Keys
    requires regs == RegsOf(f, lp.blocks)
    requires TableSoFar(created, regs) && Orders(created, table) && DistinctKeys(table)
    ensures IsLoopTable(f, lp, created, table)
  {
    forall l, a | l in lp.blocks && a in Accessed(f.blocks[l].insts) && IsLocalised(a)
      ensures exists e :: e in table && Key(e) == Key(a)
    {
      assert a in LocalisedOf(f.blocks[l].insts);
      assert HasSlot(created, a);
      var e :| e in created && Key(e) == Key(a);
      assert e in table;
    }
    forall e | e in table
      ensures exists l :: l in lp.blocks && e in Accessed(f.blocks[l].insts)
      ensures IsLocalised(e)
    {
      assert e in regs;
      var l :| l in lp.blocks && e in LocalisedOf(f.blocks[l].insts);
    }
  }

  lemma LoopUntouched(f: Function, lp: Loop, p: nat)
    requires Placed(f, lp) && RegsOf(f, lp.blocks) == {}
    ensures LoopLink(Stage(f, p), lp, Stage(f, p))
  {
  }

  lemma BlockUntouched(f: Function, l: Label, p: nat)
    requires l in f.blocks && !ShouldHandle(f.blocks[l].insts)
    ensures BlockLink(Stage(f, p), l, Stage(f, p))
  {
  }

  /** One more block keeps what the pass has kept so far. */
  lemma BlockDone(origin: Function, f: Function, l: Label, g: Function, p: nat, q: nat, y: CoherentLayout)
    requires Preserved(origin, f, y, p) && l in f.blocks && BlockRewrite(f, g, l, p, q)
    ensures Preserved(origin, g, y, q)
  {
    hide Equivalent, Over, Below, Accessed, Served, LocaliseBody, Ready, WorthIt;
    if ShouldHandle(f.blocks[l].insts) {
      var fills, table :| IsBlockTable(f.blocks[l].insts, fills, table)
                       && g == LocaliseBlock(f, l, fills, table, p);
      BlockTableReady(f, l, fills, table, y.aliases, y.size);
      BlockStaysFit(f, l, fills, table, p, y.aliases);
      BlockPassEquivalent(f, l, fills, table, p, y.aliases, y.size);
      EquivalentTransitive(origin, f, g, y.size);
    }
  }

  /** One more loop keeps what the pass has kept so far. */
  lemma LoopDone(origin: Function, f: Function, lp: Loop, g: Function, p: nat, q: nat, y: CoherentLayout)
    requires Preserved(origin, f, y, p) && Simplified(origin, lp)
    requires Placed(f, lp) && LoopRewrite(f, g, lp, p, q)
    ensures Preserved(origin, g, y, q)
  {
    hide Equivalent, Over, Below, Accessed, Served, LocaliseInLoop, Ready;
    if RegsOf(f, lp.blocks) != {} {
      var fills, table :| IsLoopTable(f, lp, fills, table) && g == LocaliseLoop(f, lp, fills, table, p);
      ShapeKeepsLoops(origin, f, lp);
      LoopTableReady(f, lp, fills, table, y.aliases, y.size);
      LoopStaysFit(f, lp, fills, table, p, y.aliases);
      LoopPassEquivalent(f, lp, fills, table, p, y.aliases, y.size);
      EquivalentTransitive(origin, f, g, y.size);
    }
  }

  lemma {:induction false} LoopsPreserve(chain: seq<Stage>, loops: seq<Loop>, k: nat, y: CoherentLayout)
    requires LoopChain(chain, loops) && k <= |loops|
    requires Fit(chain[0].f, y.aliases, chain[0].next)
    requires forall lp | lp in loops :: Simplified(chain[0].f, lp)
    ensures Preserved(chain[0].f, chain[k].f, y, chain[k].next)
  {
    hide Preserved, LoopRewrite, Simplified;
    if k != 0 {
      LoopsPreserve(chain, loops, k - 1, y);
      assert LoopLink(chain[k - 1], loops[k - 1], chain[k]);
      LoopDone(chain[0].f, chain[k - 1].f, loops[k - 1], chain[k].f, chain[k - 1].next, chain[k].next, y);
    } else {
      NothingDone(chain[0].f, y, chain[0].next);
    }
  }

  lemma NothingDone(f: Function, y: CoherentLayout, p: nat)
    requires Fit(f, y.aliases, p)
    ensures Preserved(f, f, y, p)
  {
    hide Over, Below;
    EquivalentToItself(f, y.size);
  }

  lemma {:induction false} BlocksPreserve(
      origin: Function, chain: seq<Stage>, ls: seq<Label>, k: nat, y: CoherentLayout)
    requires BlockChain(chain, ls) && k <= |ls|
    requires Preserved(origin, chain[0].f, y, chain[0].next)
    ensures Preserved(origin, chain[k].f, y, chain[k].next)
  {
    hide Preserved, BlockRewrite;
    if k != 0 {
      BlocksPreserve(origin, chain, ls, k - 1, y);
      assert BlockLink(chain[k - 1], ls[k - 1], chain[k]);
      BlockDone(origin, chain[k - 1].f, ls[k - 1], chain[k].f, chain[k - 1].next, chain[k].next, y);
    }
  }

  lemma StageBlock(f: Function, l: Label, regs: set<Alias>, fills: seq<Alias>, table: seq<Alias>, p: nat)
    requires l in f.blocks && ShouldHandle(f.blocks[l].insts)
    requires regs == LocalisedOf(f.blocks[l].insts)
    requires TableSoFar(fills, regs) && Orders(fills, table) && DistinctKeys(table)
    ensures
      var insts := f.blocks[l].insts;
      var body := WrapCalls(RedirectUses(insts, regs, p), table, p);
      var g := f.(blocks := f.blocks[l := Block(Reload(fills, p) + body + Flush(table, p), f.blocks[l].term)]);
      BlockLink(Stage(f, p), l, Stage(g, p + 1))
  {
    var insts := f.blocks[l].insts;
    AccessedMeans(insts);
    RedirectThenWrap(insts, regs, table, p);
    BlockTableBuilt(insts, regs, fills, table);
    assert Reload(fills, p) + WrapCalls(RedirectUses(insts, regs, p), table, p) + Flush(table, p)
           == LocaliseBody(insts, fills, table, p);
    assert IsBlockTable(insts, fills, table);
  }

  lemma BlockTableBuilt(insts: seq<Inst>, regs: set<Alias>, fills: seq<Alias>, table: seq<Alias>)
    requires regs == LocalisedOf(insts)
    requires TableSoFar(fills, regs) && Orders(fills, table) && DistinctKeys(table)
    ensures IsBlockTable(insts, fills, table)
  {
    forall a | a in Accessed(insts) && IsLocalised(a)
      ensures exists e :: e in table && Key(e) == Key(a)
    {
      assert HasSlot(fills, a);
      var e :| e in fills && Key(e) == Key(a);
      assert e in table;
    }
  }

  lemma StageInside(b: Block, l: Label, lp: Loop, created: seq<Alias>, table: seq<Alias>, regs: set<Alias>, p: nat)
    requires l in lp.blocks && l !in lp.exits && l != lp.preheader
    requires forall inst, a | inst in b.insts && Accesses(inst, a) :: a in regs <==> IsLocalised(a)
    ensures Wrapped(Restored(StagedBlock(b, l, lp, created, regs, p), Count(lp.exits, l), table, p), table, p)
            == LocaliseInLoop(b, l, lp, created, table, p)
  {
    CountPositive(lp.exits, l);
    RedirectThenWrap(b.insts, regs, table, p);
    var redirected := RedirectUses(b.insts, regs, p);
    assert [] + (redirected + []) == redirected;
    assert [] + LocaliseAll(b.insts, table, p) + [] == LocaliseAll(b.insts, table, p);
  }

  lemma StageOutside(b: Block, l: Label, lp: Loop, created: seq<Alias>, table: seq<Alias>, regs: set<Alias>, p: nat)
    requires l !in lp.blocks
    ensures Restored(StagedBlock(b, l, lp, created, regs, p), Count(lp.exits, l), table, p)
            == LocaliseInLoop(b, l, lp, created, table, p)
  {
    var restores := Times(Count(lp.exits, l), Flush(table, p));
    var tail := if l == lp.preheader then Reload(created, p) else [];
    assert restores + (b.insts + tail) == restores + b.insts + tail;
  }
}
